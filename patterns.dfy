/** The four regular expressions the height parsers search for, each written
    out as a scanner, and the leftmost search `re.search` performs.

    On these patterns Python's backtracking has only one way to succeed at a
    position: `\d+` and `\s*` must take their longest run, because a shorter
    run leaves a digit (or a space) where the next element of the pattern
    cannot accept it. The scanners therefore take the longest runs. */
module Patterns {
  import opened Wrappers
  import opened Text

  datatype Pattern =
    | ParenCm         // \((\d+)\s*cm\)
    | InchMark        // (\d+)"
    | Cm              // (\d+)\s*cm
    | SpacedInchMark  // (\d+)\s*"

  /** A run of digits from `i`, then (if `spaces`) a run of whitespace, then `tail`;
      the value of the digits when all of it is there. */
  function NumberThen(s: string, i: nat, spaces: bool, tail: string): (r: Option<nat>)
    requires i <= |s|
  {
    var j := DigitRunEnd(s, i);
    var k := if spaces then SpaceRunEnd(s, j) else j;
    if j > i && StartsAt(s, k, tail) then Some(NumberValue(s[i..j])) else None
  }

  /** The captured number when `p` matches at position `i` of `s`. */
  function MatchAt(p: Pattern, s: string, i: nat): Option<nat> {
    if i >= |s| then None
    else
      match p
      case ParenCm => if s[i] == '(' then NumberThen(s, i + 1, true, "cm)") else None
      case InchMark => NumberThen(s, i, false, "\"")
      case Cm => NumberThen(s, i, true, "cm")
      case SpacedInchMark => NumberThen(s, i, true, "\"")
  }

  /** The leftmost position at or after `from` where `p` matches, or `|s|` when there is none. */
  function FirstMatch(p: Pattern, s: string, from: nat): (i: nat)
    requires from <= |s|
    ensures from <= i <= |s|
    ensures i < |s| ==> MatchAt(p, s, i).Some?
    ensures forall k :: from <= k < i ==> MatchAt(p, s, k).None?
    decreases |s| - from
  {
    if from == |s| || MatchAt(p, s, from).Some? then from else FirstMatch(p, s, from + 1)
  }

  /** `re.search(p, s)`: the group of the leftmost match. */
  function Search(p: Pattern, s: string): Option<nat> {
    MatchAt(p, s, FirstMatch(p, s, 0))
  }

  /** A digit string followed by `tail` (not starting with a digit or, when
      `spaces`, whitespace) is read whole. */
  lemma NumberThenAtStart(d: string, spaces: bool, tail: string, rest: string)
    requires d != [] && AllDigits(d)
    requires tail != [] && !IsDigit(tail[0]) && (spaces ==> !IsSpace(tail[0]))
    ensures NumberThen(d + tail + rest, 0, spaces, tail) == Some(NumberValue(d))
  {
    var s := d + tail + rest;
    assert s[|d|] == tail[0];
    var j := DigitRunEnd(s, 0);
    assert j == |d|;
    assert s[0..j] == d;
    if spaces {
      assert SpaceRunEnd(s, j) == j;
    }
    assert s[|d|..|d| + |tail|] == tail;
  }

  /** A digit run from `i` to `j`, whitespace from `j` to `k` and `tail` at `k`
      is what `NumberThen` reads. */
  lemma NumberThenFinds(s: string, i: nat, j: nat, k: nat, spaces: bool, tail: string)
    requires i < j <= k <= |s|
    requires forall m :: i <= m < j ==> IsDigit(s[m])
    requires forall m :: j <= m < k ==> IsSpace(s[m])
    requires spaces || k == j
    requires tail != [] && !IsDigit(tail[0]) && !IsSpace(tail[0]) && StartsAt(s, k, tail)
    ensures AllDigits(s[i..j])
    ensures NumberThen(s, i, spaces, tail) == Some(NumberValue(s[i..j]))
  {
    assert s[k] == tail[0];
  }

  /** `FirstMatch` passes over positions where `p` does not match. */
  lemma {:induction false} FirstMatchSkips(p: Pattern, s: string, from: nat, t: nat)
    requires from <= t <= |s|
    requires forall k :: from <= k < t ==> MatchAt(p, s, k).None?
    ensures FirstMatch(p, s, from) == FirstMatch(p, s, t)
    decreases t - from
  {
    if from < t {
      FirstMatchSkips(p, s, from + 1, t);
    }
  }

  /** No centimetre figure starts before a character that is neither a digit
      nor whitespace when no 'c' comes before it. */
  lemma NoCmBefore(s: string, t: nat)
    requires 0 < t <= |s| && !IsDigit(s[t - 1]) && !IsSpace(s[t - 1])
    requires forall k :: 0 <= k < t ==> s[k] != 'c'
    ensures forall k :: 0 <= k < t ==> MatchAt(Cm, s, k).None?
  {
    forall k | 0 <= k < t ensures MatchAt(Cm, s, k).None? {
      var j := DigitRunEnd(s, k);
      if j > k {
        assert j < t;
        var m := SpaceRunEnd(s, j);
        assert m < t;
        if m + 2 <= |s| {
          assert s[m..m + 2][0] == s[m];
        }
      }
    }
  }

  /** No parenthesised figure starts where there is no '('. */
  lemma NoParenBefore(s: string, t: nat)
    requires t <= |s|
    requires forall k :: 0 <= k < t ==> s[k] != '('
    ensures forall k :: 0 <= k < t ==> MatchAt(ParenCm, s, k).None?
  {
  }

  /** No centimetre figure starts inside a prefix without a 'c' that ends in
      neither a digit nor whitespace. */
  lemma CmPrefixSkipped(pre: string, x: string)
    requires pre != [] && !IsDigit(pre[|pre| - 1]) && !IsSpace(pre[|pre| - 1]) && 'c' !in pre
    ensures FirstMatch(Cm, pre + x, 0) == FirstMatch(Cm, pre + x, |pre|)
  {
    var s := pre + x;
    assert forall m :: 0 <= m < |pre| ==> s[m] == pre[m];
    NoCmBefore(s, |pre|);
    FirstMatchSkips(Cm, s, 0, |pre|);
  }

  /** No parenthesised figure starts inside a prefix without a '('. */
  lemma ParenPrefixSkipped(pre: string, x: string)
    requires '(' !in pre
    ensures FirstMatch(ParenCm, pre + x, 0) == FirstMatch(ParenCm, pre + x, |pre|)
  {
    var s := pre + x;
    assert forall m :: 0 <= m < |pre| ==> s[m] == pre[m];
    NoParenBefore(s, |pre|);
    FirstMatchSkips(ParenCm, s, 0, |pre|);
  }

  /** Where the pieces of `d + gap + tail + rest` sit. */
  lemma FigurePieces(d: string, gap: string, tail: string, rest: string)
    ensures var x := d + gap + tail + rest;
            (forall m :: 0 <= m < |d| ==> x[m] == d[m]) &&
            (forall m :: |d| <= m < |d| + |gap| ==> x[m] == gap[m - |d|]) &&
            x[|d| + |gap|..|d| + |gap| + |tail|] == tail &&
            x[..|d|] == d
  {
    var x := d + gap + tail + rest;
    assert x == (d + gap) + (tail + rest);
    assert forall m :: 0 <= m < |d| + |gap| ==> x[m] == (d + gap)[m];
  }

  /** A text read from an offset: what sits at each position of the rest. */
  lemma ShiftedIndex(pre: string, x: string)
    ensures forall m :: |pre| <= m < |pre + x| ==> (pre + x)[m] == x[m - |pre|]
    ensures forall a, b :: |pre| <= a <= b <= |pre + x| ==> (pre + x)[a..b] == x[a - |pre|..b - |pre|]
  {
  }

  /** Digits, whitespace and then `tail` right after a prefix are read as the digits' value. */
  lemma NumberThenAfter(pre: string, d: string, gap: string, tail: string, rest: string)
    requires d != [] && AllDigits(d)
    requires forall k :: 0 <= k < |gap| ==> IsSpace(gap[k])
    requires tail != [] && !IsDigit(tail[0]) && !IsSpace(tail[0])
    ensures NumberThen(pre + (d + gap + tail + rest), |pre|, true, tail) == Some(NumberValue(d))
  {
    var x := d + gap + tail + rest;
    var s := pre + x;
    var i, j, k := |pre|, |pre| + |d|, |pre| + |d| + |gap|;
    FigurePieces(d, gap, tail, rest);
    ShiftedIndex(pre, x);
    forall m | i <= m < j ensures IsDigit(s[m]) {
      assert s[m] == x[m - i] == d[m - i];
    }
    forall m | j <= m < k ensures IsSpace(s[m]) {
      assert s[m] == x[m - i] == gap[m - j];
    }
    assert s[k..k + |tail|] == x[k - i..k - i + |tail|];
    assert s[i..j] == x[..j - i];
    NumberThenFinds(s, i, j, k, true, tail);
  }

  /** A centimetre figure is read after a prefix in which none can start: one
      without a 'c' that ends in neither a digit nor whitespace. */
  lemma CmFigureAfter(pre: string, d: string, gap: string, rest: string)
    requires pre != [] && !IsDigit(pre[|pre| - 1]) && !IsSpace(pre[|pre| - 1]) && 'c' !in pre
    requires d != [] && AllDigits(d)
    requires forall k :: 0 <= k < |gap| ==> IsSpace(gap[k])
    ensures Search(Cm, pre + (d + gap + "cm" + rest)) == Some(NumberValue(d))
  {
    var s := pre + (d + gap + "cm" + rest);
    CmPrefixSkipped(pre, d + gap + "cm" + rest);
    NumberThenAfter(pre, d, gap, "cm", rest);
    assert MatchAt(Cm, s, |pre|) == Some(NumberValue(d));
    assert FirstMatch(Cm, s, |pre|) == |pre|;
  }

  /** A parenthesised centimetre figure is read after a prefix without a '('. */
  lemma ParenFigureAfter(pre: string, d: string, gap: string, rest: string)
    requires '(' !in pre
    requires d != [] && AllDigits(d)
    requires forall k :: 0 <= k < |gap| ==> IsSpace(gap[k])
    ensures Search(ParenCm, pre + "(" + (d + gap + "cm)" + rest)) == Some(NumberValue(d))
  {
    var x := d + gap + "cm)" + rest;
    var s := pre + "(" + x;
    assert s == pre + ("(" + x);
    ParenPrefixSkipped(pre, "(" + x);
    NumberThenAfter(pre + "(", d, gap, "cm)", rest);
    assert s[|pre|] == '(';
    assert MatchAt(ParenCm, s, |pre|) == Some(NumberValue(d));
  }
}
