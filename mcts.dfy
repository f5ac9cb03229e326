/** The ride scorer and the ranking search (mcts.py): every ride gets one child
    of the root, every child is rolled out a fixed number of times, and the
    rides are ranked by their children's average rollout value. Rollouts are
    deterministic, so each average is the ride's own score. */
module Mcts {
  import opened Text
  import opened RideTable

  // ---------------------------------------------------------------------------
  // The score of one ride

  /** `popularity_map.get(popularity, 1)` with High 3, Medium 2, Low 1. */
  function PopularityWeight(popularity: string): (w: int)
    ensures 1 <= w <= 3
    ensures w == 3 <==> popularity == "High"
    ensures w == 2 <==> popularity == "Medium"
  {
    if popularity == "High" then 3
    else if popularity == "Medium" then 2
    else if popularity == "Low" then 1
    else 1
  }

  /** What `float()` accepts here: a run of decimal digits, with surrounding
      whitespace. */
  predicate IsNumberText(p: string) {
    Strip(p) != [] && AllDigits(Strip(p))
  }

  function NumberText(p: string): real
    requires IsNumberText(p)
  {
    NumberValue(Strip(p)) as real
  }

  /** The average wait in minutes: the middle of a `low-high` range once every
      " min" is removed, and 30 when the text has no '-', does not split into
      exactly two parts, or a part is not a number. */
  function AvgWait(waitTime: string): (avg: real)
    ensures avg == 30.0 || Contains(waitTime, "-")
  {
    if !Contains(waitTime, "-") then 30.0
    else
      var parts := SplitOn(ReplaceAll(waitTime, " min", ""), '-');
      if |parts| == 2 && IsNumberText(parts[0]) && IsNumberText(parts[1])
      then (NumberText(parts[0]) + NumberText(parts[1])) / 2.0
      else 30.0
  }

  /** `score_ride_in_rollout`: popularity is worth 25 per tier, every minute
      of average wait costs one. */
  function Score(ride: Ride): real {
    (PopularityWeight(ride.popularity) * 25) as real - AvgWait(ride.waitTime)
  }

  /** Two digit strings joined by '-' and followed by " min" average to their
      midpoint: "10-30 min" waits 20 minutes. */
  lemma AvgWaitOfRange(lo: string, hi: string)
    requires lo != [] && AllDigits(lo) && hi != [] && AllDigits(hi)
    ensures AvgWait(lo + "-" + hi + " min") == (NumberValue(lo) + NumberValue(hi)) as real / 2.0
  {
    var s := lo + "-" + hi + " min";
    assert s[|lo|] == '-';
    assert StartsAt(s, |lo|, "-");
    assert ' ' !in lo + "-" + hi by {
      forall k | 0 <= k < |lo + "-" + hi| ensures (lo + "-" + hi)[k] != ' ' {
        if k < |lo| { assert (lo + "-" + hi)[k] == lo[k]; }
        else if k > |lo| { assert (lo + "-" + hi)[k] == hi[k - |lo| - 1]; }
      }
    }
    assert s == (lo + "-" + hi) + " min";
    ReplaceSkipsPlain(lo + "-" + hi, " min", " min", "");
    assert ReplaceAll(" min", " min", "") == "";
    assert lo + "-" + hi + "" == lo + ['-'] + hi;
    assert '-' !in lo by { assert forall k :: 0 <= k < |lo| ==> IsDigit(lo[k]); }
    assert '-' !in hi by { assert forall k :: 0 <= k < |hi| ==> IsDigit(hi[k]); }
    SplitAfterPiece(lo, '-', hi);
    SplitNoSeparator(hi, '-');
    StripAllDigits(lo);
    StripAllDigits(hi);
  }

  /** A digit string is its own strip. */
  lemma StripAllDigits(s: string)
    requires s != [] && AllDigits(s)
    ensures Strip(s) == s
  {
    assert StripLeft(s) == s;
    assert StripRight(s) == s;
  }

  /** A wait text without a '-' falls back to 30 minutes. */
  lemma AvgWaitWithoutRange(waitTime: string)
    requires forall k :: 0 <= k < |waitTime| ==> waitTime[k] != '-'
    ensures AvgWait(waitTime) == 30.0
  {
    forall k | 0 <= k <= |waitTime| - 1 ensures !StartsAt(waitTime, k, "-") {
      assert waitTime[k..k + 1][0] == waitTime[k];
    }
  }

  lemma AvgWaitExamples()
    ensures AvgWait("10-30 min") == 20.0
    ensures AvgWait("5 min") == 30.0
    ensures AvgWait("Varies") == 30.0
  {
    AvgWaitOfRange("10", "30");
    assert "10" + "-" + "30" + " min" == "10-30 min";
    assert NumberValue("10") == 10 by { assert "10"[..1] == "1"; }
    assert NumberValue("30") == 30 by { assert "30"[..1] == "3"; }
    AvgWaitWithoutRange("5 min");
    AvgWaitWithoutRange("Varies");
  }

  /** A "High" ride waiting "10-30 min" scores 3 * 25 - 20. */
  lemma ScoreExample(r: Ride)
    requires r.popularity == "High" && r.waitTime == "10-30 min"
    ensures Score(r) == 55.0
  {
    AvgWaitExamples();
  }

  // ---------------------------------------------------------------------------
  // The search tree

  /** A node's state: the root has none, a child holds one ride index, and a
      sequence state holds a list of ride indices. */
  datatype NodeState = Root | RideAt(index: nat) | RideList(indices: seq<nat>)

  /** The ride indices a state refers to all point at rows of the table. */
  predicate InTable(s: NodeState, rowCount: nat) {
    match s
    case Root => true
    case RideAt(i) => i < rowCount
    case RideList(idxs) => forall k :: 0 <= k < |idxs| ==> idxs[k] < rowCount
  }

  /** The summed scores of the rides at `idxs`. */
  function ScoreSum(rides: seq<Ride>, idxs: seq<nat>): real
    requires forall k :: 0 <= k < |idxs| ==> idxs[k] < |rides|
    decreases |idxs|
  {
    if idxs == [] then 0.0 else ScoreSum(rides, idxs[..|idxs| - 1]) + Score(rides[idxs[|idxs| - 1]])
  }

  /** What a rollout from a state is worth. */
  function RolloutValue(s: NodeState, rides: seq<Ride>): real
    requires InTable(s, |rides|)
  {
    match s
    case Root => 0.0
    case RideAt(i) => Score(rides[i])
    case RideList(idxs) => ScoreSum(rides, idxs)
  }

  /** Rolling out a list of rides is worth what rolling out its two halves is. */
  lemma {:induction false} ScoreSumAppend(rides: seq<Ride>, a: seq<nat>, b: seq<nat>)
    requires forall k :: 0 <= k < |a| ==> a[k] < |rides|
    requires forall k :: 0 <= k < |b| ==> b[k] < |rides|
    ensures forall k :: 0 <= k < |a + b| ==> (a + b)[k] < |rides|
    ensures ScoreSum(rides, a + b) == ScoreSum(rides, a) + ScoreSum(rides, b)
    decreases |b|
  {
    assert forall k :: 0 <= k < |a + b| ==> (a + b)[k] < |rides|;
    if b != [] {
      var b' := b[..|b| - 1];
      assert (a + b)[..|a + b| - 1] == a + b';
      ScoreSumAppend(rides, a, b');
    } else {
      assert a + b == a;
    }
  }

  /** A one-ride list rolls out to that ride's own score, and the lists add up. */
  lemma RolloutOfList(rides: seq<Ride>, a: seq<nat>, b: seq<nat>)
    requires InTable(RideList(a), |rides|) && InTable(RideList(b), |rides|)
    ensures InTable(RideList(a + b), |rides|)
    ensures RolloutValue(RideList(a + b), rides) == RolloutValue(RideList(a), rides) + RolloutValue(RideList(b), rides)
    ensures |a| == 1 ==> RolloutValue(RideList(a), rides) == RolloutValue(RideAt(a[0]), rides)
  {
    ScoreSumAppend(rides, a, b);
    if |a| == 1 {
      assert a[..0] == [];
    }
  }

  class Node {
    const state: NodeState
    const parent: Node?
    /** How many parents lie above this node; it bounds the parent chain. */
    ghost const depth: nat
    var children: seq<Node>
    var visits: int
    var value: real

    /** The parent chain ends at a root, one level at a time. */
    ghost predicate Linked()
      decreases depth
    {
      if parent == null then depth == 0 else parent.depth + 1 == depth && parent.Linked()
    }

    /** This node followed by its parent, grandparent, ... up to the root. */
    ghost function Ancestry(): (a: seq<Node>)
      requires Linked()
      ensures |a| == depth + 1 && a[0] == this
      ensures forall k :: 0 <= k < |a| ==> a[k].depth == depth - k
      ensures forall k :: 0 <= k < |a| - 1 ==> a[k + 1] == a[k].parent
      ensures a[|a| - 1].parent == null
      decreases depth
    {
      if parent == null then [this] else [this] + parent.Ancestry()
    }

    /** `MCTSNode(state, parent)`: no children, no visits, value 0. */
    constructor (state: NodeState, parent: Node?)
      requires parent != null ==> parent.Linked()
      ensures this.state == state && this.parent == parent && Linked()
      ensures children == [] && visits == 0 && value == 0.0
    {
      this.state := state;
      this.parent := parent;
      this.depth := if parent == null then 0 else parent.depth + 1;
      children := [];
      visits := 0;
      value := 0.0;
    }

    /** `expand`: appends one new child with the given state. */
    method Expand(action: NodeState) returns (child: Node)
      requires Linked()
      modifies this`children
      ensures fresh(child) && child.state == action && child.parent == this && child.Linked()
      ensures child.children == [] && child.visits == 0 && child.value == 0.0
      ensures children == old(children) + [child]
    {
      child := new Node(action, this);
      children := children + [child];
    }

    /** `rollout`: a ride's score, the summed scores of a ride list, 0 for the root. */
    method Rollout(rides: seq<Ride>) returns (r: real)
      requires InTable(state, |rides|)
      ensures r == RolloutValue(state, rides)
    {
      match state
      case RideAt(i) =>
        r := Score(rides[i]);
      case RideList(idxs) =>
        r := 0.0;
        for j := 0 to |idxs|
          invariant r == ScoreSum(rides, idxs[..j])
        {
          assert idxs[..j + 1][..j] == idxs[..j];
          r := r + Score(rides[idxs[j]]);
        }
        assert idxs[..|idxs|] == idxs;
      case Root =>
        r := 0.0;
    }

    /** `backpropagate`: one more visit and `result` more value on this node
        and on every ancestor; nothing else changes. */
    method Backpropagate(result: real)
      requires Linked()
      requires forall k :: 0 <= k < |Ancestry()| ==> allocated(Ancestry()[k])
      modifies Ancestry()
      ensures forall k :: 0 <= k < |Ancestry()| ==>
                Ancestry()[k].visits == old(Ancestry()[k].visits) + 1 &&
                Ancestry()[k].value == old(Ancestry()[k].value) + result &&
                Ancestry()[k].children == old(Ancestry()[k].children)
      decreases depth
    {
      visits := visits + 1;
      value := value + result;
      if parent != null {
        assert Ancestry()[1..] == parent.Ancestry();
        parent.Backpropagate(result);
      }
    }

    /** The first child whose state is `s`, if there is one. */
    method FindChild(s: NodeState) returns (found: Node?)
      ensures found == null <==> forall k :: 0 <= k < |children| ==> children[k].state != s
      ensures found != null ==> exists k :: 0 <= k < |children| && children[k] == found && found.state == s &&
                                   forall l :: 0 <= l < k ==> children[l].state != s
    {
      found := null;
      var k := 0;
      while k < |children|
        invariant 0 <= k <= |children|
        invariant forall l :: 0 <= l < k ==> children[l].state != s
      {
        if children[k].state == s {
          found := children[k];
          return;
        }
        k := k + 1;
      }
    }
  }

  // ---------------------------------------------------------------------------
  // The ranking search

  /** `iterations // n + 1`, the rollouts each of `n` rides receives. */
  function Rounds(n: nat, iterations: nat): nat
    requires n > 0
  {
    iterations / n + 1
  }

  /** The rounds are the least number whose total over `n` rides exceeds
      `iterations`. */
  lemma RoundsIsLeast(n: nat, iterations: nat)
    requires n > 0
    ensures (Rounds(n, iterations) - 1) * n <= iterations < Rounds(n, iterations) * n
  {
  }

  /** A root child after the search: it holds ride `idx`, is a leaf, and has
      been visited `rounds` times, each worth that ride's score. */
  ghost predicate Explored(c: Node, root: Node, rides: seq<Ride>, idx: nat, rounds: nat)
    reads c
  {
    c.state == RideAt(idx) && c.parent == root && idx < |rides| && c.children == [] &&
    c.visits == rounds && c.value == Repeated(rounds, Score(rides[idx]))
  }

  /** Every ride's score, in table order. */
  function RideScores(rides: seq<Ride>): (xs: seq<real>)
    ensures |xs| == |rides|
  {
    seq(|rides|, i requires 0 <= i < |rides| => Score(rides[i]))
  }

  /** The sum of the first `n` scores. */
  function Total(xs: seq<real>, n: nat): real
    requires n <= |xs|
  {
    if n == 0 then 0.0 else Total(xs, n - 1) + xs[n - 1]
  }

  /** The value the root collects from the first `n` rides, `rounds` rollouts each. */
  function TreeValue(xs: seq<real>, n: nat, rounds: nat): real
    requires n <= |xs|
  {
    if n == 0 then 0.0 else TreeValue(xs, n - 1, rounds) + Repeated(rounds, xs[n - 1])
  }

  /** Repeating a sum is summing the repetitions. */
  lemma {:induction false} RepeatedAdds(n: nat, a: real, b: real)
    ensures Repeated(n, a + b) == Repeated(n, a) + Repeated(n, b)
  {
    if n > 0 {
      RepeatedAdds(n - 1, a, b);
    }
  }

  /** The root's value is `rounds` times the total score. */
  lemma TreeValueIsProduct(xs: seq<real>, n: nat, rounds: nat)
    requires n <= |xs|
    ensures TreeValue(xs, n, rounds) == rounds as real * Total(xs, n)
  {
    TreeValueIsRepeated(xs, n, rounds);
    RepeatedIsProduct(rounds, Total(xs, n));
  }

  lemma {:induction false} TreeValueIsRepeated(xs: seq<real>, n: nat, rounds: nat)
    requires n <= |xs|
    ensures TreeValue(xs, n, rounds) == Repeated(rounds, Total(xs, n))
  {
    if n > 0 {
      TreeValueIsRepeated(xs, n - 1, rounds);
      RepeatedAdds(rounds, Total(xs, n - 1), xs[n - 1]);
      assert Total(xs, n) == Total(xs, n - 1) + xs[n - 1];
    } else {
      RepeatedIsProduct(rounds, 0.0);
    }
  }

  /** `n` rollouts worth `x` each, added up one at a time as backpropagation does. */
  function Repeated(n: nat, x: real): (total: real)
  {
    if n == 0 then 0.0 else Repeated(n - 1, x) + x
  }

  /** Adding up `n` copies of `x` gives `n * x`. */
  lemma {:induction false} RepeatedIsProduct(n: nat, x: real)
    ensures Repeated(n, x) == n as real * x
  {
    if n > 0 {
      RepeatedIsProduct(n - 1, x);
    }
  }

  /** The rollout loop of the search for one child of the root: `rounds`
      rollouts, each backpropagated to the child and the root. */
  method RollOut(root: Node, child: Node, rides: seq<Ride>, idx: nat, rounds: nat)
    requires root.Linked() && root.parent == null && child.parent == root && child.Linked()
    requires child.state == RideAt(idx) && idx < |rides|
    modifies root, child
    ensures root.children == old(root.children) && child.children == old(child.children)
    ensures child.visits == old(child.visits) + rounds
    ensures child.value == old(child.value) + Repeated(rounds, Score(rides[idx]))
    ensures root.visits == old(root.visits) + rounds
    ensures root.value == old(root.value) + Repeated(rounds, Score(rides[idx]))
  {
    ghost var anc := child.Ancestry();
    assert anc == [child, root];
    var score := Score(rides[idx]);
    for j := 0 to rounds
      invariant root.children == old(root.children) && child.children == old(child.children)
      invariant child.visits == old(child.visits) + j && child.value == old(child.value) + Repeated(j, score)
      invariant root.visits == old(root.visits) + j && root.value == old(root.value) + Repeated(j, score)
    {
      var result := child.Rollout(rides);
      child.Backpropagate(result);
    }
  }

  /** One pass of the outer search loop for ride `idx`: look for its child,
      expand the root when there is none, then roll out `rounds` times. */
  method ExploreRide(root: Node, rides: seq<Ride>, idx: nat, rounds: nat) returns (child: Node?)
    requires root.Linked() && root.parent == null && idx < |rides|
    requires forall k :: 0 <= k < |root.children| ==> root.children[k].state != RideAt(idx)
    modifies root
    ensures child != null && fresh(child) && root.children == old(root.children) + [child]
    ensures Explored(child, root, rides, idx, rounds)
    ensures root.visits == old(root.visits) + rounds
    ensures root.value == old(root.value) + Repeated(rounds, Score(rides[idx]))
  {
    child := root.FindChild(RideAt(idx));
    if child == null {
      child := root.Expand(RideAt(idx));
    }
    RollOut(root, child, rides, idx, rounds);
  }

  /** The tree the search builds: one leaf child per ride, in table order,
      each visited `iterations // n + 1` times; the root has seen every visit. */
  method BuildSearchTree(rides: seq<Ride>, iterations: nat) returns (root: Node)
    ensures fresh(root) && root.Linked() && root.state == Root && root.parent == null
    ensures |root.children| == |rides|
    ensures |rides| > 0 ==> forall i :: 0 <= i < |rides| ==>
              Explored(root.children[i], root, rides, i, Rounds(|rides|, iterations))
    ensures |rides| > 0 ==> root.visits == |rides| * Rounds(|rides|, iterations)
    ensures |rides| > 0 ==> root.value == TreeValue(RideScores(rides), |rides|, Rounds(|rides|, iterations))
    ensures |rides| == 0 ==> root.visits == 0 && root.value == 0.0
  {
    root := new Node(Root, null);
    var n := |rides|;
    if n == 0 {
      return;
    }
    var rounds := iterations / n + 1;
    assert rounds == Rounds(n, iterations);
    for i := 0 to n
      invariant root.Linked() && root.parent == null && root.state == Root
      invariant |root.children| == i
      invariant forall k :: 0 <= k < i ==> Explored(root.children[k], root, rides, k, rounds)
      invariant root.visits == VisitTotal(i, rounds)
      invariant root.value == TreeValue(RideScores(rides), i, rounds)
    {
      ghost var before := root.children;
      assert forall k :: 0 <= k < i ==> before[k] != root && before[k].state == RideAt(k);
      var child := ExploreRide(root, rides, i, rounds);
      assert forall k :: 0 <= k < i ==> root.children[k] == before[k];
      assert RideScores(rides)[i] == Score(rides[i]);
    }
    VisitTotalIsProduct(|rides|, Rounds(|rides|, iterations));
  }

  /** The visits the root collects from `n` children of `rounds` visits each. */
  function VisitTotal(n: nat, rounds: nat): nat {
    if n == 0 then 0 else VisitTotal(n - 1, rounds) + rounds
  }

  lemma {:induction false} VisitTotalIsProduct(n: nat, rounds: nat)
    ensures VisitTotal(n, rounds) == n * rounds
  {
    if n > 0 {
      VisitTotalIsProduct(n - 1, rounds);
      assert n * rounds == (n - 1) * rounds + rounds;
    }
  }

  /** One row of the ranking table: ride name, average rollout value, visits. */
  datatype RankedRide = RankedRide(name: string, avgScore: real, visits: int)

  /** The ranking rows in table order, before sorting. */
  function RankEntries(rides: seq<Ride>, iterations: nat): (rows: seq<RankedRide>)
    requires |rides| > 0
  {
    seq(|rides|, i requires 0 <= i < |rides| =>
      RankedRide(rides[i].name, Score(rides[i]), Rounds(|rides|, iterations)))
  }

  predicate SortedByAverage(rows: seq<RankedRide>) {
    forall a, b :: 0 <= a < b < |rows| ==> rows[a].avgScore >= rows[b].avgScore
  }

  /** `sort_values(by='Avg MCTS Score', ascending=False)`, as a stable
      insertion sort. */
  method SortByAverage(rows: seq<RankedRide>) returns (sorted: seq<RankedRide>)
    ensures multiset(sorted) == multiset(rows)
    ensures SortedByAverage(sorted)
  {
    sorted := [];
    for k := 0 to |rows|
      invariant multiset(sorted) == multiset(rows[..k])
      invariant SortedByAverage(sorted)
    {
      assert rows[..k + 1] == rows[..k] + [rows[k]];
      sorted := InsertByAverage(sorted, rows[k]);
    }
    assert rows[..|rows|] == rows;
  }

  /** Inserts `x` after every row whose average is at least its own. */
  method InsertByAverage(sorted: seq<RankedRide>, x: RankedRide) returns (r: seq<RankedRide>)
    requires SortedByAverage(sorted)
    ensures multiset(r) == multiset(sorted) + multiset{x}
    ensures SortedByAverage(r)
  {
    var j := 0;
    while j < |sorted| && sorted[j].avgScore >= x.avgScore
      invariant 0 <= j <= |sorted|
      invariant forall m :: 0 <= m < j ==> sorted[m].avgScore >= x.avgScore
    {
      j := j + 1;
    }
    assert sorted == sorted[..j] + sorted[j..];
    InsertKeepsSorted(sorted, j, x);
    r := sorted[..j] + [x] + sorted[j..];
  }

  /** Inserting a row after every row with at least its average and before the
      first with less keeps the rows sorted. */
  lemma InsertKeepsSorted(sorted: seq<RankedRide>, j: nat, x: RankedRide)
    requires SortedByAverage(sorted) && j <= |sorted|
    requires forall m :: 0 <= m < j ==> sorted[m].avgScore >= x.avgScore
    requires j < |sorted| ==> sorted[j].avgScore < x.avgScore
    ensures SortedByAverage(sorted[..j] + [x] + sorted[j..])
  {
    var r := sorted[..j] + [x] + sorted[j..];
    forall a, b | 0 <= a < b < |r| ensures r[a].avgScore >= r[b].avgScore {
      if b < j {
        assert r[a] == sorted[a] && r[b] == sorted[b];
      } else if b == j {
        assert r[a] == sorted[a];
      } else if a < j {
        assert r[a] == sorted[a] && r[b] == sorted[b - 1];
      } else if a == j {
        assert r[b] == sorted[b - 1];
      } else {
        assert r[a] == sorted[a - 1] && r[b] == sorted[b - 1];
      }
    }
  }

  /** An average of `rounds` equal rollouts is the rollout's value. */
  lemma AverageOfEqualRollouts(rounds: nat, score: real)
    requires rounds > 0
    ensures Repeated(rounds, score) / (rounds as real) == score
  {
    RepeatedIsProduct(rounds, score);
  }

  /** `monte_carlo_tree_search_for_ranking`: every ride once, each with its
      score as average and `iterations // n + 1` visits, best average first.
      An empty table is excluded: the ranking frame built from no rows has no
      score column to sort by, and the sort raises KeyError. */
  method MonteCarloSearch(rides: seq<Ride>, iterations: nat) returns (ranked: seq<RankedRide>)
    requires |rides| > 0
    ensures multiset(ranked) == multiset(RankEntries(rides, iterations))
    ensures SortedByAverage(ranked)
  {
    var root := BuildSearchTree(rides, iterations);
    ghost var rounds := Rounds(|rides|, iterations);
    var info: seq<RankedRide> := [];
    for k := 0 to |root.children|
      invariant |root.children| == |rides|
      invariant forall i :: 0 <= i < |rides| ==> Explored(root.children[i], root, rides, i, rounds)
      invariant info == RankEntries(rides, iterations)[..k]
    {
      var child := root.children[k];
      var idx := child.state.index;
      AverageOfEqualRollouts(child.visits, Score(rides[idx]));
      var avgScore := child.value / (child.visits as real);
      info := info + [RankedRide(rides[idx].name, avgScore, child.visits)];
    }
    assert info == RankEntries(rides, iterations);
    ranked := SortByAverage(info);
  }

  /** The first ranked ride has the best score in the table. */
  lemma TopRankedHasBestScore(rides: seq<Ride>, iterations: nat, ranked: seq<RankedRide>)
    requires |rides| > 0
    requires multiset(ranked) == multiset(RankEntries(rides, iterations))
    requires SortedByAverage(ranked)
    ensures |ranked| == |rides|
    ensures forall i :: 0 <= i < |rides| ==> Score(rides[i]) <= ranked[0].avgScore
  {
    var rows := RankEntries(rides, iterations);
    assert |ranked| == |multiset(ranked)| == |multiset(rows)| == |rows|;
    forall i | 0 <= i < |rides| ensures Score(rides[i]) <= ranked[0].avgScore {
      assert rows[i] in multiset(rows);
      assert rows[i] in ranked;
      var k :| 0 <= k < |ranked| && ranked[k] == rows[i];
    }
  }

  /** Every ranked row carries a ride's name, that ride's score as its average,
      and the same visit count. */
  lemma RankedRowsAreRides(rides: seq<Ride>, iterations: nat, ranked: seq<RankedRide>)
    requires |rides| > 0
    requires multiset(ranked) == multiset(RankEntries(rides, iterations))
    ensures forall k :: 0 <= k < |ranked| ==>
              ranked[k].visits == Rounds(|rides|, iterations) &&
              exists i :: 0 <= i < |rides| && ranked[k].name == rides[i].name && ranked[k].avgScore == Score(rides[i])
  {
    var rows := RankEntries(rides, iterations);
    forall k | 0 <= k < |ranked|
      ensures ranked[k].visits == Rounds(|rides|, iterations)
      ensures exists i :: 0 <= i < |rides| && ranked[k].name == rides[i].name && ranked[k].avgScore == Score(rides[i])
    {
      assert ranked[k] in multiset(ranked);
      assert ranked[k] in rows;
      var i :| 0 <= i < |rows| && rows[i] == ranked[k];
    }
  }
}
