/** A Python `dict` filled in a loop by `d[key] = value`: a later pair with the
    same key overwrites the value of an earlier one. */
module Dicts {

  /** The dict after storing the pairs of `ps` in order. */
  function FromPairs<K, V>(ps: seq<(K, V)>): map<K, V>
    decreases |ps|
  {
    if ps == [] then map[] else FromPairs(ps[..|ps| - 1])[ps[|ps| - 1].0 := ps[|ps| - 1].1]
  }

  /** Every key of the pairs is present, nothing else is, and each key holds
      the value of its last pair. */
  lemma {:induction false} FromPairsLastWins<K, V>(ps: seq<(K, V)>)
    ensures forall k :: k in FromPairs(ps) <==> exists i :: 0 <= i < |ps| && ps[i].0 == k
    ensures forall i :: 0 <= i < |ps| && (forall j :: i < j < |ps| ==> ps[j].0 != ps[i].0) ==>
              FromPairs(ps)[ps[i].0] == ps[i].1
    decreases |ps|
  {
    if ps != [] {
      var init := ps[..|ps| - 1];
      FromPairsLastWins(init);
      forall k ensures k in FromPairs(ps) <==> exists i :: 0 <= i < |ps| && ps[i].0 == k {
        if k in FromPairs(init) {
          var i :| 0 <= i < |init| && init[i].0 == k;
          assert ps[i] == init[i];
        }
        if exists i :: 0 <= i < |ps| && ps[i].0 == k {
          var i :| 0 <= i < |ps| && ps[i].0 == k;
          if i < |init| { assert init[i] == ps[i]; }
        }
      }
      forall i | 0 <= i < |ps| && (forall j :: i < j < |ps| ==> ps[j].0 != ps[i].0)
        ensures FromPairs(ps)[ps[i].0] == ps[i].1
      {
        if i < |init| {
          assert init[i] == ps[i];
          assert forall j :: i < j < |init| ==> init[j] == ps[j];
        }
      }
    }
  }

  /** Storing one more pair is the dict update. */
  lemma FromPairsSnoc<K, V>(ps: seq<(K, V)>, k: K, v: V)
    ensures FromPairs(ps + [(k, v)]) == FromPairs(ps)[k := v]
  {
    assert (ps + [(k, v)])[..|ps|] == ps;
  }

  /** Every value in the dict is the value of some pair with that key. */
  lemma {:induction false} FromPairsValueFrom<K, V>(ps: seq<(K, V)>)
    ensures forall k :: k in FromPairs(ps) ==> exists i :: 0 <= i < |ps| && ps[i].0 == k && ps[i].1 == FromPairs(ps)[k]
    decreases |ps|
  {
    if ps != [] {
      var init := ps[..|ps| - 1];
      FromPairsValueFrom(init);
      forall k | k in FromPairs(ps)
        ensures exists i :: 0 <= i < |ps| && ps[i].0 == k && ps[i].1 == FromPairs(ps)[k]
      {
        if k != ps[|ps| - 1].0 {
          assert FromPairs(ps) == FromPairs(init)[ps[|ps| - 1].0 := ps[|ps| - 1].1];
          assert k in FromPairs(init);
          var i :| 0 <= i < |init| && init[i].0 == k && init[i].1 == FromPairs(init)[k];
          assert ps[i] == init[i];
        }
      }
    }
  }
}
