/**
 Which pair of each key the in-place removal of duplicates keeps: the first one in the order in which pairs are
 looked at, and when that is the first one of the container.
 */
module ReplaceOrder {
  import opened RobinHood
  import opened DenseValues

  // The pairs in the order in which the scan looks at them: from the front, but a pair that takes the place of a
  // duplicate comes from the back and is looked at next.
  function Scan<K(==), V>(vs: seq<(K, V)>, i: nat): (s: seq<(K, V)>)
    requires i <= |vs|
    decreases |vs| - i
  {
    if i == |vs| then []
    else [vs[i]] + if HasKey(vs[..i], vs[i].0) then Scan(SwapRemove(vs, i), i) else Scan(vs, i + 1)
  }

  // The kept pairs after looking at the pairs of a list.
  function Unseen<K(==), V>(kept: seq<(K, V)>, s: seq<(K, V)>): (r: seq<(K, V)>)
    decreases |s|
  {
    if s == [] then kept else Unseen(if HasKey(kept, s[0].0) then kept else kept + [s[0]], s[1..])
  }

  lemma ScanStep<K, V>(vs: seq<(K, V)>, i: nat)
    requires i < |vs|
    ensures Scan(vs, i) != [] && Scan(vs, i)[0] == vs[i]
    ensures HasKey(vs[..i], vs[i].0) ==> Scan(vs, i)[1..] == Scan(SwapRemove(vs, i), i)
    ensures !HasKey(vs[..i], vs[i].0) ==> Scan(vs, i)[1..] == Scan(vs, i + 1)
  {
  }

  // What is kept is the first pair of each key in that order.
  lemma {:induction false} KeepsFirstScanned<K, V>(vs: seq<(K, V)>, i: nat)
    requires i <= |vs|
    ensures Dedup(vs, i) == Unseen(vs[..i], Scan(vs, i))
    decreases |vs| - i
  {
    hide Dedup, Scan, SwapRemove, HasKey;
    if i == |vs| {
      ScanDone(vs);
    } else {
      DedupStep(vs, i);
      ScanStep(vs, i);
      if HasKey(vs[..i], vs[i].0) {
        KeepsFirstScanned(SwapRemove(vs, i), i);
      } else {
        KeepsFirstScanned(vs, i + 1);
        assert vs[..i + 1] == vs[..i] + [vs[i]];
      }
    }
  }

  lemma ScanDone<K, V>(vs: seq<(K, V)>)
    ensures Dedup(vs, |vs|) == vs == vs[..|vs|] && Scan(vs, |vs|) == []
  {
  }

  // Every pair is looked at exactly once.
  lemma {:induction false} ScansEachOnce<K, V>(vs: seq<(K, V)>, i: nat)
    requires i <= |vs|
    ensures multiset(Scan(vs, i)) == multiset(vs[i..])
    decreases |vs| - i
  {
    hide Scan, HasKey;
    if i == |vs| {
      ScanDone(vs);
    } else {
      ScanStep(vs, i);
      assert Scan(vs, i) == [vs[i]] + Scan(vs, i)[1..];
      assert vs[i..] == [vs[i]] + vs[i + 1..];
      if HasKey(vs[..i], vs[i].0) {
        ScansEachOnce(SwapRemove(vs, i), i);
        SwapRemoveTail(vs, i);
      } else {
        ScansEachOnce(vs, i + 1);
      }
    }
  }

  // ---- original positions ----

  function KeysOf<K, V>(vs: seq<(K, V)>): (keys: seq<K>)
    ensures |keys| == |vs| && forall i :: 0 <= i < |vs| ==> keys[i] == vs[i].0
  {
    seq(|vs|, i requires 0 <= i < |vs| => vs[i].0)
  }

  function Numbered<K>(keys: seq<K>): (w: seq<(K, nat)>)
    ensures |w| == |keys| && forall i :: 0 <= i < |keys| ==> w[i] == (keys[i], i)
  {
    seq(|keys|, i requires 0 <= i < |keys| => (keys[i], i))
  }

  // The original positions of the pairs that are kept, slot by slot.
  function Survivors<K(==), V>(vs: seq<(K, V)>): (w: seq<(K, nat)>)
  {
    Dedup(Numbered(KeysOf(vs)), 0)
  }

  // A pair in a slot is the original pair at the position noted for the slot.
  ghost predicate Matches<K, V>(orig: seq<(K, V)>, vs: seq<(K, V)>, w: seq<(K, nat)>)
  {
    |vs| == |w| && forall j :: 0 <= j < |w| ==> w[j].1 < |orig| && vs[j] == orig[w[j].1] && vs[j].0 == w[j].0
  }

  lemma {:induction false} DedupMatches<K, V>(orig: seq<(K, V)>, vs: seq<(K, V)>, w: seq<(K, nat)>, i: nat)
    requires Matches(orig, vs, w) && i <= |vs|
    ensures Matches(orig, Dedup(vs, i), Dedup(w, i))
    decreases |vs| - i
  {
    hide Dedup, SwapRemove;
    if i == |vs| {
      DedupDone(vs);
      DedupDone(w);
    } else {
      DedupStep(vs, i);
      DedupStep(w, i);
      SameKeysInFront(orig, vs, w, i, vs[i].0);
      if HasKey(vs[..i], vs[i].0) {
        DedupMatches(orig, SwapRemove(vs, i), SwapRemove(w, i), i);
      } else {
        DedupMatches(orig, vs, w, i + 1);
      }
    }
  }

  lemma SameKeysInFront<K, V>(orig: seq<(K, V)>, vs: seq<(K, V)>, w: seq<(K, nat)>, i: nat, k: K)
    requires Matches(orig, vs, w) && i <= |vs|
    ensures HasKey(vs[..i], k) <==> HasKey(w[..i], k)
    ensures HasKey(vs[i..], k) <==> HasKey(w[i..], k)
  {
    assert forall j :: 0 <= j < i ==> vs[..i][j].0 == w[..i][j].0;
    assert forall j :: 0 <= j < |vs| - i ==> vs[i..][j].0 == w[i..][j].0;
  }

  // Replace keeps exactly the original pairs at the surviving positions.
  lemma KeepsSurvivors<K, V>(vs: seq<(K, V)>)
    ensures Matches(vs, Dedup(vs, 0), Survivors(vs))
  {
    DedupMatches(vs, vs, Numbered(KeysOf(vs)), 0);
  }

  // ---- when the first pair of every key is kept ----

  ghost predicate Earliest<K>(keys: seq<K>, p: nat)
  {
    p < |keys| && forall q :: 0 <= q < p ==> keys[q] != keys[p]
  }

  // A pair taken from the back is new while its key is still to come: it is kept in place of an earlier pair.
  predicate Overtakes<K(==), V>(vs: seq<(K, V)>, i: nat, moved: bool)
    requires i <= |vs|
    decreases |vs| - i
  {
    i < |vs| &&
    if HasKey(vs[..i], vs[i].0) then Overtakes(SwapRemove(vs, i), i, true)
    else (moved && HasKey(vs[i + 1..], vs[i].0)) || Overtakes(vs, i + 1, false)
  }

  lemma OvertakesStep<K, V>(vs: seq<(K, V)>, i: nat, moved: bool)
    requires i < |vs|
    ensures HasKey(vs[..i], vs[i].0) ==> (Overtakes(vs, i, moved) <==> Overtakes(SwapRemove(vs, i), i, true))
    ensures !HasKey(vs[..i], vs[i].0) ==>
              (Overtakes(vs, i, moved) <==> (moved && HasKey(vs[i + 1..], vs[i].0)) || Overtakes(vs, i + 1, false))
  {
  }

  // The scan at slot i: the slots behind it are untouched, a moved pair comes from just behind the end, and every
  // key looked at is among the kept ones.
  ghost predicate Scanning<K>(keys: seq<K>, w: seq<(K, nat)>, i: nat, moved: bool)
  {
    && i <= |w| <= |keys|
    && (forall j :: 0 <= j < i ==> w[j].1 < |keys| && w[j].0 == keys[w[j].1])
    && (forall j :: i < j < |w| ==> w[j] == (keys[j], j))
    && (i < |w| ==> if moved then |w| < |keys| && w[i] == (keys[|w|], |w|) else w[i] == (keys[i], i))
    && forall q :: 0 <= q < |keys| && !(i < q < |w|) && !(i < |w| && q == w[i].1) ==> HasKey(w[..i], keys[q])
  }

  lemma ScanningKeeps<K>(keys: seq<K>, w: seq<(K, nat)>, i: nat, moved: bool)
    requires Scanning(keys, w, i, moved) && i < |w| && !HasKey(w[..i], w[i].0)
    ensures Scanning(keys, w, i + 1, false)
    ensures Earliest(keys, w[i].1) <==> !(moved && HasKey(w[i + 1..], w[i].0))
  {
    forall q | 0 <= q < |keys| && !(i + 1 < q < |w|) && !(i + 1 < |w| && q == w[i + 1].1)
      ensures HasKey(w[..i + 1], keys[q])
    {
      if q == w[i].1 {
        assert w[..i + 1][i].0 == keys[q];
      } else {
        assert HasKey(w[..i], keys[q]);
        var j :| 0 <= j < i && w[..i][j].0 == keys[q];
        assert w[..i + 1][j].0 == keys[q];
      }
    }
    var p := w[i].1;
    if moved && HasKey(w[i + 1..], w[i].0) {
      var j :| 0 <= j < |w| - i - 1 && w[i + 1..][j].0 == w[i].0;
      assert keys[i + 1 + j] == keys[p];
    } else {
      forall q | 0 <= q < p
        ensures keys[q] != keys[p]
      {
        if i < q < |w| {
          assert w[i + 1..][q - i - 1].0 == keys[q];
        } else {
          assert HasKey(w[..i], keys[q]);
        }
      }
    }
  }

  lemma ScanningDrops<K>(keys: seq<K>, w: seq<(K, nat)>, i: nat, moved: bool)
    requires Scanning(keys, w, i, moved) && i < |w| && HasKey(w[..i], w[i].0)
    ensures Scanning(keys, SwapRemove(w, i), i, true)
  {
    var w' := SwapRemove(w, i);
    assert w'[..i] == w[..i];
    assert w[i].0 == keys[w[i].1];
  }

  ghost predicate AllEarliest<K>(keys: seq<K>, w: seq<(K, nat)>)
  {
    forall j :: 0 <= j < |w| ==> Earliest(keys, w[j].1)
  }

  lemma {:induction false} EarliestIffNotOvertaken<K(!new)>(keys: seq<K>, w: seq<(K, nat)>, i: nat, moved: bool)
    requires Scanning(keys, w, i, moved) && DistinctKeys(w[..i]) && AllEarliest(keys, w[..i])
    ensures AllEarliest(keys, Dedup(w, i)) <==> !Overtakes(w, i, moved)
    decreases |w| - i
  {
    hide Dedup, Overtakes, SwapRemove, HasKey, Earliest, Scanning;
    ScanningBounds(keys, w, i, moved);
    if i == |w| {
      DedupDone(w);
      OvertakesDone(w, moved);
      assert w[..i] == w;
    } else {
      DedupStep(w, i);
      OvertakesStep(w, i, moved);
      if HasKey(w[..i], w[i].0) {
        ScanningDrops(keys, w, i, moved);
        EarliestIffNotOvertaken(keys, SwapRemove(w, i), i, true);
      } else {
        ScanningKeeps(keys, w, i, moved);
        DistinctPrefix(w, i);
        DedupExact(w, i + 1);
        var r := Dedup(w, i + 1);
        assert r[i] == r[..i + 1][i] == w[i];
        assert forall j :: 0 <= j < i ==> w[..i + 1][j] == w[..i][j];
        if Earliest(keys, w[i].1) {
          EarliestIffNotOvertaken(keys, w, i + 1, false);
        }
      }
    }
  }

  lemma ScanningBounds<K>(keys: seq<K>, w: seq<(K, nat)>, i: nat, moved: bool)
    requires Scanning(keys, w, i, moved)
    ensures i <= |w|
  {
  }

  lemma OvertakesDone<K, V>(vs: seq<(K, V)>, moved: bool)
    ensures !Overtakes(vs, |vs|, moved)
  {
  }

  lemma {:induction false} OvertakesMatches<K, V>(orig: seq<(K, V)>, vs: seq<(K, V)>, w: seq<(K, nat)>, i: nat,
                                                  moved: bool)
    requires Matches(orig, vs, w) && i <= |vs|
    ensures Overtakes(vs, i, moved) <==> Overtakes(w, i, moved)
    decreases |vs| - i
  {
    hide Overtakes, SwapRemove, HasKey;
    if i == |vs| {
      OvertakesDone(vs, moved);
      OvertakesDone(w, moved);
    } else {
      OvertakesStep(vs, i, moved);
      OvertakesStep(w, i, moved);
      SameKeysInFront(orig, vs, w, i, vs[i].0);
      SameKeysInFront(orig, vs, w, i + 1, vs[i].0);
      if HasKey(vs[..i], vs[i].0) {
        OvertakesMatches(orig, SwapRemove(vs, i), SwapRemove(w, i), i, true);
      } else {
        OvertakesMatches(orig, vs, w, i + 1, false);
      }
    }
  }

  // Replace keeps the first pair of every key exactly when no pair from the back overtakes an earlier one.
  lemma FirstPairsKeptIff<K(!new), V>(vs: seq<(K, V)>)
    ensures AllEarliest(KeysOf(vs), Survivors(vs)) <==> !Overtakes(vs, 0, false)
  {
    hide Overtakes, Dedup;
    var keys := KeysOf(vs);
    var w := Numbered(keys);
    assert w[..0] == [];
    EarliestIffNotOvertaken(keys, w, 0, false);
    OvertakesMatches(vs, vs, w, 0, false);
  }
}
