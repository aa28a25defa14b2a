/**
 The hole-free vector of key/value pairs, and the finite map it stands for.
 */
module DenseValues {
  import opened RobinHood

  ghost predicate DistinctKeys<K, V>(vs: seq<(K, V)>)
  {
    forall i, j :: 0 <= i < j < |vs| ==> vs[i].0 != vs[j].0
  }

  predicate HasKey<K(==), V>(vs: seq<(K, V)>, k: K)
  {
    exists i :: 0 <= i < |vs| && vs[i].0 == k
  }

  ghost function Contents<K(!new), V>(vs: seq<(K, V)>): (m: map<K, V>)
    requires DistinctKeys(vs)
    ensures forall i :: 0 <= i < |vs| ==> vs[i].0 in m && m[vs[i].0] == vs[i].1
    ensures forall k :: k in m <==> HasKey(vs, k)
  {
    if vs == [] then map[]
    else
      var n := |vs| - 1;
      var m := Contents(vs[..n])[vs[n].0 := vs[n].1];
      assert forall k :: k in m ==> HasKey(vs, k) by {
        forall k | k in m
          ensures HasKey(vs, k)
        {
          if k == vs[n].0 {
          } else {
            var i :| 0 <= i < n && vs[..n][i].0 == k;
            assert vs[i].0 == k;
          }
        }
      }
      assert forall i :: 0 <= i < n ==> vs[..n][i] == vs[i];
      m
  }

  lemma HasKeyAt<K, V>(vs: seq<(K, V)>, i: nat)
    requires i < |vs|
    ensures HasKey(vs, vs[i].0)
  {
  }

  lemma LastKeyIsNew<K, V>(vs: seq<(K, V)>)
    requires vs != [] && DistinctKeys(vs)
    ensures DistinctKeys(vs[..|vs| - 1]) && !HasKey(vs[..|vs| - 1], vs[|vs| - 1].0)
  {
  }

  lemma ContentsGrows<K(!new), V>(vs: seq<(K, V)>)
    requires vs != [] && DistinctKeys(vs) && DistinctKeys(vs[..|vs| - 1])
    ensures Contents(vs) == Contents(vs[..|vs| - 1])[vs[|vs| - 1].0 := vs[|vs| - 1].1]
  {
    hide HasKey, DistinctKeys;
  }

  // One map entry per position.
  lemma {:induction false} ContentsSize<K(!new), V>(vs: seq<(K, V)>)
    requires DistinctKeys(vs)
    ensures |Contents(vs)| == |vs|
  {
    hide HasKey, DistinctKeys;
    if vs == [] {
    } else {
      LastKeyIsNew(vs);
      ContentsSize(vs[..|vs| - 1]);
      ContentsGrows(vs);
    }
  }

  // The map is determined by what it says at each position.
  lemma ContentsDetermined<K(!new), V>(vs: seq<(K, V)>, m: map<K, V>)
    requires DistinctKeys(vs)
    requires forall i :: 0 <= i < |vs| ==> vs[i].0 in m && m[vs[i].0] == vs[i].1
    requires forall k :: k in m ==> HasKey(vs, k)
    ensures Contents(vs) == m
  {
  }

  lemma ContentsAppend<K(!new), V>(vs: seq<(K, V)>, k: K, v: V)
    requires DistinctKeys(vs) && !HasKey(vs, k)
    ensures DistinctKeys(vs + [(k, v)])
    ensures Contents(vs + [(k, v)]) == Contents(vs)[k := v]
  {
  }

  lemma SwapRemoveKeys<K(!new), V>(vs: seq<(K, V)>, i: nat, k: K)
    requires i < |vs| && HasKey(vs, k) && k != vs[i].0
    ensures HasKey(SwapRemove(vs, i), k)
  {
  }

  // Removing by swap-with-last takes exactly one key out of the map.
  lemma ContentsSwapRemove<K(!new), V>(vs: seq<(K, V)>, i: nat)
    requires i < |vs| && DistinctKeys(vs)
    ensures DistinctKeys(SwapRemove(vs, i))
    ensures Contents(SwapRemove(vs, i)) == Contents(vs) - {vs[i].0}
  {
    hide SwapRemove, Contents;
    var ws := SwapRemove(vs, i);
    var m := Contents(vs) - {vs[i].0};
    forall k | k in m
      ensures HasKey(ws, k)
    {
      SwapRemoveKeys(vs, i, k);
    }
    ContentsDetermined(ws, m);
  }

  lemma ContentsUpdate<K(!new), V>(vs: seq<(K, V)>, i: nat, v: V)
    requires i < |vs| && DistinctKeys(vs)
    ensures DistinctKeys(vs[i := (vs[i].0, v)])
    ensures Contents(vs[i := (vs[i].0, v)]) == Contents(vs)[vs[i].0 := v]
  {
    var ws := vs[i := (vs[i].0, v)];
    var m := Contents(vs)[vs[i].0 := v];
    forall k | k in m
      ensures HasKey(ws, k)
    {
      var j :| 0 <= j < |vs| && vs[j].0 == k;
      assert ws[j].0 == k;
    }
    ContentsDetermined(ws, m);
  }

  lemma ContentsRekey<K(!new), V>(vs: seq<(K, V)>, i: nat, k: K)
    requires i < |vs| && DistinctKeys(vs) && !HasKey(vs, k)
    ensures DistinctKeys(vs[i := (k, vs[i].1)])
    ensures Contents(vs[i := (k, vs[i].1)]) == (Contents(vs) - {vs[i].0})[k := vs[i].1]
  {
    var ws := vs[i := (k, vs[i].1)];
    var m := (Contents(vs) - {vs[i].0})[k := vs[i].1];
    assert ws[i].0 == k;
    forall x | x in m && x != k
      ensures HasKey(ws, x)
    {
      var j :| 0 <= j < |vs| && vs[j].0 == x;
      assert ws[j].0 == x;
    }
    ContentsDetermined(ws, m);
  }

  // ---- in-place de-duplication ----

  // Scan from position i: a pair whose key is already in front of it is overwritten by the last pair.
  function Dedup<K(==), V>(vs: seq<(K, V)>, i: nat): (r: seq<(K, V)>)
    requires i <= |vs|
    decreases |vs| - i
  {
    if i == |vs| then vs
    else if HasKey(vs[..i], vs[i].0) then Dedup(SwapRemove(vs, i), i)
    else Dedup(vs, i + 1)
  }

  lemma SwapMultiset<T>(a: seq<T>, x: T, b: seq<T>, y: T)
    ensures multiset(a + ([x] + b + [y])) == multiset(a + [y] + b) + multiset{x}
  {
  }

  lemma SwapRemoveMiddle<T>(front: seq<T>, x: T, middle: seq<T>, y: T)
    ensures SwapRemove(front + ([x] + middle + [y]), |front|) == front + [y] + middle
  {
  }

  lemma SwapRemoveTail<T>(s: seq<T>, i: nat)
    requires i < |s|
    ensures SwapRemove(s, i)[..i] == s[..i]
    ensures multiset(SwapRemove(s, i)[i..]) == multiset(s[i + 1..])
  {
    hide SwapRemove;
    var n, r := |s| - 1, SwapRemove(s, i);
    if i < n {
      assert r[i..] == [s[n]] + s[i + 1..n];
      assert s[i + 1..] == s[i + 1..n] + [s[n]];
    }
  }

  lemma SwapRemoveMultiset<T>(s: seq<T>, i: nat)
    requires i < |s|
    ensures multiset(s) == multiset(SwapRemove(s, i)) + multiset{s[i]}
  {
    hide SwapRemove;
    SwapRemoveCases(s, i);
    var n := |s| - 1;
    if i == n {
      assert s == s[..n] + [s[n]];
    } else {
      assert s == s[..i] + ([s[i]] + s[i + 1..n] + [s[n]]);
      SwapRemoveMiddle(s[..i], s[i], s[i + 1..n], s[n]);
      SwapMultiset(s[..i], s[i], s[i + 1..n], s[n]);
    }
  }

  lemma SwapRemoveDuplicateKey<K(!new), V>(vs: seq<(K, V)>, i: nat, k: K)
    requires i < |vs| && HasKey(vs[..i], vs[i].0)
    ensures HasKey(SwapRemove(vs, i), k) <==> HasKey(vs, k)
  {
  }

  lemma DedupStep<K, V>(vs: seq<(K, V)>, i: nat)
    requires i < |vs|
    ensures HasKey(vs[..i], vs[i].0) ==> Dedup(vs, i) == Dedup(SwapRemove(vs, i), i)
    ensures HasKey(vs[..i], vs[i].0) ==> SwapRemove(vs, i)[..i] == vs[..i]
    ensures !HasKey(vs[..i], vs[i].0) ==> Dedup(vs, i) == Dedup(vs, i + 1)
  {
  }

  // One original pair per distinct key: no pair is invented or doubled, no key is lost, none is left twice.
  lemma {:induction false} DedupExact<K(!new), V>(vs: seq<(K, V)>, i: nat)
    requires i <= |vs| && DistinctKeys(vs[..i])
    ensures DistinctKeys(Dedup(vs, i))
    ensures multiset(Dedup(vs, i)) <= multiset(vs)
    ensures |Dedup(vs, i)| >= i && Dedup(vs, i)[..i] == vs[..i]
    ensures forall k :: HasKey(Dedup(vs, i), k) <==> HasKey(vs, k)
    decreases |vs| - i
  {
    if i == |vs| {
      assert vs[..i] == vs;
    } else if HasKey(vs[..i], vs[i].0) {
      assert SwapRemove(vs, i)[..i] == vs[..i];
      DedupExact(SwapRemove(vs, i), i);
      SwapRemoveMultiset(vs, i);
      forall k {
        SwapRemoveDuplicateKey(vs, i, k);
      }
    } else {
      DistinctPrefix(vs, i);
      DedupExact(vs, i + 1);
      assert Dedup(vs, i)[..i] == Dedup(vs, i)[..i + 1][..i];
      assert vs[..i + 1][..i] == vs[..i];
    }
  }

  lemma DedupDone<K, V>(vs: seq<(K, V)>)
    ensures Dedup(vs, |vs|) == vs
  {
  }

  lemma DistinctEmpty<K, V>(vs: seq<(K, V)>)
    requires vs == []
    ensures DistinctKeys(vs)
  {
  }

  lemma DistinctPrefix<K, V>(vs: seq<(K, V)>, i: nat)
    requires i < |vs| && DistinctKeys(vs[..i]) && !HasKey(vs[..i], vs[i].0)
    ensures DistinctKeys(vs[..i + 1])
  {
  }

  // Which of several pairs with one key survives is decided by the scan, not by container order:
  // the pair moved from the back is met before the one that stood in front of it.
  lemma DedupMayKeepALaterPair()
    ensures Dedup([(1, "a"), (1, "b"), (2, "c"), (2, "d")], 0) == [(1, "a"), (2, "d")]
  {
  }

  // ---- removing a range ----

  function Reverse<T>(s: seq<T>): (r: seq<T>)
    ensures |r| == |s|
  {
    if s == [] then [] else Reverse(s[1..]) + [s[0]]
  }

  lemma {:induction false} ReverseMultiset<T>(s: seq<T>)
    ensures multiset(Reverse(s)) == multiset(s)
  {
    if s == [] {
    } else {
      ReverseMultiset(s[1..]);
      assert s == [s[0]] + s[1..];
    }
  }

  function Min(a: int, b: int): (m: int)
    ensures m <= a && m <= b && (m == a || m == b)
  {
    if a < b then a else b
  }

  // The vector after `j` of the leading removals of a range erase: the removed slots hold the tail, back to front.
  function RangePrefixErased<T>(s: seq<T>, first: nat, j: nat): (r: seq<T>)
    requires first + j <= |s| - j
    ensures |r| == |s| - j
  {
    s[..first] + Reverse(s[|s| - j..]) + s[first + j..|s| - j]
  }

  // The vector that a range erase leaves behind.
  function RangeErased<T>(s: seq<T>, first: nat, last: nat): (r: seq<T>)
    requires first <= last <= |s|
  {
    var m := Min(last - first, |s| - last);
    s[..first] + Reverse(s[|s| - m..]) + s[last..|s| - m]
  }

  lemma ReverseGrows<T>(s: seq<T>, n: nat)
    requires 0 < n <= |s|
    ensures Reverse(s[n - 1..]) == Reverse(s[n..]) + [s[n - 1]]
  {
    assert s[n - 1..][1..] == s[n..];
  }

  lemma ConcatAssociative<T>(a: seq<T>, b: seq<T>, c: seq<T>)
    ensures a + (b + c) == (a + b) + c
  {
  }

  lemma RangePrefixStep<T>(s: seq<T>, first: nat, j: nat)
    requires first + j + 1 <= |s| - j - 1
    ensures SwapRemove(RangePrefixErased(s, first, j), first + j) == RangePrefixErased(s, first, j + 1)
  {
    hide SwapRemove, Reverse;
    var n := |s| - j;
    var front, x, middle, y := s[..first] + Reverse(s[n..]), s[first + j], s[first + j + 1..n - 1], s[n - 1];
    assert s[first + j..n] == [x] + middle + [y];
    SwapRemoveMiddle(front, x, middle, y);
    ReverseGrows(s, n);
    ConcatAssociative(s[..first], Reverse(s[n..]), [y]);
  }

  // The vector while the trailing removals take the rest of the range off the end.
  function RangeSuffixErased<T>(s: seq<T>, first: nat, m: nat, idx: nat): (r: seq<T>)
    requires first + m <= idx <= |s| - m
    ensures |r| == idx
  {
    s[..first] + Reverse(s[|s| - m..]) + s[first + m..idx]
  }

  lemma RangeSuffixStep<T>(s: seq<T>, first: nat, m: nat, idx: nat)
    requires first + m < idx <= |s| - m
    ensures SwapRemove(RangeSuffixErased(s, first, m, idx), idx - 1) == RangeSuffixErased(s, first, m, idx - 1)
  {
    var front := s[..first] + Reverse(s[|s| - m..]);
    assert s[first + m..idx] == s[first + m..idx - 1] + [s[idx - 1]];
    ConcatAssociative(front, s[first + m..idx - 1], [s[idx - 1]]);
  }

  lemma RangeEnds<T>(s: seq<T>, first: nat, last: nat)
    requires first <= last <= |s|
    ensures var m := Min(last - first, |s| - last);
            && RangePrefixErased(s, first, 0) == s
            && (m == |s| - last ==> RangePrefixErased(s, first, m) == RangeSuffixErased(s, first, m, last)
                                    && RangeSuffixErased(s, first, m, first + m) == RangeErased(s, first, last))
            && (m == last - first ==> RangePrefixErased(s, first, m) == RangeErased(s, first, last))
  {
  }

  lemma SplitMultiset<T>(s: seq<T>, i: nat)
    requires i <= |s|
    ensures multiset(s) == multiset(s[..i]) + multiset(s[i..])
  {
    assert s == s[..i] + s[i..];
  }

  lemma TailMultiset<T>(s: seq<T>, last: nat, k: nat)
    requires last <= k <= |s|
    ensures multiset(s[last..]) == multiset(s[last..k]) + multiset(s[k..])
  {
    SplitMultiset(s[last..], k - last);
    assert s[last..][..k - last] == s[last..k];
    assert s[last..][k - last..] == s[k..];
  }

  lemma OuterFirst<T>(a: seq<T>, b: seq<T>, c: seq<T>)
    ensures multiset(a + c + b) == multiset(a) + (multiset(b) + multiset(c))
  {
  }

  // Exactly the pairs at positions first up to last are gone, and the front is untouched.
  lemma RangeErasedExact<T>(s: seq<T>, first: nat, last: nat)
    requires first <= last <= |s|
    ensures multiset(RangeErased(s, first, last)) == multiset(s[..first]) + multiset(s[last..])
    ensures s[..first] <= RangeErased(s, first, last)
  {
    var k := |s| - Min(last - first, |s| - last);
    var a, b, c := s[..first], s[last..k], Reverse(s[k..]);
    TailMultiset(s, last, k);
    ReverseMultiset(s[k..]);
    hide Reverse;
    assert RangeErased(s, first, last) == a + c + b;
    OuterFirst(a, b, c);
  }

  // ---- removing by predicate ----

  // What is left when the elements with the property are taken out.
  function FilterOut<T>(s: seq<T>, drop: T -> bool): (r: seq<T>)
    ensures |r| <= |s|
  {
    if s == [] then [] else (if drop(s[0]) then [] else [s[0]]) + FilterOut(s[1..], drop)
  }
}
