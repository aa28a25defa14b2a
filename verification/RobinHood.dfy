/**
 The bucket ring of the dense hash table: an array of (distance-and-fingerprint, value index)
 pairs in which every element sits at some forward offset from its home bucket.

 Nothing here knows about keys. A stored value is described by its `Tag`: the home bucket and the
 fingerprint that its hash selects. `pos` is a ghost sequence giving, for each value index, the
 bucket that points at it; `missing` names the one value index (if any) that has no bucket.
 */
module RobinHood {

  const DIST_INC: nat := 256

  datatype Bucket = Bucket(distFp: nat, valueIdx: nat)

  const EMPTY := Bucket(0, 0)

  // The distance and the fingerprint share a 32-bit word.
  const WORD: nat := 0x1_0000_0000

  const MAX_VALUES: nat := 0xFF_FFFE

  datatype Tag = Tag(home: nat, fp: nat)

  function Next(i: nat, n: nat): (r: nat)
    requires i < n
    ensures r < n
  {
    if i + 1 == n then 0 else i + 1
  }

  function Prev(i: nat, n: nat): (r: nat)
    requires i < n
    ensures r < n && Next(r, n) == i
  {
    if i == 0 then n - 1 else i - 1
  }

  // How many steps of Next lead from one bucket to another.
  function Cyc(from: nat, to: nat, n: nat): (d: nat)
    requires from < n && to < n
    ensures d < n
  {
    if from <= to then to - from else to + n - from
  }

  // The order the probes rely on: one step on, the entry is either at its home (or empty), or at
  // most one distance unit above its predecessor.
  predicate Follows(x: Bucket, y: Bucket)
  {
    y.distFp < 2 * DIST_INC || y.distFp <= x.distFp + DIST_INC
  }

  ghost predicate Ordered(b: seq<Bucket>)
  {
    forall i :: 0 <= i < |b| ==> Follows(b[i], b[Next(i, |b|)])
  }

  ghost predicate TagsFit(tags: seq<Tag>, n: nat)
  {
    forall v :: 0 <= v < |tags| ==> tags[v].home < n && tags[v].fp < DIST_INC
  }

  // A bucket at position i that stands for a value with this tag.
  predicate Carries(x: Bucket, i: nat, t: Tag, n: nat)
    requires i < n && t.home < n
  {
    x.distFp == (Cyc(t.home, i, n) + 1) * DIST_INC + t.fp
  }

  ghost predicate Indexed(b: seq<Bucket>, tags: seq<Tag>, pos: seq<nat>, missing: int)
  {
    && |pos| == |tags|
    && TagsFit(tags, |b|)
    && (forall i :: 0 <= i < |b| && b[i].distFp == 0 ==> b[i] == EMPTY)
    && (forall i :: 0 <= i < |b| && b[i].distFp != 0 ==>
          && b[i].valueIdx < |tags|
          && b[i].valueIdx != missing
          && pos[b[i].valueIdx] == i
          && Carries(b[i], i, tags[b[i].valueIdx], |b|))
    && (forall v :: 0 <= v < |tags| && v != missing ==>
          pos[v] < |b| && b[pos[v]].distFp != 0 && b[pos[v]].valueIdx == v)
  }

  ghost predicate Sound(b: seq<Bucket>, tags: seq<Tag>, pos: seq<nat>)
  {
    |tags| < |b| && Ordered(b) && Indexed(b, tags, pos, -1)
  }

  // ---- what the order gives to a probe ----

  // From the home of a stored value up to its bucket, no entry is below the probe.
  lemma {:induction false} ProbeNeverAbove(b: seq<Bucket>, tags: seq<Tag>, pos: seq<nat>, missing: int, v: nat, i: nat)
    requires Ordered(b) && Indexed(b, tags, pos, missing)
    requires v < |tags| && v != missing && i < |b|
    requires Cyc(tags[v].home, i, |b|) <= Cyc(tags[v].home, pos[v], |b|)
    ensures b[i].distFp >= (Cyc(tags[v].home, i, |b|) + 1) * DIST_INC + tags[v].fp
    decreases Cyc(tags[v].home, pos[v], |b|) - Cyc(tags[v].home, i, |b|)
  {
    assert b[pos[v]].valueIdx == v;
    if i != pos[v] {
      ProbeNeverAbove(b, tags, pos, missing, v, Next(i, |b|));
      assert Follows(b[i], b[Next(i, |b|)]);
    }
  }

  // Behind an empty bucket no entry is further from home than it is from that bucket.
  lemma {:induction false} DistanceBound(b: seq<Bucket>, e: nat, i: nat)
    requires Ordered(b) && e < |b| && i < |b| && b[e].distFp == 0
    ensures b[i].distFp < DIST_INC * (Cyc(e, i, |b|) + 1)
    decreases Cyc(e, i, |b|)
  {
    if i != e {
      var p := Prev(i, |b|);
      DistanceBound(b, e, p);
      assert Follows(b[p], b[Next(p, |b|)]);
    }
  }

  // ---- the words never wrap ----

  // The bucket d steps on, and all from there back to the start.
  function At(from: nat, d: nat, n: nat): (r: nat)
    requires from < n && d < n
    ensures r < n && Cyc(from, r, n) == d
  {
    if from + d < n then from + d else from + d - n
  }

  ghost function Arc(from: nat, d: nat, n: nat): (s: set<nat>)
    requires from < n && d < n
    ensures |s| == d + 1 && forall i :: i in s ==> i < n && Cyc(from, i, n) <= d
  {
    if d == 0 then {from} else Arc(from, d - 1, n) + {At(from, d, n)}
  }

  // Every bucket between an entry's home and the entry is in use, so the distance counts at most to the number
  // of values.
  lemma DistanceFits(b: seq<Bucket>, tags: seq<Tag>, pos: seq<nat>, missing: int, i: nat)
    requires Ordered(b) && Indexed(b, tags, pos, missing) && i < |b|
    ensures b[i].distFp < DIST_INC * (|tags| + 1)
  {
    if b[i].distFp != 0 {
      var v := b[i].valueIdx;
      var d := Cyc(tags[v].home, i, |b|);
      var arc, held := Arc(tags[v].home, d, |b|), set x | x in pos;
      forall j | j in arc
        ensures j in held
      {
        ProbeNeverAbove(b, tags, pos, missing, v, j);
        assert pos[b[j].valueIdx] == j;
      }
      DistinctElementsAtMostLength(pos);
      SubsetSize(arc, held);
    }
  }

  // Each word has room for one more distance unit.
  ghost predicate WordsFit(b: seq<Bucket>)
  {
    forall i :: 0 <= i < |b| ==> b[i].distFp + DIST_INC < WORD
  }

  lemma RingFits(b: seq<Bucket>, tags: seq<Tag>, pos: seq<nat>, missing: int)
    requires Ordered(b) && Indexed(b, tags, pos, missing) && |tags| <= MAX_VALUES
    ensures WordsFit(b)
  {
    forall i | 0 <= i < |b|
      ensures b[i].distFp + DIST_INC < WORD
    {
      DistanceFits(b, tags, pos, missing, i);
    }
  }

  // The limit is exact: the word of a probe for a new entry fits on every ring of n values, whatever their hashes,
  // if and only if n is within it.
  lemma ProbeWordsFitIff(n: nat)
    ensures (forall b: seq<Bucket>, tags: seq<Tag>, pos: seq<nat>, tag: Tag, distFp: nat, p: nat ::
               Sound(b, tags, pos) && |tags| == n && Due(b, tag, distFp, p) ==> distFp < WORD)
            <==> n <= MAX_VALUES
  {
    hide Sound, Due;
    if n <= MAX_VALUES {
      forall b: seq<Bucket>, tags: seq<Tag>, pos: seq<nat>, tag: Tag, distFp: nat, p: nat
        | Sound(b, tags, pos) && |tags| == n && Due(b, tag, distFp, p)
        ensures distFp < WORD
      {
        DueFits(b, tags, pos, tag, distFp, p);
      }
    } else {
      var b, tags, pos := Crowded(n), seq(n, _ => Tag(0, 0)), seq(n, i requires 0 <= i => i as nat);
      CrowdedSound(n);
      assert Due(b, Tag(0, 0), (n + 1) * DIST_INC, n) by {
        CrowdedDue(n);
      }
    }
  }

  lemma DueFits(b: seq<Bucket>, tags: seq<Tag>, pos: seq<nat>, tag: Tag, distFp: nat, p: nat)
    requires Sound(b, tags, pos) && |tags| <= MAX_VALUES && Due(b, tag, distFp, p)
    ensures distFp < WORD
  {
    hide Ordered, Indexed;
    RingFits(b, tags, pos, -1);
  }

  // All values have the same home and fingerprint.
  function Crowded(n: nat): (b: seq<Bucket>)
  {
    seq(n, i requires 0 <= i => Bucket((i + 1) * DIST_INC, i)) + [EMPTY]
  }

  lemma CrowdedSound(n: nat)
    ensures Sound(Crowded(n), seq(n, _ => Tag(0, 0)), seq(n, i requires 0 <= i => i as nat))
  {
    var b := Crowded(n);
    forall i | 0 <= i < |b|
      ensures Follows(b[i], b[Next(i, |b|)])
    {
    }
  }

  lemma CrowdedDue(n: nat)
    ensures Due(Crowded(n), Tag(0, 0), (n + 1) * DIST_INC, n)
  {
  }

  lemma {:induction false} DistinctElementsAtMostLength<T>(s: seq<T>)
    ensures |set x | x in s| <= |s|
  {
    if s == [] {
    } else {
      DistinctElementsAtMostLength(s[1..]);
      assert (set x | x in s) == {s[0]} + (set x | x in s[1..]);
    }
  }

  ghost function Below(n: nat): (r: set<nat>)
    ensures |r| == n && forall i: nat :: i in r <==> i < n
  {
    if n == 0 then {} else Below(n - 1) + {n - 1}
  }

  lemma EmptyBucketExists(b: seq<Bucket>, tags: seq<Tag>, pos: seq<nat>, missing: int) returns (e: nat)
    requires Indexed(b, tags, pos, missing) && |tags| < |b|
    ensures e < |b| && b[e] == EMPTY
  {
    if forall i :: 0 <= i < |b| ==> b[i].distFp != 0 {
      var held := set x | x in pos;
      forall i: nat | i < |b|
        ensures i in held
      {
        assert pos[b[i].valueIdx] == i;
      }
      DistinctElementsAtMostLength(pos);
      SubsetSize(Below(|b|), held);
    }
    e :| 0 <= e < |b| && b[e].distFp == 0;
  }

  lemma {:induction false} SubsetSize<T>(a: set<T>, b: set<T>)
    requires a <= b
    ensures |a| <= |b|
  {
    if a == {} {
    } else {
      var x :| x in a;
      SubsetSize(a - {x}, b - {x});
    }
  }

  // ---- placing an entry ----

  // An entry `c` in hand, due at bucket p, and everything else in order.
  ghost predicate InHand(b: seq<Bucket>, tags: seq<Tag>, pos: seq<nat>, c: Bucket, p: nat)
  {
    && |tags| < |b| && p < |b|
    && Ordered(b)
    && Indexed(b, tags, pos, c.valueIdx)
    && c.valueIdx < |tags|
    && Carries(c, p, tags[c.valueIdx], |b|)
    && Follows(b[Prev(p, |b|)], c)
    && b[p].distFp <= c.distFp
  }

  lemma PlaceOrdered(b: seq<Bucket>, tags: seq<Tag>, pos: seq<nat>, c: Bucket, p: nat)
    requires InHand(b, tags, pos, c, p)
    ensures Ordered(b[p := c])
  {
  }

  lemma PlaceStep(b: seq<Bucket>, tags: seq<Tag>, pos: seq<nat>, c: Bucket, p: nat, e: nat)
    requires InHand(b, tags, pos, c, p)
    requires b[p].distFp != 0 && e < |b| && b[e].distFp == 0
    ensures InHand(b[p := c], tags, pos[c.valueIdx := p],
                   Bucket(b[p].distFp + DIST_INC, b[p].valueIdx), Next(p, |b|))
  {
    PlaceOrdered(b, tags, pos, c, p);
    DistanceBound(b, e, p);
    assert Follows(b[p], b[Next(p, |b|)]);
  }

  lemma PlaceLast(b: seq<Bucket>, tags: seq<Tag>, pos: seq<nat>, c: Bucket, p: nat)
    requires InHand(b, tags, pos, c, p) && b[p].distFp == 0
    ensures Sound(b[p := c], tags, pos[c.valueIdx := p])
  {
  }

  // Writes the entry at its place and pushes what was there one bucket on, until a bucket is free.
  method PlaceAndShiftUp(a: array<Bucket>, bucket: Bucket, place: nat, ghost tags: seq<Tag>, ghost pos: seq<nat>)
    returns (ghost pos': seq<nat>)
    requires InHand(a[..], tags, pos, bucket, place) && |pos| == |tags| <= MAX_VALUES && bucket.distFp < WORD
    modifies a
    ensures Sound(a[..], tags, pos')
  {
    hide Ordered, Indexed, Carries;
    var c, p := bucket, place;
    pos' := pos;
    ghost var b := a[..];
    ghost var e := EmptyBucketExists(b, tags, pos, c.valueIdx);
    while a[p].distFp != 0
      invariant a[..] == b && InHand(b, tags, pos', c, p) && |pos'| == |tags| && c.distFp < WORD
      invariant e < a.Length && b[e].distFp == 0
      decreases Cyc(p, e, a.Length)
    {
      RingFits(b, tags, pos', c.valueIdx);
      PlaceStep(b, tags, pos', c, p, e);
      pos' := pos'[c.valueIdx := p];
      b := b[p := c];
      var swapped := a[p];
      a[p] := c;
      c := Bucket(swapped.distFp + DIST_INC, swapped.valueIdx);
      p := Next(p, a.Length);
    }
    PlaceLast(b, tags, pos', c, p);
    pos' := pos'[c.valueIdx := p];
    a[p] := c;
    assert a[..] == b[p := c];
  }

  // ---- removing an entry ----

  // The ring with the contents of bucket h considered gone; `gone` is the value index it stood for.
  ghost predicate WithHole(b: seq<Bucket>, tags: seq<Tag>, pos: seq<nat>, h: nat, gone: nat)
  {
    && 3 <= |b| && h < |b| && gone < |tags| < |b|
    && Indexed(b[h := EMPTY], tags, pos, gone)
    && (forall i :: 0 <= i < |b| && i != h && Next(i, |b|) != h ==> Follows(b[i], b[Next(i, |b|)]))
    && (b[Next(h, |b|)].distFp >= 2 * DIST_INC ==>
          Follows(b[Prev(h, |b|)], Bucket(b[Next(h, |b|)].distFp - DIST_INC, 0)))
  }

  lemma HoleStart(b: seq<Bucket>, tags: seq<Tag>, pos: seq<nat>, h: nat)
    requires Sound(b, tags, pos) && 3 <= |b| && h < |b| && b[h].distFp != 0
    ensures WithHole(b, tags, pos, h, b[h].valueIdx)
  {
  }

  lemma HoleStep(b: seq<Bucket>, tags: seq<Tag>, pos: seq<nat>, h: nat, gone: nat)
    requires WithHole(b, tags, pos, h, gone)
    requires b[Next(h, |b|)].distFp >= 2 * DIST_INC
    ensures var moved := b[Next(h, |b|)];
            moved.valueIdx < |pos| &&
            WithHole(b[h := Bucket(moved.distFp - DIST_INC, moved.valueIdx)], tags,
                     pos[moved.valueIdx := h], Next(h, |b|), gone)
  {
    var x := Next(h, |b|);
    var moved := b[x];
    var T := b[h := EMPTY];
    assert T[x] == moved;
    assert pos[moved.valueIdx] == x;
    var y := Bucket(moved.distFp - DIST_INC, moved.valueIdx);
    assert Carries(y, h, tags[moved.valueIdx], |b|);
    var b' := b[h := y];
    var pos' := pos[moved.valueIdx := h];
    var T' := b'[x := EMPTY];
    assert forall i :: 0 <= i < |b| && i != h && i != x ==> T'[i] == T[i];
    assert Indexed(T', tags, pos', gone) by {
      forall v | 0 <= v < |tags| && v != gone
        ensures pos'[v] < |b| && T'[pos'[v]].distFp != 0 && T'[pos'[v]].valueIdx == v
      {
        assert T[pos[v]].valueIdx == v;
      }
    }
    forall i | 0 <= i < |b| && i != x && Next(i, |b|) != x
      ensures Follows(b'[i], b'[Next(i, |b|)])
    {
      if Next(i, |b|) == h {
        assert i == Prev(h, |b|);
      }
    }
    assert Follows(b[x], b[Next(x, |b|)]);
    assert Prev(x, |b|) == h;
  }

  lemma HoleEnd(b: seq<Bucket>, tags: seq<Tag>, pos: seq<nat>, h: nat, gone: nat)
    requires WithHole(b, tags, pos, h, gone)
    requires b[Next(h, |b|)].distFp < 2 * DIST_INC
    ensures Ordered(b[h := EMPTY]) && Indexed(b[h := EMPTY], tags, pos, gone)
  {
  }

  // Closes the gap: entries that are not at their home move one bucket back.
  method EraseAndShiftDown(a: array<Bucket>, bucketIdx: nat, ghost tags: seq<Tag>, ghost pos: seq<nat>)
    returns (ghost pos': seq<nat>)
    requires 3 <= a.Length && Sound(a[..], tags, pos) && bucketIdx < a.Length && a[bucketIdx].distFp != 0
    modifies a
    ensures Ordered(a[..]) && Indexed(a[..], tags, pos', old(a[bucketIdx].valueIdx)) && |pos'| == |tags|
  {
    hide Ordered, Indexed, Follows;
    ghost var gone, b := a[bucketIdx].valueIdx, a[..];
    ghost var e := EmptyBucketExists(b, tags, pos, -1);
    HoleStart(b, tags, pos, bucketIdx);
    pos' := pos;
    var h := bucketIdx;
    var nextIdx := Next(h, a.Length);
    while a[nextIdx].distFp >= 2 * DIST_INC
      invariant a[..] == b && WithHole(b, tags, pos', h, gone)
      invariant nextIdx == Next(h, a.Length)
      invariant e < a.Length && e != h && b[e].distFp == 0
      decreases Cyc(h, e, a.Length)
    {
      HoleStep(b, tags, pos', h, gone);
      pos' := pos'[a[nextIdx].valueIdx := h];
      a[h] := Bucket(a[nextIdx].distFp - DIST_INC, a[nextIdx].valueIdx);
      b := b[h := a[h]];
      h, nextIdx := nextIdx, Next(nextIdx, a.Length);
    }
    HoleEnd(b, tags, pos', h, gone);
    a[h] := EMPTY;
    assert a[..] == b[h := EMPTY];
    PosLength(a[..], tags, pos', gone);
  }

  // ---- searching for the bucket of a known value ----

  // Walks from the home bucket until the value index matches. Every bucket on the way is in use, so
  // an empty bucket, whose value index also reads 0, is never taken for the one searched.
  method BucketOfValue(a: array<Bucket>, home: nat, idx: nat, ghost tags: seq<Tag>, ghost pos: seq<nat>,
                       ghost missing: int)
    returns (r: nat)
    requires Ordered(a[..]) && Indexed(a[..], tags, pos, missing)
    requires idx < |tags| && idx != missing && home == tags[idx].home
    ensures r < a.Length && r == pos[idx] && a[r].distFp != 0 && a[r].valueIdx == idx
  {
    r := home;
    ghost var b := a[..];
    ghost var target := pos[idx];
    assert b[target].valueIdx == idx;
    while a[r].valueIdx != idx
      invariant r < a.Length && Cyc(home, r, a.Length) <= Cyc(home, target, a.Length)
      decreases a.Length - Cyc(home, r, a.Length)
    {
      r := Next(r, a.Length);
    }
    ProbeNeverAbove(b, tags, pos, missing, idx, r);
    assert pos[b[r].valueIdx] == r;
  }

  // ---- swap-with-last ----

  function SwapRemove<T>(s: seq<T>, i: nat): (r: seq<T>)
    requires i < |s|
    ensures |r| == |s| - 1
    ensures forall j :: 0 <= j < |r| ==> r[j] == if j == i then s[|s| - 1] else s[j]
  {
    if i == |s| - 1 then s[..i] else s[i := s[|s| - 1]][..|s| - 1]
  }

  lemma SwapRemoveCases<T>(s: seq<T>, i: nat)
    requires i < |s|
    ensures i == |s| - 1 ==> SwapRemove(s, i) == s[..i]
    ensures i != |s| - 1 ==> SwapRemove(s, i) == s[i := s[|s| - 1]][..|s| - 1]
  {
  }

  // The removed index was the last one: nothing moves.
  lemma DropLast(b: seq<Bucket>, tags: seq<Tag>, pos: seq<nat>)
    requires Ordered(b) && |tags| > 0 && Indexed(b, tags, pos, |tags| - 1) && |tags| < |b|
    ensures Sound(b, SwapRemove(tags, |tags| - 1), pos[..|tags| - 1])
  {
  }

  // Otherwise the bucket of the last value is told the new index.
  lemma MoveLast(b: seq<Bucket>, tags: seq<Tag>, pos: seq<nat>, gone: nat, q: nat)
    requires Ordered(b) && gone < |tags| - 1 && Indexed(b, tags, pos, gone) && |tags| < |b|
    requires q == pos[|tags| - 1] && q < |b|
    ensures Sound(b[q := Bucket(b[q].distFp, gone)], SwapRemove(tags, gone), SwapRemove(pos, gone))
  {
    var n := |tags| - 1;
    assert b[q].valueIdx == n;
    var b' := b[q := Bucket(b[q].distFp, gone)];
    forall i | 0 <= i < |b|
      ensures Follows(b'[i], b'[Next(i, |b|)])
    {
      assert Follows(b[i], b[Next(i, |b|)]);
    }
    var tags', pos' := SwapRemove(tags, gone), SwapRemove(pos, gone);
    forall i | 0 <= i < |b| && b'[i].distFp != 0
      ensures b'[i].valueIdx < |tags'| && pos'[b'[i].valueIdx] == i && Carries(b'[i], i, tags'[b'[i].valueIdx], |b|)
    {
      if i != q {
        assert pos[b[i].valueIdx] == i;
      }
    }
    forall v | 0 <= v < n
      ensures pos'[v] < |b| && b'[pos'[v]].distFp != 0 && b'[pos'[v]].valueIdx == v
    {
      if v != gone {
        assert b[pos[v]].valueIdx == v;
      }
    }
  }

  // After the bucket of `gone` was erased and the last value moved into its slot: finds the bucket
  // of the moved value and tells it the new index.
  method RetargetLast(a: array<Bucket>, home: nat, last: nat, gone: nat, ghost tags: seq<Tag>, ghost pos: seq<nat>)
    returns (ghost pos': seq<nat>)
    requires Ordered(a[..]) && gone < |tags| - 1 && Indexed(a[..], tags, pos, gone) && |tags| < a.Length
    requires last == |tags| - 1 && home == tags[last].home
    modifies a
    ensures Sound(a[..], SwapRemove(tags, gone), pos')
  {
    hide Ordered, Indexed;
    ghost var b := a[..];
    assert |pos| == |tags| by {
      PosLength(b, tags, pos, gone);
    }
    var q := BucketOfValue(a, home, last, tags, pos, gone);
    MoveLast(b, tags, pos, gone, q);
    pos' := SwapRemove(pos, gone);
    a[q] := Bucket(a[q].distFp, gone);
    assert a[..] == b[q := Bucket(b[q].distFp, gone)];
  }

  lemma PosLength(b: seq<Bucket>, tags: seq<Tag>, pos: seq<nat>, missing: int)
    requires Indexed(b, tags, pos, missing)
    ensures |pos| == |tags|
  {
  }

  // ---- where a new entry is due ----

  // Every entry that a probe for this tag meets before bucket p is strictly further from its home.
  ghost predicate AllAbove(b: seq<Bucket>, tag: Tag, p: nat)
    requires p < |b| && tag.home < |b|
  {
    forall i :: 0 <= i < |b| && Cyc(tag.home, i, |b|) < Cyc(tag.home, p, |b|) ==>
      b[i].distFp > (Cyc(tag.home, i, |b|) + 1) * DIST_INC + tag.fp
  }

  // Skips the entries that are strictly further from home. Behind an empty bucket e the walk ends.
  method NextWhileLess(a: array<Bucket>, tag: Tag, ghost e: nat) returns (distFp: nat, p: nat)
    requires Ordered(a[..]) && WordsFit(a[..]) && e < a.Length && a[e].distFp == 0
    requires tag.home < a.Length && tag.fp < DIST_INC
    ensures Due(a[..], tag, distFp, p) && AllAbove(a[..], tag, p) && distFp < WORD
  {
    hide Ordered, AllAbove, Follows;
    ProbingStart(a[..], tag);
    distFp, p := DIST_INC + tag.fp, tag.home;
    while distFp < a[p].distFp
      invariant Probing(a[..], tag, distFp, p) && distFp < WORD
      decreases a.Length - Cyc(tag.home, p, a.Length)
    {
      SkipOne(a[..], tag, distFp, p, e);
      distFp, p := distFp + DIST_INC, Next(p, a.Length);
    }
  }

  // The probe for a tag has come to bucket p, past strictly greater entries only.
  ghost predicate Probing(b: seq<Bucket>, tag: Tag, distFp: nat, p: nat)
  {
    && p < |b| && tag.home < |b| && tag.fp < DIST_INC
    && distFp == (Cyc(tag.home, p, |b|) + 1) * DIST_INC + tag.fp
    && Follows(b[Prev(p, |b|)], Bucket(distFp, 0)) && AllAbove(b, tag, p)
  }

  lemma SkipOne(b: seq<Bucket>, tag: Tag, distFp: nat, p: nat, e: nat)
    requires Ordered(b) && e < |b| && b[e].distFp == 0 && Probing(b, tag, distFp, p) && distFp < b[p].distFp
    ensures Cyc(tag.home, Next(p, |b|), |b|) == Cyc(tag.home, p, |b|) + 1
    ensures Probing(b, tag, distFp + DIST_INC, Next(p, |b|))
  {
    hide Ordered;
    DistanceBound(b, e, p);
    var n := Next(p, |b|);
    forall i | 0 <= i < |b| && Cyc(tag.home, i, |b|) < Cyc(tag.home, n, |b|)
      ensures b[i].distFp > (Cyc(tag.home, i, |b|) + 1) * DIST_INC + tag.fp
    {
      if i == p {
      } else {
        assert Cyc(tag.home, i, |b|) != Cyc(tag.home, p, |b|);
      }
    }
  }

  lemma ProbingStart(b: seq<Bucket>, tag: Tag)
    requires tag.home < |b| && tag.fp < DIST_INC
    ensures Probing(b, tag, DIST_INC + tag.fp, tag.home)
  {
  }

  ghost predicate Due(b: seq<Bucket>, tag: Tag, distFp: nat, p: nat)
  {
    && p < |b| && tag.home < |b| && tag.fp < DIST_INC
    && distFp == (Cyc(tag.home, p, |b|) + 1) * DIST_INC + tag.fp
    && Follows(b[Prev(p, |b|)], Bucket(distFp, 0))
    && b[p].distFp <= distFp
  }

  // An entry for value index |tags| may be placed where a probe for its tag stopped.
  lemma DueInHand(b: seq<Bucket>, tags: seq<Tag>, pos: seq<nat>, tag: Tag, distFp: nat, p: nat)
    requires Sound(b, tags, pos) && Due(b, tag, distFp, p) && |tags| + 1 < |b|
    ensures InHand(b, tags + [tag], pos + [0], Bucket(distFp, |tags|), p)
  {
  }

  // The same for an entry whose value index is known but has no bucket at the moment.
  lemma DueAgain(b: seq<Bucket>, tags: seq<Tag>, pos: seq<nat>, missing: nat, tag: Tag, distFp: nat, p: nat)
    requires Ordered(b) && Indexed(b, tags, pos, missing) && missing < |tags| < |b| && Due(b, tag, distFp, p)
    ensures InHand(b, tags[missing := tag], pos, Bucket(distFp, missing), p)
  {
  }

  // Takes the entry of value `idx` out of the ring and puts it back under another tag.
  method MoveEntry(a: array<Bucket>, idx: nat, oldHome: nat, tag: Tag, ghost tags: seq<Tag>, ghost pos: seq<nat>)
    returns (ghost pos': seq<nat>)
    requires 3 <= a.Length && Sound(a[..], tags, pos) && idx < |tags| <= MAX_VALUES && oldHome == tags[idx].home
    requires tag.home < a.Length && tag.fp < DIST_INC
    modifies a
    ensures Sound(a[..], tags[idx := tag], pos')
  {
    hide Ordered, Indexed;
    var bucketIdx := BucketOfValue(a, oldHome, idx, tags, pos, -1);
    pos' := EraseAndShiftDown(a, bucketIdx, tags, pos);
    ghost var e := EmptyBucketExists(a[..], tags, pos', idx);
    RingFits(a[..], tags, pos', idx);
    var distFp, p := NextWhileLess(a, tag, e);
    PosLength(a[..], tags, pos', idx);
    DueAgain(a[..], tags, pos', idx, tag, distFp, p);
    pos' := PlaceAndShiftUp(a, Bucket(distFp, idx), p, tags[idx := tag], pos');
  }
}
