/**
 The open-addressing table with densely stored values: robin-hood probing over a bucket array,
 backward-shift deletion, swap-with-last in the values vector, rebuild on growth.
 Iterators are positions in `values`.
 */
module DenseTable {
  import opened Options
  import opened RobinHood
  import opened HashLayout
  import opened DenseValues

  ghost function TagsOf<K, V>(vs: seq<(K, V)>, hash: K -> Hash64, shifts: nat): (ts: seq<Tag>)
    ensures |ts| == |vs|
    ensures forall i :: 0 <= i < |vs| ==> ts[i] == TagOf(hash(vs[i].0), shifts)
  {
    seq(|vs|, i requires 0 <= i < |vs| => TagOf(hash(vs[i].0), shifts))
  }

  lemma SwapRemoveTags<K, V>(vs: seq<(K, V)>, i: nat, hash: K -> Hash64, shifts: nat)
    requires i < |vs|
    ensures TagsOf(SwapRemove(vs, i), hash, shifts) == SwapRemove(TagsOf(vs, hash, shifts), i)
  {
  }

  class Table<K(==, !new), V> {
    const hash: K -> Hash64
    var values: seq<(K, V)>
    var buckets: array<Bucket>
    var maxBucketCapacity: nat
    var shifts: nat
    ghost var pos: seq<nat>

    // The bucket array has the size and load limit that `shifts` stands for.
    ghost predicate Layout()
      reads this
    {
      && MIN_SHIFTS <= shifts <= INITIAL_SHIFTS
      && buckets.Length == BucketCount(shifts)
      && maxBucketCapacity == LoadLimit(buckets.Length)
    }

    ghost function Tags(live: nat): (ts: seq<Tag>)
      requires live <= |values|
      reads this
    {
      TagsOf(values[..live], hash, shifts)
    }

    // The first `live` values are reachable through the buckets, the rest are not.
    ghost predicate Indexes(live: nat)
      reads this, buckets
    {
      live <= |values| && Sound(buckets[..], Tags(live), pos)
    }

    ghost predicate Valid()
      reads this, buckets
    {
      && Layout()
      && DistinctKeys(values)
      && |values| <= maxBucketCapacity && |values| <= MAX_VALUES
      && Indexes(|values|)
    }

    lemma Open()
      requires Valid()
      ensures Layout() && DistinctKeys(values) && |values| <= maxBucketCapacity && Indexes(|values|)
      ensures values[..|values|] == values && 3 < buckets.Length && |values| <= MAX_VALUES
    {
      BucketCountRange(shifts);
    }

    ghost function Map(): (m: map<K, V>)
      requires DistinctKeys(values)
      reads this
    {
      Contents(values)
    }

    constructor (hash: K -> Hash64, bucketCount: nat)
      requires bucketCount <= Capacity(MAX_BUCKETS)
      ensures Valid() && fresh(buckets) && this.hash == hash
      ensures values == [] && Map() == map[]
      ensures bucketCount <= maxBucketCapacity && LeastFor(bucketCount)
    {
      this.hash := hash;
      values := [];
      shifts := INITIAL_SHIFTS;
      maxBucketCapacity := 0;
      pos := [];
      buckets := new Bucket[0];
      new;
      if bucketCount != 0 {
        Reserve(bucketCount);
      } else {
        AllocateBucketsFromShift();
        ClearBuckets();
      }
    }

    // ---- bucket array ----

    method AllocateBucketsFromShift()
      requires MIN_SHIFTS <= shifts <= INITIAL_SHIFTS
      modifies this`buckets, this`maxBucketCapacity
      ensures Layout() && fresh(buckets)
    {
      BucketCountRange(shifts);
      buckets := new Bucket[BucketCount(shifts)](_ => EMPTY);
      maxBucketCapacity := LoadLimit(buckets.Length);
    }

    method ClearBuckets()
      requires Layout()
      modifies buckets, this`pos
      ensures Indexes(0) && pos == []
    {
      BucketCountRange(shifts);
      for i := 0 to buckets.Length
        invariant forall j :: 0 <= j < i ==> buckets[j] == EMPTY
      {
        buckets[i] := EMPTY;
      }
      pos := [];
    }

    // The smallest size at which `s` values fit; the search starts from the initial size. When they do not fit into
    // the largest table it ends at 0, for which there is no size.
    method CalcShiftsForSize(s: nat) returns (r: nat)
      ensures s <= Capacity(MAX_BUCKETS) ==> MIN_SHIFTS <= r <= INITIAL_SHIFTS && s <= Capacity(BucketCount(r))
      ensures s <= Capacity(MAX_BUCKETS) && r < INITIAL_SHIFTS ==> Capacity(BucketCount(r + 1)) < s
      ensures s > Capacity(MAX_BUCKETS) ==> r == 0
    {
      r := INITIAL_SHIFTS;
      while r > 0 && Capacity(BucketCount(r)) < s
        invariant 0 <= r <= INITIAL_SHIFTS && (r < MIN_SHIFTS ==> s > Capacity(MAX_BUCKETS))
        invariant r < INITIAL_SHIFTS ==> Capacity(BucketCount(r + 1)) < s
      {
        r := r - 1;
      }
      if r > 0 {
        BucketCountGrows(1, r);
        CapacityMonotone(BucketCount(r), MAX_BUCKETS);
      }
    }

    // No smaller number of buckets has room for s values.
    ghost predicate LeastFor(s: nat)
      requires 0 < shifts <= INITIAL_SHIFTS
      reads this
    {
      shifts < INITIAL_SHIFTS ==> Capacity(BucketCount(shifts + 1)) < s
    }

    // ---- probing ----

    // No live value with this key has its bucket before bucketIdx on the probe path.
    ghost predicate NotBefore(key: K, live: nat, bucketIdx: nat)
      requires Layout() && Indexes(live)
      reads this, buckets
    {
      && bucketIdx < buckets.Length
      && TagOf(hash(key), shifts).home < buckets.Length
      && forall v :: 0 <= v < live && values[v].0 == key ==>
           Cyc(TagOf(hash(key), shifts).home, pos[v], buckets.Length)
             >= Cyc(TagOf(hash(key), shifts).home, bucketIdx, buckets.Length)
    }

    ghost predicate ProbeAt(key: K, distFp: nat, bucketIdx: nat)
      reads this
    {
      var t := TagOf(hash(key), shifts);
      && bucketIdx < buckets.Length && t.home < buckets.Length && t.fp < DIST_INC
      && distFp == (Cyc(t.home, bucketIdx, buckets.Length) + 1) * DIST_INC + t.fp
    }

    lemma ProbeStart(key: K, live: nat)
      requires Layout() && Indexes(live)
      ensures var t := TagOf(hash(key), shifts);
              ProbeAt(key, DIST_INC + t.fp, t.home) && NotBefore(key, live, t.home)
    {
      HomeInRange(hash(key), shifts);
    }

    lemma WordsHaveRoom(live: nat)
      requires Layout() && Indexes(live) && live <= MAX_VALUES
      ensures forall i :: 0 <= i < buckets.Length ==> buckets[i].distFp + DIST_INC < WORD
    {
      RingFits(buckets[..], Tags(live), pos, -1);
      assert forall i :: 0 <= i < buckets.Length ==> buckets[..][i] == buckets[i];
    }

    lemma TagOfLive(v: nat, live: nat)
      requires Layout() && Indexes(live) && v < live
      ensures Tags(live)[v] == TagOf(hash(values[v].0), shifts)
      ensures pos[v] < buckets.Length && buckets[pos[v]].valueIdx == v
      ensures buckets[pos[v]].distFp ==
              (Cyc(Tags(live)[v].home, pos[v], buckets.Length) + 1) * DIST_INC + Tags(live)[v].fp
    {
    }

    lemma InUse(live: nat, bucketIdx: nat)
      requires Layout() && Indexes(live)
      requires bucketIdx < buckets.Length && buckets[bucketIdx].distFp != 0
      ensures buckets[bucketIdx].valueIdx < live
    {
      assert buckets[..][bucketIdx].valueIdx < live;
    }

    lemma StepFollows(live: nat, bucketIdx: nat)
      requires Layout() && Indexes(live) && bucketIdx < buckets.Length
      ensures Follows(buckets[bucketIdx], buckets[Next(bucketIdx, buckets.Length)])
    {
    }

    // A bucket that is not the key's can be passed, and the probe does not run round the ring.
    lemma PassBucket(key: K, live: nat, distFp: nat, bucketIdx: nat)
      requires Layout() && Indexes(live)
      requires ProbeAt(key, distFp, bucketIdx) && NotBefore(key, live, bucketIdx)
      requires buckets[bucketIdx].distFp == distFp ==>
                 buckets[bucketIdx].valueIdx < live && values[buckets[bucketIdx].valueIdx].0 != key
      requires Cyc(TagOf(hash(key), shifts).home, bucketIdx, buckets.Length) + 1 < buckets.Length
      ensures ProbeAt(key, distFp + DIST_INC, Next(bucketIdx, buckets.Length))
      ensures NotBefore(key, live, Next(bucketIdx, buckets.Length))
    {
      var h := TagOf(hash(key), shifts).home;
      forall v | 0 <= v < live && values[v].0 == key
        ensures Cyc(h, pos[v], buckets.Length) >= Cyc(h, Next(bucketIdx, buckets.Length), buckets.Length)
      {
        TagOfLive(v, live);
        assert pos[v] != bucketIdx;
      }
    }

    // A probe that is not above the entry it meets has not gone all the way round.
    lemma RoomAhead(key: K, live: nat, distFp: nat, bucketIdx: nat)
      requires Layout() && Indexes(live)
      requires ProbeAt(key, distFp, bucketIdx) && distFp <= buckets[bucketIdx].distFp
      ensures Cyc(TagOf(hash(key), shifts).home, bucketIdx, buckets.Length) + 1 < buckets.Length
    {
      DistanceFits(buckets[..], Tags(live), pos, -1, bucketIdx);
    }

    // Once the probe is above the entry it meets, the key cannot come later.
    lemma StopBucket(key: K, live: nat, distFp: nat, bucketIdx: nat)
      requires Layout() && Indexes(live)
      requires ProbeAt(key, distFp, bucketIdx) && NotBefore(key, live, bucketIdx)
      requires distFp > buckets[bucketIdx].distFp
      ensures !HasKey(values[..live], key)
    {
      if HasKey(values[..live], key) {
        var v :| 0 <= v < live && values[..live][v].0 == key;
        TagOfLive(v, live);
        ProbeNeverAbove(buckets[..], Tags(live), pos, -1, v, bucketIdx);
      }
    }

    // The loop shared by the insertions: stops at the key, or at the place where it is due.
    method Probe(key: K, ghost live: nat) returns (found: bool, distFp: nat, bucketIdx: nat)
      requires Layout() && Indexes(live) && live <= MAX_VALUES
      ensures distFp < WORD
      ensures found ==> bucketIdx < buckets.Length && buckets[bucketIdx].distFp != 0
                        && buckets[bucketIdx].valueIdx < live && values[buckets[bucketIdx].valueIdx].0 == key
      ensures !found ==> !HasKey(values[..live], key)
      ensures !found ==> Due(buckets[..], TagOf(hash(key), shifts), distFp, bucketIdx)
    {
      hide Sound, Quotient, NotBefore, TagsOf;
      var t := TagOf(hash(key), shifts);
      distFp, bucketIdx := DIST_INC + t.fp, t.home;
      ProbeStart(key, live);
      WordsHaveRoom(live);
      while distFp <= buckets[bucketIdx].distFp
        invariant ProbeAt(key, distFp, bucketIdx) && NotBefore(key, live, bucketIdx) && distFp < WORD
        invariant Follows(buckets[Prev(bucketIdx, buckets.Length)], Bucket(distFp, 0))
        decreases buckets.Length - Cyc(t.home, bucketIdx, buckets.Length)
      {
        if distFp == buckets[bucketIdx].distFp {
          InUse(live, bucketIdx);
          if values[buckets[bucketIdx].valueIdx].0 == key {
            return true, distFp, bucketIdx;
          }
        }
        RoomAhead(key, live, distFp, bucketIdx);
        PassBucket(key, live, distFp, bucketIdx);
        distFp, bucketIdx := distFp + DIST_INC, Next(bucketIdx, buckets.Length);
      }
      StopBucket(key, live, distFp, bucketIdx);
      found := false;
    }

    lemma KeyPresent(idx: nat)
      requires DistinctKeys(values) && idx < |values|
      ensures values[idx].0 in Map() && Map()[values[idx].0] == values[idx].1
    {
    }

    lemma KeyAbsent(key: K)
      requires DistinctKeys(values) && (values == [] || !HasKey(values, key))
      ensures key !in Map()
    {
    }

    // Two buckets are looked at without asking whether the probe has already passed the key's place.
    method DoFind(key: K) returns (r: Option<nat>)
      requires Valid()
      ensures r.Some? ==> r.value < |values| && values[r.value].0 == key && Map()[key] == values[r.value].1
      ensures r.None? <==> key !in Map()
    {
      hide Sound, Quotient, DistinctKeys, Contents, HasKey, TagsOf, NotBefore;
      Open();
      if values == [] {
        KeyAbsent(key);
        return None;
      }
      ghost var live := |values|;
      var t := TagOf(hash(key), shifts);
      var distFp: nat, bucketIdx: nat := DIST_INC + t.fp, t.home;
      ProbeStart(key, live);
      if distFp == buckets[bucketIdx].distFp {
        InUse(live, bucketIdx);
        if values[buckets[bucketIdx].valueIdx].0 == key {
          KeyPresent(buckets[bucketIdx].valueIdx);
          return Some(buckets[bucketIdx].valueIdx);
        }
      }
      PassBucket(key, live, distFp, bucketIdx);
      distFp, bucketIdx := distFp + DIST_INC, Next(bucketIdx, buckets.Length);
      if distFp == buckets[bucketIdx].distFp {
        InUse(live, bucketIdx);
        if values[buckets[bucketIdx].valueIdx].0 == key {
          KeyPresent(buckets[bucketIdx].valueIdx);
          return Some(buckets[bucketIdx].valueIdx);
        }
      }
      PassBucket(key, live, distFp, bucketIdx);
      distFp, bucketIdx := distFp + DIST_INC, Next(bucketIdx, buckets.Length);
      WordsHaveRoom(live);
      while true
        invariant ProbeAt(key, distFp, bucketIdx) && NotBefore(key, live, bucketIdx) && distFp < WORD
        decreases buckets.Length - Cyc(t.home, bucketIdx, buckets.Length)
      {
        if distFp == buckets[bucketIdx].distFp {
          InUse(live, bucketIdx);
          if values[buckets[bucketIdx].valueIdx].0 == key {
            KeyPresent(buckets[bucketIdx].valueIdx);
            return Some(buckets[bucketIdx].valueIdx);
          }
        } else if distFp > buckets[bucketIdx].distFp {
          StopBucket(key, live, distFp, bucketIdx);
          KeyAbsent(key);
          return None;
        }
        RoomAhead(key, live, distFp, bucketIdx);
        PassBucket(key, live, distFp, bucketIdx);
        distFp, bucketIdx := distFp + DIST_INC, Next(bucketIdx, buckets.Length);
      }
    }

    // ---- filling and growing ----

    // Gives the value at position `live` its bucket.
    method PlaceValue(distFp: nat, bucketIdx: nat, ghost live: nat, valueIdx: nat)
      requires Layout() && Indexes(live) && live < |values| && live + 1 < buckets.Length && valueIdx == live
      requires live < MAX_VALUES && distFp < WORD
      requires Due(buckets[..], TagOf(hash(values[live].0), shifts), distFp, bucketIdx)
      modifies buckets, this`pos
      ensures Indexes(live + 1)
    {
      ghost var tag := TagOf(hash(values[live].0), shifts);
      assert Tags(live + 1) == Tags(live) + [tag];
      DueInHand(buckets[..], Tags(live), pos, tag, distFp, bucketIdx);
      pos := PlaceAndShiftUp(buckets, Bucket(distFp, valueIdx), bucketIdx, Tags(live) + [tag], pos + [0]);
    }

    // Skips the entries further from home than the key would be.
    method PlaceDue(key: K, ghost live: nat) returns (distFp: nat, bucketIdx: nat)
      requires Layout() && Indexes(live) && live <= MAX_VALUES
      ensures bucketIdx < buckets.Length && TagOf(hash(key), shifts).home < buckets.Length && distFp < WORD
      ensures Due(buckets[..], TagOf(hash(key), shifts), distFp, bucketIdx)
      ensures AllAbove(buckets[..], TagOf(hash(key), shifts), bucketIdx)
    {
      hide Ordered, Indexed, AllAbove, Quotient, WordsFit;
      HomeInRange(hash(key), shifts);
      ghost var e := EmptyBucketExists(buckets[..], Tags(live), pos, -1);
      RingFits(buckets[..], Tags(live), pos, -1);
      distFp, bucketIdx := NextWhileLess(buckets, TagOf(hash(key), shifts), e);
    }

    method ClearAndFillBucketsFromValues()
      requires Layout() && |values| < buckets.Length && |values| <= MAX_VALUES
      modifies buckets, this`pos
      ensures Indexes(|values|)
    {
      hide Sound, Due, AllAbove, TagsOf, Quotient;
      ClearBuckets();
      for valueIdx := 0 to |values|
        invariant Indexes(valueIdx)
      {
        var distFp, bucketIdx := PlaceDue(values[valueIdx].0, valueIdx);
        PlaceValue(distFp, bucketIdx, valueIdx, valueIdx);
      }
    }

    method IncreaseSize()
      requires Layout() && shifts > MIN_SHIFTS && |values| <= maxBucketCapacity + 1 && |values| <= MAX_VALUES
      modifies this`shifts, this`buckets, this`maxBucketCapacity, this`pos
      ensures Layout() && Indexes(|values|) && fresh(buckets)
      ensures shifts == old(shifts) - 1 && |values| <= maxBucketCapacity
    {
      BucketCountRange(shifts);
      DoublingMakesRoom(shifts);
      shifts := shifts - 1;
      AllocateBucketsFromShift();
      ClearAndFillBucketsFromValues();
    }

    // The new pair is already at the back of the values; give it a bucket, growing first if the limit is passed.
    method PlaceBack(distFp: nat, bucketIdx: nat)
      requires Layout() && |values| > 0 && Indexes(|values| - 1) && DistinctKeys(values)
      requires |values| - 1 <= maxBucketCapacity && |values| <= MAX_VALUES && distFp < WORD
      requires Due(buckets[..], TagOf(hash(values[|values| - 1].0), shifts), distFp, bucketIdx)
      modifies this`shifts, this`buckets, this`maxBucketCapacity, this`pos, buckets
      ensures Valid() && (buckets == old(buckets) || fresh(buckets))
      ensures shifts == if |values| > old(maxBucketCapacity) then old(shifts) - 1 else old(shifts)
    {
      var valueIdx := |values| - 1;
      if |values| > maxBucketCapacity {
        FullMeansGrowable(shifts, |values|);
        IncreaseSize();
      } else {
        PlaceValue(distFp, bucketIdx, |values| - 1, valueIdx);
      }
    }

    // ---- inserting ----

    method TryEmplace(key: K, mapped: V) returns (idx: nat, inserted: bool)
      requires Valid() && |values| < MAX_VALUES
      modifies this, buckets
      ensures Valid() && (buckets == old(buckets) || fresh(buckets))
      ensures shifts == if |values| > old(maxBucketCapacity) then old(shifts) - 1 else old(shifts)
      ensures inserted <==> key !in old(Map())
      ensures values == if inserted then old(values) + [(key, mapped)] else old(values)
      ensures Map() == if inserted then old(Map())[key := mapped] else old(Map())
      ensures idx < |values| && values[idx].0 == key
    {
      hide Sound, Contents, DistinctKeys, TagsOf, Due, HasKey;
      assert values[..|values|] == values;
      var found, distFp, bucketIdx := Probe(key, |values|);
      if found {
        HasKeyAt(values, buckets[bucketIdx].valueIdx);
        return buckets[bucketIdx].valueIdx, false;
      }
      ContentsAppend(values, key, mapped);
      ghost var before := values;
      values := values + [(key, mapped)];
      assert values[..|values| - 1] == before;
      idx := |values| - 1;
      inserted := true;
      PlaceBack(distFp, bucketIdx);
    }

    // Appends the pair first and takes it off again when the key turns out to be present.
    method Emplace(key: K, mapped: V) returns (idx: nat, inserted: bool)
      requires Valid() && |values| < MAX_VALUES
      modifies this, buckets
      ensures Valid() && (buckets == old(buckets) || fresh(buckets))
      ensures shifts == if |values| > old(maxBucketCapacity) then old(shifts) - 1 else old(shifts)
      ensures inserted <==> key !in old(Map())
      ensures values == if inserted then old(values) + [(key, mapped)] else old(values)
      ensures Map() == if inserted then old(Map())[key := mapped] else old(Map())
      ensures idx < |values| && values[idx].0 == key
    {
      hide Sound, Contents, DistinctKeys, TagsOf, Due, HasKey;
      ghost var before := values;
      values := values + [(key, mapped)];
      assert values[..|before|] == before && before[..|before|] == before;
      var found, distFp, bucketIdx := Probe(key, |values| - 1);
      if found {
        values := values[..|values| - 1];
        return buckets[bucketIdx].valueIdx, false;
      }
      ContentsAppend(before, key, mapped);
      idx := |values| - 1;
      inserted := true;
      PlaceBack(distFp, bucketIdx);
    }

    method InsertOrAssign(key: K, mapped: V) returns (idx: nat, inserted: bool)
      requires Valid() && |values| < MAX_VALUES
      modifies this, buckets
      ensures Valid() && (buckets == old(buckets) || fresh(buckets))
      ensures shifts == if |values| > old(maxBucketCapacity) then old(shifts) - 1 else old(shifts)
      ensures inserted <==> key !in old(Map())
      ensures Map() == old(Map())[key := mapped]
      ensures idx < |values| && values[idx] == (key, mapped)
      ensures inserted ==> values == old(values) + [(key, mapped)]
      ensures !inserted ==> idx < |old(values)| && values == old(values)[idx := (key, mapped)]
    {
      idx, inserted := TryEmplace(key, mapped);
      if !inserted {
        AssignValue(idx, mapped);
      } else {
        assert HasKey(values, key);
      }
    }

    // Writing through an iterator changes no key, so the buckets stay right.
    method AssignValue(idx: nat, mapped: V)
      requires Valid() && idx < |values|
      modifies this`values
      ensures Valid() && values == old(values)[idx := (old(values)[idx].0, mapped)]
      ensures Map() == old(Map())[values[idx].0 := mapped]
    {
      ContentsUpdate(values, idx, mapped);
      ghost var tags := Tags(|values|);
      values := values[idx := (values[idx].0, mapped)];
      assert Tags(|values|) == tags;
    }

    // ---- removing ----

    lemma TagsAfterRemoval(before: seq<(K, V)>, idx: nat)
      requires idx < |before| && values == SwapRemove(before, idx)
      ensures Tags(|values|) == SwapRemove(TagsOf(before[..|before|], hash, shifts), idx)
    {
      SwapRemoveTags(before, idx, hash, shifts);
      assert values[..|values|] == values && before[..|before|] == before;
    }

    method DoErase(bucketIdx: nat) returns (removed: (K, V))
      requires Valid() && bucketIdx < buckets.Length && buckets[bucketIdx].distFp != 0
      modifies this`values, this`pos, buckets
      ensures Valid()
      ensures var idx := old(buckets[bucketIdx].valueIdx);
              && idx < |old(values)| && removed == old(values)[idx]
              && values == SwapRemove(old(values), idx)
              && Map() == old(Map()) - {removed.0}
    {
      hide Sound, Indexed, Ordered, DistinctKeys, HasKey, Contents, TagsOf, SwapRemove;
      Open();
      ghost var live, before := |values|, values;
      InUse(live, bucketIdx);
      var idx := buckets[bucketIdx].valueIdx;
      ghost var tags := Tags(live);
      ContentsSwapRemove(before, idx);
      pos := EraseAndShiftDown(buckets, bucketIdx, tags, pos);
      removed := values[idx];
      MoveLastTo(idx, tags);
      TagsAfterRemoval(before, idx);
    }

    // The last value takes the place of one whose bucket is gone.
    method MoveLastTo(idx: nat, ghost tags: seq<Tag>)
      requires Layout() && idx < |values| == |tags| && tags == TagsOf(values, hash, shifts) && |tags| < buckets.Length
      requires Ordered(buckets[..]) && Indexed(buckets[..], tags, pos, idx)
      modifies this`values, this`pos, buckets
      ensures values == SwapRemove(old(values), idx) && Sound(buckets[..], SwapRemove(tags, idx), pos)
    {
      hide Sound, Indexed, Ordered, TagsOf, SwapRemove;
      SwapRemoveCases(values, idx);
      PosLength(buckets[..], tags, pos, idx);
      var last := |values| - 1;
      if idx != last {
        values := values[idx := values[last]];
        pos := RetargetLast(buckets, TagOf(hash(values[idx].0), shifts).home, last, idx, tags, pos);
      } else {
        DropLast(buckets[..], tags, pos);
        pos := pos[..last];
      }
      values := values[..last];
    }

    // Finds the bucket that points at a position of the values.
    method BucketAt(idx: nat) returns (bucketIdx: nat)
      requires Valid() && idx < |values|
      ensures bucketIdx < buckets.Length && buckets[bucketIdx].distFp != 0 && buckets[bucketIdx].valueIdx == idx
    {
      assert values[..|values|] == values;
      bucketIdx := BucketOfValue(buckets, TagOf(hash(values[idx].0), shifts).home, idx, Tags(|values|), pos, -1);
    }

    method ExtractAt(idx: nat) returns (removed: (K, V))
      requires Valid() && idx < |values|
      modifies this`values, this`pos, buckets
      ensures Valid()
      ensures removed == old(values)[idx] && values == SwapRemove(old(values), idx)
      ensures Map() == old(Map()) - {removed.0}
    {
      var bucketIdx := BucketAt(idx);
      removed := DoErase(bucketIdx);
    }

    method EraseAt(idx: nat)
      requires Valid() && idx < |values|
      modifies this`values, this`pos, buckets
      ensures Valid()
      ensures values == SwapRemove(old(values), idx)
      ensures Map() == old(Map()) - {old(values)[idx].0}
    {
      var bucketIdx := BucketAt(idx);
      var _ := DoErase(bucketIdx);
    }

    // The search of erase-by-key: skip the entries further from home, then compare while the distance
    // and fingerprint are exactly the key's.
    method LocateKey(key: K) returns (found: bool, bucketIdx: nat)
      requires Valid() && values != []
      ensures found ==> bucketIdx < buckets.Length && buckets[bucketIdx].distFp != 0
                        && buckets[bucketIdx].valueIdx < |values| && values[buckets[bucketIdx].valueIdx].0 == key
      ensures !found ==> key !in Map()
    {
      hide Sound, Quotient;
      ghost var live := |values|;
      assert values[..live] == values;
      var distFp: nat;
      distFp, bucketIdx := SkipToKey(key, live);
      WordsHaveRoom(live);
      while distFp == buckets[bucketIdx].distFp
        invariant ProbeAt(key, distFp, bucketIdx) && NotBefore(key, live, bucketIdx)
        invariant buckets[bucketIdx].distFp <= distFp < WORD
        decreases buckets.Length - Cyc(TagOf(hash(key), shifts).home, bucketIdx, buckets.Length)
      {
        InUse(live, bucketIdx);
        if values[buckets[bucketIdx].valueIdx].0 == key {
          return true, bucketIdx;
        }
        RoomAhead(key, live, distFp, bucketIdx);
        PassBucket(key, live, distFp, bucketIdx);
        StepFollows(live, bucketIdx);
        distFp, bucketIdx := distFp + DIST_INC, Next(bucketIdx, buckets.Length);
      }
      StopBucket(key, live, distFp, bucketIdx);
      found := false;
    }

    method SkipToKey(key: K, ghost live: nat) returns (distFp: nat, bucketIdx: nat)
      requires Layout() && Indexes(live) && live <= MAX_VALUES
      ensures ProbeAt(key, distFp, bucketIdx) && NotBefore(key, live, bucketIdx)
      ensures buckets[bucketIdx].distFp <= distFp < WORD
    {
      distFp, bucketIdx := PlaceDue(key, live);
      forall v | 0 <= v < live && values[v].0 == key
        ensures Cyc(TagOf(hash(key), shifts).home, pos[v], buckets.Length)
                >= Cyc(TagOf(hash(key), shifts).home, bucketIdx, buckets.Length)
      {
        TagOfLive(v, live);
        assert buckets[..][pos[v]] == buckets[pos[v]];
      }
    }

    // Erase by key: the pair that was removed, or None when the key is absent.
    method ExtractKey(key: K) returns (removed: Option<(K, V)>)
      requires Valid()
      modifies this`values, this`pos, buckets
      ensures Valid()
      ensures removed == if key in old(Map()) then Some((key, old(Map())[key])) else None
      ensures Map() == old(Map()) - {key}
      ensures removed.None? ==> values == old(values)
      ensures removed.Some? ==>
                exists i :: 0 <= i < |old(values)| && old(values)[i].0 == key && values == SwapRemove(old(values), i)
    {
      hide Sound;
      if values == [] {
        return None;
      }
      var found, bucketIdx := LocateKey(key);
      if !found {
        return None;
      }
      var pair := DoErase(bucketIdx);
      removed := Some(pair);
    }

    method Erase(key: K) returns (count: nat)
      requires Valid()
      modifies this`values, this`pos, buckets
      ensures Valid()
      ensures count == if key in old(Map()) then 1 else 0
      ensures Map() == old(Map()) - {key} && |values| == |old(values)| - count
    {
      var removed := ExtractKey(key);
      count := if removed.Some? then 1 else 0;
    }

    // Gives the pair at position idx another key in place, unless that key is already present.
    method ReplaceKey(idx: nat, newKey: K) returns (at: nat, replaced: bool)
      requires Valid() && idx < |values|
      modifies this`values, this`pos, buckets
      ensures Valid()
      ensures replaced <==> newKey !in old(Map())
      ensures at < |values| && values[at].0 == newKey
      ensures values == if replaced then old(values)[idx := (newKey, old(values)[idx].1)] else old(values)
      ensures Map() == if replaced then (old(Map()) - {old(values)[idx].0})[newKey := old(values)[idx].1]
                       else old(Map())
    {
      hide Sound, Contents, DistinctKeys, Due, HasKey;
      Open();
      var found, distFp, bucketIdx := Probe(newKey, |values|);
      if found {
        HasKeyAt(values, buckets[bucketIdx].valueIdx);
        return buckets[bucketIdx].valueIdx, false;
      }
      ContentsRekey(values, idx, newKey);
      ghost var tags := Tags(|values|);
      var oldHome := TagOf(hash(values[idx].0), shifts).home;
      var tag := TagOf(hash(newKey), shifts);
      HomeInRange(hash(newKey), shifts);
      values := values[idx := (newKey, values[idx].1)];
      pos := MoveEntry(buckets, idx, oldHome, tag, tags, pos);
      assert values[..|values|] == values;
      assert Tags(|values|) == tags[idx := tag];
      return idx, true;
    }

    method Clear()
      requires Valid()
      modifies this`values, this`pos, buckets
      ensures Valid() && values == [] && Map() == map[]
    {
      values := [];
      ClearBuckets();
    }

    // ---- sizes ----

    method Rehash(count: nat)
      requires Valid() && count <= Capacity(MAX_BUCKETS)
      modifies this`shifts, this`buckets, this`maxBucketCapacity, this`pos, buckets
      ensures Valid() && (buckets == old(buckets) || fresh(buckets))
      ensures values == old(values) && Map() == old(Map())
      ensures count <= maxBucketCapacity && LeastFor(if count < |values| then |values| else count)
    {
      hide Sound, TagsOf, DistinctKeys, Contents;
      var newShifts := CalcShiftsForSize(if count < |values| then |values| else count);
      if newShifts != shifts {
        shifts := newShifts;
        AllocateBucketsFromShift();
        ClearAndFillBucketsFromValues();
      }
    }

    // Also called on a table that has no buckets yet.
    method Reserve(capa: nat)
      requires Valid() || (buckets.Length == 0 && values == [] && shifts == INITIAL_SHIFTS)
      requires capa <= Capacity(MAX_BUCKETS)
      modifies this`shifts, this`buckets, this`maxBucketCapacity, this`pos, buckets
      ensures Valid() && (buckets == old(buckets) || fresh(buckets))
      ensures values == old(values) && capa <= maxBucketCapacity
      ensures shifts == old(shifts) || (shifts < old(shifts) && LeastFor(if capa < |values| then |values| else capa))
    {
      var newShifts := CalcShiftsForSize(if capa < |values| then |values| else capa);
      if buckets.Length == 0 || newShifts < shifts {
        shifts := newShifts;
        AllocateBucketsFromShift();
        ClearAndFillBucketsFromValues();
      } else {
        BucketCountGrows(shifts, newShifts);
      }
    }

    // ---- bulk operations ----

    // A pair that has no bucket yet is replaced by the last one.
    method OverwriteByLast(valueIdx: nat)
      requires Layout() && Indexes(valueIdx) && valueIdx < |values|
      modifies this`values
      ensures Layout() && Indexes(valueIdx)
      ensures values == SwapRemove(old(values), valueIdx) && values[..valueIdx] == old(values[..valueIdx])
    {
      hide Sound;
      ghost var kept := values[..valueIdx];
      SwapRemoveCases(values, valueIdx);
      var last := |values| - 1;
      if valueIdx != last {
        values := values[valueIdx := values[last]];
      }
      values := values[..last];
      assert values[..valueIdx] == kept;
    }

    // Takes over a container of pairs and drops those whose key was met before.
    method Replace(container: seq<(K, V)>)
      requires Valid() && |container| <= MAX_VALUES
      modifies this, buckets
      ensures Valid() && (buckets == old(buckets) || fresh(buckets))
      ensures values == Dedup(container, 0)
      ensures shifts == old(shifts) || (shifts < old(shifts) && LeastFor(|container|))
    {
      hide Sound, Dedup, TagsOf, SwapRemove, DistinctKeys, HasKey, Due, Ordered, Indexed;
      var newShifts := CalcShiftsForSize(|container|);
      if newShifts < shifts {
        shifts := newShifts;
        AllocateBucketsFromShift();
      } else {
        BucketCountGrows(shifts, newShifts);
        CapacityMonotone(BucketCount(newShifts), BucketCount(shifts));
      }
      ClearBuckets();
      ghost var none, sized := Tags(0), shifts;
      values := container;
      assert Tags(0) == none;
      var valueIdx := 0;
      DistinctEmpty(values[..0]);
      while valueIdx != |values|
        invariant Layout() && shifts == sized && (buckets == old(buckets) || fresh(buckets))
        invariant 0 <= valueIdx <= |values| <= maxBucketCapacity && |values| <= MAX_VALUES
        invariant Indexes(valueIdx) && DistinctKeys(values[..valueIdx])
        invariant Dedup(values, valueIdx) == Dedup(container, 0)
        decreases |values| - valueIdx
      {
        valueIdx := KeepOrDrop(valueIdx);
      }
      DedupDone(values);
      assert values[..|values|] == values;
    }

    // One step of Replace: the pair at valueIdx gets a bucket, or goes because its key already has one.
    method KeepOrDrop(valueIdx: nat) returns (nextIdx: nat)
      requires Layout() && Indexes(valueIdx) && valueIdx < |values| <= maxBucketCapacity && |values| <= MAX_VALUES
      requires DistinctKeys(values[..valueIdx])
      modifies this`values, this`pos, buckets
      ensures Layout() && nextIdx <= |values| <= maxBucketCapacity && |values| <= MAX_VALUES
      ensures |values| - nextIdx == |old(values)| - valueIdx - 1
      ensures Indexes(nextIdx) && DistinctKeys(values[..nextIdx])
      ensures Dedup(values, nextIdx) == Dedup(old(values), valueIdx)
    {
      hide Sound, Dedup, TagsOf, SwapRemove, DistinctKeys, HasKey, Due, Ordered, Indexed;
      var found, distFp, bucketIdx := Probe(values[valueIdx].0, valueIdx);
      DedupStep(values, valueIdx);
      if found {
        HasKeyAt(values[..valueIdx], buckets[bucketIdx].valueIdx);
        OverwriteByLast(valueIdx);
        nextIdx := valueIdx;
      } else {
        DistinctPrefix(values, valueIdx);
        PlaceValue(distFp, bucketIdx, valueIdx, valueIdx);
        nextIdx := valueIdx + 1;
      }
    }

    // Removes the pairs at positions first up to (not including) last.
    method EraseRange(first: nat, last: nat)
      requires Valid() && first <= last <= |values|
      modifies this`values, this`pos, buckets
      ensures Valid() && values == RangeErased(old(values), first, last)
    {
      hide *;
      Open();
      ghost var s := values;
      var m := Min(last - first, |values| - last);
      var mid := first + m;
      var idx := first;
      RangeEnds(s, first, last);
      while idx != mid
        invariant Valid() && first <= idx <= mid
        invariant values == RangePrefixErased(s, first, idx - first)
        decreases mid - idx
      {
        RangePrefixStep(s, first, idx - first);
        EraseAt(idx);
        idx := idx + 1;
      }
      idx := last;
      while idx != mid
        invariant Valid() && mid <= idx <= last
        invariant values == if m == |s| - last then RangeSuffixErased(s, first, m, idx) else RangeErased(s, first, last)
        decreases idx - mid
      {
        RangeSuffixStep(s, first, m, idx);
        idx := idx - 1;
        EraseAt(idx);
      }
    }
  }

  // Walks from the back so that the positions still to visit keep their pairs.
  method EraseIf<K(==, !new), V>(t: Table<K, V>, pred: ((K, V)) -> bool)
    returns (count: nat, ghost looked: seq<(K, V)>)
    requires t.Valid()
    modifies t`values, t`pos, t.buckets
    ensures t.Valid()
    ensures multiset(t.values) == multiset(FilterOut(old(t.values), pred))
    ensures count == |old(t.values)| - |FilterOut(old(t.values), pred)|
    ensures looked == Reverse(old(t.values))
  {
    hide *;
    var oldSize := |t.values|;
    var idx := oldSize;
    ghost var s := t.values;
    assert s[..idx] == s;
    looked := [];
    NothingReversed(s);
    while idx != 0
      invariant t.Valid() && 0 <= idx <= |t.values| && idx <= |s| == oldSize
      invariant t.values[..idx] == s[..idx] && looked == Reverse(s[idx..])
      invariant multiset(t.values[idx..]) == multiset(FilterOut(s[idx..], pred))
      decreases idx
    {
      FilterStep(t.values, s, idx - 1, pred);
      SwapRemoveTail(t.values, idx - 1);
      ReverseGrows(s, idx);
      idx := idx - 1;
      looked := looked + [t.values[idx]];
      if pred(t.values[idx]) {
        t.EraseAt(idx);
      }
    }
    assert t.values[0..] == t.values && s[0..] == s;
    count := oldSize - |t.values|;
    SameSize(t.values, FilterOut(s, pred));
  }

  lemma NothingReversed<T>(s: seq<T>)
    ensures Reverse(s[|s|..]) == []
  {
  }

  lemma SameSize<T>(a: seq<T>, b: seq<T>)
    requires multiset(a) == multiset(b)
    ensures |a| == |b|
  {
    assert |multiset(a)| == |a| && |multiset(b)| == |b|;
  }

  lemma FilterStep<T>(v: seq<T>, s: seq<T>, i: nat, drop: T -> bool)
    requires i < |v| && i < |s| && v[..i + 1] == s[..i + 1]
    requires multiset(v[i + 1..]) == multiset(FilterOut(s[i + 1..], drop))
    ensures v[i] == s[i] && v[..i] == s[..i]
    ensures !drop(v[i]) ==> multiset(v[i..]) == multiset(FilterOut(s[i..], drop))
    ensures drop(v[i]) ==> multiset(v[i + 1..]) == multiset(FilterOut(s[i..], drop))
  {
    assert v[..i + 1][i] == s[..i + 1][i];
    assert v[..i] == v[..i + 1][..i];
    assert v[i..] == [v[i]] + v[i + 1..];
    assert s[i..][1..] == s[i + 1..];
  }
}
