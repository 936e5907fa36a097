/**
 * What `recognizeFaces` answers once the face collection has named its
 * matches (Functions/savePhoto.js, lines 98-111): every matched id is looked
 * up in the photos table, found records are kept in match order and misses
 * are dropped.
 */
module Matching {
  import opened Records

  /** The records of the matched ids that the table holds, in match order. */
  function Resolve(meta: map<string, PhotoRecord>, ids: seq<string>): (found: seq<PhotoRecord>)
    ensures |found| <= |ids|
  {
    if ids == [] then []
    else
      var last := ids[|ids| - 1];
      Resolve(meta, ids[..|ids| - 1]) + (if last in meta then [meta[last]] else [])
  }

  /** The positions of the matches the table holds, in match order. */
  function HitIndices(meta: map<string, PhotoRecord>, ids: seq<string>): (hits: seq<nat>)
    ensures forall k :: 0 <= k < |hits| ==> hits[k] < |ids|
  {
    if ids == [] then []
    else
      var n := |ids| - 1;
      HitIndices(meta, ids[..n]) + (if ids[n] in meta then [n] else [])
  }

  /**
   * The answer is exactly the records at the hit positions: the positions
   * rise (rank order is kept), each holds a match the table has, the answer
   * holds that match's record, and every match the table has is among them.
   */
  lemma {:induction false} ResolveIsHitSubsequence(meta: map<string, PhotoRecord>, ids: seq<string>)
    ensures var hits, found := HitIndices(meta, ids), Resolve(meta, ids);
      && |hits| == |found|
      && (forall k :: 0 <= k < |hits| ==> ids[hits[k]] in meta && found[k] == meta[ids[hits[k]]])
      && (forall k, l :: 0 <= k < l < |hits| ==> hits[k] < hits[l])
      && (forall j :: 0 <= j < |ids| && ids[j] in meta ==> j in hits)
  {
    if ids != [] {
      var n := |ids| - 1;
      var init := ids[..n];
      ResolveIsHitSubsequence(meta, init);
      var h, f := HitIndices(meta, init), Resolve(meta, init);
      var hits, found := HitIndices(meta, ids), Resolve(meta, ids);
      var tail := if ids[n] in meta then [n] else [];
      assert hits == h + tail;
      assert found == f + (if ids[n] in meta then [meta[ids[n]]] else []);
      forall k | 0 <= k < |hits|
        ensures ids[hits[k]] in meta && found[k] == meta[ids[hits[k]]]
      {
        if k < |h| {
          assert hits[k] == h[k] && found[k] == f[k];
          assert ids[h[k]] == init[h[k]];
        }
      }
      forall k, l | 0 <= k < l < |hits| ensures hits[k] < hits[l] {
        if l < |h| {
          assert hits[k] == h[k] && hits[l] == h[l];
        } else {
          assert hits[k] == h[k];
        }
      }
      forall j | 0 <= j < |ids| && ids[j] in meta ensures j in hits {
        if j < n {
          assert init[j] == ids[j];
          var k :| 0 <= k < |h| && h[k] == j;
          assert hits[k] == j;
        } else {
          assert hits[|h|] == n;
        }
      }
    }
  }

  /** Resolving a concatenation resolves each part: a match's outcome does not depend on its neighbours. */
  lemma {:induction false} ResolveAppend(meta: map<string, PhotoRecord>, a: seq<string>, b: seq<string>)
    ensures Resolve(meta, a + b) == Resolve(meta, a) + Resolve(meta, b)
    decreases |b|
  {
    if b == [] {
      assert a + b == a;
    } else {
      var n := |b| - 1;
      assert (a + b)[..|a + b| - 1] == a + b[..n];
      ResolveAppend(meta, a, b[..n]);
    }
  }

  /** When every match is in the table nothing is dropped: the answer is the matches' records, position by position. */
  lemma {:induction false} ResolveAllHits(meta: map<string, PhotoRecord>, ids: seq<string>)
    requires forall i :: 0 <= i < |ids| ==> ids[i] in meta
    ensures |Resolve(meta, ids)| == |ids|
    ensures forall i :: 0 <= i < |ids| ==> Resolve(meta, ids)[i] == meta[ids[i]]
  {
    if ids != [] {
      var n := |ids| - 1;
      ResolveAllHits(meta, ids[..n]);
    }
  }

  /** When no match is in the table the answer is empty, not an error. */
  lemma {:induction false} ResolveNoHits(meta: map<string, PhotoRecord>, ids: seq<string>)
    requires forall i :: 0 <= i < |ids| ==> ids[i] !in meta
    ensures Resolve(meta, ids) == []
  {
    if ids != [] {
      ResolveNoHits(meta, ids[..|ids| - 1]);
    }
  }

  /** The answer reads the table only at the matched ids: tables that agree there give the same answer. */
  lemma {:induction false} ResolveReadsOnlyMatches(m1: map<string, PhotoRecord>, m2: map<string, PhotoRecord>, ids: seq<string>)
    requires forall i :: 0 <= i < |ids| ==> (ids[i] in m1 <==> ids[i] in m2)
    requires forall i :: 0 <= i < |ids| && ids[i] in m1 ==> m1[ids[i]] == m2[ids[i]]
    ensures Resolve(m1, ids) == Resolve(m2, ids)
  {
    if ids != [] {
      ResolveReadsOnlyMatches(m1, m2, ids[..|ids| - 1]);
    }
  }

  /** Storing a record under a key no match names leaves the answer unchanged. */
  lemma ResolveUnaffectedByOtherKey(meta: map<string, PhotoRecord>, key: string, rec: PhotoRecord, ids: seq<string>)
    requires key !in ids
    ensures Resolve(meta[key := rec], ids) == Resolve(meta, ids)
  {
    ResolveReadsOnlyMatches(meta[key := rec], meta, ids);
  }
}
