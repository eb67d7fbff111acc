/**
 * What the feature model asks of the track model it belongs to: the track IDs (all, or only
 * the filtered ones), the edges of each track, the edge set, the keys of the track-to-spots
 * map and the number of tracks. The track model itself is not part of this model; it is
 * represented by a snapshot of these answers.
 */
module Topology {

  /** An edge of the track graph. Edges are compared by object identity. */
  class Edge { }

  predicate Distinct<T(==)>(s: seq<T>) {
    forall i, j :: 0 <= i < j < |s| ==> s[i] != s[j]
  }

  datatype TrackModel = TrackModel(
    trackIDs: seq<int>,              // getTrackIDs(), in iteration order
    filteredTrackIDs: seq<int>,      // getFilteredTrackIDs(), in iteration order
    trackEdges: map<int, seq<Edge>>, // getTrackEdges(id), in iteration order
    edgeSet: set<Edge>,              // edgeSet()
    trackSpotKeys: set<int>,         // getTrackSpots().keySet()
    nTracks: nat)                    // getNTracks()
  {
    /** Track IDs come from sets, and every listed track has an edge collection. */
    ghost predicate WellFormed() {
      && Distinct(trackIDs)
      && Distinct(filteredTrackIDs)
      && Listed(trackIDs)
      && Listed(filteredTrackIDs)
    }

    /** Every track in `ids` has an edge collection. */
    ghost predicate Listed(ids: seq<int>) {
      forall i :: 0 <= i < |ids| ==> ids[i] in trackEdges
    }

    /** The track IDs an aggregation walks over. */
    function TrackIDs(filteredOnly: bool): (ids: seq<int>)
      requires WellFormed()
      ensures Distinct(ids)
      ensures Listed(ids)
    {
      if filteredOnly then filteredTrackIDs else trackIDs
    }

    /** The edges of the tracks `ids`, track after track, each track's edges in order. */
    function EdgesOf(ids: seq<int>): seq<Edge>
      requires Listed(ids)
      decreases |ids|
    {
      if ids == [] then [] else EdgesOf(ids[..|ids| - 1]) + trackEdges[ids[|ids| - 1]]
    }
  }

  /** Walking the first `i` tracks visits a prefix of the edges of all of them. */
  lemma {:induction false} EdgesOfPrefix(tm: TrackModel, ids: seq<int>, i: nat)
    requires tm.Listed(ids)
    requires i <= |ids|
    ensures |tm.EdgesOf(ids[..i])| <= |tm.EdgesOf(ids)|
    ensures tm.EdgesOf(ids[..i]) == tm.EdgesOf(ids)[..|tm.EdgesOf(ids[..i])|]
  {
    if i == |ids| {
      assert ids[..i] == ids;
    } else {
      var init := ids[..|ids| - 1];
      assert init[..i] == ids[..i];
      EdgesOfPrefix(tm, init, i);
      assert tm.EdgesOf(ids) == tm.EdgesOf(init) + tm.trackEdges[ids[|ids| - 1]];
    }
  }

  /** One more track appends that track's edges. */
  lemma EdgesOfStep(tm: TrackModel, ids: seq<int>, i: nat)
    requires tm.Listed(ids)
    requires i < |ids|
    ensures tm.EdgesOf(ids[..i + 1]) == tm.EdgesOf(ids[..i]) + tm.trackEdges[ids[i]]
  {
    assert ids[..i + 1][..i] == ids[..i];
  }

  /** The `j`-th edge of the `i`-th track sits right after the edges of the tracks before it. */
  lemma EdgesOfAt(tm: TrackModel, ids: seq<int>, i: nat, j: nat)
    requires tm.Listed(ids)
    requires i < |ids| && j < |tm.trackEdges[ids[i]]|
    ensures |tm.EdgesOf(ids[..i])| + j < |tm.EdgesOf(ids)|
    ensures tm.EdgesOf(ids)[|tm.EdgesOf(ids[..i])| + j] == tm.trackEdges[ids[i]][j]
  {
    EdgesOfStep(tm, ids, i);
    EdgesOfPrefix(tm, ids, i + 1);
    var before := tm.EdgesOf(ids[..i + 1]);
    assert before[|tm.EdgesOf(ids[..i])| + j] == tm.trackEdges[ids[i]][j];
  }

  /** The visited edges are exactly the edges of the tracks `ids`. */
  lemma {:induction false} EdgesOfCovers(tm: TrackModel, ids: seq<int>)
    requires tm.Listed(ids)
    ensures forall i, j :: 0 <= i < |ids| && 0 <= j < |tm.trackEdges[ids[i]]| ==> tm.trackEdges[ids[i]][j] in tm.EdgesOf(ids)
    ensures forall e :: e in tm.EdgesOf(ids) ==> exists i :: 0 <= i < |ids| && e in tm.trackEdges[ids[i]]
    decreases |ids|
  {
    if ids != [] {
      var n := |ids| - 1;
      var init := ids[..n];
      EdgesOfCovers(tm, init);
      assert tm.EdgesOf(ids) == tm.EdgesOf(init) + tm.trackEdges[ids[n]];
      forall i, j | 0 <= i < n && 0 <= j < |tm.trackEdges[ids[i]]|
        ensures tm.trackEdges[ids[i]][j] in tm.EdgesOf(ids)
      {
        assert init[i] == ids[i];
      }
      forall e | e in tm.EdgesOf(ids)
        ensures exists i :: 0 <= i < |ids| && e in tm.trackEdges[ids[i]]
      {
        if e in tm.EdgesOf(init) {
          var i :| 0 <= i < n && e in tm.trackEdges[init[i]];
          assert init[i] == ids[i];
        } else {
          assert e in tm.trackEdges[ids[n]];
        }
      }
    }
  }
}
