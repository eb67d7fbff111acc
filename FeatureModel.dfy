/**
 * The feature model of a TrackMate model: the registries of declared track, edge and spot
 * features, the stored track and edge feature values, and the routines that gather stored
 * values into flat arrays for plotting.
 */
module TrackMate {
  import opened Wrappers
  import opened Topology
  import opened Store
  import opened Registry

  class FeatureModel {
    /** What `model.getTrackModel()` answers; the feature model never changes it. */
    const tracks: TrackModel
    const trackRegistry: FeatureRegistry
    const edgeRegistry: FeatureRegistry
    const spotRegistry: FeatureRegistry
    /** track ID -> (feature -> value) */
    var trackFeatureValues: Values<int>
    /** edge -> (feature -> value) */
    var edgeFeatureValues: Values<Edge>

    /** Stored track values belong to existing tracks and declared track features. */
    ghost predicate TrackValuesDeclared()
      reads this, trackRegistry
    {
      forall id :: id in trackFeatureValues ==>
        id in tracks.trackSpotKeys && trackFeatureValues[id].Keys <= trackRegistry.features
    }

    /** Stored edge values belong to edges of the track graph and declared edge features. */
    ghost predicate EdgeValuesDeclared()
      reads this, edgeRegistry
    {
      forall e :: e in edgeFeatureValues ==>
        e in tracks.edgeSet && edgeFeatureValues[e].Keys <= edgeRegistry.features
    }

    ghost predicate Valid()
      reads this, trackRegistry, edgeRegistry, spotRegistry
    {
      && trackRegistry != edgeRegistry && trackRegistry != spotRegistry && edgeRegistry != spotRegistry
      && trackRegistry.Valid() && edgeRegistry.Valid() && spotRegistry.Valid()
      && tracks.WellFormed()
      && TrackValuesDeclared()
      && EdgeValuesDeclared()
    }

    constructor (tracks: TrackModel)
      requires tracks.WellFormed()
      ensures Valid()
      ensures this.tracks == tracks
      ensures trackRegistry.State() == Empty && edgeRegistry.State() == Empty && spotRegistry.State() == Empty
      ensures trackFeatureValues == map[] && edgeFeatureValues == map[]
      ensures fresh(trackRegistry) && fresh(edgeRegistry) && fresh(spotRegistry)
    {
      this.tracks := tracks;
      trackRegistry := new FeatureRegistry();
      edgeRegistry := new FeatureRegistry();
      spotRegistry := new FeatureRegistry();
      trackFeatureValues := map[];
      edgeFeatureValues := map[];
    }

    // ---------------------------------------------------------------- edge features

    /**
     * Stores `value` for `feature` of `edge`. Refused, with nothing changed, unless the edge
     * is in the track graph and the feature is a declared edge feature.
     */
    method PutEdgeFeature(edge: Edge, feature: string, value: real) returns (ok: bool)
      requires Valid()
      modifies this`edgeFeatureValues
      ensures Valid()
      ensures ok == (edge in tracks.edgeSet && feature in edgeRegistry.features)
      ensures ok ==> edgeFeatureValues == Stored(old(edgeFeatureValues), edge, feature, value)
      ensures !ok ==> edgeFeatureValues == old(edgeFeatureValues)
    {
      if edge !in tracks.edgeSet || feature !in edgeRegistry.features {
        return false;
      }
      var m := if edge in edgeFeatureValues then edgeFeatureValues[edge] else map[];
      edgeFeatureValues := edgeFeatureValues[edge := m[feature := value]];
      return true;
    }

    /**
     * The value of `feature` for `edge`; None when the edge has no stored map or the feature
     * was never set on it.
     */
    function GetEdgeFeature(edge: Edge, feature: string): (r: Option<real>)
      reads this, edgeRegistry
      ensures edge !in edgeFeatureValues ==> r == None
      ensures r.Some? <==> edge in edgeFeatureValues && feature in edgeFeatureValues[edge]
      ensures r.Some? ==> r.value == edgeFeatureValues[edge][feature]
      ensures EdgeValuesDeclared() && r.Some? ==> edge in tracks.edgeSet && feature in edgeRegistry.features
    {
      Lookup(edgeFeatureValues, edge, feature)
    }

    /** The declared edge features; every stored edge value is for one of them. */
    function GetEdgeFeatures(): (r: set<string>)
      reads this, edgeRegistry
      requires EdgeValuesDeclared()
      ensures forall e :: e in edgeFeatureValues ==> edgeFeatureValues[e].Keys <= r
    {
      edgeRegistry.features
    }

    /** Resets the edge features, names, short names, dimensions and values. */
    method ClearEdgeFeatures()
      requires Valid()
      modifies this`edgeFeatureValues, edgeRegistry
      ensures Valid()
      ensures edgeRegistry.State() == Empty && edgeFeatureValues == map[]
    {
      edgeRegistry.Clear();
      edgeFeatureValues := map[];
    }

    /** Declares edge features with their metadata; see `Registry.FeatureRegistry.Declare`. */
    method DeclareEdgeFeatures(fs: seq<string>, featureNames: map<string, string>,
                               featureShortNames: map<string, string>, featureDimensions: map<string, Dimension>)
      returns (outcome: Outcome<Exception>)
      requires Valid()
      modifies edgeRegistry
      ensures Valid()
      ensures (outcome, edgeRegistry.State())
           == Declared(old(edgeRegistry.State()), fs, featureNames, featureShortNames, featureDimensions)
    {
      outcome := edgeRegistry.Declare(fs, featureNames, featureShortNames, featureDimensions);
    }

    /** The edge feature names: only declared features are named. */
    function GetEdgeFeatureNames(): (r: map<string, string>)
      reads this, edgeRegistry
      requires edgeRegistry.Valid()
      ensures r.Keys <= edgeRegistry.features
    {
      edgeRegistry.names
    }

    /** The edge feature short names: only named features have one. */
    function GetEdgeFeatureShortNames(): (r: map<string, string>)
      reads this, edgeRegistry
      requires edgeRegistry.Valid()
      ensures r.Keys <= edgeRegistry.names.Keys
    {
      edgeRegistry.shortNames
    }

    /** The edge feature dimensions: never filled in, so always empty. */
    function GetEdgeFeatureDimensions(): (r: map<string, Dimension>)
      reads this, edgeRegistry
      requires edgeRegistry.Valid()
      ensures r == map[]
    {
      edgeRegistry.dimensions
    }

    // ---------------------------------------------------------------- track features

    /** The declared track features; every stored track value is for one of them. */
    function GetTrackFeatures(): (r: set<string>)
      reads this, trackRegistry
      requires TrackValuesDeclared()
      ensures forall id :: id in trackFeatureValues ==> trackFeatureValues[id].Keys <= r
    {
      trackRegistry.features
    }

    /** Resets the track features, names, short names, dimensions and values. */
    method ClearTrackFeatures()
      requires Valid()
      modifies this`trackFeatureValues, trackRegistry
      ensures Valid()
      ensures trackRegistry.State() == Empty && trackFeatureValues == map[]
    {
      trackRegistry.Clear();
      trackFeatureValues := map[];
    }

    /** Declares track features with their metadata; see `Registry.FeatureRegistry.Declare`. */
    method DeclareTrackFeatures(fs: seq<string>, featureNames: map<string, string>,
                                featureShortNames: map<string, string>, featureDimensions: map<string, Dimension>)
      returns (outcome: Outcome<Exception>)
      requires Valid()
      modifies trackRegistry
      ensures Valid()
      ensures (outcome, trackRegistry.State())
           == Declared(old(trackRegistry.State()), fs, featureNames, featureShortNames, featureDimensions)
    {
      outcome := trackRegistry.Declare(fs, featureNames, featureShortNames, featureDimensions);
    }

    /** The track feature names: only declared features are named. */
    function GetTrackFeatureNames(): (r: map<string, string>)
      reads this, trackRegistry
      requires trackRegistry.Valid()
      ensures r.Keys <= trackRegistry.features
    {
      trackRegistry.names
    }

    /** The track feature short names: only named features have one. */
    function GetTrackFeatureShortNames(): (r: map<string, string>)
      reads this, trackRegistry
      requires trackRegistry.Valid()
      ensures r.Keys <= trackRegistry.names.Keys
    {
      trackRegistry.shortNames
    }

    /** The track feature dimensions: never filled in, so always empty. */
    function GetTrackFeatureDimensions(): (r: map<string, Dimension>)
      reads this, trackRegistry
      requires trackRegistry.Valid()
      ensures r == map[]
    {
      trackRegistry.dimensions
    }

    /**
     * Stores `value` for `feature` of track `trackID`. Refused, with nothing changed, unless
     * the track has an entry in the track-to-spots map and the feature is a declared track
     * feature.
     */
    method PutTrackFeature(trackID: int, feature: string, value: real) returns (ok: bool)
      requires Valid()
      modifies this`trackFeatureValues
      ensures Valid()
      ensures ok == (trackID in tracks.trackSpotKeys && feature in trackRegistry.features)
      ensures ok ==> trackFeatureValues == Stored(old(trackFeatureValues), trackID, feature, value)
      ensures !ok ==> trackFeatureValues == old(trackFeatureValues)
    {
      if trackID !in tracks.trackSpotKeys || feature !in trackRegistry.features {
        return false;
      }
      var m := if trackID in trackFeatureValues then trackFeatureValues[trackID] else map[];
      trackFeatureValues := trackFeatureValues[trackID := m[feature := value]];
      return true;
    }

    /**
     * The value of `feature` for track `trackID`: None when it was never set, and a
     * NullPointerException when the track has no stored map at all.
     */
    function GetTrackFeature(trackID: int, feature: string): (r: Result<Option<real>, Exception>)
      reads this, trackRegistry
      ensures r.Failure? <==> trackID !in trackFeatureValues
      ensures r.Failure? ==> r.error == NullPointer
      ensures r.Success? ==> (r.value.Some? <==> feature in trackFeatureValues[trackID])
      ensures r.Success? && r.value.Some? ==> r.value.value == trackFeatureValues[trackID][feature]
      ensures TrackValuesDeclared() && r.Success? ==> trackID in tracks.trackSpotKeys
      ensures TrackValuesDeclared() && r.Success? && r.value.Some? ==> feature in trackRegistry.features
    {
      if trackID !in trackFeatureValues then Failure(NullPointer)
      else if feature in trackFeatureValues[trackID] then Success(Some(trackFeatureValues[trackID][feature]))
      else Success(None)
    }

    // ---------------------------------------------------------------- aggregation

    /**
     * One value of `feature` per track of the chosen track set, in track order. Throws for an
     * undeclared feature, and a NullPointerException when a track has no stored map or no
     * value for the feature.
     */
    method GetTrackFeatureValues(feature: string, filteredOnly: bool) returns (r: Result<array<real>, Exception>)
      requires Valid()
      ensures feature !in trackRegistry.features ==> r == Failure(UnknownFeature(feature))
      ensures feature in trackRegistry.features ==>
        var cells := Column(trackFeatureValues, tracks.TrackIDs(filteredOnly), feature);
        && (Unboxed(cells).None? ==> r == Failure(NullPointer))
        && (Unboxed(cells).Some? ==> r.Success? && fresh(r.value) && r.value[..] == Unboxed(cells).value)
    {
      if feature !in trackRegistry.features {
        return Failure(UnknownFeature(feature));
      }
      var keys := tracks.TrackIDs(filteredOnly);
      var values := new real[|keys|](_ => 0.0);
      for i := 0 to |keys|
        invariant forall j :: 0 <= j < i ==> Lookup(trackFeatureValues, keys[j], feature) == Some(values[j])
      {
        var value := GetTrackFeature(keys[i], feature);
        if value.Failure? || value.value.None? {
          UnboxedColumnFails(trackFeatureValues, keys, feature, i);
          return Failure(NullPointer);
        }
        values[i] := value.value.value;
      }
      UnboxedColumn(trackFeatureValues, keys, feature, values[..]);
      return Success(values);
    }

    /**
     * One value of `feature` per edge of the chosen tracks, track after track and each
     * track's edges in order. Throws for an undeclared feature, and a NullPointerException
     * when an edge has no stored map or no value for the feature.
     */
    method GetEdgeFeatureValues(feature: string, filteredOnly: bool) returns (r: Result<array<real>, Exception>)
      requires Valid()
      ensures feature !in edgeRegistry.features ==> r == Failure(UnknownFeature(feature))
      ensures feature in edgeRegistry.features ==>
        var keys := tracks.TrackIDs(filteredOnly);
        var cells := Column(edgeFeatureValues, tracks.EdgesOf(keys), feature);
        && (Unboxed(cells).None? ==> r == Failure(NullPointer))
        && (Unboxed(cells).Some? ==> r.Success? && fresh(r.value) && r.value[..] == Unboxed(cells).value)
    {
      if feature !in edgeRegistry.features {
        return Failure(UnknownFeature(feature));
      }
      var keys := tracks.TrackIDs(filteredOnly);
      r := GatherEdgeValues(keys, feature);
    }

    /** The number of edges of the tracks `keys`: the counting loop of `getEdgeFeatureValues`. */
    method CountEdges(keys: seq<int>) returns (nvals: nat)
      requires tracks.Listed(keys)
      ensures nvals == |tracks.EdgesOf(keys)|
    {
      nvals := 0;
      for i := 0 to |keys|
        invariant nvals == |tracks.EdgesOf(keys[..i])|
      {
        EdgesOfStep(tracks, keys, i);
        nvals := nvals + |tracks.trackEdges[keys[i]]|;
      }
      assert keys[..|keys|] == keys;
    }

    /**
     * The filling loops of `getEdgeFeatureValues`: the values of `feature` for the edges of
     * the tracks `keys`, in order, or a NullPointerException when one is missing.
     */
    method GatherEdgeValues(keys: seq<int>, feature: string) returns (r: Result<array<real>, Exception>)
      requires tracks.Listed(keys)
      ensures var cells := Column(edgeFeatureValues, tracks.EdgesOf(keys), feature);
        && (Unboxed(cells).None? ==> r == Failure(NullPointer))
        && (Unboxed(cells).Some? ==> r.Success? && fresh(r.value) && r.value[..] == Unboxed(cells).value)
    {
      ghost var edges := tracks.EdgesOf(keys);
      var nvals := CountEdges(keys);
      var values := new real[nvals](_ => 0.0);
      var index := 0;
      for i := 0 to |keys|
        invariant index == |tracks.EdgesOf(keys[..i])| <= |edges| == values.Length
        invariant forall m :: 0 <= m < index ==> Lookup(edgeFeatureValues, edges[m], feature) == Some(values[m])
      {
        var trackEdges := tracks.trackEdges[keys[i]];
        EdgesOfStep(tracks, keys, i);
        EdgesOfPrefix(tracks, keys, i + 1);
        var ok := CopyEdgeValues(trackEdges, feature, values, index);
        if !ok {
          var j :| 0 <= j < |trackEdges| && Lookup(edgeFeatureValues, trackEdges[j], feature).None?;
          EdgesOfAt(tracks, keys, i, j);
          UnboxedColumnFails(edgeFeatureValues, edges, feature, index + j);
          return Failure(NullPointer);
        }
        forall m | index <= m < index + |trackEdges|
          ensures Lookup(edgeFeatureValues, edges[m], feature) == Some(values[m])
        {
          EdgesOfAt(tracks, keys, i, m - index);
        }
        index := index + |trackEdges|;
      }
      assert keys[..|keys|] == keys;
      UnboxedColumn(edgeFeatureValues, edges, feature, values[..]);
      return Success(values);
    }

    /**
     * The inner loop of `getEdgeFeatureValues`: copies the values of `feature` for the edges
     * of one track into `values` from `start` on, or reports that one of them is missing
     * (its unboxing throws, and the caller drops the array, so what was copied by then is not
     * stated). Only the track's own cells are written.
     */
    method CopyEdgeValues(trackEdges: seq<Edge>, feature: string, values: array<real>, start: nat) returns (ok: bool)
      requires start + |trackEdges| <= values.Length
      modifies values
      ensures ok <==> forall j :: 0 <= j < |trackEdges| ==> Lookup(edgeFeatureValues, trackEdges[j], feature).Some?
      ensures ok ==> forall j :: 0 <= j < |trackEdges| ==> Lookup(edgeFeatureValues, trackEdges[j], feature) == Some(values[start + j])
      ensures forall m :: 0 <= m < start ==> values[m] == old(values[m])
      ensures forall m :: start + |trackEdges| <= m < values.Length ==> values[m] == old(values[m])
    {
      for j := 0 to |trackEdges|
        invariant forall j' :: 0 <= j' < j ==> Lookup(edgeFeatureValues, trackEdges[j'], feature) == Some(values[start + j'])
        invariant forall m :: 0 <= m < start ==> values[m] == old(values[m])
        invariant forall m :: start + j <= m < values.Length ==> values[m] == old(values[m])
      {
        var value := GetEdgeFeature(trackEdges[j], feature);
        if value.None? {
          return false;
        }
        values[start + j] := value.value;
      }
      return true;
    }

    /**
     * The packing loop of `getTrackFeatureValues()` for one feature: the values of `feature`
     * over all tracks, non-null values first, in an `nTracks`-long array whose tail stays 0,
     * or an empty array when no track has a value.
     */
    method PackTrackFeature(feature: string) returns (r: Result<array<real>, Exception>)
      ensures var packed := Packed(trackFeatureValues, tracks.trackIDs, feature, tracks.nTracks);
        && (packed.Failure? ==> r == Failure(packed.error))
        && (packed.Success? ==> r.Success? && fresh(r.value) && r.value[..] == PackedArray(packed.value, tracks.nTracks))
    {
      var ids := tracks.trackIDs;
      var n := tracks.nTracks;
      var values := new real[n](_ => 0.0);
      var noData := true;
      var index := 0;
      for i := 0 to |ids|
        invariant index <= n
        invariant Packed(trackFeatureValues, ids[..i], feature, n) == Success(values[..index])
        invariant noData == (index == 0)
        invariant forall m :: index <= m < n ==> values[m] == 0.0
      {
        PackedStep(trackFeatureValues, ids, feature, n, i);
        var value := GetTrackFeature(ids[i], feature);
        if value.Failure? {
          PackedFailureSticks(trackFeatureValues, ids, feature, n, i + 1);
          return Failure(value.error);
        }
        if value.value.None? {
          continue;
        }
        if index >= n {
          PackedFailureSticks(trackFeatureValues, ids, feature, n, i + 1);
          return Failure(IndexOutOfBounds);
        }
        ghost var written := values[..index];
        values[index] := value.value.value;
        assert values[..index + 1] == written + [value.value.value];
        index := index + 1;
        noData := false;
      }
      assert ids[..|ids|] == ids;
      if noData {
        var empty := new real[0];
        r := Success(empty);
      } else {
        r := Success(values);
      }
    }

    /**
     * Every declared track feature mapped to its packed array. Throws the exception of a
     * feature whose packing loop throws; succeeds when no packing loop throws.
     */
    method GetAllTrackFeatureValues() returns (r: Result<map<string, array<real>>, Exception>)
      ensures r.Failure? ==>
        exists f :: f in trackRegistry.features && Packed(trackFeatureValues, tracks.trackIDs, f, tracks.nTracks) == Failure(r.error)
      ensures (forall f :: f in trackRegistry.features ==> Packed(trackFeatureValues, tracks.trackIDs, f, tracks.nTracks).Success?)
        ==> r.Success?
      ensures r.Success? ==> r.value.Keys == trackRegistry.features
      ensures r.Success? ==> forall f :: f in r.value ==>
        var packed := Packed(trackFeatureValues, tracks.trackIDs, f, tracks.nTracks);
        && packed.Success?
        && fresh(r.value[f])
        && r.value[f][..] == PackedArray(packed.value, tracks.nTracks)
      ensures r.Success? ==> forall f, g :: f in r.value && g in r.value && f != g ==> r.value[f] != r.value[g]
    {
      var remaining := trackRegistry.features;
      var featureValues := map[];
      while remaining != {}
        invariant remaining <= trackRegistry.features
        invariant featureValues.Keys == trackRegistry.features - remaining
        invariant forall f :: f in featureValues ==>
          var packed := Packed(trackFeatureValues, tracks.trackIDs, f, tracks.nTracks);
          && packed.Success?
          && fresh(featureValues[f])
          && featureValues[f][..] == PackedArray(packed.value, tracks.nTracks)
        invariant forall f, g :: f in featureValues && g in featureValues && f != g ==> featureValues[f] != featureValues[g]
        decreases |remaining|
      {
        var feature :| feature in remaining;
        var values := PackTrackFeature(feature);
        if values.Failure? {
          return Failure(values.error);
        }
        featureValues := featureValues[feature := values.value];
        remaining := remaining - {feature};
      }
      return Success(featureValues);
    }

    // ---------------------------------------------------------------- spot features

    /** Resets the spot features, names, short names and dimensions. */
    method ClearSpotFeatures()
      requires Valid()
      modifies spotRegistry
      ensures Valid()
      ensures spotRegistry.State() == Empty
    {
      spotRegistry.Clear();
    }

    /** Declares spot features with their metadata; see `Registry.FeatureRegistry.Declare`. */
    method DeclareSpotFeatures(fs: seq<string>, featureNames: map<string, string>,
                               featureShortNames: map<string, string>, featureDimensions: map<string, Dimension>)
      returns (outcome: Outcome<Exception>)
      requires Valid()
      modifies spotRegistry
      ensures Valid()
      ensures (outcome, spotRegistry.State())
           == Declared(old(spotRegistry.State()), fs, featureNames, featureShortNames, featureDimensions)
    {
      outcome := spotRegistry.Declare(fs, featureNames, featureShortNames, featureDimensions);
    }
  }

  /**
   * Right after the track and edge namespaces are cleared, a track put and an edge put are
   * both refused and leave both value stores empty.
   */
  method ClearedNamespaceRefusesPuts(model: FeatureModel, trackID: int, edge: Edge, feature: string, value: real)
    returns (trackOk: bool, edgeOk: bool)
    requires model.Valid()
    modifies model, model.trackRegistry, model.edgeRegistry
    ensures !trackOk && !edgeOk
    ensures model.trackFeatureValues == map[] && model.edgeFeatureValues == map[]
  {
    model.ClearTrackFeatures();
    model.ClearEdgeFeatures();
    trackOk := model.PutTrackFeature(trackID, feature, value);
    edgeOk := model.PutEdgeFeature(edge, feature, value);
  }
}
