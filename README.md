# TrackMate feature model in Dafny

This project models `FeatureModel`, the part of a TrackMate model that manages features. It has three
namespaces of features: track, edge and spot. The model covers:

- the **registries**: for each namespace, the declared feature keys and their name, short-name and
  dimension maps. Keys are declared with `declare{Track,Edge,Spot}Features`, wiped with
  `clear{Track,Edge,Spot}Features`, and exposed through the getters.
- the **value stores** for tracks and edges: entity → (feature → value). Values are written with
  `putTrackFeature`/`putEdgeFeature` and read with `getTrackFeature`/`getEdgeFeature`.
- the **aggregation routines** that turn stored values into flat arrays: both
  `getTrackFeatureValues` overloads and `getEdgeFeatureValues`.

The track model that the feature model asks about (track IDs, filtered track IDs, the edges of each
track, the edge set, the tracks that have spots, the number of tracks) is not part of this model. It is
represented by a snapshot value, `Topology.TrackModel`, that the feature model holds and never changes.
Java exceptions are explicit results: `Wrappers.Exception` for the thrown class, `Outcome` for `void`
methods, `Result` for methods with a value. Java `null` is `Option.None`. Feature values are `real`,
because they are only stored and copied.

Layout:

- `Wrappers.dfy`: `Option`, `Result`, `Outcome` and the exceptions.
- `Topology.dfy`: the track-model snapshot and the order in which edges are visited.
- `Store.dfy`: the two-level value store, as functions on maps. It also holds the reference
  definitions the aggregation loops are proved against: `Column`/`Unboxed` for the one-feature
  routines, and `Present`/`Packed`/`PackedArray` for the packing loop.
- `Registry.dfy`: one namespace's registry, written once and instantiated three times. This
  covers the class `FeatureRegistry` and the declaration loop `Step`/`Steps`/`Declared` with its
  lemmas.
- `FeatureModel.dfy`: the class `TrackMate.FeatureModel`, whose invariant `Valid()` says:
  - the three registries are distinct, and each satisfies its own invariant;
  - only declared keys are named, only named keys have a short name, and no dimension is ever
    recorded;
  - every stored track value belongs to a track with spots and a declared track feature;
  - every stored edge value belongs to an edge of the graph and a declared edge feature.

  Their membership halves hold because the track-model snapshot never changes (see "Left out"). Their
  declared-feature halves hold because a clear wipes the value store together with the registry, and a
  declare only adds features.

Behaviours of `FeatureModel` worth knowing:

- A declaration is **not atomic**. All keys join the feature set before any metadata is checked.
  Names and short names are recorded one by one until the first missing entry throws.
- The caller's dimension map is consulted, but the registry's dimension maps are **never written**, so they stay empty.
- The one-feature aggregators do not skip a missing value. They throw a NullPointerException,
  either when dereferencing a missing per-entity map or when unboxing a `null`. For example, with
  tracks 1 and 2 and a value stored only for track 1, `getTrackFeatureValues("SPEED", false)`
  throws a NullPointerException at track 2.
- The no-argument aggregator does not keep positions. It packs the present values at the front of an
  `nTracks`-long array and leaves the rest 0. It returns an empty array when nothing was written.

## Model

| member | source | states |
|---|---|---|
| Registry.FeatureRegistry.constructor | src/main/java/fiji/plugin/trackmate/FeatureModel.java:24-27 | a new registry has no features, names, short names or dimensions |
| Registry.FeatureRegistry.Clear | src/main/java/fiji/plugin/trackmate/FeatureModel.java:257-260 | the feature set and all three metadata maps are empty afterwards |
| Registry.FeatureRegistry.Record | src/main/java/fiji/plugin/trackmate/FeatureModel.java:276-293 | one turn of the declaration loop: the name is recorded, then the short name; the first missing name, short name or dimension throws, naming that map |
| Registry.FeatureRegistry.Declare | src/main/java/fiji/plugin/trackmate/FeatureModel.java:273-295 | the outcome and new registry are those of `Declared`: all keys are added first, then each key is recorded in order until the first throw; the registry invariant is kept whether or not it throws |
| Registry.FeatureRegistry.RecordAll | src/main/java/fiji/plugin/trackmate/FeatureModel.java:276-294 | the loop of a declare call, taken out as its own method: its outcome and the new name maps are those of `Steps` on the old registry |
| Registry.MissingKind | src/main/java/fiji/plugin/trackmate/FeatureModel.java:280-292 | the map an exception names: "misses a name" exactly when the name is missing, otherwise "misses a short name" only when the short name is missing, and "misses a dimension" only for a key whose name and short name are present and, when the key is incomplete, whose dimension is missing |
| Registry.Step | src/main/java/fiji/plugin/trackmate/FeatureModel.java:278-293 | one turn of the loop passes exactly when the key has a name, a short name and a dimension; a throw names the key and the first map lacking it; the feature set and the dimension map are untouched |
| Registry.Steps | src/main/java/fiji/plugin/trackmate/FeatureModel.java:276-294 | the loop over the keys in order, stopping at the first throw, never changes the feature set or the dimension map |
| Registry.Declared | src/main/java/fiji/plugin/trackmate/FeatureModel.java:273-295 | a declare call: the feature set becomes the old one plus every key of the call, whether or not the loop throws, and the dimension map is unchanged |
| Registry.FirstIncomplete | src/main/java/fiji/plugin/trackmate/FeatureModel.java:276-294 | the position of the first key lacking a name, short name or dimension: every earlier key has all three, and that key lacks one (or no such key exists) |
| Registry.StepsFailureSticks | src/main/java/fiji/plugin/trackmate/FeatureModel.java:276-294 | once a turn throws, the keys after it change nothing |
| Registry.StepsKeepValid | src/main/java/fiji/plugin/trackmate/FeatureModel.java:276-294 | the loop keeps "only declared keys are named, only named keys have a short name" when its keys are already declared |
| Registry.DeclaredKeepsValid | src/main/java/fiji/plugin/trackmate/FeatureModel.java:273-295 | a declare call, whether or not it throws, keeps the registry invariant: only declared keys are named, only named keys have a short name, no dimension is recorded |
| Registry.StepsCompletePass | src/main/java/fiji/plugin/trackmate/FeatureModel.java:276-294 | the loop over keys with complete metadata does not throw |
| Registry.StepsCompleteRecords | src/main/java/fiji/plugin/trackmate/FeatureModel.java:282-288 | the loop over keys with complete metadata sends each key to its supplied name and short name |
| Registry.StepsFrame | src/main/java/fiji/plugin/trackmate/FeatureModel.java:276-294 | the loop names and short-names only its own keys: afterwards the name and short-name key sets lie within the old ones plus the loop's keys, and every other key keeps its old entries |
| Registry.DeclareCompleteIsAdditive | src/main/java/fiji/plugin/trackmate/FeatureModel.java:273-295 | declaring keys with complete metadata succeeds. All keys join the declared set and earlier keys stay. Each key gets its supplied name and short name, other names and short names are kept, the named and short-named key sets become exactly the old ones plus the keys of the call, and the dimension map is unchanged |
| Registry.StepsStop | src/main/java/fiji/plugin/trackmate/FeatureModel.java:276-294 | when some key lacks metadata, the loop ends with the turn for the first such key, which throws, after passing every earlier key |
| Registry.StepsStopRecords | src/main/java/fiji/plugin/trackmate/FeatureModel.java:278-288 | when the loop stops at the first key lacking metadata, every earlier key has its supplied name and short name, and that key has its name if it was found and its short name if both were found |
| Registry.StepsStopFrame | src/main/java/fiji/plugin/trackmate/FeatureModel.java:276-294 | when the loop stops at the first key lacking metadata, only that key and the keys before it can have gained a name or short name; every other key keeps its old entries |
| Registry.StepsStopKeepsFailing | src/main/java/fiji/plugin/trackmate/FeatureModel.java:278-288 | when the loop stops at the first key lacking metadata, that key keeps its old name if its name is missing, and its old short name if its name or short name is missing, since the turn throws before the matching put |
| Registry.DeclareIncompleteIsPartial | src/main/java/fiji/plugin/trackmate/FeatureModel.java:275-293 | declaring with a key that lacks metadata throws on the first such key and names the first map lacking it. Still, every key of the call is declared, earlier keys keep their name and short name, whatever was found for the failing key is recorded, and the dimension map is unchanged. The failing key keeps its old name when its name is missing, and its old short name when its name or short name is missing. Keys after the failing one and keys outside the call keep the name and short name they had, and no other key gains one |
| Registry.DeclareIsNotAtomic | src/main/java/fiji/plugin/trackmate/FeatureModel.java:275-282 | concrete case: declaring ["A", "B"] with metadata for "A" only throws "B misses a name", yet both keys are declared and "A" is named |
| Store.Lookup | src/main/java/fiji/plugin/trackmate/FeatureModel.java:154-160 | the two-level `get`: a value exactly when the entity has a map holding the feature, and then the stored value; a missing map and a missing entry both give `null` |
| Store.Stored | src/main/java/fiji/plugin/trackmate/FeatureModel.java:335-340 | after a put, the entity has a map, the looked-up value is the one put, every other (entity, feature) lookup is unchanged, and no existing entry is lost |
| Store.Unboxed | src/main/java/fiji/plugin/trackmate/FeatureModel.java:87 | unboxing succeeds exactly when no cell is null, and then yields the cells' values in order |
| Store.UnboxedColumnFails | src/main/java/fiji/plugin/trackmate/FeatureModel.java:87 | one missing value makes the unboxing of a column fail |
| Store.UnboxedColumn | src/main/java/fiji/plugin/trackmate/FeatureModel.java:86-88 | a column whose every value is present unboxes to exactly those values |
| Store.Packed | src/main/java/fiji/plugin/trackmate/FeatureModel.java:361-369 | the packing loop never writes past its capacity, and it can throw only NullPointerException or ArrayIndexOutOfBoundsException |
| Store.PackedIsPresent | src/main/java/fiji/plugin/trackmate/FeatureModel.java:363-369 | packing succeeds exactly when every track has a map and the present values fit; it then writes exactly the present values in track order |
| Store.PackedFailureSticks | src/main/java/fiji/plugin/trackmate/FeatureModel.java:363-369 | once packing has thrown, later tracks do not change the outcome |
| Store.NoPresentValues | src/main/java/fiji/plugin/trackmate/FeatureModel.java:360-372 | nothing is written, so "no data" holds, exactly when no track has a value for the feature |
| Store.PackedArray | src/main/java/fiji/plugin/trackmate/FeatureModel.java:361-374 | the array put in the result is empty when nothing was written; otherwise it is `nTracks` long, with the written values first and 0 in the rest |
| Topology.TrackModel.TrackIDs | src/main/java/fiji/plugin/trackmate/FeatureModel.java:78-83 | the chosen track set lists distinct tracks, each with an edge collection |
| Topology.TrackModel.EdgesOf | src/main/java/fiji/plugin/trackmate/FeatureModel.java:115-121 | the order in which the fill loops visit edges: the edges of the chosen tracks, track after track, each track's edges in its own order |
| Topology.EdgesOfCovers | src/main/java/fiji/plugin/trackmate/FeatureModel.java:115-121 | the visited edges are exactly the edges of the chosen tracks: every edge of every chosen track is visited, and every visited edge belongs to a chosen track |
| Topology.EdgesOfPrefix | src/main/java/fiji/plugin/trackmate/FeatureModel.java:117-121 | the edges of the first tracks are a prefix of the edges of all of them |
| Topology.EdgesOfStep | src/main/java/fiji/plugin/trackmate/FeatureModel.java:111-113 | one more track appends that track's edges |
| Topology.EdgesOfAt | src/main/java/fiji/plugin/trackmate/FeatureModel.java:117-121 | the j-th edge of the i-th track is visited at position "edges of earlier tracks + j" |
| TrackMate.FeatureModel.constructor | src/main/java/fiji/plugin/trackmate/FeatureModel.java:57-59 | a new feature model satisfies its invariant, holds the given track model, and has empty, fresh registries and empty value stores |
| TrackMate.FeatureModel.PutEdgeFeature | src/main/java/fiji/plugin/trackmate/FeatureModel.java:140-152 | returns true exactly when the edge is in the edge set and the feature is a declared edge feature. The store is then `Stored`, so the new value is read back and all other entries are unchanged; on false nothing changes. The invariant is kept |
| TrackMate.FeatureModel.GetEdgeFeature | src/main/java/fiji/plugin/trackmate/FeatureModel.java:154-160 | None for an edge without a map and for a feature never set on it, otherwise the stored value; a value is found only for an edge of the graph and a declared edge feature |
| TrackMate.FeatureModel.GetEdgeFeatures | src/main/java/fiji/plugin/trackmate/FeatureModel.java:166-168 | every stored edge value is for a feature in the returned set |
| TrackMate.FeatureModel.ClearEdgeFeatures | src/main/java/fiji/plugin/trackmate/FeatureModel.java:175-181 | the edge registry and the edge value store are empty afterwards; the invariant is kept |
| TrackMate.FeatureModel.DeclareEdgeFeatures | src/main/java/fiji/plugin/trackmate/FeatureModel.java:192-214 | the edge registry becomes `Declared` of its old state (see the `Registry` lemmas); the invariant is kept, even when it throws |
| TrackMate.FeatureModel.GetEdgeFeatureNames | src/main/java/fiji/plugin/trackmate/FeatureModel.java:220-222 | only declared edge features are named |
| TrackMate.FeatureModel.GetEdgeFeatureShortNames | src/main/java/fiji/plugin/trackmate/FeatureModel.java:228-230 | only named edge features have a short name |
| TrackMate.FeatureModel.GetEdgeFeatureDimensions | src/main/java/fiji/plugin/trackmate/FeatureModel.java:236-238 | the edge dimension map is always empty |
| TrackMate.FeatureModel.GetTrackFeatures | src/main/java/fiji/plugin/trackmate/FeatureModel.java:248-250 | every stored track value is for a feature in the returned set |
| TrackMate.FeatureModel.ClearTrackFeatures | src/main/java/fiji/plugin/trackmate/FeatureModel.java:256-262 | the track registry and the track value store are empty afterwards; the invariant is kept |
| TrackMate.FeatureModel.DeclareTrackFeatures | src/main/java/fiji/plugin/trackmate/FeatureModel.java:273-295 | the track registry becomes `Declared` of its old state; the invariant is kept, even when it throws |
| TrackMate.FeatureModel.GetTrackFeatureNames | src/main/java/fiji/plugin/trackmate/FeatureModel.java:300-302 | only declared track features are named |
| TrackMate.FeatureModel.GetTrackFeatureShortNames | src/main/java/fiji/plugin/trackmate/FeatureModel.java:308-310 | only named track features have a short name |
| TrackMate.FeatureModel.GetTrackFeatureDimensions | src/main/java/fiji/plugin/trackmate/FeatureModel.java:315-317 | the track dimension map is always empty |
| TrackMate.FeatureModel.PutTrackFeature | src/main/java/fiji/plugin/trackmate/FeatureModel.java:328-342 | returns true exactly when the track has spots and the feature is a declared track feature. The store is then `Stored`, so the map is created if missing, the value is read back and all other entries are unchanged; on false nothing changes. The invariant is kept |
| TrackMate.FeatureModel.GetTrackFeature | src/main/java/fiji/plugin/trackmate/FeatureModel.java:349-352 | NullPointerException exactly when the track has no map. Otherwise it gives None when the feature was never set and the stored value when it was. A value is found only for a track with spots and a declared track feature |
| TrackMate.FeatureModel.GetTrackFeatureValues | src/main/java/fiji/plugin/trackmate/FeatureModel.java:74-90 | throws for an undeclared feature. Otherwise it throws NullPointerException when some track of the chosen set lacks the value; else it returns a fresh array with one value per track, in order |
| TrackMate.FeatureModel.GetEdgeFeatureValues | src/main/java/fiji/plugin/trackmate/FeatureModel.java:100-123 | throws for an undeclared feature. Otherwise it throws NullPointerException when some edge of the chosen tracks lacks the value; else it returns a fresh array with one value per edge, track after track |
| TrackMate.FeatureModel.CountEdges | src/main/java/fiji/plugin/trackmate/FeatureModel.java:110-113 | the count is the total number of edges of the chosen tracks |
| TrackMate.FeatureModel.GatherEdgeValues | src/main/java/fiji/plugin/trackmate/FeatureModel.java:115-122 | the filled array holds the unboxed values of all edges of the tracks in visiting order, or the loop throws NullPointerException at a missing one |
| TrackMate.FeatureModel.CopyEdgeValues | src/main/java/fiji/plugin/trackmate/FeatureModel.java:118-120 | copies one track's edge values into consecutive cells and fails exactly when one of them is missing. It writes only that track's cells: cells before and after them are untouched. On failure the caller drops the array, so the contents of the track's own cells are not stated |
| TrackMate.FeatureModel.PackTrackFeature | src/main/java/fiji/plugin/trackmate/FeatureModel.java:359-374 | the packing loop for one feature throws as `Packed` does, or returns a fresh array equal to `PackedArray` of what `Packed` wrote |
| TrackMate.FeatureModel.GetAllTrackFeatureValues | src/main/java/fiji/plugin/trackmate/FeatureModel.java:354-377 | succeeds when no feature's packing throws, and then maps exactly the declared track features to their packed arrays, each a distinct new array; a thrown exception is one some feature's packing throws |
| TrackMate.FeatureModel.ClearSpotFeatures | src/main/java/fiji/plugin/trackmate/FeatureModel.java:388-393 | the spot registry is empty afterwards; the invariant is kept |
| TrackMate.FeatureModel.DeclareSpotFeatures | src/main/java/fiji/plugin/trackmate/FeatureModel.java:404-426 | the spot registry becomes `Declared` of its old state; the invariant is kept, even when it throws |
| TrackMate.ClearedNamespaceRefusesPuts | src/main/java/fiji/plugin/trackmate/FeatureModel.java:141-342 | after the track and edge namespaces are cleared, a track put and an edge put both return false and the stores stay empty |

## Left out

- Concurrency: the `synchronized` puts, the `ConcurrentHashMap` storage and the lazy map-creation race. The model is single-threaded.
- The track model itself (how tracks, edges and filtered tracks are computed, and how they change over time). Each feature model holds one fixed snapshot of its answers.
- TrackValuesDeclared, EdgeValuesDeclared, GetEdgeFeature, GetTrackFeature: their "a stored value belongs to a track with spots / an edge of the graph" facts rest on the frozen snapshot. The program never removes stored values when a track or edge leaves the track model, so `getEdgeFeature` and `getTrackFeature` keep returning the values of deleted edges and tracks.
- A `null` value passed to a put is not modelled: values are `real`. `putEdgeFeature(e, f, null)` first creates and stores the edge's map when it has none, then `ConcurrentHashMap.put` throws a NullPointerException instead of returning; `putTrackFeature` stores the `null`.
- The `Dimension` enum's contents; a dimension is an opaque tag. The spot dimension map is declared `Map<String, String>` in the source, unlike the other two. Since it is never written, the model uses the same empty map type for all three.
- IEEE double semantics; values are only copied, and `doubleValue()` is the identity on non-null values.
- Aliasing: the getters return the live internal collections, so a caller could mutate the registry through them. The model returns their current values.
- The iteration order of the declared track-feature set in `getTrackFeatureValues()`. The model picks features in an arbitrary order. When several features would throw, it only promises that the exception is one of theirs.
- 32-bit `int` overflow of the edge count and of the array indices.
- `fiji/plugin/trackmate/features/spot/SpotFeatureAnalyzer.java` (an interface without bodies) and `src/main/java/fiji/plugin/trackmate/gui/wizard/ManualTrackingWizardPlugIn.java` (GUI wiring) are not part of this model.
