/**
 * The feature registry of one namespace (track, edge or spot features): the declared feature
 * keys and their name, short name and dimension maps. The feature model keeps three of them,
 * which behave identically.
 */
module Registry {
  import opened Wrappers

  /** The physical dimension of a feature; only compared, never computed on. */
  datatype Dimension = Dimension(tag: string)

  /** The contents of one registry. */
  datatype RegistryState = RegistryState(
    features: set<string>,
    names: map<string, string>,
    shortNames: map<string, string>,
    dimensions: map<string, Dimension>)
  {
    /**
     * What every reachable registry satisfies: only declared keys have a name, only named
     * keys have a short name, and no dimension is ever recorded.
     */
    ghost predicate Valid() {
      && names.Keys <= features
      && shortNames.Keys <= names.Keys
      && dimensions == map[]
    }
  }

  const Empty := RegistryState({}, map[], map[], map[])

  predicate HasMetadata(f: string, names: map<string, string>, shortNames: map<string, string>,
                        dimensions: map<string, Dimension>)
  {
    f in names && f in shortNames && f in dimensions
  }

  /** The position of the first key a declaration throws on, or `|fs|` when it throws on none. */
  function FirstIncomplete(fs: seq<string>, names: map<string, string>, shortNames: map<string, string>,
                           dimensions: map<string, Dimension>): (k: nat)
    ensures k <= |fs|
    ensures forall j :: 0 <= j < k ==> HasMetadata(fs[j], names, shortNames, dimensions)
    ensures k < |fs| ==> !HasMetadata(fs[k], names, shortNames, dimensions)
  {
    if fs == [] || !HasMetadata(fs[0], names, shortNames, dimensions) then 0
    else 1 + FirstIncomplete(fs[1..], names, shortNames, dimensions)
  }

  /** The first metadata map, in the order they are consulted, that lacks `f`. */
  function MissingKind(f: string, names: map<string, string>, shortNames: map<string, string>,
                       dimensions: map<string, Dimension>): (kind: MetadataKind)
    ensures kind == MissesName <==> f !in names
    ensures kind == MissesShortName ==> f in names && f !in shortNames
    ensures kind == MissesDimension ==> f in names && f in shortNames
    ensures !HasMetadata(f, names, shortNames, dimensions) && kind == MissesDimension ==> f !in dimensions
  {
    if f !in names then MissesName
    else if f !in shortNames then MissesShortName
    else MissesDimension
  }

  /**
   * One turn of the declaration loop for key `f` on registry `t`: record the name, then the
   * short name, then look the dimension up and drop it; the first missing entry throws.
   */
  function Step(t: RegistryState, f: string, names: map<string, string>, shortNames: map<string, string>,
                dimensions: map<string, Dimension>): (r: (Outcome<Exception>, RegistryState))
    ensures r.0 == Pass <==> HasMetadata(f, names, shortNames, dimensions)
    ensures r.0.Fail? ==> r.0 == Fail(MissingMetadata(f, MissingKind(f, names, shortNames, dimensions)))
    ensures r.1.features == t.features && r.1.dimensions == t.dimensions
  {
    if f !in names then (Fail(MissingMetadata(f, MissesName)), t)
    else
      var named := t.(names := t.names[f := names[f]]);
      if f !in shortNames then (Fail(MissingMetadata(f, MissesShortName)), named)
      else
        var shortNamed := named.(shortNames := named.shortNames[f := shortNames[f]]);
        if f !in dimensions then (Fail(MissingMetadata(f, MissesDimension)), shortNamed)
        else (Pass, shortNamed)
  }

  /** The declaration loop over the keys `fs`, in order, stopping at the first exception. */
  function Steps(t: RegistryState, fs: seq<string>, names: map<string, string>, shortNames: map<string, string>,
                 dimensions: map<string, Dimension>): (r: (Outcome<Exception>, RegistryState))
    ensures r.1.features == t.features && r.1.dimensions == t.dimensions
    decreases |fs|
  {
    if fs == [] then (Pass, t)
    else
      var (outcome, u) := Steps(t, fs[..|fs| - 1], names, shortNames, dimensions);
      if outcome.Fail? then (outcome, u) else Step(u, fs[|fs| - 1], names, shortNames, dimensions)
  }

  /**
   * A declare call on registry `s`: its outcome and the registry it leaves behind. All keys
   * are added to the feature set first (`addAll`), then the loop runs.
   */
  function Declared(s: RegistryState, fs: seq<string>, names: map<string, string>,
                    shortNames: map<string, string>, dimensions: map<string, Dimension>)
    : (r: (Outcome<Exception>, RegistryState))
    ensures r.1.features == s.features + (set f | f in fs)
    ensures r.1.dimensions == s.dimensions
  {
    Steps(s.(features := s.features + (set f | f in fs)), fs, names, shortNames, dimensions)
  }

  /** Once the loop has thrown, the later keys change nothing. */
  lemma {:induction false} StepsFailureSticks(t: RegistryState, fs: seq<string>, names: map<string, string>,
                                              shortNames: map<string, string>, dimensions: map<string, Dimension>, i: nat)
    requires i <= |fs|
    requires Steps(t, fs[..i], names, shortNames, dimensions).0.Fail?
    ensures Steps(t, fs, names, shortNames, dimensions) == Steps(t, fs[..i], names, shortNames, dimensions)
    decreases |fs|
  {
    if i < |fs| {
      var init := fs[..|fs| - 1];
      assert init[..i] == fs[..i];
      StepsFailureSticks(t, init, names, shortNames, dimensions, i);
    } else {
      assert fs[..i] == fs;
    }
  }

  /** The loop keeps the registry invariant, since every key it records is already declared. */
  lemma {:induction false} StepsKeepValid(t: RegistryState, fs: seq<string>, names: map<string, string>,
                                          shortNames: map<string, string>, dimensions: map<string, Dimension>)
    requires t.Valid()
    requires forall i :: 0 <= i < |fs| ==> fs[i] in t.features
    ensures Steps(t, fs, names, shortNames, dimensions).1.Valid()
    decreases |fs|
  {
    if fs != [] {
      StepsKeepValid(t, fs[..|fs| - 1], names, shortNames, dimensions);
    }
  }

  /** A declare call, successful or not, keeps the registry invariant. */
  lemma DeclaredKeepsValid(s: RegistryState, fs: seq<string>, names: map<string, string>,
                           shortNames: map<string, string>, dimensions: map<string, Dimension>)
    requires s.Valid()
    ensures Declared(s, fs, names, shortNames, dimensions).1.Valid()
  {
    var t := s.(features := s.features + (set f | f in fs));
    StepsKeepValid(t, fs, names, shortNames, dimensions);
  }

  /** Helper for the inductions below: the name maps after one turn, entry by entry. */
  lemma StepEffect(u: RegistryState, f: string, names: map<string, string>, shortNames: map<string, string>,
                   dimensions: map<string, Dimension>)
    ensures var r := Step(u, f, names, shortNames, dimensions);
      && r.1.names == (if f in names then u.names[f := names[f]] else u.names)
      && r.1.shortNames == (if f in names && f in shortNames then u.shortNames[f := shortNames[f]] else u.shortNames)
  {
  }

  /** The loop over keys that all have complete metadata gets through and touches only the name maps. */
  lemma {:induction false} StepsCompletePass(t: RegistryState, fs: seq<string>, names: map<string, string>,
                                             shortNames: map<string, string>, dimensions: map<string, Dimension>)
    requires forall i :: 0 <= i < |fs| ==> fs[i] in names && fs[i] in shortNames && fs[i] in dimensions
    ensures Steps(t, fs, names, shortNames, dimensions).0 == Pass
    decreases |fs|
  {
    if fs != [] {
      var n := |fs| - 1;
      StepsCompletePass(t, fs[..n], names, shortNames, dimensions);
      StepEffect(Steps(t, fs[..n], names, shortNames, dimensions).1, fs[n], names, shortNames, dimensions);
    }
  }

  /**
   * The loop over keys that all have complete metadata records each key's name and short name
   * and keeps every other entry.
   */
  lemma {:induction false} StepsCompleteRecords(t: RegistryState, fs: seq<string>, names: map<string, string>,
                                                shortNames: map<string, string>, dimensions: map<string, Dimension>)
    requires forall i :: 0 <= i < |fs| ==> fs[i] in names && fs[i] in shortNames && fs[i] in dimensions
    ensures var u := Steps(t, fs, names, shortNames, dimensions).1;
      && (forall i :: 0 <= i < |fs| ==> fs[i] in u.names && u.names[fs[i]] == names[fs[i]])
      && (forall i :: 0 <= i < |fs| ==> fs[i] in u.shortNames && u.shortNames[fs[i]] == shortNames[fs[i]])
    decreases |fs|
  {
    if fs != [] {
      var n := |fs| - 1;
      var init := fs[..n];
      StepsCompletePass(t, init, names, shortNames, dimensions);
      StepsCompleteRecords(t, init, names, shortNames, dimensions);
      StepEffect(Steps(t, init, names, shortNames, dimensions).1, fs[n], names, shortNames, dimensions);
      assert forall i :: 0 <= i < n ==> init[i] == fs[i];
    }
  }

  /**
   * The loop names and short-names only keys among its own keys, and leaves the entries of
   * every other key as they were.
   */
  lemma {:induction false} StepsFrame(t: RegistryState, fs: seq<string>, names: map<string, string>,
                                      shortNames: map<string, string>, dimensions: map<string, Dimension>)
    ensures var u := Steps(t, fs, names, shortNames, dimensions).1;
      && u.names.Keys <= t.names.Keys + (set f | f in fs)
      && u.shortNames.Keys <= t.shortNames.Keys + (set f | f in fs)
      && (forall g :: g in t.names && g !in fs ==> g in u.names && u.names[g] == t.names[g])
      && (forall g :: g in t.shortNames && g !in fs ==> g in u.shortNames && u.shortNames[g] == t.shortNames[g])
    decreases |fs|
  {
    if fs != [] {
      var n := |fs| - 1;
      var init := fs[..n];
      StepsFrame(t, init, names, shortNames, dimensions);
      StepEffect(Steps(t, init, names, shortNames, dimensions).1, fs[n], names, shortNames, dimensions);
      assert fs == init + [fs[n]];
      assert (set f | f in fs) == (set f | f in init) + {fs[n]};
    }
  }

  /**
   * Declaring keys that all have complete metadata succeeds and is additive: every key is
   * added, previously declared keys remain, each key's name and short name are the supplied
   * ones, other names are kept, and the dimension map is not touched.
   */
  lemma DeclareCompleteIsAdditive(s: RegistryState, fs: seq<string>, names: map<string, string>,
                                  shortNames: map<string, string>, dimensions: map<string, Dimension>)
    requires forall i :: 0 <= i < |fs| ==> fs[i] in names && fs[i] in shortNames && fs[i] in dimensions
    ensures var (outcome, t) := Declared(s, fs, names, shortNames, dimensions);
      && outcome == Pass
      && t.features == s.features + (set f | f in fs)
      && t.names.Keys == s.names.Keys + (set f | f in fs)
      && t.shortNames.Keys == s.shortNames.Keys + (set f | f in fs)
      && (forall i :: 0 <= i < |fs| ==> fs[i] in t.names && t.names[fs[i]] == names[fs[i]])
      && (forall i :: 0 <= i < |fs| ==> fs[i] in t.shortNames && t.shortNames[fs[i]] == shortNames[fs[i]])
      && (forall f :: f in s.names && f !in fs ==> f in t.names && t.names[f] == s.names[f])
      && (forall f :: f in s.shortNames && f !in fs ==> f in t.shortNames && t.shortNames[f] == s.shortNames[f])
      && t.dimensions == s.dimensions
  {
    var t0 := s.(features := s.features + (set f | f in fs));
    StepsCompletePass(t0, fs, names, shortNames, dimensions);
    StepsCompleteRecords(t0, fs, names, shortNames, dimensions);
    StepsFrame(t0, fs, names, shortNames, dimensions);
    var t := Steps(t0, fs, names, shortNames, dimensions).1;
    forall f | f in fs
      ensures f in t.names && f in t.shortNames
    {
      var i :| 0 <= i < |fs| && fs[i] == f;
    }
  }

  /** The loop over keys of which some lacks metadata ends with the turn for the first such key. */
  lemma StepsStop(t: RegistryState, fs: seq<string>, names: map<string, string>,
                  shortNames: map<string, string>, dimensions: map<string, Dimension>, k: nat)
    requires k < |fs| && k == FirstIncomplete(fs, names, shortNames, dimensions)
    ensures Steps(t, fs, names, shortNames, dimensions)
         == Step(Steps(t, fs[..k], names, shortNames, dimensions).1, fs[k], names, shortNames, dimensions)
    ensures Steps(t, fs[..k], names, shortNames, dimensions).0 == Pass
    ensures Step(Steps(t, fs[..k], names, shortNames, dimensions).1, fs[k], names, shortNames, dimensions).0.Fail?
  {
    var prefix := fs[..k];
    assert forall j :: 0 <= j < k ==> prefix[j] == fs[j];
    StepsCompletePass(t, prefix, names, shortNames, dimensions);
    var u := Steps(t, prefix, names, shortNames, dimensions).1;
    StepEffect(u, fs[k], names, shortNames, dimensions);
    assert fs[..k + 1][..k] == prefix;
    assert Steps(t, fs[..k + 1], names, shortNames, dimensions) == Step(u, fs[k], names, shortNames, dimensions);
    StepsFailureSticks(t, fs, names, shortNames, dimensions, k + 1);
  }

  /**
   * When the loop stops at the first key lacking metadata, the keys before it have their
   * supplied name and short name, and that key has whatever of them was found.
   */
  lemma StepsStopRecords(t: RegistryState, fs: seq<string>, names: map<string, string>,
                         shortNames: map<string, string>, dimensions: map<string, Dimension>, k: nat)
    requires k < |fs| && k == FirstIncomplete(fs, names, shortNames, dimensions)
    ensures var u := Steps(t, fs, names, shortNames, dimensions).1;
      && (forall j :: 0 <= j < k ==> fs[j] in u.names && u.names[fs[j]] == names[fs[j]])
      && (forall j :: 0 <= j < k ==> fs[j] in u.shortNames && u.shortNames[fs[j]] == shortNames[fs[j]])
      && (fs[k] in names ==> fs[k] in u.names && u.names[fs[k]] == names[fs[k]])
      && (fs[k] in names && fs[k] in shortNames ==> fs[k] in u.shortNames && u.shortNames[fs[k]] == shortNames[fs[k]])
  {
    var prefix := fs[..k];
    StepsStop(t, fs, names, shortNames, dimensions, k);
    forall j | 0 <= j < |prefix|
      ensures prefix[j] in names && prefix[j] in shortNames && prefix[j] in dimensions
    {
      assert prefix[j] == fs[j] && HasMetadata(fs[j], names, shortNames, dimensions);
    }
    StepsCompleteRecords(t, prefix, names, shortNames, dimensions);
    var u := Steps(t, prefix, names, shortNames, dimensions).1;
    StepEffect(u, fs[k], names, shortNames, dimensions);
    forall j | 0 <= j < k
      ensures prefix[j] == fs[j] != fs[k]
    {
    }
  }

  /**
   * When the loop stops at the first key lacking metadata, only the keys up to and including
   * that one can have gained a name or short name; every other entry is kept.
   */
  lemma StepsStopFrame(t: RegistryState, fs: seq<string>, names: map<string, string>,
                       shortNames: map<string, string>, dimensions: map<string, Dimension>, k: nat)
    requires k < |fs| && k == FirstIncomplete(fs, names, shortNames, dimensions)
    ensures var u := Steps(t, fs, names, shortNames, dimensions).1;
      && u.names.Keys <= t.names.Keys + (set f | f in fs[..k]) + {fs[k]}
      && u.shortNames.Keys <= t.shortNames.Keys + (set f | f in fs[..k]) + {fs[k]}
      && (forall g :: g in t.names && g !in fs[..k] && g != fs[k] ==> g in u.names && u.names[g] == t.names[g])
      && (forall g :: g in t.shortNames && g !in fs[..k] && g != fs[k] ==> g in u.shortNames && u.shortNames[g] == t.shortNames[g])
  {
    StepsStop(t, fs, names, shortNames, dimensions, k);
    StepsFrame(t, fs[..k], names, shortNames, dimensions);
    StepEffect(Steps(t, fs[..k], names, shortNames, dimensions).1, fs[k], names, shortNames, dimensions);
  }

  /**
   * When the loop stops at the first key lacking metadata, that key keeps the old entries the
   * call did not supply: its old name when its name is missing, and its old short name when
   * its name or short name is missing, since the turn throws before the matching put.
   */
  lemma StepsStopKeepsFailing(t: RegistryState, fs: seq<string>, names: map<string, string>,
                              shortNames: map<string, string>, dimensions: map<string, Dimension>, k: nat)
    requires k < |fs| && k == FirstIncomplete(fs, names, shortNames, dimensions)
    ensures var u := Steps(t, fs, names, shortNames, dimensions).1;
      && (fs[k] !in names ==>
            (fs[k] in u.names <==> fs[k] in t.names) && (fs[k] in t.names ==> u.names[fs[k]] == t.names[fs[k]]))
      && (!(fs[k] in names && fs[k] in shortNames) ==>
            (fs[k] in u.shortNames <==> fs[k] in t.shortNames)
            && (fs[k] in t.shortNames ==> u.shortNames[fs[k]] == t.shortNames[fs[k]]))
  {
    var prefix := fs[..k];
    StepsStop(t, fs, names, shortNames, dimensions, k);
    StepsFrame(t, prefix, names, shortNames, dimensions);
    StepEffect(Steps(t, prefix, names, shortNames, dimensions).1, fs[k], names, shortNames, dimensions);
    forall j | 0 <= j < |prefix|
      ensures prefix[j] != fs[k]
    {
      assert prefix[j] == fs[j] && HasMetadata(fs[j], names, shortNames, dimensions);
    }
    assert fs[k] !in prefix;
  }

  /**
   * Declaring a key that lacks a name, a short name or a dimension throws on the first such
   * key, naming it and the first map that lacks it. By then every key of the call is already
   * declared, the names and short names of the keys before it are recorded, and so is as
   * much of that key's own metadata as was found before the throw; the entries it was not
   * given keep their old values. Every key outside the processed prefix keeps its old
   * entries, and only keys of that prefix can gain one.
   */
  lemma DeclareIncompleteIsPartial(s: RegistryState, fs: seq<string>, names: map<string, string>,
                                   shortNames: map<string, string>, dimensions: map<string, Dimension>)
    requires exists i :: 0 <= i < |fs| && !HasMetadata(fs[i], names, shortNames, dimensions)
    ensures var (outcome, t) := Declared(s, fs, names, shortNames, dimensions);
      var k := FirstIncomplete(fs, names, shortNames, dimensions);
      && k < |fs|
      && outcome == Fail(MissingMetadata(fs[k], MissingKind(fs[k], names, shortNames, dimensions)))
      && t.features == s.features + (set f | f in fs)
      && (forall j :: 0 <= j < k ==> fs[j] in t.names && t.names[fs[j]] == names[fs[j]])
      && (forall j :: 0 <= j < k ==> fs[j] in t.shortNames && t.shortNames[fs[j]] == shortNames[fs[j]])
      && (fs[k] in names ==> fs[k] in t.names && t.names[fs[k]] == names[fs[k]])
      && (fs[k] in names && fs[k] in shortNames ==> fs[k] in t.shortNames && t.shortNames[fs[k]] == shortNames[fs[k]])
      && (fs[k] !in names ==>
            (fs[k] in t.names <==> fs[k] in s.names) && (fs[k] in s.names ==> t.names[fs[k]] == s.names[fs[k]]))
      && (!(fs[k] in names && fs[k] in shortNames) ==>
            (fs[k] in t.shortNames <==> fs[k] in s.shortNames)
            && (fs[k] in s.shortNames ==> t.shortNames[fs[k]] == s.shortNames[fs[k]]))
      && t.names.Keys <= s.names.Keys + (set f | f in fs[..k]) + {fs[k]}
      && t.shortNames.Keys <= s.shortNames.Keys + (set f | f in fs[..k]) + {fs[k]}
      && (forall g :: g in s.names && g !in fs[..k] && g != fs[k] ==> g in t.names && t.names[g] == s.names[g])
      && (forall g :: g in s.shortNames && g !in fs[..k] && g != fs[k] ==> g in t.shortNames && t.shortNames[g] == s.shortNames[g])
      && t.dimensions == s.dimensions
  {
    var t0 := s.(features := s.features + (set f | f in fs));
    var k := FirstIncomplete(fs, names, shortNames, dimensions);
    var i :| 0 <= i < |fs| && !HasMetadata(fs[i], names, shortNames, dimensions);
    assert k <= i;
    StepsStop(t0, fs, names, shortNames, dimensions, k);
    StepsStopRecords(t0, fs, names, shortNames, dimensions, k);
    StepsStopFrame(t0, fs, names, shortNames, dimensions, k);
    StepsStopKeepsFailing(t0, fs, names, shortNames, dimensions, k);
  }

  /**
   * Declaration is not atomic: declaring ["A", "B"] when only "A" has metadata throws on
   * "B", yet both keys are declared and "A" keeps its name.
   */
  lemma DeclareIsNotAtomic()
    ensures var names := map["A" := "Area"];
      var shortNames := map["A" := "A"];
      var dimensions := map["A" := Dimension("AREA")];
      var (outcome, t) := Declared(Empty, ["A", "B"], names, shortNames, dimensions);
      && outcome == Fail(MissingMetadata("B", MissesName))
      && t.features == {"A", "B"}
      && t.names == map["A" := "Area"]
  {
    var names := map["A" := "Area"];
    var shortNames := map["A" := "A"];
    var dimensions := map["A" := Dimension("AREA")];
    var fs := ["A", "B"];
    var t0 := Empty.(features := {"A", "B"});
    assert (set f | f in fs) == {"A", "B"};
    assert fs[..1] == ["A"] && fs[..1][..0] == [];
    var t1 := t0.(names := map["A" := "Area"], shortNames := map["A" := "A"]);
    assert Steps(t0, fs[..1], names, shortNames, dimensions) == (Pass, t1);
    assert Steps(t0, fs, names, shortNames, dimensions) == (Fail(MissingMetadata("B", MissesName)), t1);
    assert Empty.features + (set f | f in fs) == {"A", "B"};
    assert Declared(Empty, fs, names, shortNames, dimensions) == Steps(t0, fs, names, shortNames, dimensions);
  }

  /** The registry of one namespace, updated in place. */
  class FeatureRegistry {
    var features: set<string>
    var names: map<string, string>
    var shortNames: map<string, string>
    var dimensions: map<string, Dimension>

    function State(): RegistryState
      reads this
    {
      RegistryState(features, names, shortNames, dimensions)
    }

    ghost predicate Valid()
      reads this
    {
      State().Valid()
    }

    constructor ()
      ensures State() == Empty
    {
      features, names, shortNames, dimensions := {}, map[], map[], map[];
    }

    /** Resets the features, names, short names and dimensions. */
    method Clear()
      modifies this
      ensures State() == Empty
    {
      features := {};
      names := map[];
      shortNames := map[];
      dimensions := map[];
    }

    /** One turn of the declaration loop for `feature`. */
    method Record(feature: string, featureNames: map<string, string>, featureShortNames: map<string, string>,
                  featureDimensions: map<string, Dimension>) returns (outcome: Outcome<Exception>)
      modifies this`names, this`shortNames
      ensures (outcome, State()) == Step(old(State()), feature, featureNames, featureShortNames, featureDimensions)
    {
      if feature !in featureNames {
        return Fail(MissingMetadata(feature, MissesName));
      }
      names := names[feature := featureNames[feature]];
      if feature !in featureShortNames {
        return Fail(MissingMetadata(feature, MissesShortName));
      }
      shortNames := shortNames[feature := featureShortNames[feature]];
      if feature !in featureDimensions {
        return Fail(MissingMetadata(feature, MissesDimension));
      }
      return Pass;
    }

    /** Declares the keys `fs` with their metadata; not atomic (see `DeclareIsNotAtomic`). */
    method Declare(fs: seq<string>, featureNames: map<string, string>, featureShortNames: map<string, string>,
                   featureDimensions: map<string, Dimension>) returns (outcome: Outcome<Exception>)
      requires Valid()
      modifies this
      ensures Valid()
      ensures (outcome, State()) == Declared(old(State()), fs, featureNames, featureShortNames, featureDimensions)
    {
      DeclaredKeepsValid(State(), fs, featureNames, featureShortNames, featureDimensions);
      features := features + (set f | f in fs);
      outcome := RecordAll(fs, featureNames, featureShortNames, featureDimensions);
    }

    /** The loop of a declare call: records the keys `fs` in order until the first throw. */
    method RecordAll(fs: seq<string>, featureNames: map<string, string>, featureShortNames: map<string, string>,
                     featureDimensions: map<string, Dimension>) returns (outcome: Outcome<Exception>)
      modifies this`names, this`shortNames
      ensures (outcome, State()) == Steps(old(State()), fs, featureNames, featureShortNames, featureDimensions)
    {
      ghost var t := State();
      outcome := Pass;
      for i := 0 to |fs|
        invariant outcome == Pass
        invariant (Pass, State()) == Steps(t, fs[..i], featureNames, featureShortNames, featureDimensions)
      {
        assert fs[..i + 1][..i] == fs[..i];
        outcome := Record(fs[i], featureNames, featureShortNames, featureDimensions);
        if outcome.Fail? {
          assert (outcome, State()) == Steps(t, fs[..i + 1], featureNames, featureShortNames, featureDimensions);
          StepsFailureSticks(t, fs, featureNames, featureShortNames, featureDimensions, i + 1);
          return;
        }
      }
      assert fs[..|fs|] == fs;
    }
  }
}
