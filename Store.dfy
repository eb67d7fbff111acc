/**
 * The two-level value store of the feature model (entity -> feature -> value), its lookups
 * and puts, and the specifications of the routines that turn stored values into flat arrays.
 * Entities are track IDs (`int`) or edges; values are only stored and copied.
 */
module Store {
  import opened Wrappers

  /** entity -> (feature -> value); an entity without a map has never had a value stored. */
  type Values<K> = map<K, map<string, real>>

  /**
   * The value of feature `f` of entity `k`, or None (Java `null`) when `k` has no map at all
   * or `f` was never set on it: the two cases are not told apart.
   */
  function Lookup<K>(store: Values<K>, k: K, f: string): (r: Option<real>)
    ensures r.Some? <==> k in store && f in store[k]
    ensures r.Some? ==> r.value == store[k][f]
  {
    if k in store && f in store[k] then Some(store[k][f]) else None
  }

  /**
   * The store after `map.put(f, v)` on the map of `k`, the map being created first when
   * `k` has none.
   */
  function Stored<K>(store: Values<K>, k: K, f: string, v: real): (r: Values<K>)
    ensures r.Keys == store.Keys + {k}
    ensures Lookup(r, k, f) == Some(v)
    ensures forall k', f' :: k' in r && (k' != k || f' != f) ==> Lookup(r, k', f') == Lookup(store, k', f')
    ensures forall k' :: k' in store ==> store[k'].Keys <= r[k'].Keys
  {
    store[k := (if k in store then store[k] else map[])[f := v]]
  }

  /** The looked-up values of feature `f` for the entities `keys`, in order. */
  function Column<K>(store: Values<K>, keys: seq<K>, f: string): seq<Option<real>> {
    seq(|keys|, i requires 0 <= i < |keys| => Lookup(store, keys[i], f))
  }

  /**
   * Unboxing every cell with `doubleValue()`: the plain values, or None when some cell is
   * `null` (the unboxing throws a NullPointerException).
   */
  function Unboxed(cells: seq<Option<real>>): (r: Option<seq<real>>)
    ensures r.Some? <==> forall i :: 0 <= i < |cells| ==> cells[i].Some?
    ensures r.Some? ==> |r.value| == |cells|
    ensures r.Some? ==> forall i :: 0 <= i < |cells| ==> cells[i] == Some(r.value[i])
  {
    if cells == [] then Some([])
    else if cells[0].None? then None
    else match Unboxed(cells[1..])
      case None => None
      case Some(rest) => Some([cells[0].value] + rest)
  }

  /** A column with a missing value cannot be unboxed. */
  lemma UnboxedColumnFails<K>(store: Values<K>, keys: seq<K>, f: string, i: nat)
    requires i < |keys| && Lookup(store, keys[i], f).None?
    ensures Unboxed(Column(store, keys, f)).None?
  {
    assert Column(store, keys, f)[i].None?;
  }

  /** A column whose every value is present unboxes to exactly those values. */
  lemma UnboxedColumn<K>(store: Values<K>, keys: seq<K>, f: string, values: seq<real>)
    requires |values| == |keys|
    requires forall i :: 0 <= i < |keys| ==> Lookup(store, keys[i], f) == Some(values[i])
    ensures Unboxed(Column(store, keys, f)) == Some(values)
  {
    var cells := Column(store, keys, f);
    assert forall i :: 0 <= i < |keys| ==> cells[i] == Some(values[i]);
    assert Unboxed(cells).value == values;
  }

  /**
   * The non-null values of feature `f` over the tracks `ids`, in track order; a track
   * without a map contributes nothing. This is the reference the packing loop is held to.
   */
  function Present(store: Values<int>, ids: seq<int>, f: string): seq<real>
    decreases |ids|
  {
    if ids == [] then []
    else
      var id := ids[|ids| - 1];
      Present(store, ids[..|ids| - 1], f) + (if id in store && f in store[id] then [store[id][f]] else [])
  }

  /**
   * What the packing loop of the no-argument `getTrackFeatureValues()` has written after
   * visiting `ids` for feature `f` into an array of `capacity` cells: the values written at
   * the front so far, or the exception it stopped with. A track without a map throws
   * NullPointerException; a null value is skipped; a value with no room left throws
   * ArrayIndexOutOfBoundsException.
   */
  function Packed(store: Values<int>, ids: seq<int>, f: string, capacity: nat): (r: Result<seq<real>, Exception>)
    ensures r.Success? ==> |r.value| <= capacity
    ensures r.Failure? ==> r.error == NullPointer || r.error == IndexOutOfBounds
    decreases |ids|
  {
    if ids == [] then Success([])
    else match Packed(store, ids[..|ids| - 1], f, capacity)
      case Failure(e) => Failure(e)
      case Success(written) =>
        var id := ids[|ids| - 1];
        if id !in store then Failure(NullPointer)
        else if f !in store[id] then Success(written)
        else if |written| >= capacity then Failure(IndexOutOfBounds)
        else Success(written + [store[id][f]])
  }

  /** Helper for the packing loop: one more track, after a prefix that has not thrown. */
  lemma PackedStep(store: Values<int>, ids: seq<int>, f: string, capacity: nat, i: nat)
    requires i < |ids| && Packed(store, ids[..i], f, capacity).Success?
    ensures var written := Packed(store, ids[..i], f, capacity).value;
      Packed(store, ids[..i + 1], f, capacity)
        == if ids[i] !in store then Failure(NullPointer)
           else if f !in store[ids[i]] then Success(written)
           else if |written| >= capacity then Failure(IndexOutOfBounds)
           else Success(written + [store[ids[i]][f]])
  {
    assert ids[..i + 1][..i] == ids[..i];
  }

  /**
   * The packing loop succeeds exactly when every track has a map and the present values fit;
   * then it has written exactly the present values, in track order.
   */
  lemma {:induction false} PackedIsPresent(store: Values<int>, ids: seq<int>, f: string, capacity: nat)
    ensures Packed(store, ids, f, capacity).Success?
        <==> (forall i :: 0 <= i < |ids| ==> ids[i] in store) && |Present(store, ids, f)| <= capacity
    ensures Packed(store, ids, f, capacity).Success? ==> Packed(store, ids, f, capacity).value == Present(store, ids, f)
    decreases |ids|
  {
    if ids != [] {
      var init := ids[..|ids| - 1];
      PackedIsPresent(store, init, f, capacity);
      assert forall i :: 0 <= i < |init| ==> init[i] == ids[i];
    }
  }

  /** Once the packing loop has thrown, later tracks do not change the outcome. */
  lemma {:induction false} PackedFailureSticks(store: Values<int>, ids: seq<int>, f: string, capacity: nat, i: nat)
    requires i <= |ids|
    requires Packed(store, ids[..i], f, capacity).Failure?
    ensures Packed(store, ids, f, capacity) == Packed(store, ids[..i], f, capacity)
    decreases |ids|
  {
    if i < |ids| {
      var init := ids[..|ids| - 1];
      assert init[..i] == ids[..i];
      PackedFailureSticks(store, init, f, capacity, i);
    } else {
      assert ids[..i] == ids;
    }
  }

  /** No track has a value for `f` exactly when there is nothing to pack. */
  lemma {:induction false} NoPresentValues(store: Values<int>, ids: seq<int>, f: string)
    ensures Present(store, ids, f) == [] <==> forall i :: 0 <= i < |ids| ==> Lookup(store, ids[i], f).None?
    decreases |ids|
  {
    if ids != [] {
      var init := ids[..|ids| - 1];
      NoPresentValues(store, init, f);
      assert forall i :: 0 <= i < |init| ==> init[i] == ids[i];
    }
  }

  /**
   * The array `getTrackFeatureValues()` returns for a feature whose packing wrote `written`
   * into `capacity` cells: an empty array when nothing was written (the "no data" signal),
   * otherwise all `capacity` cells with the written values first and 0 in the rest.
   */
  function PackedArray(written: seq<real>, capacity: nat): (a: seq<real>)
    requires |written| <= capacity
    ensures written == [] ==> a == []
    ensures written != [] ==> |a| == capacity && a[..|written|] == written
    ensures forall i :: |written| <= i < |a| ==> a[i] == 0.0
  {
    if written == [] then [] else written + seq(capacity - |written|, _ => 0.0)
  }
}
