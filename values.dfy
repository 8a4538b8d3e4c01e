/** Comparisons, clamping and dictionary merging (the static class `Values` of
    the utilities namespace).

    `Comparer<T>.Default` is modelled by a relation `lt` ("compares below");
    `Compare(a, b) < 0` is `lt(a, b)`, `Compare(a, b) > 0` is `lt(b, a)` and
    `Compare(a, b) <= 0` is `!lt(b, a)`. A `T?` is an `Option<T>`. */
module Values {
  import opened Wrappers

  /** What a default comparer of a value type provides: a strict total order. */
  ghost predicate IsComparer<T(!new)>(lt: (T, T) -> bool) {
    && (forall x :: !lt(x, x))
    && (forall x, y, z :: lt(x, y) && lt(y, z) ==> lt(x, z))
    && (forall x, y :: x != y ==> lt(x, y) || lt(y, x))
  }

  /** `Min<T>(a, b)`: `a` when it compares strictly below `b`, otherwise `b`. */
  function Min<T>(lt: (T, T) -> bool, a: T, b: T): (r: T)
    ensures r == a || r == b
    ensures lt(a, b) ==> r == a
    ensures !lt(a, b) ==> r == b
  {
    if lt(a, b) then a else b
  }

  /** `Max<T>(a, b)`: `a` when it compares strictly above `b`, otherwise `b`. */
  function Max<T>(lt: (T, T) -> bool, a: T, b: T): (r: T)
    ensures r == a || r == b
    ensures lt(b, a) ==> r == a
    ensures !lt(b, a) ==> r == b
  {
    if lt(b, a) then a else b
  }

  /** `Min` is a lower bound of both arguments, ties going to `b`. */
  lemma MinIsGreatestLowerBound<T(!new)>(lt: (T, T) -> bool, a: T, b: T, c: T)
    requires IsComparer(lt)
    ensures !lt(a, Min(lt, a, b)) && !lt(b, Min(lt, a, b))
    ensures !lt(a, c) && !lt(b, c) ==> !lt(Min(lt, a, b), c)
  {
  }

  /** `Max` is an upper bound of both arguments, ties going to `b`. */
  lemma MaxIsLeastUpperBound<T(!new)>(lt: (T, T) -> bool, a: T, b: T, c: T)
    requires IsComparer(lt)
    ensures !lt(Max(lt, a, b), a) && !lt(Max(lt, a, b), b)
    ensures !lt(c, a) && !lt(c, b) ==> !lt(c, Max(lt, a, b))
  {
  }

  /** The clamp's rank: 1 while its bounds are reversed, else 0 (the reversed
      case calls `Clamp` once more with the bounds swapped). */
  function ClampRank<T>(lt: (T, T) -> bool, min: Option<T>, max: Option<T>): nat {
    if min.Some? && max.Some? && lt(max.value, min.value) then 1 else 0
  }

  /** `Clamp<T>(min, value, max)`: a missing bound does not constrain; with
      reversed bounds the call is repeated with the bounds swapped. */
  function Clamp<T(!new)>(lt: (T, T) -> bool, min: Option<T>, value: T, max: Option<T>): (r: T)
    requires IsComparer(lt)
    decreases ClampRank(lt, min, max)
  {
    if min.None? && max.None? then value
    else if min.None? then Min(lt, value, max.value)
    else if max.None? then Max(lt, value, min.value)
    else if lt(max.value, min.value) then Clamp(lt, max, value, min)
    else Min(lt, Max(lt, min.value, value), max.value)
  }

  /** `In<T>(min, value, max)`: every present bound is respected inclusively. */
  function In<T>(lt: (T, T) -> bool, min: Option<T>, value: T, max: Option<T>): (r: bool)
    ensures r <==> (min.None? || !lt(value, min.value)) && (max.None? || !lt(max.value, value))
  {
    (min.None? || !lt(value, min.value)) && (max.None? || !lt(max.value, value))
  }

  /** With one bound or none, `Clamp` reduces to `Min`, `Max` or the value. */
  lemma ClampPartialBounds<T(!new)>(lt: (T, T) -> bool, min: Option<T>, value: T, max: Option<T>)
    requires IsComparer(lt)
    ensures min.None? && max.None? ==> Clamp(lt, min, value, max) == value
    ensures min.None? && max.Some? ==> Clamp(lt, min, value, max) == Min(lt, value, max.value)
    ensures min.Some? && max.None? ==> Clamp(lt, min, value, max) == Max(lt, value, min.value)
  {
  }

  /** Reversed bounds behave as the same bounds in order. */
  lemma ClampReversed<T(!new)>(lt: (T, T) -> bool, lo: T, value: T, hi: T)
    requires IsComparer(lt)
    requires lt(hi, lo)
    ensures Clamp(lt, Some(lo), value, Some(hi)) == Clamp(lt, Some(hi), value, Some(lo))
  {
  }

  /** With ordered bounds the result lies within them, and a value already
      within them is returned unchanged. */
  lemma ClampWithin<T(!new)>(lt: (T, T) -> bool, lo: T, value: T, hi: T)
    requires IsComparer(lt)
    requires !lt(hi, lo)
    ensures var r := Clamp(lt, Some(lo), value, Some(hi));
            !lt(r, lo) && !lt(hi, r) && (In(lt, Some(lo), value, Some(hi)) ==> r == value)
  {
  }

  /** Whatever the bounds, the clamped value is `In` them once they are put in
      order, and `In` the given bounds whenever those are ordered. */
  lemma ClampIsIn<T(!new)>(lt: (T, T) -> bool, min: Option<T>, value: T, max: Option<T>)
    requires IsComparer(lt)
    ensures min.Some? && max.Some? && lt(max.value, min.value) ==>
              In(lt, max, Clamp(lt, min, value, max), min)
    ensures !(min.Some? && max.Some? && lt(max.value, min.value)) ==>
              In(lt, min, Clamp(lt, min, value, max), max)
  {
    if min.Some? && max.Some? {
      if lt(max.value, min.value) {
        ClampWithin(lt, max.value, value, min.value);
      } else {
        ClampWithin(lt, min.value, value, max.value);
      }
    }
  }

  /** With bounds in order (or missing), a value is `In` them exactly when
      `Clamp` leaves it unchanged. */
  lemma InIffClampFixed<T(!new)>(lt: (T, T) -> bool, min: Option<T>, value: T, max: Option<T>)
    requires IsComparer(lt)
    requires !(min.Some? && max.Some? && lt(max.value, min.value))
    ensures In(lt, min, value, max) <==> Clamp(lt, min, value, max) == value
  {
  }

  // ---------------------------------------------------------------------------
  // Merge.
  // ---------------------------------------------------------------------------

  /** A `Dictionary<K, V>`: a reference whose contents change in place. */
  class Dictionary<K(==), V> {
    var entries: map<K, V>

    /** `new Dictionary<K, V>(source)`: a fresh copy of `source`'s entries. */
    constructor (source: map<K, V>)
      ensures entries == source
    {
      entries := source;
    }
  }

  /** The default `DictionaryMergePicker`: the right value wins. */
  function PickRight<K, V>(key: K, leftValue: V, rightValue: V): (r: V)
    ensures r == rightValue
  {
    rightValue
  }

  /** The picker a merge uses: the given one, or `PickRight` when it is null. */
  function PickerOrDefault<K, V>(picker: Option<(K, V, V) -> V>): (K, V, V) -> V {
    if picker.Some? then picker.value else PickRight
  }

  /** The merge of `left` and `right`, key by key. */
  ghost function Merged<K, V>(left: map<K, V>, right: map<K, V>, pick: (K, V, V) -> V): (m: map<K, V>)
  {
    map k | k in left.Keys + right.Keys ::
      if k in left && k in right then pick(k, left[k], right[k])
      else if k in right then right[k]
      else left[k]
  }

  /** Merging one more entry of `right` writes it over the merge so far,
      combined with `left`'s value when `left` has the key. */
  lemma MergedAdd<K, V>(left: map<K, V>, done: map<K, V>, key: K, v: V, pick: (K, V, V) -> V)
    requires key !in done
    ensures key in Merged(left, done, pick) <==> key in left
    ensures key in left ==> Merged(left, done, pick)[key] == left[key]
    ensures Merged(left, done[key := v], pick)
            == Merged(left, done, pick)[key := if key in left then pick(key, left[key], v) else v]
  {
  }

  /** `Merge<K, V>(left, right, inPlace, picker)`: every entry of `right` is
      written into the destination (`left` itself when `inPlace`, otherwise a
      fresh copy of `left`), combined by `picker` when the key is already
      there. The entries of `right` are taken as they are when the call
      begins. Merging a non-empty dictionary into itself in place writes to
      the dictionary being enumerated: its first write moves the version on,
      and the enumerator's next step throws `InvalidOperationException`,
      which is `None` here. */
  method Merge<K(==), V>(left: Dictionary<K, V>, right: Dictionary<K, V>, inPlace: bool,
                        picker: Option<(K, V, V) -> V>)
    returns (destination: Option<Dictionary<K, V>>)
    modifies if inPlace then {left} else {}
    ensures destination.None? <==> inPlace && left == right && old(left.entries) != map[]
    ensures destination.None? ==>
              exists k :: k in old(left.entries) &&
                left.entries == old(left.entries)[k := PickerOrDefault(picker)(k, old(left.entries)[k], old(left.entries)[k])]
    ensures destination.Some? && inPlace ==> destination.value == left
    ensures destination.Some? && !inPlace ==> fresh(destination.value) && left.entries == old(left.entries)
    ensures destination.Some? ==> destination.value.entries.Keys == old(left.entries).Keys + old(right.entries).Keys
    ensures destination.Some? ==> forall k :: k in old(left.entries) && k !in old(right.entries) ==>
              destination.value.entries[k] == old(left.entries)[k]
    ensures destination.Some? ==> forall k :: k !in old(left.entries) && k in old(right.entries) ==>
              destination.value.entries[k] == old(right.entries)[k]
    ensures destination.Some? ==> forall k :: k in old(left.entries) && k in old(right.entries) ==>
              destination.value.entries[k] ==
              PickerOrDefault(picker)(k, old(left.entries)[k], old(right.entries)[k])
  {
    var pick := PickerOrDefault(picker);
    if inPlace && left == right && left.entries != map[] {
      var key :| key in left.entries;
      left.entries := left.entries[key := pick(key, left.entries[key], left.entries[key])];
      return None;
    }
    var l0 := left.entries;
    var r0 := right.entries;
    var d;
    if inPlace {
      d := left;
    } else {
      d := new Dictionary(left.entries);
    }
    var todo := r0.Keys;
    while todo != {}
      invariant todo <= r0.Keys
      invariant d.entries == Merged(l0, map k | k in r0 && k !in todo :: r0[k], pick)
      invariant !inPlace ==> left.entries == l0
      decreases todo
    {
      var key :| key in todo;
      ghost var done := map k | k in r0 && k !in todo :: r0[k];
      MergedAdd(l0, done, key, r0[key], pick);
      if key in d.entries {
        d.entries := d.entries[key := pick(key, d.entries[key], r0[key])];
      } else {
        d.entries := d.entries[key := r0[key]];
      }
      todo := todo - {key};
      assert (map k | k in r0 && k !in todo :: r0[k]) == done[key := r0[key]];
    }
    assert (map k | k in r0 && k !in todo :: r0[k]) == r0;
    destination := Some(d);
  }

  /** With the default picker a merge is the map union in which `right` wins. */
  lemma MergeDefaultIsUnion<K, V>(left: map<K, V>, right: map<K, V>)
    ensures Merged(left, right, PickerOrDefault(None)) == left + right
  {
  }
}
