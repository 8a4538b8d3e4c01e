/** The `IdPool` of the `Types` namespace: a pool of non-zero `ulong` identifiers
    handed out in increasing order, where releasing the highest one also gives
    back every consecutive, already released identifier below it. */
module Types {
  import opened Wrappers

  /** `ulong.MaxValue`. */
  const ULongMax: nat := 0xFFFF_FFFF_FFFF_FFFF

  /** The identifiers a pool in state (`last`, `disposed`) has handed out and
      not taken back. */
  ghost function LiveOf(last: nat, disposed: set<nat>): set<nat> {
    set v: nat | 1 <= v <= last && v !in disposed
  }

  /** The shape every reachable pool has: only identifiers strictly below the
      last one handed out are kept as disposed. */
  ghost predicate Trimmed(last: nat, disposed: set<nat>) {
    last <= ULongMax && forall d :: d in disposed ==> 1 <= d < last
  }

  /** `SortedSet<ulong>.Max`: the largest element of a non-empty set. */
  lemma {:induction false} GreatestExists(s: set<nat>)
    requires s != {}
    ensures exists m :: m in s && forall x :: x in s ==> x <= m
  {
    var y :| y in s;
    if s != {y} {
      GreatestExists(s - {y});
      var m :| m in s - {y} && forall x :: x in s - {y} ==> x <= m;
      var g := if y > m then y else m;
      forall x | x in s
        ensures x <= g
      {
        if x != y {
          assert x in s - {y};
        }
      }
    } else {
      assert forall x :: x in s ==> x <= y;
    }
  }

  /** The greatest element of a non-empty set, as `SortedSet<ulong>.Max` reads it. */
  method Greatest(s: set<nat>) returns (m: nat)
    requires s != {}
    ensures m in s && forall x :: x in s ==> x <= m
  {
    GreatestExists(s);
    m :| m in s && forall x :: x in s ==> x <= m;
  }

  /** A trimmed pool is determined by the identifiers it has live: `last` is the
      greatest of them (0 when there are none) and `disposed` holds exactly the
      gaps below it. */
  lemma {:induction false} TrimmedIsCanonical(last1: nat, disposed1: set<nat>, last2: nat, disposed2: set<nat>)
    requires Trimmed(last1, disposed1) && Trimmed(last2, disposed2)
    requires LiveOf(last1, disposed1) == LiveOf(last2, disposed2)
    ensures last1 == last2 && disposed1 == disposed2
  {
    assert last1 == 0 || last1 in LiveOf(last1, disposed1);
    assert last2 == 0 || last2 in LiveOf(last2, disposed2);
    forall d | d in disposed1
      ensures d in disposed2
    {
      assert d !in LiveOf(last1, disposed1);
    }
    forall d | d in disposed2
      ensures d in disposed1
    {
      assert d !in LiveOf(last2, disposed2);
    }
  }

  class IdPool {
    var last: nat
    var disposed: set<nat>

    ghost predicate Valid()
      reads this
    {
      Trimmed(last, disposed)
    }

    /** The identifiers handed out and not released. */
    ghost function Live(): set<nat>
      reads this
    {
      LiveOf(last, disposed)
    }

    constructor ()
      ensures Valid() && Live() == {}
      ensures last == 0 && disposed == {}
    {
      last := 0;
      disposed := {};
    }

    /** `Next()`: one more than the last identifier handed out, or `None` (the
        overflow exception) once `ulong.MaxValue` has been handed out. */
    method Next() returns (r: Option<nat>)
      requires Valid()
      modifies this
      ensures Valid()
      ensures r.Some? <==> old(last) < ULongMax
      ensures r.Some? ==> r.value == old(last) + 1 && r.value !in old(Live())
                          && Live() == old(Live()) + {r.value}
                          && last == r.value && disposed == old(disposed)
      ensures r.None? ==> last == old(last) && disposed == old(disposed)
    {
      if last < ULongMax {
        last := last + 1;
        assert Live() == old(Live()) + {last};
        r := Some(last);
      } else {
        r := None;
      }
    }

    /** `Release(value)`: whether `value` was live; afterwards it is not, and
        nothing else changes in the live set. Releasing a middle identifier
        records it as disposed; releasing the last one lowers `last` past it and
        past every disposed identifier directly below. */
    method Release(value: nat) returns (ok: bool)
      requires Valid()
      modifies this
      ensures Valid()
      ensures ok <==> value in old(Live())
      ensures Live() == old(Live()) - {value}
      ensures value == 0 || value > old(last) ==> last == old(last) && disposed == old(disposed)
      ensures 0 < value < old(last) ==> last == old(last) && disposed == old(disposed) + {value}
      ensures value == old(last) > 0 ==>
                last < value && disposed == set d | d in old(disposed) && d < last
                && forall v :: last < v < value ==> v in old(disposed)
    {
      if value > last || value == 0 {
        ok := false;
      } else if value < last {
        ok := value !in disposed;
        disposed := disposed + {value};
        assert Live() == old(Live()) - {value};
      } else {
        last := last - 1;
        assert Live() == old(Live()) - {value};
        while true
          invariant last < value
          invariant forall d :: d in disposed ==> 1 <= d <= last
          invariant disposed == set d | d in old(disposed) && d <= last
          invariant forall v :: last < v < value ==> v in old(disposed)
          invariant Live() == old(Live()) - {value}
          decreases last
        {
          if disposed == {} {
            break;
          }
          var m := Greatest(disposed);
          if m != last {
            break;
          }
          disposed := disposed - {m};
          last := last - 1;
          assert Live() == old(Live()) - {value};
        }
        ok := true;
      }
    }
  }
}
