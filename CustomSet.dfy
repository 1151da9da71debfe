/**
 * A mutable, insertion-ordered set whose elements are kept in a sequence and
 * compared with the element type's equality. Membership is a linear scan;
 * add, delete and clear change the set in place; the set-algebra operations
 * build a fresh set and leave both operands alone.
 */
module CustomSets {
  import opened SetSpec

  class CustomSet<T(==)> {
    /** The stored elements, in first-insertion order. */
    var values: seq<T>

    /** The class invariant: no element is stored twice. */
    ghost predicate Valid()
      reads this
    {
      NoDups(values)
    }

    /** Builds the set from `source`, keeping the first occurrence of each element. */
    constructor (source: seq<T>)
      ensures Valid()
      ensures values == Dedup(source)
    {
      values := [];
      new;
      SetValues(source);
      assert [] + source == source;
    }

    /**
     * Adds every element of `source` in order. The elements already stored
     * stay where they are: the setter appends, it does not replace.
     */
    method SetValues(source: seq<T>)
      requires Valid()
      modifies this
      ensures Valid()
      ensures values == Dedup(old(values) + source)
    {
      DedupOfNoDups(values);
      ghost var start := values;
      assert start + source[..0] == start;
      for i := 0 to |source|
        invariant values == Dedup(start + source[..i])
      {
        assert source[..i + 1] == source[..i] + [source[i]];
        ConcatAssoc(start, source[..i], [source[i]]);
        DedupSnoc(start + source[..i], source[i]);
        var _ := Add(source[i]);
      }
      assert source[..|source|] == source;
      DedupNoDups(start + source);
    }

    /** The number of stored elements, which is the number of distinct elements. */
    function Size(): (n: nat)
      reads this
      requires Valid()
      ensures n == |Elems(values)|
    {
      SizeIsCardinality(values);
      |values|
    }

    /** Whether some stored element equals `value`. */
    method Has(value: T) returns (found: bool)
      ensures found <==> value in values
    {
      for i := 0 to |values|
        invariant value !in values[..i]
      {
        if values[i] == value {
          return true;
        }
      }
      assert values[..|values|] == values;
      return false;
    }

    /** Appends `value` when it is not yet stored; returns the set itself. */
    method Add(value: T) returns (self: CustomSet<T>)
      modifies this
      ensures self == this
      ensures values == Insert(old(values), value)
      ensures old(Valid()) ==> Valid()
    {
      if Valid() {
        InsertNoDups(values, value);
      }
      var present := Has(value);
      if !present {
        values := values + [value];
      }
      self := this;
    }

    /** Removes every element. */
    method Clear()
      modifies this
      ensures Valid()
      ensures values == []
    {
      values := [];
    }

    /**
     * Removes every stored element equal to `value`, keeping the order of the
     * rest, and reports whether `value` is absent afterwards, which it always is.
     */
    method Delete(value: T) returns (absent: bool)
      modifies this
      ensures values == Minus(old(values), [value])
      ensures absent <==> value !in values
      ensures absent
      ensures old(Valid()) ==> Valid()
    {
      if Valid() {
        MinusNoDups(values, [value]);
      }
      values := Minus(values, [value]);
      var present := Has(value);
      absent := !present;
      MinusMember(old(values), [value], value);
    }

    /** A fresh set of the elements of this set, in this set's order, that `other` has. */
    method IntersectWith(other: CustomSet<T>) returns (r: CustomSet<T>)
      requires Valid()
      ensures fresh(r) && r.Valid()
      ensures r.values == Inter(values, other.values)
    {
      InterNoDups(values, other.values);
      DedupOfNoDups(Inter(values, other.values));
      r := new CustomSet(Inter(values, other.values));
    }

    /** A fresh set of this set's elements followed by those of `other` that are new. */
    method UnionWith(other: CustomSet<T>) returns (r: CustomSet<T>)
      requires Valid() && other.Valid()
      ensures fresh(r) && r.Valid()
      ensures r.values == Union(values, other.values)
    {
      UnionIsDedup(values, other.values);
      UnionNoDups(values, other.values);
      r := new CustomSet(values + other.values);
    }

    /** Whether every element of this set is in `other`; stops at the first that is not. */
    method IsSubsetOf(other: CustomSet<T>) returns (b: bool)
      ensures b <==> SubsetOf(values, other.values)
    {
      for i := 0 to |values|
        invariant SubsetOf(values[..i], other.values)
      {
        var has := other.Has(values[i]);
        if !has {
          return false;
        }
      }
      assert values[..|values|] == values;
      return true;
    }

    /** Whether every element of `other` is in this set; stops at the first that is not. */
    method IsSupersetOf(other: CustomSet<T>) returns (b: bool)
      ensures b <==> SubsetOf(other.values, values)
    {
      for i := 0 to |other.values|
        invariant SubsetOf(other.values[..i], values)
      {
        var has := Has(other.values[i]);
        if !has {
          return false;
        }
      }
      assert other.values[..|other.values|] == other.values;
      return true;
    }

    /** A fresh copy of this set with every element of `other` deleted from it in turn. */
    method GetDifference(other: CustomSet<T>) returns (r: CustomSet<T>)
      requires Valid()
      ensures fresh(r) && r.Valid()
      ensures r.values == Minus(values, other.values)
    {
      DedupOfNoDups(values);
      r := new CustomSet(values);
      ghost var a, b := values, other.values;
      MinusNone(a, []);
      for i := 0 to |other.values|
        invariant fresh(r)
        invariant r.values == Minus(a, b[..i])
      {
        MinusNext(a, b, i);
        var _ := r.Delete(other.values[i]);
      }
      assert b[..|b|] == b;
      MinusNoDups(a, b);
    }

    /** Deletes `value` when it is stored and adds it otherwise. */
    method Toggle(value: T)
      modifies this
      ensures value in old(values) ==> values == Minus(old(values), [value])
      ensures value !in old(values) ==> values == Insert(old(values), value)
    {
      var present := Has(value);
      if present {
        var _ := Delete(value);
      } else {
        var _ := Add(value);
      }
    }

    /**
     * A fresh copy of this set in which every element of `other` is toggled in
     * turn: deleted when present, added at the end when absent.
     */
    method SymmetricDifferenceWith(other: CustomSet<T>) returns (r: CustomSet<T>)
      requires Valid() && other.Valid()
      ensures fresh(r) && r.Valid()
      ensures r.values == SymDiff(values, other.values)
    {
      DedupOfNoDups(values);
      r := new CustomSet(values);
      ghost var a, b := values, other.values;
      SymDiffNothing(a);
      assert b[..0] == [];
      for i := 0 to |other.values|
        invariant fresh(r)
        invariant r.values == SymDiff(a, b[..i])
      {
        SymDiffToggle(a, b, i, r.values);
        r.Toggle(other.values[i]);
      }
      assert b[..|b|] == b;
      SymDiffNoDups(a, b);
    }
  }

  /** Asking whether `a` is a subset of `b` and whether `b` is a superset of `a` gives the same answer. */
  method SubsetSupersetAgree<T(==)>(a: CustomSet<T>, b: CustomSet<T>) returns (sub: bool, sup: bool)
    ensures sub == sup
  {
    sub := a.IsSubsetOf(b);
    sup := b.IsSupersetOf(a);
  }
}
