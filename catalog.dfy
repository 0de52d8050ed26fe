/**
 * The room catalog (Aulas): an ordered list of rooms without duplicates.
 * The teacher catalog (Profesores) follows the same pattern and is the
 * same class instantiated with teachers.
 */
module Catalogs {
  import opened Outcomes
  import opened Sequences

  /** The catalog's invariant: no entity is stored twice. */
  predicate NoDuplicates<T(==)>(s: seq<T>) {
    forall i, j | 0 <= i < j < |s| :: s[i] != s[j]
  }

  /** ArrayList.indexOf: the first position of x in s, or -1. */
  function Position<T(==)>(s: seq<T>, x: T): (i: int)
    ensures -1 <= i < |s|
    ensures i == -1 <==> x !in s
    ensures 0 <= i ==> s[i] == x && x !in s[..i]
  {
    if s == [] then -1
    else if s[0] == x then 0
    else
      var j := Position(s[1..], x);
      assert s == [s[0]] + s[1..];
      if j == -1 then -1
      else
        assert s[..j + 1] == [s[0]] + s[1..][..j];
        j + 1
  }

  /** The catalog after inserting x: unchanged when x is already there, x appended otherwise. */
  function Inserted<T(==)>(s: seq<T>, x: T): (r: seq<T>) {
    if x in s then s else s + [x]
  }

  /** The catalog after inserting each of xs in turn. */
  function InsertedAll<T(==)>(s: seq<T>, xs: seq<T>): (r: seq<T>)
    decreases |xs|
  {
    if xs == [] then s else InsertedAll(Inserted(s, xs[0]), xs[1..])
  }

  /** Inserting entities that are distinct from each other and from those stored appends them all, in order. */
  lemma {:induction false} InsertDistinct<T>(s: seq<T>, xs: seq<T>)
    requires NoDuplicates(s + xs)
    ensures InsertedAll(s, xs) == s + xs
    decreases |xs|
  {
    if xs != [] {
      assert (s + xs)[|s|] == xs[0];
      assert xs[0] !in s by {
        forall i | 0 <= i < |s|
          ensures s[i] != xs[0]
        {
          assert (s + xs)[i] == s[i];
        }
      }
      assert s + xs == (s + [xs[0]]) + xs[1..];
      InsertDistinct(s + [xs[0]], xs[1..]);
    }
  }

  /** N insertions of distinct entities into an empty catalog leave N entities, exactly those inserted, in order. */
  lemma InsertIntoEmpty<T>(xs: seq<T>)
    requires NoDuplicates(xs)
    ensures InsertedAll([], xs) == xs
    ensures |InsertedAll([], xs)| == |xs|
    ensures forall x :: x in InsertedAll([], xs) <==> x in xs
  {
    assert [] + xs == xs;
    InsertDistinct([], xs);
  }

  class Catalog<T(==)> {
    /** The stored entities, in insertion order. */
    var items: seq<T>

    ghost predicate Valid()
      reads this
    {
      NoDuplicates(items)
    }

    /** Aulas(): an empty catalog. */
    constructor ()
      ensures Valid() && items == []
    {
      items := [];
    }

    /** getAulas: a copy of every stored entity, same length and same order. */
    method GetItems() returns (r: seq<T>)
      ensures r == items
    {
      r := [];
      var i := 0;
      while i < |items|
        invariant 0 <= i <= |items|
        invariant r == items[..i]
      {
        r := r + [items[i]];
        i := i + 1;
      }
    }

    /** getNumAulas. */
    method Count() returns (n: int)
      ensures n == |items|
    {
      n := |items|;
    }

    /**
     * insertar: null is refused with IllegalArgument, an entity already
     * stored with OperationNotSupported (the size is unchanged), and any
     * other is appended; the catalog stays free of duplicates.
     */
    method Insert(x: Option<T>) returns (r: Outcome)
      requires Valid()
      modifies this
      ensures Valid()
      ensures x.None? ==> r == Fail(IllegalArgument) && items == old(items)
      ensures x.Some? && x.value in old(items) ==> r == Fail(OperationNotSupported) && items == old(items)
      ensures x.Some? && x.value !in old(items) ==> r == Pass && items == old(items) + [x.value]
      ensures x.Some? ==> items == Inserted(old(items), x.value)
    {
      if x.None? {
        return Fail(IllegalArgument);
      }
      if Position(items, x.value) != -1 {
        return Fail(OperationNotSupported);
      }
      items := items + [x.value];
      r := Pass;
    }

    /** buscar: null for a null or absent entity, otherwise the stored entity equal to it. */
    method Find(x: Option<T>) returns (r: Option<T>)
      ensures r.Some? <==> x.Some? && x.value in items
      ensures r.Some? ==> r.value in items && r.value == x.value
    {
      if x.None? {
        return None;
      }
      var i := Position(items, x.value);
      if i == -1 {
        return None;
      }
      r := Some(items[i]);
    }

    /**
     * borrar: null is refused with IllegalArgument and an absent entity
     * with OperationNotSupported; otherwise that entity is removed, and
     * the others stay, in their order.
     */
    method Remove(x: Option<T>) returns (r: Outcome)
      requires Valid()
      modifies this
      ensures Valid()
      ensures x.None? ==> r == Fail(IllegalArgument) && items == old(items)
      ensures x.Some? && x.value !in old(items) ==> r == Fail(OperationNotSupported) && items == old(items)
      ensures x.Some? && x.value in old(items) ==>
                && r == Pass
                && items == RemoveAt(old(items), Position(old(items), x.value))
                && forall y :: y in items <==> y in old(items) && y != x.value
    {
      if x.None? {
        return Fail(IllegalArgument);
      }
      var i := Position(items, x.value);
      if i == -1 {
        return Fail(OperationNotSupported);
      }
      ghost var was := items;
      items := RemoveAt(items, i);
      forall y
        ensures y in items <==> y in was && y != x.value
      {
        if y in items {
          var k :| 0 <= k < |items| && items[k] == y;
          var k' := if k < i then k else k + 1;
          assert was[k'] == y && k' != i;
        }
        if y in was && y != x.value {
          var k :| 0 <= k < |was| && was[k] == y;
          assert k != i;
          assert items[if k < i then k else k - 1] == y;
        }
      }
      r := Pass;
    }
  }
}
