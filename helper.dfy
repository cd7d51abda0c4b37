/**
 * The helpers the formula editor relies on: the `union` and `difference`
 * methods added to JavaScript's `Set`, the generic tree walk `traverse`, and
 * `findCols`, which collects the column references of a parsed formula.
 *
 * A JavaScript `Set` keeps its elements once each, in insertion order; it is
 * modelled as a class over a duplicate-free sequence. The parsed formula is a
 * JSON-like value given as input.
 */
module Helper {
  import opened Wrappers

  predicate NoDuplicates<T(==,!new)>(s: seq<T>)
  {
    forall i, j :: 0 <= i < j < |s| ==> s[i] != s[j]
  }

  /** `set.add(x)`: appended when absent, otherwise nothing changes. */
  function Added<T(==,!new)>(s: seq<T>, x: T): (r: seq<T>)
    ensures NoDuplicates(s) ==> NoDuplicates(r)
    ensures forall y :: y in r <==> y in s || y == x
  {
    if x in s then s else s + [x]
  }

  /** `set.delete(x)`: the element removed, the others kept in order. */
  function Deleted<T(==,!new)>(s: seq<T>, x: T): (r: seq<T>)
    ensures forall y :: y in r <==> y in s && y != x
    ensures NoDuplicates(s) ==> NoDuplicates(r)
    decreases |s|
  {
    if s == [] then []
    else
      var init, last := s[..|s| - 1], s[|s| - 1];
      assert s == init + [last];
      assert NoDuplicates(s) ==> NoDuplicates(init) && last !in init;
      Deleted(init, x) + (if last == x then [] else [last])
  }

  /** The elements `union` holds after adding each element of `b`, in order, to a copy of `a`. */
  function UnionOf<T(==,!new)>(a: seq<T>, b: seq<T>): seq<T>
    decreases |b|
  {
    if b == [] then a else Added(UnionOf(a, b[..|b| - 1]), b[|b| - 1])
  }

  /** The elements `difference` holds after deleting each element of `b`, in order, from a copy of `a`. */
  function DifferenceOf<T(==,!new)>(a: seq<T>, b: seq<T>): seq<T>
    decreases |b|
  {
    if b == [] then a else Deleted(DifferenceOf(a, b[..|b| - 1]), b[|b| - 1])
  }

  /** The elements of `a` that are not in `b`, in their order in `a`. */
  function Without<T(==,!new)>(a: seq<T>, b: seq<T>): seq<T>
    decreases |a|
  {
    if a == [] then []
    else Without(a[..|a| - 1], b) + (if a[|a| - 1] in b then [] else [a[|a| - 1]])
  }

  lemma {:induction false} UnionMembers<T(!new)>(a: seq<T>, b: seq<T>)
    ensures forall x :: x in UnionOf(a, b) <==> x in a || x in b
    decreases |b|
  {
    if b != [] {
      UnionMembers(a, b[..|b| - 1]);
      assert b == b[..|b| - 1] + [b[|b| - 1]];
    }
  }

  /** `union` holds no element twice, and starts with the receiver's elements in their order. */
  lemma {:induction false} UnionShape<T(!new)>(a: seq<T>, b: seq<T>)
    requires NoDuplicates(a)
    ensures NoDuplicates(UnionOf(a, b))
    ensures |UnionOf(a, b)| >= |a| && UnionOf(a, b)[..|a|] == a
    decreases |b|
  {
    if b != [] {
      UnionShape(a, b[..|b| - 1]);
    }
  }

  lemma {:induction false} DeletedIsWithout<T(!new)>(s: seq<T>, b: seq<T>, x: T)
    ensures Deleted(Without(s, b), x) == Without(s, b + [x])
    decreases |s|
  {
    if s != [] {
      var init := s[..|s| - 1];
      var last := s[|s| - 1];
      DeletedIsWithout(init, b, x);
      var keep := Without(init, b);
      if last in b {
        assert Without(s, b) == keep + [];
        assert keep + [] == keep;
      } else {
        assert Without(s, b) == keep + [last];
        assert (keep + [last])[..|keep|] == keep;
      }
    }
  }

  /**
   * `difference` keeps exactly the receiver's elements that are not in
   * `setB`, in the receiver's order.
   */
  lemma {:induction false} DifferenceIsWithout<T(!new)>(a: seq<T>, b: seq<T>)
    ensures DifferenceOf(a, b) == Without(a, b)
    decreases |b|
  {
    if b == [] {
      WithoutNothing(a);
    } else {
      var init := b[..|b| - 1];
      DifferenceIsWithout(a, init);
      DeletedIsWithout(a, init, b[|b| - 1]);
      assert init + [b[|b| - 1]] == b;
    }
  }

  lemma {:induction false} WithoutNothing<T(!new)>(a: seq<T>)
    ensures Without(a, []) == a
    decreases |a|
  {
    if a != [] {
      WithoutNothing(a[..|a| - 1]);
    }
  }

  lemma {:induction false} WithoutMembers<T(!new)>(a: seq<T>, b: seq<T>)
    ensures forall x :: x in Without(a, b) <==> x in a && x !in b
    ensures NoDuplicates(a) ==> NoDuplicates(Without(a, b))
    decreases |a|
  {
    if a != [] {
      var init := a[..|a| - 1];
      WithoutMembers(init, b);
      assert a == init + [a[|a| - 1]];
      if NoDuplicates(a) {
        assert NoDuplicates(init);
        assert a[|a| - 1] !in init;
      }
    }
  }

  /** A JavaScript `Set`: its elements, once each, in insertion order. */
  class JsSet<T(==,!new)> {
    var items: seq<T>

    ghost predicate Valid()
      reads this
    {
      NoDuplicates(items)
    }

    function Elements(): set<T>
      reads this
    {
      set x | x in items
    }

    /** `new Set(other)`: the same elements in the same order. */
    constructor Copy(other: JsSet<T>)
      requires other.Valid()
      ensures Valid() && items == other.items
    {
      items := other.items;
    }

    method Add(x: T)
      requires Valid()
      modifies this
      ensures Valid() && items == Added(old(items), x)
    {
      if x !in items {
        items := items + [x];
      }
    }

    method Delete(x: T)
      requires Valid()
      modifies this
      ensures Valid() && items == Deleted(old(items), x)
    {
      items := Deleted(items, x);
    }

    /** `Set.prototype.union`: a new set, the receiver and `setB` untouched. */
    method Union(setB: JsSet<T>) returns (u: JsSet<T>)
      requires Valid() && setB.Valid()
      ensures fresh(u) && u.Valid()
      ensures u.items == UnionOf(items, setB.items)
      ensures u.Elements() == Elements() + setB.Elements()
      ensures unchanged(this) && unchanged(setB)
    {
      u := new JsSet.Copy(this);
      var i := 0;
      while i < |setB.items|
        invariant 0 <= i <= |setB.items|
        invariant u.Valid() && u.items == UnionOf(items, setB.items[..i])
        invariant fresh(u)
      {
        assert setB.items[..i + 1][..i] == setB.items[..i];
        u.Add(setB.items[i]);
        i := i + 1;
      }
      assert setB.items[..i] == setB.items;
      UnionMembers(items, setB.items);
    }

    /** `Set.prototype.difference`: a new set, the receiver and `setB` untouched. */
    method Difference(setB: JsSet<T>) returns (d: JsSet<T>)
      requires Valid() && setB.Valid()
      ensures fresh(d) && d.Valid()
      ensures d.items == DifferenceOf(items, setB.items)
      ensures d.Elements() == Elements() - setB.Elements()
      ensures unchanged(this) && unchanged(setB)
    {
      d := new JsSet.Copy(this);
      var i := 0;
      while i < |setB.items|
        invariant 0 <= i <= |setB.items|
        invariant d.Valid() && d.items == DifferenceOf(items, setB.items[..i])
        invariant fresh(d)
      {
        assert setB.items[..i + 1][..i] == setB.items[..i];
        d.Delete(setB.items[i]);
        i := i + 1;
      }
      assert setB.items[..i] == setB.items;
      DifferenceIsWithout(items, setB.items);
      WithoutMembers(items, setB.items);
    }
  }

  // ---------------------------------------------------------------------------
  // traverse and findCols

  /** A JSON-like value, as the SQL parser returns it; an object lists its properties in order. */
  datatype Json =
    | Undefined
    | Null
    | Bool(b: bool)
    | Num(n: int)
    | Str(s: string)
    | Arr(elems: seq<Json>)
    | Obj(props: seq<(string, Json)>)

  /**
   * The nodes `traverse` hands to its callback, in call order: an array is
   * not visited itself, only its elements; an object (`null` too, since its
   * `typeof` is `'object'`) is visited before its property values; anything
   * else is visited as a leaf.
   */
  function Visits(o: Json): seq<Json>
    decreases o, 1
  {
    match o
    case Arr(elems) => VisitsAll(elems)
    case Obj(props) => [o] + VisitsProps(props)
    case _ => [o]
  }

  function VisitsAll(elems: seq<Json>): seq<Json>
    decreases elems, 0
  {
    if elems == [] then [] else VisitsAll(elems[..|elems| - 1]) + Visits(elems[|elems| - 1])
  }

  function VisitsProps(props: seq<(string, Json)>): seq<Json>
    decreases props, 0
  {
    if props == [] then []
    else
      var last := props[|props| - 1];
      assert last in props && last.1 < last;
      VisitsProps(props[..|props| - 1]) + Visits(last.1)
  }

  /** `x` occurs in `o`: `o` itself, or inside an element of an array or a property value of an object. */
  predicate Within(x: Json, o: Json)
    decreases o
  {
    x == o ||
    (o.Arr? && exists e :: e in o.elems && Within(x, e)) ||
    (o.Obj? && exists p :: p in o.props && Within(x, p.1))
  }

  /**
   * `traverse` calls its callback on exactly the values in the tree that are
   * not arrays, and on an object before anything inside it.
   */
  lemma {:induction false} VisitsExactly(o: Json)
    ensures forall x :: x in Visits(o) <==> Within(x, o) && !x.Arr?
    ensures !o.Arr? ==> Visits(o)[0] == o
    decreases o, 1
  {
    match o
    case Arr(elems) => VisitsAllExactly(elems);
    case Obj(props) => VisitsPropsExactly(props);
    case _ =>
  }

  lemma {:induction false} VisitsAllExactly(elems: seq<Json>)
    ensures forall x :: x in VisitsAll(elems) <==> !x.Arr? && exists e :: e in elems && Within(x, e)
    decreases elems, 0
  {
    if elems != [] {
      var init := elems[..|elems| - 1];
      var last := elems[|elems| - 1];
      assert elems == init + [last];
      VisitsAllExactly(init);
      VisitsExactly(last);
      assert VisitsAll(elems) == VisitsAll(init) + Visits(last);
      forall x | x in VisitsAll(elems)
        ensures !x.Arr? && exists e :: e in elems && Within(x, e)
      {
        if x !in VisitsAll(init) {
          assert last in elems && Within(x, last);
        }
      }
      forall x: Json | !x.Arr? && exists e :: e in elems && Within(x, e)
        ensures x in VisitsAll(elems)
      {
        var e :| e in elems && Within(x, e);
        if e != last {
          assert e in init;
        }
      }
    }
  }

  lemma {:induction false} VisitsPropsExactly(props: seq<(string, Json)>)
    ensures forall x :: x in VisitsProps(props) <==> !x.Arr? && exists p :: p in props && Within(x, p.1)
    decreases props, 0
  {
    if props != [] {
      var init := props[..|props| - 1];
      var last := props[|props| - 1];
      assert props == init + [last];
      assert last in props && last.1 < last;
      VisitsPropsExactly(init);
      VisitsExactly(last.1);
    }
  }

  /** `el.variant`, `el.name`: the value of the first property with that key, undefined when there is none. */
  function Get(props: seq<(string, Json)>, key: string): Json
    decreases |props|
  {
    if props == [] then Undefined
    else if props[0].0 == key then props[0].1
    else Get(props[1..], key)
  }

  /** The callback's test `el.variant === 'column'`. */
  predicate IsColumn(el: Json)
  {
    el.Obj? && Get(el.props, "variant") == Str("column")
  }

  /** Reading a property of `null` or `undefined` throws a TypeError. */
  datatype TypeError = TypeError

  /** The callback on one visited node: the name it pushes, if any; a TypeError on null or undefined. */
  function Callback(el: Json): Result<seq<Json>, TypeError>
  {
    if el.Null? || el.Undefined? then Err(TypeError)
    else if IsColumn(el) then Ok([Get(el.props, "name")])
    else Ok([])
  }

  /** What the callback pushes over a sequence of visits; the first TypeError ends it. */
  function Collect(visits: seq<Json>): Result<seq<Json>, TypeError>
    decreases |visits|
  {
    if visits == [] then Ok([])
    else
      match Collect(visits[..|visits| - 1])
      case Err(e) => Err(e)
      case Ok(cols) =>
        match Callback(visits[|visits| - 1])
        case Err(e) => Err(e)
        case Ok(more) => Ok(cols + more)
  }

  /**
   * The column references of a tree defined on the tree itself: the names of
   * its column nodes, an object's own before those inside it, properties and
   * elements in order; a TypeError when the tree holds null or undefined.
   */
  function ColumnRefs(o: Json): Result<seq<Json>, TypeError>
    decreases o, 1
  {
    match o
    case Arr(elems) => RefsAll(elems)
    case Obj(props) =>
      (match RefsProps(props)
       case Err(e) => Err(e)
       case Ok(inner) => Ok((if IsColumn(o) then [Get(props, "name")] else []) + inner))
    case Null => Err(TypeError)
    case Undefined => Err(TypeError)
    case _ => Ok([])
  }

  function RefsAll(elems: seq<Json>): Result<seq<Json>, TypeError>
    decreases elems, 0
  {
    if elems == [] then Ok([])
    else Then(RefsAll(elems[..|elems| - 1]), ColumnRefs(elems[|elems| - 1]))
  }

  function RefsProps(props: seq<(string, Json)>): Result<seq<Json>, TypeError>
    decreases props, 0
  {
    if props == [] then Ok([])
    else
      var last := props[|props| - 1];
      assert last in props && last.1 < last;
      Then(RefsProps(props[..|props| - 1]), ColumnRefs(last.1))
  }

  /** The first error, or both lists one after the other. */
  function Then(a: Result<seq<Json>, TypeError>, b: Result<seq<Json>, TypeError>): Result<seq<Json>, TypeError>
  {
    if a.Err? then a else if b.Err? then b else Ok(a.value + b.value)
  }

  lemma {:induction false} CollectAppend(a: seq<Json>, b: seq<Json>)
    ensures Collect(a + b) == Then(Collect(a), Collect(b))
    decreases |b|
  {
    if b == [] {
      assert a + b == a;
      if Collect(a).Ok? {
        assert Collect(a).value + [] == Collect(a).value;
      }
    } else {
      var init := b[..|b| - 1];
      CollectAppend(a, init);
      assert (a + b)[..|a + b| - 1] == a + init;
      assert (a + b)[|a + b| - 1] == b[|b| - 1];
      var x := Collect(a);
      var y := Collect(init);
      if x.Ok? && y.Ok? && Callback(b[|b| - 1]).Ok? {
        assert (x.value + y.value) + Callback(b[|b| - 1]).value == x.value + (y.value + Callback(b[|b| - 1]).value);
      }
    }
  }

  lemma ThenAssoc(a: Result<seq<Json>, TypeError>, b: Result<seq<Json>, TypeError>, c: Result<seq<Json>, TypeError>)
    ensures Then(Then(a, b), c) == Then(a, Then(b, c))
  {
    if a.Ok? && b.Ok? && c.Ok? {
      assert (a.value + b.value) + c.value == a.value + (b.value + c.value);
    }
  }

  /**
   * Pushing from the callback during `traverse` collects exactly the column
   * references of the tree, in pre-order, duplicates kept; and it throws
   * exactly when the tree holds null or undefined.
   */
  lemma {:induction false} CollectVisits(o: Json)
    ensures Collect(Visits(o)) == ColumnRefs(o)
    decreases o, 1
  {
    match o
    case Arr(elems) => CollectVisitsAll(elems);
    case Obj(props) =>
      CollectVisitsProps(props);
      CollectAppend([o], VisitsProps(props));
      CollectOne(o);
    case _ =>
      CollectOne(o);
  }

  lemma CollectOne(o: Json)
    ensures Collect([o]) == Callback(o)
  {
    assert [o][..0] == [];
    if Callback(o).Ok? {
      assert [] + Callback(o).value == Callback(o).value;
    }
  }

  lemma {:induction false} CollectVisitsAll(elems: seq<Json>)
    ensures Collect(VisitsAll(elems)) == RefsAll(elems)
    decreases elems, 0
  {
    if elems != [] {
      CollectVisitsAll(elems[..|elems| - 1]);
      CollectVisits(elems[|elems| - 1]);
      CollectAppend(VisitsAll(elems[..|elems| - 1]), Visits(elems[|elems| - 1]));
    }
  }

  lemma {:induction false} CollectVisitsProps(props: seq<(string, Json)>)
    ensures Collect(VisitsProps(props)) == RefsProps(props)
    decreases props, 0
  {
    if props != [] {
      var last := props[|props| - 1];
      assert last in props && last.1 < last;
      CollectVisitsProps(props[..|props| - 1]);
      CollectVisits(last.1);
      CollectAppend(VisitsProps(props[..|props| - 1]), Visits(last.1));
    }
  }

  /**
   * `findCols` on the parsed formula: walks the tree and pushes the `name` of
   * every column node; reading `.variant` of a visited null or undefined
   * throws, and the names pushed so far are lost with it.
   */
  method FindCols(tree: Json) returns (r: Result<seq<Json>, TypeError>)
    ensures r == ColumnRefs(tree)
    ensures r.Ok? ==> forall x :: x in r.value ==> exists el :: el in Visits(tree) && IsColumn(el) && x == Get(el.props, "name")
  {
    var visits := Visits(tree);
    var cols: seq<Json> := [];
    var i := 0;
    while i < |visits|
      invariant 0 <= i <= |visits|
      invariant Collect(visits[..i]) == Ok(cols)
      invariant forall x :: x in cols ==> exists el :: el in visits && IsColumn(el) && x == Get(el.props, "name")
    {
      var el := visits[i];
      assert visits[..i + 1][..i] == visits[..i];
      assert visits[..i + 1][i] == el;
      if el.Null? || el.Undefined? {
        assert Collect(visits[..i + 1]) == Err(TypeError);
        CollectPrefixErr(visits, i + 1);
        CollectVisits(tree);
        return Err(TypeError);
      }
      if IsColumn(el) {
        cols := cols + [Get(el.props, "name")];
      } else {
        assert cols + [] == cols;
      }
      i := i + 1;
    }
    assert visits[..i] == visits;
    CollectVisits(tree);
    r := Ok(cols);
  }

  /** Once the collection of a prefix has thrown, the whole walk throws. */
  lemma {:induction false} CollectPrefixErr(visits: seq<Json>, n: nat)
    requires n <= |visits| && Collect(visits[..n]).Err?
    ensures Collect(visits) == Collect(visits[..n])
  {
    CollectAppend(visits[..n], visits[n..]);
    assert visits[..n] + visits[n..] == visits;
  }

  /** A tree without a column node and without null or undefined yields an empty list. */
  lemma NoColumnNoRefs(o: Json)
    requires forall el :: el in Visits(o) ==> !IsColumn(el) && !el.Null? && !el.Undefined?
    ensures ColumnRefs(o) == Ok([])
  {
    NoColumnCollect(Visits(o));
    CollectVisits(o);
  }

  lemma {:induction false} NoColumnCollect(visits: seq<Json>)
    requires forall el :: el in visits ==> !IsColumn(el) && !el.Null? && !el.Undefined?
    ensures Collect(visits) == Ok([])
    decreases |visits|
  {
    if visits != [] {
      var init, last := visits[..|visits| - 1], visits[|visits| - 1];
      assert visits == init + [last];
      NoColumnCollect(init);
      assert Callback(last) == Ok([]);
      var none: seq<Json> := [];
      assert Collect(visits) == Ok(none + none);
      assert none + none == none;
    }
  }
}
