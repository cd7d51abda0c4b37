/**
 * The column-type table: one record of display settings per column type
 * (generic, number, money, date), completed once at load time with the keys
 * of `defaults` that a record leaves undefined.
 */
module ColTypes {

  /** The validators a record can hold: the identity, or the date parser (kept opaque). */
  datatype Validator = Identity | MomentUtcIso

  /** The JavaScript values the records hold. */
  datatype Value =
    | Undefined
    | Null
    | Str(s: string)
    | Num(n: int)
    | Fn(f: Validator)

  /** The keys the records use. */
  datatype Key = Name | Icon | Align | ClassName | ValidatorKey | DefaultPrecision

  /** One column type's record; a key that is absent reads as undefined. */
  type Record = map<Key, Value>

  /** `colTypes[cType][key]`: undefined when the key is absent. */
  function Lookup(rec: Record, key: Key): Value
  {
    if key in rec then rec[key] else Undefined
  }

  /** The keys of `colTypes`: the column types. */
  datatype ColType = Generic | Number | Money | Date

  /** The column types, in the order `Object.keys(colTypes)` lists them. */
  const TypeNames: seq<ColType> := [Generic, Number, Money, Date]

  function GenericRecord(): Record
  {
    map[Name := Str("Generic"), Icon := Str("blank"), Align := Str("left"),
        ClassName := Str(""), DefaultPrecision := Null]
  }

  function NumberRecord(): Record
  {
    map[Name := Str("Number"), Icon := Str("numerical"), Align := Str("right"),
        ClassName := Str("pt-monospace-text"), DefaultPrecision := Num(0)]
  }

  function MoneyRecord(): Record
  {
    map[Name := Str("Money"), Icon := Str("dollar"), Align := Str("right"),
        ClassName := Str("pt-monospace-text"), DefaultPrecision := Num(2)]
  }

  /** The date type declares its own validator and no class name. */
  function DateRecord(): Record
  {
    map[Name := Str("Date"), Icon := Str("calendar"), Align := Str("right"),
        ValidatorKey := Fn(MomentUtcIso), DefaultPrecision := Null]
  }

  /** The table as declared, before the defaults are filled in. */
  function Declared(): map<ColType, Record>
  {
    map[Generic := GenericRecord(), Number := NumberRecord(), Money := MoneyRecord(), Date := DateRecord()]
  }

  /** `defaults`, as the key/value pairs `Object.keys(defaults)` visits. */
  const Defaults: seq<(Key, Value)> := [(ValidatorKey, Fn(Identity))]

  predicate DefinedIn(defaults: seq<(Key, Value)>, key: Key)
  {
    exists i :: 0 <= i < |defaults| && defaults[i].0 == key
  }

  /** One step of the inner loop: the key is written only when it reads as undefined. */
  function FillKey(rec: Record, key: Key, v: Value): (r: Record)
    ensures r.Keys == rec.Keys + {key} || r == rec
    ensures Lookup(r, key) == (if Lookup(rec, key) == Undefined then v else Lookup(rec, key))
    ensures forall k :: k != key ==> (k in r <==> k in rec) && Lookup(r, k) == Lookup(rec, k)
  {
    if Lookup(rec, key) == Undefined then rec[key := v] else rec
  }

  /** The inner `forEach`: every default key of one record, in order. */
  function FillType(rec: Record, defaults: seq<(Key, Value)>): Record
    decreases |defaults|
  {
    if defaults == [] then rec
    else
      var last := defaults[|defaults| - 1];
      FillKey(FillType(rec, defaults[..|defaults| - 1]), last.0, last.1)
  }

  /** A key no default mentions is left as it was. */
  lemma {:induction false} FillTypeKeeps(rec: Record, defaults: seq<(Key, Value)>, k: Key)
    requires !DefinedIn(defaults, k)
    ensures var r := FillType(rec, defaults);
      (k in r <==> k in rec) && Lookup(r, k) == Lookup(rec, k)
    decreases |defaults|
  {
    if defaults != [] {
      FillTypeKeeps(rec, defaults[..|defaults| - 1], k);
    }
  }

  /** A key the record defines itself is never overwritten. */
  lemma {:induction false} FillTypeKeepsDefined(rec: Record, defaults: seq<(Key, Value)>, k: Key)
    requires Lookup(rec, k) != Undefined
    ensures Lookup(FillType(rec, defaults), k) == Lookup(rec, k)
    decreases |defaults|
  {
    if defaults != [] {
      FillTypeKeepsDefined(rec, defaults[..|defaults| - 1], k);
    }
  }

  /** Every default key reads as defined afterwards, when no default value is undefined. */
  lemma {:induction false} FillTypeDefines(rec: Record, defaults: seq<(Key, Value)>, i: nat)
    requires i < |defaults|
    requires forall j :: 0 <= j < |defaults| ==> defaults[j].1 != Undefined
    ensures Lookup(FillType(rec, defaults), defaults[i].0) != Undefined
    decreases |defaults|
  {
    var init, last := defaults[..|defaults| - 1], defaults[|defaults| - 1];
    var mid := FillType(rec, init);
    if i < |init| {
      FillTypeDefines(rec, init, i);
      assert init[i] == defaults[i];
      if last.0 == defaults[i].0 {
        assert Lookup(mid, last.0) != Undefined;
      }
    }
  }

  /** The outer `forEach`: every named type, in order. */
  function FillAll(types: map<ColType, Record>, names: seq<ColType>, defaults: seq<(Key, Value)>): (r: map<ColType, Record>)
    ensures r.Keys == types.Keys
    ensures forall t :: t in types && t !in names ==> r[t] == types[t]
    decreases |names|
  {
    if names == [] then types
    else
      var filled := FillAll(types, names[..|names| - 1], defaults);
      var t := names[|names| - 1];
      if t in filled then filled[t := FillType(filled[t], defaults)] else filled
  }

  lemma FillAllSnoc(types: map<ColType, Record>, names: seq<ColType>, t: ColType, defaults: seq<(Key, Value)>)
    ensures var filled := FillAll(types, names, defaults);
      FillAll(types, names + [t], defaults) == if t in filled then filled[t := FillType(filled[t], defaults)] else filled
  {
    assert (names + [t])[..|names|] == names;
  }

  /** A key the defaults never mention keeps its value in every record. */
  lemma {:induction false} FillAllKeeps(types: map<ColType, Record>, names: seq<ColType>, defaults: seq<(Key, Value)>, t: ColType, k: Key)
    requires t in types && !DefinedIn(defaults, k)
    ensures var r := FillAll(types, names, defaults);
      (k in r[t] <==> k in types[t]) && Lookup(r[t], k) == Lookup(types[t], k)
    decreases |names|
  {
    if names != [] {
      var filled := FillAll(types, names[..|names| - 1], defaults);
      FillAllKeeps(types, names[..|names| - 1], defaults, t, k);
      FillTypeKeeps(filled[t], defaults, k);
    }
  }

  /** A key a record defines itself is never overwritten. */
  lemma {:induction false} FillAllKeepsDefined(types: map<ColType, Record>, names: seq<ColType>, defaults: seq<(Key, Value)>, t: ColType, k: Key)
    requires t in types && Lookup(types[t], k) != Undefined
    ensures Lookup(FillAll(types, names, defaults)[t], k) == Lookup(types[t], k)
    decreases |names|
  {
    if names != [] {
      var filled := FillAll(types, names[..|names| - 1], defaults);
      FillAllKeepsDefined(types, names[..|names| - 1], defaults, t, k);
      FillTypeKeepsDefined(filled[t], defaults, k);
    }
  }

  /** After the loop every named record defines every default key. */
  lemma {:induction false} FillAllDefines(types: map<ColType, Record>, names: seq<ColType>, defaults: seq<(Key, Value)>, t: ColType, i: nat)
    requires t in types && t in names && i < |defaults|
    requires forall j :: 0 <= j < |defaults| ==> defaults[j].1 != Undefined
    ensures Lookup(FillAll(types, names, defaults)[t], defaults[i].0) != Undefined
    decreases |names|
  {
    var init := names[..|names| - 1];
    var filled := FillAll(types, init, defaults);
    if t != names[|names| - 1] {
      assert t in init;
      FillAllDefines(types, init, defaults, t, i);
    } else {
      FillTypeDefines(filled[t], defaults, i);
    }
  }

  /** With one default, a record that leaves its key undefined gets the default's value. */
  lemma FillOneDefault(types: map<ColType, Record>, names: seq<ColType>, key: Key, v: Value, t: ColType)
    requires t in types && t in names && Lookup(types[t], key) == Undefined && v != Undefined
    ensures Lookup(FillAll(types, names, [(key, v)])[t], key) == v
  {
    FillAllDefault(types, names, key, v, t);
  }

  lemma {:induction false} FillAllDefault(types: map<ColType, Record>, names: seq<ColType>, key: Key, v: Value, t: ColType)
    requires t in types && Lookup(types[t], key) == Undefined && v != Undefined
    ensures Lookup(FillAll(types, names, [(key, v)])[t], key) == (if t in names then v else Undefined)
    decreases |names|
  {
    if names != [] {
      var init, last := names[..|names| - 1], names[|names| - 1];
      FillAllDefault(types, init, key, v, t);
      var filled := FillAll(types, init, [(key, v)]);
      if t == last {
        FillTypeOne(filled[t], key, v);
      } else {
        assert FillAll(types, names, [(key, v)])[t] == filled[t];
        assert t in names <==> t in init by {
          assert names == init + [last];
        }
      }
    }
  }

  lemma FillTypeOne(rec: Record, key: Key, v: Value)
    ensures FillType(rec, [(key, v)]) == FillKey(rec, key, v)
  {
    assert [(key, v)][..0] == [];
  }

  /** The table other modules read, its records completed in place. */
  class ColTypeTable {
    var types: map<ColType, Record>
    var order: seq<ColType>

    /** Module load: the declared table, then the defaults loop over it. */
    constructor Load()
      ensures types == FillAll(Declared(), TypeNames, Defaults) && order == TypeNames
    {
      types := Declared();
      order := TypeNames;
      new;
      FillDefaults(Defaults);
    }

    /**
     * The nested `forEach`: for each type in `order` and each key of
     * `defaults`, write the default where the record reads as undefined.
     */
    method FillDefaults(defaults: seq<(Key, Value)>)
      modifies this
      ensures order == old(order)
      ensures types == FillAll(old(types), old(order), defaults)
    {
      ghost var start := types;
      var names := order;
      var i := 0;
      while i < |names|
        invariant 0 <= i <= |names| && order == names
        invariant types == FillAll(start, names[..i], defaults)
      {
        assert names[..i + 1][..i] == names[..i];
        FillAllSnoc(start, names[..i], names[i], defaults);
        assert names[..i] + [names[i]] == names[..i + 1];
        if names[i] in types {
          FillRecord(names[i], defaults);
        }
        i := i + 1;
      }
      assert names[..i] == names;
    }

    /** The inner `forEach`, over the keys of `defaults` for one type. */
    method FillRecord(cType: ColType, defaults: seq<(Key, Value)>)
      requires cType in types
      modifies this
      ensures order == old(order)
      ensures types == old(types)[cType := FillType(old(types)[cType], defaults)]
    {
      var j := 0;
      while j < |defaults|
        invariant 0 <= j <= |defaults| && order == old(order)
        invariant types == old(types)[cType := FillType(old(types)[cType], defaults[..j])]
      {
        assert defaults[..j + 1][..j] == defaults[..j];
        var key := defaults[j].0;
        if Lookup(types[cType], key) == Undefined {
          types := types[cType := types[cType][key := defaults[j].1]];
        }
        j := j + 1;
      }
      assert defaults[..j] == defaults;
    }
  }

  /** The loaded table. */
  function Loaded(): map<ColType, Record>
  {
    FillAll(Declared(), TypeNames, Defaults)
  }

  lemma Listed(t: ColType)
    ensures t in Declared() && t in TypeNames && t in Loaded()
  {
  }

  /** Every column type has a validator once the table is loaded. */
  lemma EveryTypeValidates(t: ColType)
    ensures t in Loaded() && Lookup(Loaded()[t], ValidatorKey) != Undefined
  {
    Listed(t);
    FillAllDefines(Declared(), TypeNames, Defaults, t, 0);
  }

  /** The date type keeps its own validator; the others receive the identity. */
  lemma ValidatorIs(t: ColType)
    ensures t in Loaded() && Lookup(Loaded()[t], ValidatorKey) == Fn(if t == Date then MomentUtcIso else Identity)
  {
    Listed(t);
    DeclaredValidator(t);
    if t == Date {
      FillAllKeepsDefined(Declared(), TypeNames, Defaults, t, ValidatorKey);
    } else {
      FillOneDefault(Declared(), TypeNames, ValidatorKey, Fn(Identity), t);
    }
  }

  lemma DeclaredValidator(t: ColType)
    ensures t in Declared() && Lookup(Declared()[t], ValidatorKey) == if t == Date then Fn(MomentUtcIso) else Undefined
  {
  }

  /**
   * Loading changes no key but `validator`: names, icons, alignment, class
   * names and precisions stay as declared, and no record gains another key.
   */
  lemma LoadKeepsOtherKeys(t: ColType, k: Key)
    requires k != ValidatorKey
    ensures t in Loaded() && t in Declared()
    ensures (k in Loaded()[t] <==> k in Declared()[t]) && Lookup(Loaded()[t], k) == Lookup(Declared()[t], k)
  {
    Listed(t);
    FillAllKeeps(Declared(), TypeNames, Defaults, t, k);
  }

  /** Alignment is left for generic and right for the other types. */
  lemma Alignment(t: ColType)
    ensures t in Loaded() && Lookup(Loaded()[t], Align) == Str(if t == Generic then "left" else "right")
  {
    LoadKeepsOtherKeys(t, Align);
    DeclaredAlignment(t);
  }

  lemma DeclaredAlignment(t: ColType)
    ensures t in Declared() && Lookup(Declared()[t], Align) == Str(if t == Generic then "left" else "right")
  {
  }

  /** The default precision is 0 for number, 2 for money and null for generic and date. */
  lemma Precision(t: ColType)
    ensures t in Loaded() && Lookup(Loaded()[t], DefaultPrecision) ==
      (if t == Number then Num(0) else if t == Money then Num(2) else Null)
  {
    LoadKeepsOtherKeys(t, DefaultPrecision);
    DeclaredPrecision(t);
  }

  lemma DeclaredPrecision(t: ColType)
    ensures t in Declared() && Lookup(Declared()[t], DefaultPrecision) ==
      (if t == Number then Num(0) else if t == Money then Num(2) else Null)
  {
  }

  /** Only the date type has no class name, before and after loading. */
  lemma ClassNames(t: ColType)
    ensures t in Loaded() && (ClassName in Loaded()[t] <==> t != Date)
  {
    LoadKeepsOtherKeys(t, ClassName);
    DeclaredClassNames(t);
  }

  lemma DeclaredClassNames(t: ColType)
    ensures t in Declared() && (ClassName in Declared()[t] <==> t != Date)
  {
  }
}
