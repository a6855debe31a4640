/**
 What a schema promises about every value it accepts: how deep the value nests
 and how many nodes it has, both as functions of the schema alone.
 */
module SchemaBounds {
  import opened Results
  import opened Sequences
  import opened JsonValues
  import opened Schemas

  // ---------------------------------------------------------------- measures of a value

  function Max(a: nat, b: nat): (m: nat) { if a < b then b else a }

  /** How many arrays and objects are open at the deepest point. */
  function Nesting(v: Json): (n: nat)
    decreases v
  {
    match v
    case Arr(items) => 1 + DeepestItem(items)
    case Obj(fields) => 1 + DeepestField(fields)
    case _ => 0
  }

  function DeepestItem(items: seq<Json>): (n: nat)
    decreases items
  {
    if items == [] then 0 else Max(Nesting(items[0]), DeepestItem(items[1..]))
  }

  function DeepestField(fields: seq<Field>): (n: nat)
    decreases fields
  {
    if fields == [] then 0 else Max(Nesting(fields[0].value), DeepestField(fields[1..]))
  }

  /** How many values the document holds, itself included. */
  function Nodes(v: Json): (n: nat)
    decreases v
  {
    match v
    case Arr(items) => 1 + ItemNodes(items)
    case Obj(fields) => 1 + FieldNodes(fields)
    case _ => 1
  }

  function ItemNodes(items: seq<Json>): (n: nat)
    decreases items
  {
    if items == [] then 0 else Nodes(items[0]) + ItemNodes(items[1..])
  }

  function FieldNodes(fields: seq<Field>): (n: nat)
    decreases fields
  {
    if fields == [] then 0 else Nodes(fields[0].value) + FieldNodes(fields[1..])
  }

  // ---------------------------------------------------------------- bounds read off a schema

  function NestingBound(s: Schema): (n: nat)
    decreases s
  {
    match s
    case Object(props, _) => 1 + DeepestProp(props)
    case Map(_, value, _) => 1 + NestingBound(value)
    case Array(items, _) => 1 + NestingBound(items)
    case OneOf(options) => DeepestOption(options)
    case _ => 0
  }

  function DeepestProp(props: seq<Prop>): (n: nat)
    decreases props
  {
    if props == [] then 0 else Max(NestingBound(props[0].schema), DeepestProp(props[1..]))
  }

  function DeepestOption(options: seq<Schema>): (n: nat)
    decreases options
  {
    if options == [] then 0 else Max(NestingBound(options[0]), DeepestOption(options[1..]))
  }

  function NodeBound(s: Schema): (n: nat)
    decreases s
  {
    match s
    case Object(props, _) => 1 + PropNodes(props)
    case Map(_, value, maxKeys) => 1 + maxKeys * NodeBound(value)
    case Array(items, max) => 1 + max * NodeBound(items)
    case OneOf(options) => LargestOption(options)
    case _ => 1
  }

  function PropNodes(props: seq<Prop>): (n: nat)
    decreases props
  {
    if props == [] then 0 else NodeBound(props[0].schema) + PropNodes(props[1..])
  }

  function LargestOption(options: seq<Schema>): (n: nat)
    decreases options
  {
    if options == [] then 0 else Max(NodeBound(options[0]), LargestOption(options[1..]))
  }

  // ---------------------------------------------------------------- children and the measures

  lemma {:induction false} ItemsNestAtMost(items: seq<Json>, bound: nat)
    ensures DeepestItem(items) <= bound <==> forall i :: 0 <= i < |items| ==> Nesting(items[i]) <= bound
  {
    if items != [] {
      ItemsNestAtMost(items[1..], bound);
      assert forall i :: 0 < i < |items| ==> items[i] == items[1..][i - 1];
    }
  }

  lemma {:induction false} FieldsNestAtMost(fields: seq<Field>, bound: nat)
    ensures DeepestField(fields) <= bound <==> forall i :: 0 <= i < |fields| ==> Nesting(fields[i].value) <= bound
  {
    if fields != [] {
      FieldsNestAtMost(fields[1..], bound);
      assert forall i :: 0 < i < |fields| ==> fields[i] == fields[1..][i - 1];
    }
  }

  lemma {:induction false} PropWithin(props: seq<Prop>, i: nat)
    requires i < |props|
    ensures NestingBound(props[i].schema) <= DeepestProp(props)
  {
    if i > 0 { PropWithin(props[1..], i - 1); }
  }

  lemma {:induction false} OptionWithin(options: seq<Schema>, i: nat)
    requires i < |options|
    ensures NestingBound(options[i]) <= DeepestOption(options)
    ensures NodeBound(options[i]) <= LargestOption(options)
  {
    if i > 0 { OptionWithin(options[1..], i - 1); }
  }

  lemma {:induction false} ItemNodesAtMost(items: seq<Json>, bound: nat)
    requires forall i :: 0 <= i < |items| ==> Nodes(items[i]) <= bound
    ensures ItemNodes(items) <= |items| * bound
  {
    if items != [] {
      ItemNodesAtMost(items[1..], bound);
      assert |items| * bound == bound + (|items| - 1) * bound;
    }
  }

  lemma {:induction false} FieldNodesAtMost(fields: seq<Field>, bound: nat)
    requires forall i :: 0 <= i < |fields| ==> Nodes(fields[i].value) <= bound
    ensures FieldNodes(fields) <= |fields| * bound
  {
    if fields != [] {
      FieldNodesAtMost(fields[1..], bound);
      assert |fields| * bound == bound + (|fields| - 1) * bound;
    }
  }

  lemma ProductMonotone(a: nat, b: nat, c: nat)
    requires a <= b
    ensures a * c <= b * c
  {
  }

  lemma {:induction false} PropNodesWithout(props: seq<Prop>, j: nat)
    requires j < |props|
    ensures PropNodes(props) == NodeBound(props[j].schema) + PropNodes(props[..j] + props[j + 1..])
  {
    var rest := props[..j] + props[j + 1..];
    if j == 0 {
      assert rest == props[1..];
    } else {
      PropNodesWithout(props[1..], j - 1);
      assert rest[0] == props[0];
      assert rest[1..] == props[1..][..j - 1] + props[1..][j..];
    }
  }

  ghost predicate Covered(f: Field, props: seq<Prop>) {
    exists j :: 0 <= j < |props| && props[j].key == f.key && Nodes(f.value) <= NodeBound(props[j].schema)
  }

  lemma StillCovered(f: Field, props: seq<Prop>, j: nat)
    requires j < |props| && props[j].key != f.key && Covered(f, props)
    ensures Covered(f, props[..j] + props[j + 1..])
  {
    var k :| 0 <= k < |props| && props[k].key == f.key && Nodes(f.value) <= NodeBound(props[k].schema);
    var rest := props[..j] + props[j + 1..];
    var at := if k < j then k else k - 1;
    assert rest[at] == props[k];
  }

  /** Fields with distinct keys, each within its own property, together stay within all properties. */
  lemma {:induction false} FieldNodesWithin(fields: seq<Field>, props: seq<Prop>)
    requires UniqueKeys(fields)
    requires forall i :: 0 <= i < |fields| ==> Covered(fields[i], props)
    ensures FieldNodes(fields) <= PropNodes(props)
    decreases fields
  {
    if fields != [] {
      var f := fields[0];
      var j :| 0 <= j < |props| && props[j].key == f.key && Nodes(f.value) <= NodeBound(props[j].schema);
      var rest := props[..j] + props[j + 1..];
      forall i | 0 <= i < |fields[1..]| ensures Covered(fields[1..][i], rest) {
        assert fields[1..][i] == fields[i + 1];
        StillCovered(fields[i + 1], props, j);
      }
      FieldNodesWithin(fields[1..], rest);
      PropNodesWithout(props, j);
    }
  }

  // ---------------------------------------------------------------- accepted values are bounded

  lemma ConformsUnder(v: Json, props: seq<Prop>, optional: seq<string>, i: nat) returns (j: nat)
    requires v.Obj? && UniqueKeys(v.fields) && Conforms(v, Object(props, optional)) && i < |v.fields|
    ensures j < |props| && props[j].key == v.fields[i].key && Conforms(v.fields[i].value, props[j].schema)
  {
    assert HasProp(props, v.fields[i].key);
    j :| 0 <= j < |props| && props[j].key == v.fields[i].key;
    LookupAt(v.fields, i);
  }

  /** No accepted value nests deeper than its schema. */
  lemma {:induction false} NestingBounded(v: Json, s: Schema)
    requires WellFormed(v) && Conforms(v, s)
    ensures Nesting(v) <= NestingBound(s)
    decreases s
  {
    match s
    case Object(props, optional) =>
      forall i | 0 <= i < |v.fields| ensures Nesting(v.fields[i].value) <= DeepestProp(props) {
        var j := ConformsUnder(v, props, optional, i);
        NestingBounded(v.fields[i].value, props[j].schema);
        PropWithin(props, j);
      }
      FieldsNestAtMost(v.fields, DeepestProp(props));
    case Map(_, value, _) =>
      forall i | 0 <= i < |v.fields| ensures Nesting(v.fields[i].value) <= NestingBound(value) {
        NestingBounded(v.fields[i].value, value);
      }
      FieldsNestAtMost(v.fields, NestingBound(value));
    case Array(items, _) =>
      forall i | 0 <= i < |v.items| ensures Nesting(v.items[i]) <= NestingBound(items) {
        NestingBounded(v.items[i], items);
      }
      ItemsNestAtMost(v.items, NestingBound(items));
    case OneOf(options) =>
      var i :| 0 <= i < |options| && Conforms(v, options[i]);
      NestingBounded(v, options[i]);
      OptionWithin(options, i);
    case _ =>
  }

  /** Nor does it hold more nodes. */
  lemma {:induction false} NodesBounded(v: Json, s: Schema)
    requires WellFormed(v) && Conforms(v, s)
    ensures Nodes(v) <= NodeBound(s)
    decreases s
  {
    match s
    case Object(props, optional) =>
      forall i | 0 <= i < |v.fields| ensures Covered(v.fields[i], props) {
        var j := ConformsUnder(v, props, optional, i);
        NodesBounded(v.fields[i].value, props[j].schema);
      }
      FieldNodesWithin(v.fields, props);
    case Map(_, value, maxKeys) =>
      forall i | 0 <= i < |v.fields| ensures Nodes(v.fields[i].value) <= NodeBound(value) {
        NodesBounded(v.fields[i].value, value);
      }
      FieldNodesAtMost(v.fields, NodeBound(value));
      ProductMonotone(|v.fields|, maxKeys, NodeBound(value));
    case Array(items, max) =>
      forall i | 0 <= i < |v.items| ensures Nodes(v.items[i]) <= NodeBound(items) {
        NodesBounded(v.items[i], items);
      }
      ItemNodesAtMost(v.items, NodeBound(items));
      ProductMonotone(|v.items|, max, NodeBound(items));
    case OneOf(options) =>
      var i :| 0 <= i < |options| && Conforms(v, options[i]);
      NodesBounded(v, options[i]);
      OptionWithin(options, i);
    case _ =>
  }

  // ---------------------------------------------------------------- the bounds are attained

  ghost predicate Distinct(names: seq<string>) {
    forall i, j :: 0 <= i < j < |names| ==> names[i] != names[j]
  }

  ghost predicate Allows(allowed: string -> bool, names: seq<string>) {
    Distinct(names) && forall i :: 0 <= i < |names| ==> allowed(names[i])
  }

  /** Every part of the schema can be filled to its limit. */
  ghost predicate Roomy(s: Schema) {
    match s
    case Object(props, _) =>
      && (forall i, j :: 0 <= i < j < |props| ==> props[i].key != props[j].key)
      && forall i :: 0 <= i < |props| ==> Roomy(props[i].schema)
    case Map(allowed, value, maxKeys) =>
      maxKeys > 0 && Roomy(value) && exists names :: |names| == maxKeys && Allows(allowed, names)
    case Array(items, max) => max > 0 && Roomy(items)
    case String(problem) => exists text :: problem(text).None?
    case OneOf(options) => options != [] && forall i :: 0 <= i < |options| ==> Roomy(options[i])
    case _ => true
  }

  ghost function Size(v: Json, nodes: bool): (n: nat) { if nodes then Nodes(v) else Nesting(v) }

  ghost function Bound(s: Schema, nodes: bool): (n: nat) { if nodes then NodeBound(s) else NestingBound(s) }

  lemma {:induction false} RepeatedItems(w: Json, n: nat)
    requires n > 0
    ensures ItemNodes(Repeat(n, w)) == n * Nodes(w) && DeepestItem(Repeat(n, w)) == Nesting(w)
  {
    var items := Repeat(n, w);
    assert items[1..] == Repeat(n - 1, w);
    if n > 1 {
      RepeatedItems(w, n - 1);
      assert n * Nodes(w) == Nodes(w) + (n - 1) * Nodes(w);
    }
  }

  ghost function Named(names: seq<string>, w: Json): (fields: seq<Field>)
    ensures |fields| == |names| && forall i :: 0 <= i < |names| ==> fields[i] == Field(names[i], w)
  {
    seq(|names|, i requires 0 <= i < |names| => Field(names[i], w))
  }

  lemma {:induction false} RepeatedFields(names: seq<string>, w: Json)
    requires names != []
    ensures FieldNodes(Named(names, w)) == |names| * Nodes(w) && DeepestField(Named(names, w)) == Nesting(w)
  {
    var fields := Named(names, w);
    assert fields[1..] == Named(names[1..], w);
    if |names| > 1 {
      RepeatedFields(names[1..], w);
      assert |names| * Nodes(w) == Nodes(w) + (|names| - 1) * Nodes(w);
    }
  }

  lemma {:induction false} BestOption(options: seq<Schema>, nodes: bool) returns (i: nat)
    requires options != []
    ensures i < |options|
    ensures Bound(options[i], nodes) == if nodes then LargestOption(options) else DeepestOption(options)
  {
    i := 0;
    if |options| > 1 {
      var k := BestOption(options[1..], nodes);
      if Bound(options[k + 1], nodes) >= Bound(options[0], nodes) { i := k + 1; }
    }
  }

  /** One member for each property, as large or as deep as it may be. */
  lemma {:induction false} FullMembers(props: seq<Prop>, nodes: bool) returns (fields: seq<Field>)
    requires forall i :: 0 <= i < |props| ==> Roomy(props[i].schema)
    ensures |fields| == |props|
    ensures forall i :: 0 <= i < |props| ==>
      fields[i].key == props[i].key && Conforms(fields[i].value, props[i].schema) && WellFormed(fields[i].value)
    ensures nodes ==> FieldNodes(fields) == PropNodes(props)
    ensures !nodes ==> DeepestField(fields) == DeepestProp(props)
    decreases props, 0
  {
    if props == [] {
      fields := [];
    } else {
      var w := Attained(props[0].schema, nodes);
      var rest := FullMembers(props[1..], nodes);
      fields := [Field(props[0].key, w)] + rest;
      assert fields[1..] == rest;
    }
  }

  lemma FullObject(props: seq<Prop>, optional: seq<string>, fields: seq<Field>)
    requires |fields| == |props| && forall i, j :: 0 <= i < j < |props| ==> props[i].key != props[j].key
    requires forall i :: 0 <= i < |props| ==>
      fields[i].key == props[i].key && Conforms(fields[i].value, props[i].schema) && WellFormed(fields[i].value)
    ensures Conforms(Obj(fields), Object(props, optional)) && WellFormed(Obj(fields))
  {
    forall i | 0 <= i < |props| ensures Lookup(fields, props[i].key) == Some(fields[i].value) { LookupAt(fields, i); }
    assert forall i :: 0 <= i < |fields| ==> HasProp(props, fields[i].key);
  }

  /** Some value that conforms to a roomy schema has exactly the size, or the depth, that the bound allows. */
  lemma {:induction false} Attained(s: Schema, nodes: bool) returns (v: Json)
    requires Roomy(s)
    ensures Conforms(v, s) && WellFormed(v) && Size(v, nodes) == Bound(s, nodes)
    decreases s, 1
  {
    match s
    case Object(props, optional) =>
      var fields := FullMembers(props, nodes);
      FullObject(props, optional, fields);
      v := Obj(fields);
    case Map(allowed, value, maxKeys) =>
      var names :| |names| == maxKeys && Allows(allowed, names);
      var w := Attained(value, nodes);
      RepeatedFields(names, w);
      v := Obj(Named(names, w));
    case Array(items, max) =>
      var w := Attained(items, nodes);
      RepeatedItems(w, max);
      v := Arr(Repeat(max, w));
    case String(problem) =>
      var text :| problem(text).None?;
      v := Str(text);
    case Numeric => v := Num(Finite(0.0));
    case Integer => v := Num(Finite(0.0));
    case Boolean => v := Bool(true);
    case NullValue => v := Null;
    case OneOf(options) =>
      var i := BestOption(options, nodes);
      v := Attained(options[i], nodes);
  }

  // ---------------------------------------------------------------- telemetry

  /** `leaf`: a finite number, a flag, null or a short identifier. */
  function Leaf(ident: string -> Option<string>): (s: Schema) {
    OneOf([Numeric, Boolean, NullValue, String(ident)])
  }

  function Telemetry(ident: string -> Option<string>, name: string -> bool, depth: nat): (s: Schema) {
    if depth == 0 then Leaf(ident)
    else
      var inner := Telemetry(ident, name, depth - 1);
      OneOf([Leaf(ident), Array(inner, 100_000), Map(name, inner, 1000)])
  }

  predicate LeafValue(ident: string -> Option<string>, v: Json) {
    match v
    case Num(n) => n.Finite?
    case Str(text) => ident(text).None?
    case Arr(_) => false
    case Obj(_) => false
    case _ => true
  }

  /** The shape of telemetry, whatever its depth. */
  ghost predicate Shaped(ident: string -> Option<string>, name: string -> bool, v: Json) {
    match v
    case Arr(items) => |items| <= 100_000 && forall i :: 0 <= i < |items| ==> Shaped(ident, name, items[i])
    case Obj(fields) =>
      && |fields| <= 1000
      && forall i :: 0 <= i < |fields| ==> name(fields[i].key) && Shaped(ident, name, fields[i].value)
    case _ => LeafValue(ident, v)
  }

  lemma LeafExact(ident: string -> Option<string>, v: Json)
    ensures Conforms(v, Leaf(ident)) <==> LeafValue(ident, v)
  {
    var options := Leaf(ident).options;
    assert Conforms(v, options[0]) <==> v.Num? && v.number.Finite?;
    assert Conforms(v, options[1]) <==> v.Bool?;
    assert Conforms(v, options[2]) <==> v.Null?;
    assert Conforms(v, options[3]) <==> v.Str? && ident(v.text).None?;
  }

  lemma TelemetryOptions(ident: string -> Option<string>, name: string -> bool, depth: nat, v: Json)
    requires depth > 0
    ensures var inner := Telemetry(ident, name, depth - 1);
      Conforms(v, Telemetry(ident, name, depth))
      <==> Conforms(v, Leaf(ident)) || Conforms(v, Array(inner, 100_000)) || Conforms(v, Map(name, inner, 1000))
  {
    var options := Telemetry(ident, name, depth).options;
    var inner := Telemetry(ident, name, depth - 1);
    assert options[0] == Leaf(ident) && options[1] == Array(inner, 100_000) && options[2] == Map(name, inner, 1000);
  }

  /** Telemetry of depth d is exactly telemetry-shaped data nesting at most d. */
  lemma {:induction false} TelemetryExact(ident: string -> Option<string>, name: string -> bool, depth: nat, v: Json)
    ensures Conforms(v, Telemetry(ident, name, depth)) <==> Shaped(ident, name, v) && Nesting(v) <= depth
    decreases depth, 1
  {
    LeafExact(ident, v);
    if depth > 0 {
      TelemetryOptions(ident, name, depth, v);
      match v
      case Arr(items) => TelemetryArray(ident, name, depth, items);
      case Obj(fields) => TelemetryMap(ident, name, depth, fields);
      case _ =>
    }
  }

  lemma {:induction false} TelemetryArray(
    ident: string -> Option<string>, name: string -> bool, depth: nat, items: seq<Json>)
    requires depth > 0
    ensures Conforms(Arr(items), Array(Telemetry(ident, name, depth - 1), 100_000))
      <==> Shaped(ident, name, Arr(items)) && Nesting(Arr(items)) <= depth
    decreases depth, 0
  {
    var inner := Telemetry(ident, name, depth - 1);
    forall i | 0 <= i < |items|
      ensures Conforms(items[i], inner) <==> Shaped(ident, name, items[i]) && Nesting(items[i]) <= depth - 1
    {
      TelemetryExact(ident, name, depth - 1, items[i]);
    }
    TelemetryItems(ident, name, depth, items, inner);
  }

  lemma {:induction false} TelemetryMap(
    ident: string -> Option<string>, name: string -> bool, depth: nat, fields: seq<Field>)
    requires depth > 0
    ensures Conforms(Obj(fields), Map(name, Telemetry(ident, name, depth - 1), 1000))
      <==> Shaped(ident, name, Obj(fields)) && Nesting(Obj(fields)) <= depth
    decreases depth, 0
  {
    var inner := Telemetry(ident, name, depth - 1);
    forall i | 0 <= i < |fields|
      ensures Conforms(fields[i].value, inner)
        <==> Shaped(ident, name, fields[i].value) && Nesting(fields[i].value) <= depth - 1
    {
      TelemetryExact(ident, name, depth - 1, fields[i].value);
    }
    TelemetryFields(ident, name, depth, fields, inner);
  }

  lemma TelemetryItems(
    ident: string -> Option<string>, name: string -> bool, depth: nat, items: seq<Json>, inner: Schema)
    requires depth > 0 && forall i :: 0 <= i < |items| ==>
      (Conforms(items[i], inner) <==> Shaped(ident, name, items[i]) && Nesting(items[i]) <= depth - 1)
    ensures Conforms(Arr(items), Array(inner, 100_000))
      <==> Shaped(ident, name, Arr(items)) && Nesting(Arr(items)) <= depth
  {
    ItemsNestAtMost(items, depth - 1);
  }

  lemma TelemetryFields(
    ident: string -> Option<string>, name: string -> bool, depth: nat, fields: seq<Field>, inner: Schema)
    requires depth > 0 && forall i :: 0 <= i < |fields| ==>
      (Conforms(fields[i].value, inner)
       <==> Shaped(ident, name, fields[i].value) && Nesting(fields[i].value) <= depth - 1)
    ensures Conforms(Obj(fields), Map(name, inner, 1000))
      <==> Shaped(ident, name, Obj(fields)) && Nesting(Obj(fields)) <= depth
  {
    FieldsNestAtMost(fields, depth - 1);
  }

  lemma {:induction false} TelemetryGrounded(ident: string -> Option<string>, name: string -> bool, depth: nat)
    ensures Grounded(Telemetry(ident, name, depth))
  {
    assert Grounded(Leaf(ident));
    if depth > 0 { TelemetryGrounded(ident, name, depth - 1); }
  }

  /** So the validator, given `telemetry(depth)`, reports nothing on exactly that data. */
  lemma TelemetryProblems(ident: string -> Option<string>, name: string -> bool, depth: nat, v: Json, pointer: string)
    ensures Grounded(Telemetry(ident, name, depth))
    ensures Problems(v, Telemetry(ident, name, depth), pointer) == []
      <==> Shaped(ident, name, v) && Nesting(v) <= depth
  {
    TelemetryGrounded(ident, name, depth);
    ProblemsExact(v, Telemetry(ident, name, depth), pointer);
    TelemetryExact(ident, name, depth, v);
  }
}
