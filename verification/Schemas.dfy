/**
 The recursive schema validator for evidence documents.

 `Problems` follows the validator; `Conforms` is the declarative relation it
 decides. String kinds and key patterns are regular expressions in the
 program and stay abstract.
 */
module Schemas {
  import opened Results
  import opened JsonValues
  import opened Text

  datatype Schema =
    | Object(props: seq<Prop>, optional: seq<string>)
    | Map(allowed: string -> bool, value: Schema, maxKeys: nat)
    | Array(items: Schema, max: nat)
    | String(problem: string -> Option<string>)
    | Numeric
    | Integer
    | Boolean
    | NullValue
    | OneOf(options: seq<Schema>)

  datatype Prop = Prop(key: string, schema: Schema)

  datatype Fault =
    | NotAnObject
    | UnknownField
    | MissingField(key: string)
    | TooManyEntries
    | NameNotAllowed
    | NotAnArray
    | TooManyItems
    | NotAString
    | BadString(why: string)
    | NotANumber
    | NotAnInteger
    | NotABoolean
    | NotNull

  datatype Problem = Problem(pointer: string, fault: Fault)

  /** Every `oneOf` offers something; the validator throws on one that does not. */
  ghost predicate Grounded(s: Schema) {
    match s
    case Object(props, _) => forall i :: 0 <= i < |props| ==> Grounded(props[i].schema)
    case Map(_, value, _) => Grounded(value)
    case Array(items, _) => Grounded(items)
    case OneOf(options) => options != [] && forall i :: 0 <= i < |options| ==> Grounded(options[i])
    case _ => true
  }

  predicate SafeInteger(n: Number) {
    n.Finite? && n.value.Floor as real == n.value && -9007199254740991.0 <= n.value <= 9007199254740991.0
  }

  ghost predicate Denotes(n: Number, k: int) { n.Finite? && n.value == k as real }

  /** The integers of magnitude below 2^53. */
  lemma SafeIntegerExact(n: Number)
    ensures SafeInteger(n) <==> exists k :: Denotes(n, k) && -0x20_0000_0000_0000 < k < 0x20_0000_0000_0000
  {
    if SafeInteger(n) { assert Denotes(n, n.value.Floor); }
  }

  predicate HasProp(props: seq<Prop>, key: string) {
    exists i :: 0 <= i < |props| && props[i].key == key
  }

  // ---------------------------------------------------------------- the validator

  /** `schemaProblems`. */
  function Problems(v: Json, s: Schema, pointer: string): (r: seq<Problem>)
    requires Grounded(s)
    decreases s, 1, 0
  {
    var at := if pointer == "" then "/" else pointer;
    match s
    case Object(props, optional) =>
      if !v.Obj? then [Problem(at, NotAnObject)]
      else UnknownFields(v.fields, props, at) + PropProblems(v.fields, props, optional, pointer, at)
    case Map(allowed, value, maxKeys) =>
      if !v.Obj? then [Problem(at, NotAnObject)]
      else if |v.fields| > maxKeys then [Problem(at, TooManyEntries)]
      else EntryProblems(v.fields, allowed, value, pointer, at)
    case Array(items, max) =>
      if !v.Arr? then [Problem(at, NotAnArray)]
      else if |v.items| > max then [Problem(at, TooManyItems)]
      else ItemProblems(v.items, items, 0, pointer)
    case String(problem) =>
      if !v.Str? then [Problem(at, NotAString)]
      else if problem(v.text).Some? then [Problem(at, BadString(problem(v.text).value))] else []
    case Numeric => if v.Num? && v.number.Finite? then [] else [Problem(at, NotANumber)]
    case Integer => if v.Num? && SafeInteger(v.number) then [] else [Problem(at, NotAnInteger)]
    case Boolean => if v.Bool? then [] else [Problem(at, NotABoolean)]
    case NullValue => if v.Null? then [] else [Problem(at, NotNull)]
    case OneOf(options) =>
      Best(Attempts(v, options, pointer))
  }

  function UnknownFields(fields: seq<Field>, props: seq<Prop>, at: string): (r: seq<Problem>) {
    if fields == [] then []
    else
      (if HasProp(props, fields[0].key) then [] else [Problem(at, UnknownField)])
      + UnknownFields(fields[1..], props, at)
  }

  function PropProblems(
    fields: seq<Field>, props: seq<Prop>, optional: seq<string>, pointer: string, at: string): (r: seq<Problem>)
    requires forall i :: 0 <= i < |props| ==> Grounded(props[i].schema)
    decreases props, 0, 0
  {
    if props == [] then []
    else
      var p := props[0];
      var found := Lookup(fields, p.key);
      (if found.Some? then Problems(found.value, p.schema, pointer + "/" + p.key)
       else if p.key in optional then []
       else [Problem(at, MissingField(p.key))])
      + PropProblems(fields, props[1..], optional, pointer, at)
  }

  function EntryProblems(
    fields: seq<Field>, allowed: string -> bool, value: Schema, pointer: string, at: string): (r: seq<Problem>)
    requires Grounded(value)
    decreases value, 2, |fields|
  {
    if fields == [] then []
    else
      var f := fields[0];
      (if allowed(f.key) then Problems(f.value, value, pointer + "/" + f.key) else [Problem(at, NameNotAllowed)])
      + EntryProblems(fields[1..], allowed, value, pointer, at)
  }

  function ItemProblems(items: seq<Json>, item: Schema, i: nat, pointer: string): (r: seq<Problem>)
    requires Grounded(item)
    decreases item, 2, |items|
  {
    if items == [] then []
    else Problems(items[0], item, pointer + "/" + Decimal(i)) + ItemProblems(items[1..], item, i + 1, pointer)
  }

  function Attempts(v: Json, options: seq<Schema>, pointer: string): (r: seq<seq<Problem>>)
    requires forall i :: 0 <= i < |options| ==> Grounded(options[i])
    ensures |r| == |options|
    decreases options, 0, 0
  {
    if options == [] then []
    else [Problems(v, options[0], pointer)] + Attempts(v, options[1..], pointer)
  }

  /** Nothing if some attempt found nothing, otherwise the first of the shortest. */
  function Best<T(==)>(attempts: seq<seq<T>>): (r: seq<T>)
    requires attempts != []
  {
    if exists i :: 0 <= i < |attempts| && attempts[i] == [] then [] else Shortest(attempts)
  }

  /** The first of the shortest lists. */
  function Shortest<T>(attempts: seq<seq<T>>): (r: seq<T>)
    requires attempts != []
  {
    var last := |attempts| - 1;
    if last == 0 then attempts[0]
    else
      var best := Shortest(attempts[..last]);
      if |attempts[last]| < |best| then attempts[last] else best
  }

  /** It is one of the lists, and none is shorter. */
  lemma {:induction false} ShortestIsLeast<T>(attempts: seq<seq<T>>) returns (i: nat)
    requires attempts != []
    ensures i < |attempts| && attempts[i] == Shortest(attempts)
    ensures forall k :: 0 <= k < |attempts| ==> |attempts[i]| <= |attempts[k]|
  {
    var last := |attempts| - 1;
    i := 0;
    if last > 0 {
      i := ShortestIsLeast(attempts[..last]);
      assert forall k :: 0 <= k < last ==> attempts[k] == attempts[..last][k];
      if |attempts[last]| < |attempts[i]| { i := last; }
    }
  }

  // ---------------------------------------------------------------- the relation it decides

  ghost predicate Conforms(v: Json, s: Schema)
    decreases s
  {
    match s
    case Object(props, optional) =>
      && v.Obj?
      && (forall i :: 0 <= i < |v.fields| ==> HasProp(props, v.fields[i].key))
      && (forall i :: 0 <= i < |props| ==>
            if Lookup(v.fields, props[i].key).Some? then Conforms(Lookup(v.fields, props[i].key).value, props[i].schema)
            else props[i].key in optional)
    case Map(allowed, value, maxKeys) =>
      && v.Obj? && |v.fields| <= maxKeys
      && forall i :: 0 <= i < |v.fields| ==> allowed(v.fields[i].key) && Conforms(v.fields[i].value, value)
    case Array(items, max) =>
      v.Arr? && |v.items| <= max && forall i :: 0 <= i < |v.items| ==> Conforms(v.items[i], items)
    case String(problem) => v.Str? && problem(v.text).None?
    case Numeric => v.Num? && v.number.Finite?
    case Integer => v.Num? && SafeInteger(v.number)
    case Boolean => v.Bool?
    case NullValue => v.Null?
    case OneOf(options) => exists i :: 0 <= i < |options| && Conforms(v, options[i])
  }

  /** The validator accepts exactly the values that conform. */
  lemma {:induction false} ProblemsExact(v: Json, s: Schema, pointer: string)
    requires Grounded(s)
    ensures Problems(v, s, pointer) == [] <==> Conforms(v, s)
    decreases s, 1, 0
  {
    match s
    case Object(_, _) => ObjectExact(v, s, pointer);
    case Map(_, _, _) => MapExact(v, s, pointer);
    case Array(_, _) => ArrayExact(v, s, pointer);
    case OneOf(_) => OneOfExact(v, s, pointer);
    case _ =>
  }

  lemma {:induction false} ObjectExact(v: Json, s: Schema, pointer: string)
    requires Grounded(s) && s.Object?
    ensures Problems(v, s, pointer) == [] <==> Conforms(v, s)
    decreases s, 0, 0
  {
    if v.Obj? {
      var at := if pointer == "" then "/" else pointer;
      UnknownExact(v.fields, s.props, at);
      PropsExact(v.fields, s.props, s.optional, pointer, at);
    }
  }

  lemma {:induction false} MapExact(v: Json, s: Schema, pointer: string)
    requires Grounded(s) && s.Map?
    ensures Problems(v, s, pointer) == [] <==> Conforms(v, s)
    decreases s, 0, 0
  {
    if v.Obj? {
      EntriesExact(v.fields, s.allowed, s.value, pointer, if pointer == "" then "/" else pointer);
    }
  }

  lemma {:induction false} ArrayExact(v: Json, s: Schema, pointer: string)
    requires Grounded(s) && s.Array?
    ensures Problems(v, s, pointer) == [] <==> Conforms(v, s)
    decreases s, 0, 0
  {
    if v.Arr? { ItemsExact(v.items, s.items, 0, pointer); }
  }

  lemma {:induction false} OneOfExact(v: Json, s: Schema, pointer: string)
    requires Grounded(s) && s.OneOf?
    ensures Problems(v, s, pointer) == [] <==> Conforms(v, s)
    decreases s, 0, 0
  {
    AttemptsExact(v, s.options, pointer);
    var i := ShortestIsLeast(Attempts(v, s.options, pointer));
  }

  lemma {:induction false} UnknownExact(fields: seq<Field>, props: seq<Prop>, at: string)
    ensures UnknownFields(fields, props, at) == [] <==> forall i :: 0 <= i < |fields| ==> HasProp(props, fields[i].key)
  {
    if fields != [] {
      UnknownExact(fields[1..], props, at);
      assert forall i :: 0 < i < |fields| ==> fields[i] == fields[1..][i - 1];
    }
  }

  ghost predicate PropMet(fields: seq<Field>, p: Prop, optional: seq<string>) {
    if Lookup(fields, p.key).Some? then Conforms(Lookup(fields, p.key).value, p.schema) else p.key in optional
  }

  lemma {:induction false} PropsExact(
    fields: seq<Field>, props: seq<Prop>, optional: seq<string>, pointer: string, at: string)
    requires forall i :: 0 <= i < |props| ==> Grounded(props[i].schema)
    ensures PropProblems(fields, props, optional, pointer, at) == []
      <==> forall i :: 0 <= i < |props| ==> PropMet(fields, props[i], optional)
    decreases props, 0, 0
  {
    if props != [] {
      var found := Lookup(fields, props[0].key);
      if found.Some? { ProblemsExact(found.value, props[0].schema, pointer + "/" + props[0].key); }
      PropsExact(fields, props[1..], optional, pointer, at);
      assert forall i :: 0 < i < |props| ==> props[i] == props[1..][i - 1];
    }
  }

  lemma {:induction false} EntriesExact(
    fields: seq<Field>, allowed: string -> bool, value: Schema, pointer: string, at: string)
    requires Grounded(value)
    ensures EntryProblems(fields, allowed, value, pointer, at) == []
      <==> forall i :: 0 <= i < |fields| ==> allowed(fields[i].key) && Conforms(fields[i].value, value)
    decreases value, 2, |fields|
  {
    if fields != [] {
      ProblemsExact(fields[0].value, value, pointer + "/" + fields[0].key);
      EntriesExact(fields[1..], allowed, value, pointer, at);
      assert forall i :: 0 < i < |fields| ==> fields[i] == fields[1..][i - 1];
    }
  }

  lemma {:induction false} ItemsExact(items: seq<Json>, item: Schema, i: nat, pointer: string)
    requires Grounded(item)
    ensures ItemProblems(items, item, i, pointer) == [] <==> forall k :: 0 <= k < |items| ==> Conforms(items[k], item)
    decreases item, 2, |items|
  {
    if items != [] {
      ProblemsExact(items[0], item, pointer + "/" + Decimal(i));
      ItemsExact(items[1..], item, i + 1, pointer);
      assert forall k :: 0 < k < |items| ==> items[k] == items[1..][k - 1];
    }
  }

  lemma {:induction false} AttemptsExact(v: Json, options: seq<Schema>, pointer: string)
    requires forall i :: 0 <= i < |options| ==> Grounded(options[i])
    ensures forall i :: 0 <= i < |options| ==> (Attempts(v, options, pointer)[i] == [] <==> Conforms(v, options[i]))
    decreases options, 0, 0
  {
    if options != [] {
      ProblemsExact(v, options[0], pointer);
      AttemptsExact(v, options[1..], pointer);
      assert forall i :: 0 < i < |options| ==> options[i] == options[1..][i - 1];
    }
  }
}
