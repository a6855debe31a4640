/**
 Where the schema validator says a problem is. It writes the keys on the way
 into its pointers as they are, and `/` for the whole document; the theorems
 say what each problem is about, and exactly which of the pointers, read as
 RFC 6901 says, lead there.
 */
module SchemaPointers {
  import opened Results
  import opened Sequences
  import opened JsonValues
  import opened Text
  import opened Pointers
  import opened Schemas

  // ---------------------------------------------------------------- problems without text

  /** A fault, the tokens that lead to the value at fault, and the part of the schema it violates. */
  datatype Found = Found(fault: Fault, path: seq<string>, value: Json, schema: Schema)

  /** What the validator finds at and below `path`. */
  ghost function Finds(v: Json, s: Schema, path: seq<string>): (r: seq<Found>)
    requires Grounded(s)
    decreases s, 1, 0
  {
    match s
    case Object(props, _) =>
      if !v.Obj? then [Found(NotAnObject, path, v, s)]
      else UnknownFinds(v, s, v.fields, path) + PropFinds(v, s, props, path)
    case Map(_, value, maxKeys) =>
      if !v.Obj? then [Found(NotAnObject, path, v, s)]
      else if |v.fields| > maxKeys then [Found(TooManyEntries, path, v, s)]
      else EntryFinds(v, s, v.fields, value, path)
    case Array(items, max) =>
      if !v.Arr? then [Found(NotAnArray, path, v, s)]
      else if |v.items| > max then [Found(TooManyItems, path, v, s)]
      else ItemFinds(v.items, items, 0, path)
    case String(problem) =>
      if !v.Str? then [Found(NotAString, path, v, s)]
      else if problem(v.text).Some? then [Found(BadString(problem(v.text).value), path, v, s)] else []
    case Numeric => if v.Num? && v.number.Finite? then [] else [Found(NotANumber, path, v, s)]
    case Integer => if v.Num? && SafeInteger(v.number) then [] else [Found(NotAnInteger, path, v, s)]
    case Boolean => if v.Bool? then [] else [Found(NotABoolean, path, v, s)]
    case NullValue => if v.Null? then [] else [Found(NotNull, path, v, s)]
    case OneOf(options) =>
      Best(FindAttempts(v, options, path))
  }

  ghost function UnknownFinds(v: Json, s: Schema, fields: seq<Field>, path: seq<string>): (r: seq<Found>)
    requires s.Object?
  {
    if fields == [] then []
    else
      (if HasProp(s.props, fields[0].key) then [] else [Found(UnknownField, path, v, s)])
      + UnknownFinds(v, s, fields[1..], path)
  }

  ghost function PropFinds(v: Json, s: Schema, props: seq<Prop>, path: seq<string>): (r: seq<Found>)
    requires v.Obj? && s.Object? && forall i :: 0 <= i < |props| ==> Grounded(props[i].schema)
    decreases props, 0, 0
  {
    if props == [] then []
    else
      var p := props[0];
      var found := Lookup(v.fields, p.key);
      (if found.Some? then Finds(found.value, p.schema, path + [p.key])
       else if p.key in s.optional then []
       else [Found(MissingField(p.key), path, v, s)])
      + PropFinds(v, s, props[1..], path)
  }

  ghost function EntryFinds(v: Json, s: Schema, fields: seq<Field>, value: Schema, path: seq<string>): (r: seq<Found>)
    requires s.Map? && Grounded(value)
    decreases value, 2, |fields|
  {
    if fields == [] then []
    else
      var f := fields[0];
      (if s.allowed(f.key) then Finds(f.value, value, path + [f.key]) else [Found(NameNotAllowed, path, v, s)])
      + EntryFinds(v, s, fields[1..], value, path)
  }

  ghost function ItemFinds(items: seq<Json>, item: Schema, i: nat, path: seq<string>): (r: seq<Found>)
    requires Grounded(item)
    decreases item, 2, |items|
  {
    if items == [] then []
    else Finds(items[0], item, path + [Decimal(i)]) + ItemFinds(items[1..], item, i + 1, path)
  }

  ghost function FindAttempts(v: Json, options: seq<Schema>, path: seq<string>): (r: seq<seq<Found>>)
    requires forall i :: 0 <= i < |options| ==> Grounded(options[i])
    ensures |r| == |options|
    decreases options, 0, 0
  {
    if options == [] then []
    else [Finds(v, options[0], path)] + FindAttempts(v, options[1..], path)
  }

  // ---------------------------------------------------------------- and their text

  function TextAt(path: seq<string>): (text: string) { if path == [] then "/" else Joined(path) }

  ghost function Render(f: Found): (p: Problem) {
    Problem(TextAt(f.path), f.fault)
  }

  ghost function RenderAll(found: seq<Found>): (r: seq<Problem>)
    ensures |r| == |found|
  {
    Mapped(Render, found)
  }

  ghost function RenderEach(attempts: seq<seq<Found>>): (r: seq<seq<Problem>>)
    ensures |r| == |attempts| && forall i :: 0 <= i < |r| ==> r[i] == RenderAll(attempts[i])
  {
    seq(|attempts|, i requires 0 <= i < |attempts| => RenderAll(attempts[i]))
  }

  lemma {:induction false} RenderShortest(attempts: seq<seq<Found>>, rendered: seq<seq<Problem>>)
    requires attempts != [] && |rendered| == |attempts|
    requires forall i :: 0 <= i < |attempts| ==> rendered[i] == RenderAll(attempts[i])
    ensures Shortest(rendered) == RenderAll(Shortest(attempts))
  {
    var last := |attempts| - 1;
    if last > 0 {
      RenderShortest(attempts[..last], rendered[..last]);
      assert |rendered[last]| == |attempts[last]|;
    }
  }

  lemma RenderBest(attempts: seq<seq<Found>>)
    requires attempts != []
    ensures Best(RenderEach(attempts)) == RenderAll(Best(attempts))
  {
    RenderShortest(attempts, RenderEach(attempts));
    assert forall i :: 0 <= i < |attempts| ==> (RenderEach(attempts)[i] == [] <==> attempts[i] == []);
  }

  /** The validator reports exactly what it finds, each under its text, in order. */
  lemma {:induction false} ProblemsAreFound(v: Json, s: Schema, path: seq<string>)
    requires Grounded(s)
    ensures Problems(v, s, Joined(path)) == RenderAll(Finds(v, s, path))
    decreases s, 1, 0
  {
    match s
    case Object(_, _) => ObjectFound(v, s, path);
    case Map(_, value, maxKeys) =>
      if v.Obj? && |v.fields| <= maxKeys { EntriesFound(v, s, v.fields, value, path); }
    case Array(items, max) =>
      if v.Arr? && |v.items| <= max { ItemsFound(v.items, items, 0, path); }
    case OneOf(_) => OneOfFound(v, s, path);
    case _ =>
  }


  lemma {:induction false} ObjectFound(v: Json, s: Schema, path: seq<string>)
    requires Grounded(s) && s.Object?
    ensures Problems(v, s, Joined(path)) == RenderAll(Finds(v, s, path))
    decreases s, 0, 0
  {
    if v.Obj? {
      UnknownFound(v, s, v.fields, path);
      PropsFound(v, s, s.props, path);
      MappedConcat(Render, UnknownFinds(v, s, v.fields, path), PropFinds(v, s, s.props, path));
    }
  }

  lemma {:induction false} UnknownFound(v: Json, s: Schema, fields: seq<Field>, path: seq<string>)
    requires s.Object?
    ensures UnknownFields(fields, s.props, TextAt(path)) == RenderAll(UnknownFinds(v, s, fields, path))
  {
    if fields != [] {
      UnknownFound(v, s, fields[1..], path);
      var head := if HasProp(s.props, fields[0].key) then [] else [Found(UnknownField, path, v, s)];
      MappedConcat(Render, head, UnknownFinds(v, s, fields[1..], path));
    }
  }

  lemma {:induction false} PropsFound(v: Json, s: Schema, props: seq<Prop>, path: seq<string>)
    requires v.Obj? && s.Object? && forall i :: 0 <= i < |props| ==> Grounded(props[i].schema)
    ensures PropProblems(v.fields, props, s.optional, Joined(path), TextAt(path))
      == RenderAll(PropFinds(v, s, props, path))
    decreases props, 0, 0
  {
    if props != [] {
      var p := props[0];
      var found := Lookup(v.fields, p.key);
      JoinedNext(path, p.key);
      if found.Some? { ProblemsAreFound(found.value, p.schema, path + [p.key]); }
      PropsFound(v, s, props[1..], path);
      var head :=
        if found.Some? then Finds(found.value, p.schema, path + [p.key])
        else if p.key in s.optional then []
        else [Found(MissingField(p.key), path, v, s)];
      MappedConcat(Render, head, PropFinds(v, s, props[1..], path));
    }
  }

  lemma {:induction false} EntriesFound(v: Json, s: Schema, fields: seq<Field>, value: Schema, path: seq<string>)
    requires s.Map? && Grounded(value)
    ensures EntryProblems(fields, s.allowed, value, Joined(path), TextAt(path))
      == RenderAll(EntryFinds(v, s, fields, value, path))
    decreases value, 2, |fields|
  {
    if fields != [] {
      var f := fields[0];
      JoinedNext(path, f.key);
      ProblemsAreFound(f.value, value, path + [f.key]);
      EntriesFound(v, s, fields[1..], value, path);
      var head :=
        if s.allowed(f.key) then Finds(f.value, value, path + [f.key]) else [Found(NameNotAllowed, path, v, s)];
      MappedConcat(Render, head, EntryFinds(v, s, fields[1..], value, path));
    }
  }

  lemma {:induction false} ItemsFound(items: seq<Json>, item: Schema, i: nat, path: seq<string>)
    requires Grounded(item)
    ensures ItemProblems(items, item, i, Joined(path)) == RenderAll(ItemFinds(items, item, i, path))
    decreases item, 2, |items|
  {
    if items != [] {
      JoinedNext(path, Decimal(i));
      ProblemsAreFound(items[0], item, path + [Decimal(i)]);
      ItemsFound(items[1..], item, i + 1, path);
      MappedConcat(Render, Finds(items[0], item, path + [Decimal(i)]), ItemFinds(items[1..], item, i + 1, path));
    }
  }

  lemma {:induction false} OneOfFound(v: Json, s: Schema, path: seq<string>)
    requires Grounded(s) && s.OneOf?
    ensures Problems(v, s, Joined(path)) == RenderAll(Finds(v, s, path))
    decreases s, 0, 0
  {
    AttemptsFound(v, s.options, path);
    RenderBest(FindAttempts(v, s.options, path));
  }

  lemma {:induction false} AttemptsFound(v: Json, options: seq<Schema>, path: seq<string>)
    requires forall i :: 0 <= i < |options| ==> Grounded(options[i])
    ensures Attempts(v, options, Joined(path)) == RenderEach(FindAttempts(v, options, path))
    decreases options, 0, 0
  {
    if options != [] {
      ProblemsAreFound(v, options[0], path);
      AttemptsFound(v, options[1..], path);
      var rest := FindAttempts(v, options[1..], path);
      var head := Finds(v, options[0], path);
      assert RenderEach([head] + rest) == [RenderAll(head)] + RenderEach(rest);
    }
  }

  // ---------------------------------------------------------------- what is found is there

  /** The value has the fault, measured by the part of the schema it was held against. */
  ghost predicate Explained(f: Found) {
    var v, s := f.value, f.schema;
    match f.fault
    case NotAnObject => (s.Object? || s.Map?) && !v.Obj?
    case UnknownField =>
      s.Object? && v.Obj? && exists i :: 0 <= i < |v.fields| && !HasProp(s.props, v.fields[i].key)
    case MissingField(key) =>
      s.Object? && v.Obj? && HasProp(s.props, key) && key !in s.optional && Lookup(v.fields, key).None?
    case TooManyEntries => s.Map? && v.Obj? && |v.fields| > s.maxKeys
    case NameNotAllowed =>
      s.Map? && v.Obj? && exists i :: 0 <= i < |v.fields| && !s.allowed(v.fields[i].key)
    case NotAnArray => s.Array? && !v.Arr?
    case TooManyItems => s.Array? && v.Arr? && |v.items| > s.max
    case NotAString => s.String? && !v.Str?
    case BadString(why) => s.String? && v.Str? && s.problem(v.text) == Some(why)
    case NotANumber => s.Numeric? && !(v.Num? && v.number.Finite?)
    case NotAnInteger => s.Integer? && !(v.Num? && SafeInteger(v.number))
    case NotABoolean => s.Boolean? && !v.Bool?
    case NotNull => s.NullValue? && !v.Null?
  }

  predicate IsIndex(token: string, n: nat) { token == Decimal(n) }

  /** The part `sub` is what the schema says about values at `path`. */
  ghost predicate Reaches(s: Schema, path: seq<string>, sub: Schema)
    decreases s
  {
    || (path == [] && s == sub)
    || match s
       case Object(props, _) =>
         && path != []
         && exists i :: 0 <= i < |props| && props[i].key == path[0] && Reaches(props[i].schema, path[1..], sub)
       case Map(allowed, value, _) => path != [] && allowed(path[0]) && Reaches(value, path[1..], sub)
       case Array(items, _) => path != [] && (exists n :: IsIndex(path[0], n)) && Reaches(items, path[1..], sub)
       case OneOf(options) => exists i :: 0 <= i < |options| && Reaches(options[i], path, sub)
       case _ => false
  }

  /** What was found at or below `path`, where `s` applies, is a fault of the value found there. */
  ghost predicate Holds(document: Json, s: Schema, path: seq<string>, f: Found) {
    && Explained(f)
    && Resolve(document, f.path) == Some(f.value)
    && path <= f.path
    && Reaches(s, f.path[|path|..], f.schema)
  }

  /** A fault of the value itself. */
  lemma HoldsHere(document: Json, s: Schema, path: seq<string>, f: Found)
    requires Resolve(document, path) == Some(f.value) && f.path == path && f.schema == s && Explained(f)
    ensures Holds(document, s, path, f)
  {
    assert f.path[|path|..] == [];
  }

  /** A fault of a child, seen from its parent. */
  lemma HoldsBelow(document: Json, s: Schema, child: Schema, path: seq<string>, token: string, f: Found)
    requires Holds(document, child, path + [token], f)
    requires Reaches(s, [token] + f.path[|path| + 1..], f.schema)
    ensures Holds(document, s, path, f)
  {
    assert f.path[..|path| + 1] == path + [token];
    assert f.path[..|path|] == path && f.path[|path|..] == [token] + f.path[|path| + 1..];
  }

  lemma {:induction false} UnknownHere(v: Json, s: Schema, fields: seq<Field>, path: seq<string>, f: Found)
    requires s.Object? && f in UnknownFinds(v, s, fields, path)
    ensures f == Found(UnknownField, path, v, s)
    ensures exists i :: 0 <= i < |fields| && !HasProp(s.props, fields[i].key)
  {
    if HasProp(s.props, fields[0].key) {
      UnknownHere(v, s, fields[1..], path, f);
      var i :| 0 <= i < |fields[1..]| && !HasProp(s.props, fields[1..][i].key);
      assert fields[i + 1] == fields[1..][i];
    } else if f in UnknownFinds(v, s, fields[1..], path) {
      UnknownHere(v, s, fields[1..], path, f);
    }
  }

  lemma {:induction false} AttemptAt(v: Json, options: seq<Schema>, path: seq<string>, i: nat)
    requires i < |options| && forall k :: 0 <= k < |options| ==> Grounded(options[k])
    ensures FindAttempts(v, options, path)[i] == Finds(v, options[i], path)
  {
    if i > 0 { AttemptAt(v, options[1..], path, i - 1); }
  }

  /** The option whose attempt was reported. */
  lemma AttemptOf(v: Json, options: seq<Schema>, path: seq<string>, f: Found) returns (i: nat)
    requires Grounded(OneOf(options)) && f in Finds(v, OneOf(options), path)
    ensures i < |options| && f in Finds(v, options[i], path)
  {
    var attempts := FindAttempts(v, options, path);
    i := ShortestIsLeast(attempts);
    AttemptAt(v, options, path, i);
  }

  lemma {:induction false} FindsHold(document: Json, v: Json, s: Schema, path: seq<string>, f: Found)
    requires Grounded(s) && Stands(document, path, v) && f in Finds(v, s, path)
    ensures Holds(document, s, path, f)
    decreases s, 3, 0
  {
    match s
    case Object(_, _) => ObjectHolds(document, v, s, path, f);
    case Map(_, value, maxKeys) =>
      if v.Obj? && |v.fields| <= maxKeys { EntriesHold(document, v, s, 0, path, f); }
      else { HoldsHere(document, s, path, f); }
    case Array(items, max) =>
      if v.Arr? && |v.items| <= max { ItemsHold(document, v, s, 0, path, f); }
      else { HoldsHere(document, s, path, f); }
    case OneOf(options) =>
      var i := AttemptOf(v, options, path, f);
      FindsHold(document, v, options[i], path, f);
    case _ => HoldsHere(document, s, path, f);
  }

  lemma {:induction false} ObjectHolds(document: Json, v: Json, s: Schema, path: seq<string>, f: Found)
    requires Grounded(s) && s.Object? && Stands(document, path, v) && f in Finds(v, s, path)
    ensures Holds(document, s, path, f)
    decreases s, 2, 0
  {
    if !v.Obj? {
      HoldsHere(document, s, path, f);
    } else if f in UnknownFinds(v, s, v.fields, path) {
      UnknownHere(v, s, v.fields, path, f);
      HoldsHere(document, s, path, f);
    } else {
      PropsHold(document, v, s, 0, path, f);
    }
  }

  lemma {:induction false} PropsHold(document: Json, v: Json, s: Schema, i: nat, path: seq<string>, f: Found)
    requires Grounded(s) && s.Object? && v.Obj? && Stands(document, path, v)
    requires i <= |s.props| && f in PropFinds(v, s, s.props[i..], path)
    ensures Holds(document, s, path, f)
    decreases s, 1, |s.props| - i
  {
    var p := s.props[i];
    assert s.props[i..][0] == p && s.props[i..][1..] == s.props[i + 1..];
    var found := Lookup(v.fields, p.key);
    if f in PropFinds(v, s, s.props[i + 1..], path) {
      PropsHold(document, v, s, i + 1, path, f);
    } else if found.Some? {
      PropHolds(document, v, s, i, found.value, path, f);
    } else {
      HoldsHere(document, s, path, f);
    }
  }

  lemma {:induction false} EntriesHold(document: Json, v: Json, s: Schema, i: nat, path: seq<string>, f: Found)
    requires Grounded(s) && s.Map? && v.Obj? && Stands(document, path, v)
    requires i <= |v.fields| && f in EntryFinds(v, s, v.fields[i..], s.value, path)
    ensures Holds(document, s, path, f)
    decreases s, 1, |v.fields| - i
  {
    var e := v.fields[i];
    assert v.fields[i..][0] == e && v.fields[i..][1..] == v.fields[i + 1..];
    if f in EntryFinds(v, s, v.fields[i + 1..], s.value, path) {
      EntriesHold(document, v, s, i + 1, path, f);
    } else if s.allowed(e.key) {
      EntryHolds(document, v, s, i, path, f);
    } else {
      HoldsHere(document, s, path, f);
    }
  }

  lemma {:induction false} PropHolds(
    document: Json, v: Json, s: Schema, i: nat, child: Json, path: seq<string>, f: Found)
    requires Grounded(s) && s.Object? && v.Obj? && Stands(document, path, v) && i < |s.props|
    requires Lookup(v.fields, s.props[i].key) == Some(child)
    requires f in Finds(child, s.props[i].schema, path + [s.props[i].key])
    ensures Holds(document, s, path, f)
    decreases s, 0, 0
  {
    var p := s.props[i];
    ResolveLast(document, path, p.key);
    FindsHold(document, child, p.schema, path + [p.key], f);
    ReachesProp(s, i, f.path[|path| + 1..], f.schema);
    HoldsBelow(document, s, p.schema, path, p.key, f);
  }

  lemma {:induction false} EntryHolds(document: Json, v: Json, s: Schema, i: nat, path: seq<string>, f: Found)
    requires Grounded(s) && s.Map? && v.Obj? && Stands(document, path, v) && i < |v.fields|
    requires s.allowed(v.fields[i].key) && f in Finds(v.fields[i].value, s.value, path + [v.fields[i].key])
    ensures Holds(document, s, path, f)
    decreases s, 0, 0
  {
    var e := v.fields[i];
    LookupAt(v.fields, i);
    ResolveLast(document, path, e.key);
    FindsHold(document, e.value, s.value, path + [e.key], f);
    ReachesEntry(s, e.key, f.path[|path| + 1..], f.schema);
    HoldsBelow(document, s, s.value, path, e.key, f);
  }

  lemma ReachesProp(s: Schema, i: nat, rest: seq<string>, sub: Schema)
    requires s.Object? && i < |s.props| && Reaches(s.props[i].schema, rest, sub)
    ensures Reaches(s, [s.props[i].key] + rest, sub)
  {
    var path := [s.props[i].key] + rest;
    assert path[0] == s.props[i].key && path[1..] == rest;
  }

  lemma ReachesEntry(s: Schema, key: string, rest: seq<string>, sub: Schema)
    requires s.Map? && s.allowed(key) && Reaches(s.value, rest, sub)
    ensures Reaches(s, [key] + rest, sub)
  {
    var path := [key] + rest;
    assert path[0] == key && path[1..] == rest;
  }

  lemma ReachesItem(s: Schema, n: nat, rest: seq<string>, sub: Schema)
    requires s.Array? && Reaches(s.items, rest, sub)
    ensures Reaches(s, [Decimal(n)] + rest, sub)
  {
    var path := [Decimal(n)] + rest;
    assert IsIndex(path[0], n) && path[1..] == rest;
  }

  lemma {:induction false} ItemsHold(document: Json, v: Json, s: Schema, i: nat, path: seq<string>, f: Found)
    requires Grounded(s) && s.Array? && v.Arr? && Stands(document, path, v)
    requires i <= |v.items| && f in ItemFinds(v.items[i..], s.items, i, path)
    ensures Holds(document, s, path, f)
    decreases s, 1, |v.items| - i
  {
    assert v.items[i..][0] == v.items[i] && v.items[i..][1..] == v.items[i + 1..];
    if f in ItemFinds(v.items[i + 1..], s.items, i + 1, path) {
      ItemsHold(document, v, s, i + 1, path, f);
    } else {
      IndexOfDecimal(i, |v.items|);
      ResolveLast(document, path, Decimal(i));
      FindsHold(document, v.items[i], s.items, path + [Decimal(i)], f);
      ReachesItem(s, i, f.path[|path| + 1..], f.schema);
      HoldsBelow(document, s, s.items, path, Decimal(i), f);
    }
  }

  // ---------------------------------------------------------------- which pointers lead there

  // ---------------------------------------------------------------- nothing is passed over

  /** Along `path`, measuring `v` by `s` leads to measuring `value` by `sub`, with no oneOf on the way. */
  ghost predicate Leads(v: Json, s: Schema, path: seq<string>, value: Json, sub: Schema)
    decreases s
  {
    if path == [] then v == value && s == sub
    else match s
      case Object(props, _) =>
        && v.Obj? && Lookup(v.fields, path[0]).Some?
        && exists i :: 0 <= i < |props| && props[i].key == path[0]
                       && Leads(Lookup(v.fields, path[0]).value, props[i].schema, path[1..], value, sub)
      case Map(allowed, item, maxKeys) =>
        && v.Obj? && |v.fields| <= maxKeys && allowed(path[0])
        && exists i :: 0 <= i < |v.fields| && v.fields[i].key == path[0]
                       && Leads(v.fields[i].value, item, path[1..], value, sub)
      case Array(item, max) =>
        && v.Arr? && |v.items| <= max
        && exists i :: 0 <= i < |v.items| && IsIndex(path[0], i) && Leads(v.items[i], item, path[1..], value, sub)
      case _ => false
  }

  lemma {:induction false} UnknownFoundAt(v: Json, s: Schema, fields: seq<Field>, path: seq<string>, i: nat)
    requires s.Object? && i < |fields| && !HasProp(s.props, fields[i].key)
    ensures Found(UnknownField, path, v, s) in UnknownFinds(v, s, fields, path)
  {
    if i > 0 { UnknownFoundAt(v, s, fields[1..], path, i - 1); }
  }

  /** What one property contributes. */
  ghost function PropFind(v: Json, s: Schema, p: Prop, path: seq<string>): (r: seq<Found>)
    requires v.Obj? && s.Object? && Grounded(p.schema)
  {
    var found := Lookup(v.fields, p.key);
    if found.Some? then Finds(found.value, p.schema, path + [p.key])
    else if p.key in s.optional then [] else [Found(MissingField(p.key), path, v, s)]
  }

  lemma {:induction false} PropFoundAt(v: Json, s: Schema, props: seq<Prop>, path: seq<string>, i: nat, f: Found)
    requires v.Obj? && s.Object? && forall k :: 0 <= k < |props| ==> Grounded(props[k].schema)
    requires i < |props| && f in PropFind(v, s, props[i], path)
    ensures f in PropFinds(v, s, props, path)
  {
    if i > 0 { PropFoundAt(v, s, props[1..], path, i - 1, f); }
  }

  lemma {:induction false} EntryFoundAt(
    v: Json, s: Schema, fields: seq<Field>, value: Schema, path: seq<string>, i: nat, f: Found)
    requires s.Map? && Grounded(value) && i < |fields|
    requires
      if s.allowed(fields[i].key) then f in Finds(fields[i].value, value, path + [fields[i].key])
      else f == Found(NameNotAllowed, path, v, s)
    ensures f in EntryFinds(v, s, fields, value, path)
  {
    if i > 0 { EntryFoundAt(v, s, fields[1..], value, path, i - 1, f); }
  }

  lemma {:induction false} ItemFoundAt(items: seq<Json>, item: Schema, n: nat, path: seq<string>, i: nat, f: Found)
    requires Grounded(item) && i < |items| && f in Finds(items[i], item, path + [Decimal(n + i)])
    ensures f in ItemFinds(items, item, n, path)
  {
    if i > 0 { ItemFoundAt(items[1..], item, n + 1, path, i - 1, f); }
  }

  /** A fault of the value itself; once there are too many entries, their names are not looked at. */
  ghost predicate Due(f: Found) {
    && Explained(f)
    && (f.fault.NameNotAllowed? ==> |f.value.fields| <= f.schema.maxKeys)
  }

  lemma OwnFaultFound(f: Found)
    requires Grounded(f.schema) && Due(f)
    ensures f in Finds(f.value, f.schema, f.path)
  {
    var v, s := f.value, f.schema;
    match f.fault
    case UnknownField =>
      var i :| 0 <= i < |v.fields| && !HasProp(s.props, v.fields[i].key);
      UnknownFoundAt(v, s, v.fields, f.path, i);
    case MissingField(key) =>
      var i :| 0 <= i < |s.props| && s.props[i].key == key;
      PropFoundAt(v, s, s.props, f.path, i, f);
    case NameNotAllowed =>
      var i :| 0 <= i < |v.fields| && !s.allowed(v.fields[i].key);
      EntryFoundAt(v, s, v.fields, s.value, f.path, i, f);
    case _ =>
  }

  /** Every fault that measuring leads to is found, and so reported. */
  lemma {:induction false} FindsComplete(v: Json, s: Schema, path: seq<string>, rest: seq<string>, f: Found)
    requires Grounded(s) && Grounded(f.schema) && Due(f)
    requires f.path == path + rest && Leads(v, s, rest, f.value, f.schema)
    ensures f in Finds(v, s, path)
    decreases s
  {
    if rest == [] {
      assert path + rest == path;
      OwnFaultFound(f);
    } else {
      var t := rest[0];
      assert path + rest == (path + [t]) + rest[1..];
      match s
      case Object(props, _) =>
        var child := Lookup(v.fields, t).value;
        var i :| 0 <= i < |props| && props[i].key == t && Leads(child, props[i].schema, rest[1..], f.value, f.schema);
        FindsComplete(child, props[i].schema, path + [t], rest[1..], f);
        PropFoundAt(v, s, props, path, i, f);
      case Map(_, item, _) =>
        var i :|
          0 <= i < |v.fields| && v.fields[i].key == t && Leads(v.fields[i].value, item, rest[1..], f.value, f.schema);
        FindsComplete(v.fields[i].value, item, path + [t], rest[1..], f);
        EntryFoundAt(v, s, v.fields, item, path, i, f);
      case Array(item, _) =>
        var i :| 0 <= i < |v.items| && IsIndex(t, i) && Leads(v.items[i], item, rest[1..], f.value, f.schema);
        FindsComplete(v.items[i], item, path + [t], rest[1..], f);
        ItemFoundAt(v.items, item, 0, path, i, f);
    }
  }

  /** Read as RFC 6901 says, the text gives the path back. */
  ghost predicate ReadsAs(p: Problem, path: seq<string>) { IsPointer(p.pointer) && Tokens(p.pointer) == path }

  ghost predicate AllPlain(path: seq<string>) { forall i :: 0 <= i < |path| ==> PlainToken(path[i]) }

  /**
   A problem's pointer leads to the value at fault exactly when that is not the
   document itself and no key on the way needs escaping.
   */
  lemma PointerReads(f: Found)
    ensures ReadsAs(Render(f), f.path) <==> f.path != [] && AllPlain(f.path)
  {
    SlashIsNotTheDocument();
    JoinedReads(f.path);
  }

  /**
   The validator's problems are what it finds; every one is a fault of the value
   at its path, measured by what the schema says there; and its pointer leads
   there exactly under the condition above.
   */
  lemma ProblemsLocated(document: Json, s: Schema)
    requires Grounded(s) && WellFormed(document)
    ensures Problems(document, s, "") == RenderAll(Finds(document, s, []))
    ensures forall f :: f in Finds(document, s, []) ==>
      Holds(document, s, [], f) && (ReadsAs(Render(f), f.path) <==> f.path != [] && AllPlain(f.path))
  {
    ProblemsAreFound(document, s, []);
    forall f | f in Finds(document, s, [])
      ensures Holds(document, s, [], f) && (ReadsAs(Render(f), f.path) <==> f.path != [] && AllPlain(f.path))
    {
      FindsHold(document, document, s, [], f);
      PointerReads(f);
    }
  }

  /** Every key the schema admits reads back as itself. */
  ghost predicate PlainSchema(s: Schema) {
    match s
    case Object(props, _) => forall i :: 0 <= i < |props| ==> PlainToken(props[i].key) && PlainSchema(props[i].schema)
    case Map(allowed, value, _) => (forall key :: allowed(key) ==> PlainToken(key)) && PlainSchema(value)
    case Array(items, _) => PlainSchema(items)
    case OneOf(options) => forall i :: 0 <= i < |options| ==> PlainSchema(options[i])
    case _ => true
  }

  lemma {:induction false} PlainPaths(s: Schema, path: seq<string>, sub: Schema)
    requires PlainSchema(s) && Reaches(s, path, sub)
    ensures AllPlain(path)
    decreases s
  {
    if !(path == [] && s == sub) {
      match s
      case Object(props, _) =>
        var i :| 0 <= i < |props| && props[i].key == path[0] && Reaches(props[i].schema, path[1..], sub);
        PlainPaths(props[i].schema, path[1..], sub);
        PlainFrom(path);
      case Map(_, value, _) =>
        PlainPaths(value, path[1..], sub);
        PlainFrom(path);
      case Array(items, _) =>
        var n :| IsIndex(path[0], n);
        DecimalIsPlain(n);
        PlainPaths(items, path[1..], sub);
        PlainFrom(path);
      case OneOf(options) =>
        var i :| 0 <= i < |options| && Reaches(options[i], path, sub);
        PlainPaths(options[i], path, sub);
    }
  }

  lemma PlainFrom(path: seq<string>)
    requires path != [] && PlainToken(path[0]) && AllPlain(path[1..])
    ensures AllPlain(path)
  {
    assert forall i :: 0 < i < |path| ==> path[i] == path[1..][i - 1];
  }

  /** Under such a schema a problem is misplaced only if it is the document's own. */
  lemma PlainSchemaLocates(document: Json, s: Schema, f: Found)
    requires Grounded(s) && PlainSchema(s) && WellFormed(document) && f in Finds(document, s, [])
    ensures ReadsAs(Render(f), f.path) <==> f.path != []
  {
    ProblemsLocated(document, s);
    assert f.path[0..] == f.path;
    PlainPaths(s, f.path, f.schema);
  }

  /** A key that does need escaping sends the reader astray. */
  lemma SlashMisleads()
    ensures var document := Obj([Field("a/b", Null)]);
      var s := Map(_ => true, Boolean, 1);
      Problems(document, s, "") == [Problem("/a/b", NotABoolean)] && Resolve(document, Tokens("/a/b")) == None
  {
    var document := Obj([Field("a/b", Null)]);
    var fields := document.fields;
    var s := Map(_ => true, Boolean, 1);
    assert fields[1..] == [];
    assert "" + "/" + "a/b" == "/a/b";
    assert Problems(document, s, "") == EntryProblems(fields, s.allowed, Boolean, "", "/");
    assert EntryProblems(fields[1..], s.allowed, Boolean, "", "/") == [];
    assert "/a/b" == "/a" + "/" + "b" && "/a" == "" + "/" + "a";
    TokensOfChild("", "a");
    TokensOfChild("/a", "b");
    assert Unescape("a") == "a";
    assert Tokens("/a/b")[0] == "a";
    assert "a" != "a/b";
  }

  /** So does the document's own problem, which is reported at `/`. */
  lemma RootMisleads()
    ensures Problems(Null, Object([], []), "") == [Problem("/", NotAnObject)]
    ensures Resolve(Null, Tokens("/")) == None
  {
    SlashIsNotTheDocument();
  }
}
