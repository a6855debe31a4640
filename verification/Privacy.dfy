/**
 The evidence sanitizer and the checker that backs it up.

 Which strings are unsafe and which keys are secret is decided by regular
 expressions that stay abstract here; all that is assumed of them is that the
 redaction marker itself is safe.
 */
module Privacy {
  import opened Results
  import opened Sequences
  import opened JsonValues
  import opened Text
  import opened Comebacks
  import opened Pointers

  const REDACTED := "[redacted-host-path]"
  const PLACEHOLDER := "<repo>"
  const NAME_SUFFIX := " (property name)"

  datatype Rules = Rules(reason: string -> Option<string>, secret: string -> bool)

  datatype Problem = UnsafeValue(why: string) | UnsafeName(why: string) | SecretName

  datatype Violation = Violation(pointer: string, problem: Problem)

  ghost predicate MarkerSafe(r: Rules) { r.reason(REDACTED).None? }

  predicate Publishable(r: Rules, key: string) { !r.secret(key) && r.reason(key).None? }

  // ---------------------------------------------------------------- the checker

  function OrSlash(pointer: string): (p: string) { if pointer == "" then "/" else pointer }

  /** What `findPrivacyViolations` reports below `pointer`, in document order. */
  function Violations(r: Rules, d: Json, pointer: string): (v: seq<Violation>)
    decreases d
  {
    match d
    case Str(text) =>
      if r.reason(text).Some? then [Violation(OrSlash(pointer), UnsafeValue(r.reason(text).value))] else []
    case Arr(items) => ItemViolations(r, items, 0, pointer)
    case Obj(fields) => FieldViolations(r, fields, pointer)
    case _ => []
  }

  /** The same for the items from index `i` on. */
  function ItemViolations(r: Rules, items: seq<Json>, i: nat, pointer: string): (v: seq<Violation>)
    decreases items
  {
    if items == [] then []
    else Violations(r, items[0], pointer + "/" + Decimal(i)) + ItemViolations(r, items[1..], i + 1, pointer)
  }

  function FieldViolation(r: Rules, f: Field, pointer: string): (v: seq<Violation>)
    decreases f
  {
    if r.reason(f.key).Some? then
      [Violation(OrSlash(pointer) + NAME_SUFFIX, UnsafeName(r.reason(f.key).value))]
    else if r.secret(f.key) then [Violation(pointer + "/" + Escape(f.key), SecretName)]
    else Violations(r, f.value, pointer + "/" + Escape(f.key))
  }

  function FieldViolations(r: Rules, fields: seq<Field>, pointer: string): (v: seq<Violation>)
    decreases fields
  {
    if fields == [] then []
    else FieldViolation(r, fields[0], pointer) + FieldViolations(r, fields[1..], pointer)
  }

  /** `findPrivacyViolations`: a recursive walk pushing to one list. */
  class Walk {
    const rules: Rules
    var violations: seq<Violation>

    constructor (r: Rules)
      ensures rules == r && violations == []
    {
      rules := r;
      violations := [];
    }

    method Visit(node: Json, pointer: string)
      modifies this
      ensures violations == old(violations) + Violations(rules, node, pointer)
      decreases node
    {
      match node
      case Str(text) =>
        var reason := rules.reason(text);
        if reason.Some? {
          violations := violations + [Violation(OrSlash(pointer), UnsafeValue(reason.value))];
        }
      case Arr(items) => VisitItems(items, pointer);
      case Obj(fields) => VisitFields(fields, pointer);
      case _ =>
    }

    method VisitItems(items: seq<Json>, pointer: string)
      modifies this
      ensures violations == old(violations) + ItemViolations(rules, items, 0, pointer)
      decreases items
    {
      var i := 0;
      while i < |items|
        invariant i <= |items|
        invariant violations + ItemViolations(rules, items[i..], i, pointer)
                  == old(violations) + ItemViolations(rules, items, 0, pointer)
      {
        Visit(items[i], pointer + "/" + Decimal(i));
        assert items[i..][1..] == items[i + 1..];
        assert items[i..][0] == items[i];
        i := i + 1;
      }
    }

    method VisitFields(fields: seq<Field>, pointer: string)
      modifies this
      ensures violations == old(violations) + FieldViolations(rules, fields, pointer)
      decreases fields
    {
      var i := 0;
      while i < |fields|
        invariant i <= |fields|
        invariant violations + FieldViolations(rules, fields[i..], pointer)
                  == old(violations) + FieldViolations(rules, fields, pointer)
      {
        var Field(key, entry) := fields[i];
        assert fields[i..][1..] == fields[i + 1..];
        assert fields[i..][0] == fields[i];
        i := i + 1;
        if rules.reason(key).Some? {
          violations := violations
            + [Violation(OrSlash(pointer) + NAME_SUFFIX, UnsafeName(rules.reason(key).value))];
          continue;
        }
        var childPointer := pointer + "/" + Escape(key);
        if rules.secret(key) {
          violations := violations + [Violation(childPointer, SecretName)];
          continue;
        }
        Visit(entry, childPointer);
      }
    }
  }

  method FindPrivacyViolations(r: Rules, document: Json) returns (v: seq<Violation>)
    ensures v == Violations(r, document, "")
    ensures v == [] <==> Clean(r, document)
  {
    var walk := new Walk(r);
    walk.Visit(document, "");
    v := walk.violations;
    NoViolationsIffClean(r, document, "");
  }

  // ---------------------------------------------------------------- the checker is exact

  ghost predicate Clean(r: Rules, d: Json) {
    match d
    case Str(text) => r.reason(text).None?
    case Arr(items) => forall i :: 0 <= i < |items| ==> Clean(r, items[i])
    case Obj(fields) =>
      forall i :: 0 <= i < |fields| ==> Publishable(r, fields[i].key) && Clean(r, fields[i].value)
    case _ => true
  }

  lemma {:induction false} NoViolationsIffClean(r: Rules, d: Json, pointer: string)
    ensures Violations(r, d, pointer) == [] <==> Clean(r, d)
    decreases d
  {
    match d
    case Arr(items) => NoItemViolations(r, items, 0, pointer);
    case Obj(fields) => NoFieldViolations(r, fields, pointer);
    case _ =>
  }

  lemma {:induction false} NoItemViolations(r: Rules, items: seq<Json>, i: nat, pointer: string)
    ensures ItemViolations(r, items, i, pointer) == [] <==> forall k :: 0 <= k < |items| ==> Clean(r, items[k])
    decreases items
  {
    if items != [] {
      NoViolationsIffClean(r, items[0], pointer + "/" + Decimal(i));
      NoItemViolations(r, items[1..], i + 1, pointer);
      assert forall k :: 0 < k < |items| ==> items[k] == items[1..][k - 1];
    }
  }

  lemma {:induction false} NoFieldViolations(r: Rules, fields: seq<Field>, pointer: string)
    ensures FieldViolations(r, fields, pointer) == []
      <==> forall k :: 0 <= k < |fields| ==> Publishable(r, fields[k].key) && Clean(r, fields[k].value)
    decreases fields
  {
    if fields != [] {
      NoViolationsIffClean(r, fields[0].value, pointer + "/" + Escape(fields[0].key));
      NoFieldViolations(r, fields[1..], pointer);
      assert forall k :: 0 < k < |fields| ==> fields[k] == fields[1..][k - 1];
    }
  }

  /** What one value must satisfy on its own. */
  ghost predicate NodeClean(r: Rules, d: Json) {
    match d
    case Str(text) => r.reason(text).None?
    case Obj(fields) => forall i :: 0 <= i < |fields| ==> Publishable(r, fields[i].key)
    case _ => true
  }

  lemma {:induction false} CleanBelow(r: Rules, d: Json, tokens: seq<string>)
    requires Clean(r, d) && Resolve(d, tokens).Some?
    ensures Clean(r, Resolve(d, tokens).value)
    decreases tokens
  {
    if tokens != [] {
      CleanBelow(r, Child(d, tokens[0]).value, tokens[1..]);
    }
  }

  ghost predicate EveryNodeClean(r: Rules, d: Json) {
    forall tokens: seq<string> :: Resolve(d, tokens).Some? ==> NodeClean(r, Resolve(d, tokens).value)
  }

  lemma ChildOfEveryNode(r: Rules, d: Json, t: string)
    requires EveryNodeClean(r, d) && Child(d, t).Some?
    ensures EveryNodeClean(r, Child(d, t).value)
  {
    forall tokens: seq<string> | Resolve(Child(d, t).value, tokens).Some?
      ensures NodeClean(r, Resolve(Child(d, t).value, tokens).value)
    {
      assert ([t] + tokens)[1..] == tokens;
      assert Resolve(d, [t] + tokens) == Resolve(Child(d, t).value, tokens);
    }
  }

  /** Clean means clean at every pointer, at every depth. */
  lemma {:induction false} CleanEverywhere(r: Rules, d: Json)
    requires WellFormed(d)
    ensures Clean(r, d) <==> EveryNodeClean(r, d)
    decreases d
  {
    if Clean(r, d) {
      forall tokens: seq<string> | Resolve(d, tokens).Some? ensures NodeClean(r, Resolve(d, tokens).value) {
        CleanBelow(r, d, tokens);
      }
    }
    if EveryNodeClean(r, d) {
      assert NodeClean(r, d) by { assert Resolve(d, []) == Some(d); }
      match d
      case Arr(items) =>
        forall i | 0 <= i < |items| ensures Clean(r, items[i]) {
          IndexOfDecimal(i, |items|);
          ChildOfEveryNode(r, d, Decimal(i));
          CleanEverywhere(r, items[i]);
        }
      case Obj(fields) =>
        forall i | 0 <= i < |fields| ensures Clean(r, fields[i].value) {
          LookupAt(fields, i);
          ChildOfEveryNode(r, d, fields[i].key);
          CleanEverywhere(r, fields[i].value);
        }
      case _ =>
    }
  }

  // ---------------------------------------------------------------- findings and the places they are about

  /** Where a problem is, as reference tokens; for a bad name, where the object is. */
  datatype Place = Place(path: seq<string>, problem: Problem)

  /** The problems below `path`, without any text. */
  ghost function Places(r: Rules, d: Json, path: seq<string>): (p: seq<Place>)
    decreases d
  {
    match d
    case Str(text) => if r.reason(text).Some? then [Place(path, UnsafeValue(r.reason(text).value))] else []
    case Arr(items) => ItemPlaces(r, items, 0, path)
    case Obj(fields) => FieldPlaces(r, fields, path)
    case _ => []
  }

  ghost function ItemPlaces(r: Rules, items: seq<Json>, i: nat, path: seq<string>): (p: seq<Place>)
    decreases items
  {
    if items == [] then []
    else Places(r, items[0], path + [Decimal(i)]) + ItemPlaces(r, items[1..], i + 1, path)
  }

  ghost function FieldPlace(r: Rules, f: Field, path: seq<string>): (p: seq<Place>)
    decreases f
  {
    if r.reason(f.key).Some? then [Place(path, UnsafeName(r.reason(f.key).value))]
    else if r.secret(f.key) then [Place(path + [f.key], SecretName)]
    else Places(r, f.value, path + [f.key])
  }

  ghost function FieldPlaces(r: Rules, fields: seq<Field>, path: seq<string>): (p: seq<Place>)
    decreases fields
  {
    if fields == [] then [] else FieldPlace(r, fields[0], path) + FieldPlaces(r, fields[1..], path)
  }

  /** The text a place is reported under. */
  ghost function Render(p: Place): (v: Violation) {
    var text := Escaped(p.path);
    match p.problem
    case UnsafeName(_) => Violation(OrSlash(text) + NAME_SUFFIX, p.problem)
    case SecretName => Violation(text, p.problem)
    case UnsafeValue(_) => Violation(OrSlash(text), p.problem)
  }

  ghost function RenderAll(places: seq<Place>): (v: seq<Violation>) { Mapped(Render, places) }

  /** The checker reports exactly the places, each under its text, in order. */
  lemma {:induction false} ViolationsArePlaces(r: Rules, d: Json, path: seq<string>)
    ensures Violations(r, d, Escaped(path)) == RenderAll(Places(r, d, path))
    decreases d
  {
    match d
    case Arr(items) => ItemsArePlaces(r, items, 0, path);
    case Obj(fields) => FieldsArePlaces(r, fields, path);
    case _ =>
  }

  lemma {:induction false} ItemsArePlaces(r: Rules, items: seq<Json>, i: nat, path: seq<string>)
    ensures ItemViolations(r, items, i, Escaped(path)) == RenderAll(ItemPlaces(r, items, i, path))
    decreases items
  {
    if items != [] {
      EscapedIndex(path, i);
      ViolationsArePlaces(r, items[0], path + [Decimal(i)]);
      ItemsArePlaces(r, items[1..], i + 1, path);
      MappedConcat(Render, Places(r, items[0], path + [Decimal(i)]), ItemPlaces(r, items[1..], i + 1, path));
    }
  }

  lemma {:induction false} FieldsArePlaces(r: Rules, fields: seq<Field>, path: seq<string>)
    ensures FieldViolations(r, fields, Escaped(path)) == RenderAll(FieldPlaces(r, fields, path))
    decreases fields
  {
    if fields != [] {
      FieldIsPlace(r, fields[0], path);
      FieldsArePlaces(r, fields[1..], path);
      MappedConcat(Render, FieldPlace(r, fields[0], path), FieldPlaces(r, fields[1..], path));
    }
  }

  lemma {:induction false} FieldIsPlace(r: Rules, f: Field, path: seq<string>)
    ensures FieldViolation(r, f, Escaped(path)) == RenderAll(FieldPlace(r, f, path))
    decreases f
  {
    EscapedNext(path, f.key);
    if Publishable(r, f.key) { ViolationsArePlaces(r, f.value, path + [f.key]); }
  }

  /** What the place complains about is there. */
  ghost predicate Caused(r: Rules, document: Json, p: Place) {
    var found := Resolve(document, p.path);
    match p.problem
    case UnsafeValue(why) => found.Some? && found.value.Str? && r.reason(found.value.text) == Some(why)
    case UnsafeName(why) => found.Some? && found.value.Obj? && HasKeyWith(r, found.value.fields, why)
    case SecretName =>
      && p.path != [] && found.Some?
      && r.secret(p.path[|p.path| - 1]) && r.reason(p.path[|p.path| - 1]).None?
      && var parent := Resolve(document, p.path[..|p.path| - 1]);
         parent.Some? && parent.value.Obj?
  }

  ghost predicate HasKeyWith(r: Rules, fields: seq<Field>, why: string) {
    exists i :: 0 <= i < |fields| && r.reason(fields[i].key) == Some(why)
  }

  lemma {:induction false} PlacesCaused(r: Rules, document: Json, d: Json, path: seq<string>, p: Place)
    requires Stands(document, path, d) && p in Places(r, d, path)
    ensures Caused(r, document, p)
    decreases d
  {
    match d
    case Arr(items) => ItemsCaused(r, document, d, items, 0, path, p);
    case Obj(fields) => FieldsCaused(r, document, d, fields, 0, path, p);
    case _ =>
  }

  lemma {:induction false} ItemsCaused(
    r: Rules, document: Json, d: Json, items: seq<Json>, i: nat, path: seq<string>, p: Place)
    requires d.Arr? && i <= |d.items| && items == d.items[i..] && Stands(document, path, d)
    requires p in ItemPlaces(r, items, i, path)
    ensures Caused(r, document, p)
    decreases items
  {
    if p in Places(r, items[0], path + [Decimal(i)]) {
      ResolveLast(document, path, Decimal(i));
      IndexOfDecimal(i, |d.items|);
      PlacesCaused(r, document, items[0], path + [Decimal(i)], p);
    } else {
      ItemsCaused(r, document, d, items[1..], i + 1, path, p);
    }
  }

  lemma {:induction false} FieldsCaused(
    r: Rules, document: Json, d: Json, fields: seq<Field>, i: nat, path: seq<string>, p: Place)
    requires d.Obj? && i <= |d.fields| && fields == d.fields[i..] && Stands(document, path, d)
    requires p in FieldPlaces(r, fields, path)
    ensures Caused(r, document, p)
    decreases fields
  {
    if p in FieldPlace(r, fields[0], path) {
      var key := fields[0].key;
      assert d.fields[i] == fields[0];
      LookupAt(d.fields, i);
      ResolveLast(document, path, key);
      assert (path + [key])[..|path|] == path;
      if r.reason(key).None? && !r.secret(key) {
        PlacesCaused(r, document, fields[0].value, path + [key], p);
      }
    } else {
      FieldsCaused(r, document, d, fields[1..], i + 1, path, p);
    }
  }

  /** The part of a finding's text that is meant as a pointer. */
  ghost function Locator(v: Violation): (text: string) {
    if v.problem.UnsafeName? && |v.pointer| >= |NAME_SUFFIX| then v.pointer[..|v.pointer| - |NAME_SUFFIX|]
    else v.pointer
  }

  /** Read as RFC 6901 says, the text gives the path back. */
  ghost predicate ReadsAs(v: Violation, path: seq<string>) {
    IsPointer(Locator(v)) && Tokens(Locator(v)) == path
  }

  /** A place's text reads back as the place exactly when it is not the document itself. */
  lemma PlaceReads(p: Place)
    requires p.problem.SecretName? ==> p.path != []
    ensures ReadsAs(Render(p), p.path) <==> p.path != []
  {
    var text := Escaped(p.path);
    EscapedReads(p.path);
    SlashIsNotTheDocument();
    assert Locator(Render(p)) == OrSlash(text) by {
      var pointer := Render(p).pointer;
      if p.problem.UnsafeName? { assert pointer[..|pointer| - |NAME_SUFFIX|] == OrSlash(text); }
    }
  }

  /** An unsafe string, or an object with an unsafe key of its own. */
  ghost predicate UnsafeNode(r: Rules, d: Json) {
    match d
    case Str(text) => r.reason(text).Some?
    case Obj(fields) => exists i :: 0 <= i < |fields| && r.reason(fields[i].key).Some?
    case _ => false
  }

  /** Places lie at or below the node, and at it only for the node's own fault. */
  lemma {:induction false} PlacesBelow(r: Rules, d: Json, path: seq<string>, p: Place)
    requires p in Places(r, d, path)
    ensures |p.path| >= |path| && (|p.path| == |path| ==> UnsafeNode(r, d))
    ensures p.problem.SecretName? ==> |p.path| > |path|
    decreases d
  {
    match d
    case Arr(items) => ItemsBelow(r, items, 0, path, p);
    case Obj(fields) => FieldsBelow(r, fields, path, p);
    case _ =>
  }

  lemma {:induction false} ItemsBelow(r: Rules, items: seq<Json>, i: nat, path: seq<string>, p: Place)
    requires p in ItemPlaces(r, items, i, path)
    ensures |p.path| > |path|
    decreases items
  {
    if p in Places(r, items[0], path + [Decimal(i)]) {
      PlacesBelow(r, items[0], path + [Decimal(i)], p);
    } else {
      ItemsBelow(r, items[1..], i + 1, path, p);
    }
  }

  lemma {:induction false} FieldsBelow(r: Rules, fields: seq<Field>, path: seq<string>, p: Place)
    requires p in FieldPlaces(r, fields, path)
    ensures |p.path| >= |path| && (|p.path| == |path| ==> UnsafeNode(r, Obj(fields)))
    ensures p.problem.SecretName? ==> |p.path| > |path|
    decreases fields
  {
    if p in FieldPlace(r, fields[0], path) {
      if Publishable(r, fields[0].key) {
        PlacesBelow(r, fields[0].value, path + [fields[0].key], p);
      }
    } else {
      FieldsBelow(r, fields[1..], path, p);
      assert forall k :: 0 < k < |fields| ==> fields[k] == fields[1..][k - 1];
    }
  }

  /** `Resolve`, stopping at keys that must not be published. */
  function Reach(r: Rules, d: Json, tokens: seq<string>): (x: Option<Json>) {
    if tokens == [] then Some(d)
    else if d.Obj? && !Publishable(r, tokens[0]) then None
    else
      var child := Child(d, tokens[0]);
      if child.None? then None else Reach(r, child.value, tokens[1..])
  }

  lemma {:induction false} ItemPlacesAt(r: Rules, items: seq<Json>, n: nat, path: seq<string>, i: nat, p: Place)
    requires i < |items| && p in Places(r, items[i], path + [Decimal(n + i)])
    ensures p in ItemPlaces(r, items, n, path)
  {
    if i > 0 { ItemPlacesAt(r, items[1..], n + 1, path, i - 1, p); }
  }

  lemma {:induction false} FieldPlacesAt(r: Rules, fields: seq<Field>, path: seq<string>, i: nat, p: Place)
    requires i < |fields| && p in FieldPlace(r, fields[i], path)
    ensures p in FieldPlaces(r, fields, path)
  {
    if i > 0 { FieldPlacesAt(r, fields[1..], path, i - 1, p); }
  }

  lemma {:induction false} IndexText(token: string, n: nat)
    requires IndexOf(token, n).Some?
    ensures Decimal(IndexOf(token, n).value) == token
  {
    if Decimal(n - 1) != token { IndexText(token, n - 1); }
  }

  /** The walk enters every node it can reach. */
  lemma {:induction false} ReachPlaces(r: Rules, d: Json, path: seq<string>, tokens: seq<string>, x: Json, p: Place)
    requires Reach(r, d, tokens) == Some(x) && p in Places(r, x, path + tokens)
    ensures p in Places(r, d, path)
    decreases |tokens|
  {
    if tokens == [] {
      assert path + tokens == path;
    } else {
      var t := tokens[0];
      var child := Child(d, t).value;
      assert path + tokens == (path + [t]) + tokens[1..];
      ReachPlaces(r, child, path + [t], tokens[1..], x, p);
      if d.Arr? {
        IndexText(t, |d.items|);
        ItemPlacesAt(r, d.items, 0, path, IndexOf(t, |d.items|).value, p);
      } else {
        var i :| 0 <= i < |d.fields| && d.fields[i] == Field(t, child);
        FieldPlacesAt(r, d.fields, path, i, p);
      }
    }
  }

  /**
   Nothing that can be reached goes unreported: not an unsafe string, nor an
   unsafe property name, nor a secret one.
   */
  lemma EverythingReported(r: Rules, d: Json, tokens: seq<string>, x: Json)
    requires Reach(r, d, tokens) == Some(x)
    ensures x.Str? && r.reason(x.text).Some? ==>
      Place(tokens, UnsafeValue(r.reason(x.text).value)) in Places(r, d, [])
    ensures x.Obj? ==> forall i :: 0 <= i < |x.fields| ==>
      var key := x.fields[i].key;
      && (r.reason(key).Some? ==> Place(tokens, UnsafeName(r.reason(key).value)) in Places(r, d, []))
      && (r.reason(key).None? && r.secret(key) ==> Place(tokens + [key], SecretName) in Places(r, d, []))
  {
    assert [] + tokens == tokens;
    if x.Str? && r.reason(x.text).Some? {
      ReachPlaces(r, d, [], tokens, x, Place(tokens, UnsafeValue(r.reason(x.text).value)));
    }
    if x.Obj? {
      forall i | 0 <= i < |x.fields| && !Publishable(r, x.fields[i].key)
        ensures FieldPlace(r, x.fields[i], tokens)[0] in Places(r, d, [])
      {
        var p := FieldPlace(r, x.fields[i], tokens)[0];
        FieldPlacesAt(r, x.fields, tokens, i, p);
        ReachPlaces(r, d, [], tokens, x, p);
      }
    }
  }

  /** A node's own fault has a place at the node. */
  lemma UnsafeNodePlaced(r: Rules, d: Json, path: seq<string>) returns (p: Place)
    requires UnsafeNode(r, d)
    ensures p in Places(r, d, path) && p.path == path
  {
    if d.Str? {
      p := Place(path, UnsafeValue(r.reason(d.text).value));
    } else {
      var i :| 0 <= i < |d.fields| && r.reason(d.fields[i].key).Some?;
      p := Place(path, UnsafeName(r.reason(d.fields[i].key).value));
      FieldPlaced(r, d.fields, path, i);
    }
  }

  lemma {:induction false} FieldPlaced(r: Rules, fields: seq<Field>, path: seq<string>, i: nat)
    requires i < |fields| && r.reason(fields[i].key).Some?
    ensures Place(path, UnsafeName(r.reason(fields[i].key).value)) in FieldPlaces(r, fields, path)
  {
    if i > 0 { FieldPlaced(r, fields[1..], path, i - 1); }
  }

  /**
   The findings are the places of the document's problems; every one of them is
   really there; and all their texts read back as those places exactly when the
   document is neither an unsafe string nor an object with an unsafe key of its
   own, for the `/` written then denotes a member with an empty key.
   */
  lemma FindingsPinpoint(r: Rules, document: Json)
    requires WellFormed(document)
    ensures Violations(r, document, "") == RenderAll(Places(r, document, []))
    ensures forall p :: p in Places(r, document, []) ==>
      Caused(r, document, p) && (ReadsAs(Render(p), p.path) <==> p.path != [])
    ensures (forall p :: p in Places(r, document, []) ==> ReadsAs(Render(p), p.path)) <==> !UnsafeNode(r, document)
  {
    var places := Places(r, document, []);
    ViolationsArePlaces(r, document, []);
    forall p | p in places
      ensures Caused(r, document, p) && (ReadsAs(Render(p), p.path) <==> p.path != [])
      ensures p.path == [] ==> UnsafeNode(r, document)
    {
      PlacesCaused(r, document, document, [], p);
      PlacesBelow(r, document, [], p);
      PlaceReads(p);
    }
    if UnsafeNode(r, document) {
      var p := UnsafeNodePlaced(r, document, []);
    }
  }

  /** The text at the top does not even determine the place: two places, one finding. */
  lemma RootTextIsAmbiguous(r: Rules)
    requires r.reason("/home/u").Some? && Publishable(r, "")
    ensures var inner := Obj([Field("/home/u", Null)]);
      var outer := Obj([Field("", inner)]);
      && Violations(r, inner, "") == Violations(r, outer, "")
      && Places(r, inner, []) != Places(r, outer, [])
  {
    var name := Field("/home/u", Null);
    var inner := Obj([name]);
    var member := Field("", inner);
    var outer := Obj([member]);
    OnlyField(r, name, "", []);
    OnlyField(r, name, "/", [""]);
    OnlyField(r, member, "", []);
    assert Escape("") == "" && "" + "/" + "" == "/" && [] + [""] == [""];
    assert Places(r, outer, []) == Places(r, inner, [""]);
    assert Places(r, inner, [])[0].path == [] && Places(r, inner, [""])[0].path == [""];
  }

  lemma OnlyField(r: Rules, f: Field, pointer: string, path: seq<string>)
    ensures Violations(r, Obj([f]), pointer) == FieldViolation(r, f, pointer)
    ensures Places(r, Obj([f]), path) == FieldPlace(r, f, path)
  {
    var fields := [f];
    assert fields[1..] == [];
    assert FieldViolations(r, fields, pointer) == FieldViolation(r, f, pointer) + FieldViolations(r, [], pointer);
    assert FieldPlaces(r, fields, path) == FieldPlace(r, f, path) + FieldPlaces(r, [], path);
  }

  // ---------------------------------------------------------------- the sanitizer

  function Reroot(value: string, root: string): (r: string) {
    if root == "" then value else ReplaceAll(value, root, PLACEHOLDER)
  }

  function SanitizeString(r: Rules, value: string, root: string): (s: string) {
    var rerooted := Reroot(value, root);
    if r.reason(rerooted).None? then rerooted else REDACTED
  }

  /** `repoRoot.replace(/[/\\]+$/, "")`. */
  function NormalizedRoot(root: string): (s: string)
    ensures s <= root
  {
    if root != "" && root[|root| - 1] in "/\\" then NormalizedRoot(root[..|root| - 1]) else root
  }

  /** All trailing slashes and backslashes go, and nothing else. */
  lemma {:induction false} NormalizedRootExact(root: string)
    ensures var s := NormalizedRoot(root);
      && s <= root
      && (forall i :: |s| <= i < |root| ==> root[i] == '/' || root[i] == '\\')
      && (s != "" ==> s[|s| - 1] != '/' && s[|s| - 1] != '\\')
  {
    if root != "" && root[|root| - 1] in "/\\" { NormalizedRootExact(root[..|root| - 1]); }
  }

  /** A path under the root becomes one under the placeholder; what is still unsafe becomes the marker. */
  lemma SanitizeStringExact(r: Rules, root: string, rest: string)
    requires root != ""
    ensures Reroot(root + rest, root) == "<repo>" + Reroot(rest, root)
    ensures var text := Reroot(root + rest, root);
      SanitizeString(r, root + rest, root) == if r.reason(text).Some? then "[redacted-host-path]" else text
  {
    assert (root + rest)[..|root|] == root && (root + rest)[|root|..] == rest;
  }

  function Visit(r: Rules, root: string, d: Json): (s: Json)
    decreases d
  {
    match d
    case Str(text) => Str(SanitizeString(r, text, root))
    case Arr(items) => Arr(VisitItems(r, root, items))
    case Obj(fields) => Obj(VisitFields(r, root, fields))
    case _ => d
  }

  function VisitItems(r: Rules, root: string, items: seq<Json>): (s: seq<Json>)
    ensures |s| == |items|
    decreases items
  {
    if items == [] then [] else [Visit(r, root, items[0])] + VisitItems(r, root, items[1..])
  }

  function VisitFields(r: Rules, root: string, fields: seq<Field>): (s: seq<Field>)
    decreases fields
  {
    if fields == [] then []
    else
      var rest := VisitFields(r, root, fields[1..]);
      if Publishable(r, fields[0].key) then [Field(fields[0].key, Visit(r, root, fields[0].value))] + rest
      else rest
  }

  /** `sanitizeEvidenceDocument`. */
  function Sanitize(r: Rules, d: Json, repoRoot: string): (s: Json) {
    Visit(r, NormalizedRoot(repoRoot), d)
  }

  lemma {:induction false} VisitClean(r: Rules, root: string, d: Json)
    requires MarkerSafe(r)
    ensures Clean(r, Visit(r, root, d))
    decreases d
  {
    match d
    case Arr(items) => ItemsClean(r, root, items);
    case Obj(fields) => FieldsClean(r, root, fields);
    case _ =>
  }

  lemma {:induction false} ItemsClean(r: Rules, root: string, items: seq<Json>)
    requires MarkerSafe(r)
    ensures Clean(r, Arr(VisitItems(r, root, items)))
    decreases items
  {
    if items != [] {
      VisitClean(r, root, items[0]);
      ItemsClean(r, root, items[1..]);
    }
  }

  lemma {:induction false} FieldsClean(r: Rules, root: string, fields: seq<Field>)
    requires MarkerSafe(r)
    ensures Clean(r, Obj(VisitFields(r, root, fields)))
    decreases fields
  {
    if fields != [] {
      VisitClean(r, root, fields[0].value);
      FieldsClean(r, root, fields[1..]);
    }
  }

  /** Whatever goes in, the checker has nothing to say about what comes out. */
  lemma SanitizedPasses(r: Rules, d: Json, repoRoot: string)
    requires MarkerSafe(r)
    ensures Violations(r, Sanitize(r, d, repoRoot), "") == []
  {
    VisitClean(r, NormalizedRoot(repoRoot), d);
    NoViolationsIffClean(r, Sanitize(r, d, repoRoot), "");
  }

  // ---------------------------------------------------------------- when sanitizing changes nothing

  predicate Mentions(root: string, value: string) { root != "" && Occurs(root, value) }

  /** Rerooting leaves a value alone exactly when the root does not occur in it, whatever the root. */
  lemma RerootExact(root: string, value: string)
    ensures Reroot(value, root) == value <==> !Mentions(root, value) || root == PLACEHOLDER
  {
    if root == PLACEHOLDER {
      ReplaceBySelf(value, root);
    } else if root != "" {
      ReplaceExact(value, root, PLACEHOLDER);
    }
  }

  /**
   Why a safe string is left alone: the root does not occur in it, or is the
   placeholder itself, or the string is the marker and is redacted to itself.
   */
  predicate Stays(r: Rules, root: string, value: string) {
    || !Mentions(root, value)
    || root == PLACEHOLDER
    || (value == REDACTED && r.reason(Reroot(REDACTED, root)).Some?)
  }

  /** A string is kept exactly when it is safe and stays, for every root. */
  lemma StringExact(r: Rules, root: string, value: string)
    requires MarkerSafe(r)
    ensures SanitizeString(r, value, root) == value <==> r.reason(value).None? && Stays(r, root, value)
  {
    RerootExact(root, value);
  }

  /** Safe as the value may be, an absolute root can still occur inside it and be rewritten. */
  lemma SafeValueRewritten(r: Rules)
    requires r.reason("a/opt").None? && r.reason("a<repo>").None?
    ensures SanitizeString(r, "a/opt", "/opt") == "a<repo>"
  {
    var value, root := "a/opt", "/opt";
    assert value[1..] == root && value[..4][0] != root[0];
    assert root[..4] == root && root[4..] == "";
    assert ReplaceAll(root, root, PLACEHOLDER) == PLACEHOLDER;
    assert ReplaceAll(value, root, PLACEHOLDER) == "a" + PLACEHOLDER == "a<repo>";
    assert Reroot(value, root) == "a<repo>";
  }

  /** Every string value of the document satisfies `keep`. */
  ghost predicate AllStrings(keep: string -> bool, d: Json) {
    match d
    case Str(text) => keep(text)
    case Arr(items) => forall i :: 0 <= i < |items| ==> AllStrings(keep, items[i])
    case Obj(fields) => forall i :: 0 <= i < |fields| ==> AllStrings(keep, fields[i].value)
    case _ => true
  }

  /** No string value anywhere in the document mentions the root. */
  ghost predicate RootFree(root: string, d: Json) { AllStrings(text => !Mentions(root, text), d) }

  ghost predicate AllStay(r: Rules, root: string, d: Json) { AllStrings(text => Stays(r, root, text), d) }

  lemma {:induction false} AllStringsImply(weak: string -> bool, strong: string -> bool, d: Json)
    requires forall t :: strong(t) ==> weak(t)
    ensures AllStrings(strong, d) ==> AllStrings(weak, d)
    decreases d
  {
    match d
    case Arr(items) =>
      forall i | 0 <= i < |items| ensures AllStrings(strong, items[i]) ==> AllStrings(weak, items[i]) {
        AllStringsImply(weak, strong, items[i]);
      }
    case Obj(fields) =>
      forall i | 0 <= i < |fields| ensures AllStrings(strong, fields[i].value) ==> AllStrings(weak, fields[i].value) {
        AllStringsImply(weak, strong, fields[i].value);
      }
    case _ =>
  }

  lemma {:induction false} VisitExact(r: Rules, root: string, d: Json)
    requires MarkerSafe(r)
    ensures Visit(r, root, d) == d <==> Clean(r, d) && AllStay(r, root, d)
    decreases d
  {
    match d
    case Str(text) => StringExact(r, root, text);
    case Arr(items) => ItemsExact(r, root, items);
    case Obj(fields) => FieldsExact(r, root, fields);
    case _ =>
  }

  lemma {:induction false} ItemsExact(r: Rules, root: string, items: seq<Json>)
    requires MarkerSafe(r)
    ensures VisitItems(r, root, items) == items
      <==> forall i :: 0 <= i < |items| ==> Clean(r, items[i]) && AllStay(r, root, items[i])
    decreases items
  {
    if items != [] {
      VisitExact(r, root, items[0]);
      ItemsExact(r, root, items[1..]);
      assert items == [items[0]] + items[1..];
      assert VisitItems(r, root, items)[1..] == VisitItems(r, root, items[1..]);
      assert forall k :: 0 < k < |items| ==> items[k] == items[1..][k - 1];
    }
  }

  lemma {:induction false} FieldsShrink(r: Rules, root: string, fields: seq<Field>)
    ensures |VisitFields(r, root, fields)| <= |fields|
    decreases fields
  {
    if fields != [] { FieldsShrink(r, root, fields[1..]); }
  }

  lemma {:induction false} FieldsExact(r: Rules, root: string, fields: seq<Field>)
    requires MarkerSafe(r)
    ensures VisitFields(r, root, fields) == fields
      <==> forall i :: 0 <= i < |fields| ==>
             Publishable(r, fields[i].key) && Clean(r, fields[i].value) && AllStay(r, root, fields[i].value)
    decreases fields
  {
    if fields != [] {
      var rest := VisitFields(r, root, fields[1..]);
      VisitExact(r, root, fields[0].value);
      FieldsExact(r, root, fields[1..]);
      FieldsShrink(r, root, fields[1..]);
      assert fields == [fields[0]] + fields[1..];
      assert forall k :: 0 < k < |fields| ==> fields[k] == fields[1..][k - 1];
      if Publishable(r, fields[0].key) {
        assert VisitFields(r, root, fields)[1..] == rest;
      }
    }
  }

  /** Sanitizing is the identity exactly on clean documents whose strings all stay, for every root. */
  lemma SanitizeFixpoint(r: Rules, d: Json, repoRoot: string)
    requires MarkerSafe(r)
    ensures Sanitize(r, d, repoRoot) == d <==> Clean(r, d) && AllStay(r, NormalizedRoot(repoRoot), d)
  {
    VisitExact(r, NormalizedRoot(repoRoot), d);
  }

  /** In particular on every clean document that does not mention the root. */
  lemma SanitizeUnchanged(r: Rules, d: Json, repoRoot: string)
    requires MarkerSafe(r) && Clean(r, d) && RootFree(NormalizedRoot(repoRoot), d)
    ensures Sanitize(r, d, repoRoot) == d
  {
    var root := NormalizedRoot(repoRoot);
    SanitizeFixpoint(r, d, repoRoot);
    AllStringsImply(text => Stays(r, root, text), text => !Mentions(root, text), d);
  }

  /** The two ways in which a root can leave a string alone that mentions it. */
  predicate Ordinary(r: Rules, root: string) {
    root != PLACEHOLDER && !(Mentions(root, REDACTED) && r.reason(Reroot(REDACTED, root)).Some?)
  }

  /** With neither, those are all the documents that are left alone. */
  lemma SanitizeFixpointOrdinary(r: Rules, d: Json, repoRoot: string)
    requires MarkerSafe(r) && Ordinary(r, NormalizedRoot(repoRoot))
    ensures Sanitize(r, d, repoRoot) == d <==> Clean(r, d) && RootFree(NormalizedRoot(repoRoot), d)
  {
    var root := NormalizedRoot(repoRoot);
    SanitizeFixpoint(r, d, repoRoot);
    AllStringsImply(text => Stays(r, root, text), text => !Mentions(root, text), d);
    AllStringsImply(text => !Mentions(root, text), text => Stays(r, root, text), d);
  }

  // ---------------------------------------------------------------- sanitizing twice

  /** A root that rerooting does not bring back, and a marker that is left alone. */
  predicate Settles(r: Rules, root: string) {
    || root == ""
    || root == PLACEHOLDER
    || (!Returns(root, PLACEHOLDER) && SanitizeString(r, REDACTED, root) == REDACTED)
  }

  /** It is enough that the root has no bracket and occurs in neither fixed text. */
  lemma SettlesWithoutBrackets(r: Rules, root: string)
    requires MarkerSafe(r) && '<' !in root && '>' !in root
    requires !Mentions(root, PLACEHOLDER) && !Mentions(root, REDACTED)
    ensures Settles(r, root)
  {
    StringExact(r, root, REDACTED);
    if root != "" { ReturnsInside(root, PLACEHOLDER); }
  }

  /** Every absolute root without brackets is such a root. */
  lemma SettlesAbsolute(r: Rules, root: string)
    requires MarkerSafe(r) && root != "" && root[0] == '/' && '<' !in root && '>' !in root
    ensures Settles(r, root)
  {
    assert REDACTED + "" == REDACTED && PLACEHOLDER + "" == PLACEHOLDER;
    if Occurs(root, REDACTED) { OccursPast(root, REDACTED, ""); }
    if Occurs(root, PLACEHOLDER) { OccursPast(root, PLACEHOLDER, ""); }
    SettlesWithoutBrackets(r, root);
  }

  lemma SanitizedStays(r: Rules, root: string, value: string)
    requires MarkerSafe(r) && Settles(r, root)
    ensures Stays(r, root, SanitizeString(r, value, root))
  {
    if root != "" && root != PLACEHOLDER {
      ReplacedGone(value, root, PLACEHOLDER);
      StringExact(r, root, REDACTED);
    }
  }

  lemma {:induction false} VisitStays(r: Rules, root: string, d: Json)
    requires MarkerSafe(r) && Settles(r, root)
    ensures AllStay(r, root, Visit(r, root, d))
    decreases d
  {
    match d
    case Str(text) => SanitizedStays(r, root, text);
    case Arr(items) => ItemsStay(r, root, items);
    case Obj(fields) => FieldsStay(r, root, fields);
    case _ =>
  }

  lemma {:induction false} ItemsStay(r: Rules, root: string, items: seq<Json>)
    requires MarkerSafe(r) && Settles(r, root)
    ensures AllStay(r, root, Arr(VisitItems(r, root, items)))
    decreases items
  {
    if items != [] {
      VisitStays(r, root, items[0]);
      ItemsStay(r, root, items[1..]);
    }
  }

  lemma {:induction false} FieldsStay(r: Rules, root: string, fields: seq<Field>)
    requires MarkerSafe(r) && Settles(r, root)
    ensures AllStay(r, root, Obj(VisitFields(r, root, fields)))
    decreases fields
  {
    if fields != [] {
      VisitStays(r, root, fields[0].value);
      FieldsStay(r, root, fields[1..]);
    }
  }

  /** Sanitizing this document twice is sanitizing it once. */
  ghost predicate Repeats(r: Rules, d: Json, repoRoot: string) {
    Sanitize(r, Sanitize(r, d, repoRoot), repoRoot) == Sanitize(r, d, repoRoot)
  }

  ghost predicate Idempotent(r: Rules, repoRoot: string) { forall d :: Repeats(r, d, repoRoot) }

  lemma SanitizeIdempotent(r: Rules, d: Json, repoRoot: string)
    requires MarkerSafe(r) && Settles(r, NormalizedRoot(repoRoot))
    ensures Repeats(r, d, repoRoot)
  {
    var root := NormalizedRoot(repoRoot);
    VisitClean(r, root, d);
    VisitStays(r, root, d);
    VisitExact(r, root, Visit(r, root, d));
  }

  /** The rules let the root come back, perhaps behind a text that has nothing to do with it. */
  ghost predicate Admits(r: Rules, root: string, before: string)
    requires root != "" && Returns(root, PLACEHOLDER)
  {
    && (forall c :: c in before ==> c !in root)
    && r.reason(before + Reroot(Comeback(root, PLACEHOLDER), root)).None?
  }

  /** Then it does. */
  lemma ComebackChanges(r: Rules, repoRoot: string, before: string)
    requires var root := NormalizedRoot(repoRoot);
      root != "" && root != PLACEHOLDER && MarkerSafe(r) && Returns(root, PLACEHOLDER) && Admits(r, root, before)
    ensures !Idempotent(r, repoRoot)
  {
    var root := NormalizedRoot(repoRoot);
    var back := Comeback(root, PLACEHOLDER);
    var once := before + Reroot(back, root);
    ReplaceBehind(before, back, root, PLACEHOLDER);
    OccursBehind(root, before, Reroot(back, root));
    ReplacementShows(back, root, PLACEHOLDER);
    assert '<' in once && '<' !in REDACTED;
    StringExact(r, root, once);
    assert SanitizeString(r, before + back, root) == once;
    assert !Repeats(r, Str(before + back), repoRoot);
  }

  /** A refused value becomes the marker, and the next pass rewrites that. */
  lemma MarkerChanges(r: Rules, repoRoot: string, refused: string)
    requires var root := NormalizedRoot(repoRoot);
      r.reason(Reroot(refused, root)).Some? && SanitizeString(r, REDACTED, root) != REDACTED
    ensures !Idempotent(r, repoRoot)
  {
    assert !Repeats(r, Str(refused), repoRoot);
  }

  /**
   For given rules, which refuse something and do not refuse the one text in
   question, sanitizing is idempotent exactly when the root settles.
   */
  lemma IdempotentExactly(r: Rules, repoRoot: string, before: string, refused: string)
    requires MarkerSafe(r)
    requires var root := NormalizedRoot(repoRoot);
      root != "" && Returns(root, PLACEHOLDER) ==> Admits(r, root, before)
    requires r.reason(Reroot(refused, NormalizedRoot(repoRoot))).Some?
    ensures Idempotent(r, repoRoot) <==> Settles(r, NormalizedRoot(repoRoot))
  {
    var root := NormalizedRoot(repoRoot);
    if Settles(r, root) {
      forall d ensures Repeats(r, d, repoRoot) { SanitizeIdempotent(r, d, repoRoot); }
    } else if Returns(root, PLACEHOLDER) {
      ComebackChanges(r, repoRoot, before);
    } else {
      MarkerChanges(r, repoRoot, refused);
    }
  }

  lemma RerootSelf(root: string)
    requires root != ""
    ensures Reroot(root, root) == PLACEHOLDER
  {
    assert root[..|root|] == root && root[|root|..] == "";
    assert ReplaceAll(root, root, PLACEHOLDER) == PLACEHOLDER + ReplaceAll("", root, PLACEHOLDER);
  }

  /** Without brackets in the root, the text in question is the placeholder. */
  lemma IdempotentWithoutBrackets(r: Rules, repoRoot: string, refused: string)
    requires MarkerSafe(r) && r.reason(PLACEHOLDER).None?
    requires var root := NormalizedRoot(repoRoot);
      '<' !in root && '>' !in root && r.reason(Reroot(refused, root)).Some?
    ensures var root := NormalizedRoot(repoRoot);
      Idempotent(r, repoRoot) <==>
        !Mentions(root, PLACEHOLDER) && (Mentions(root, REDACTED) ==> r.reason(Reroot(REDACTED, root)).Some?)
  {
    var root := NormalizedRoot(repoRoot);
    StringExact(r, root, REDACTED);
    if root != "" {
      ReturnsInside(root, PLACEHOLDER);
      RerootSelf(root);
      assert "" + PLACEHOLDER == PLACEHOLDER;
    }
    IdempotentExactly(r, repoRoot, "", refused);
  }

  /** A root that settles under all rules. */
  predicate Harmless(root: string) {
    || root == ""
    || root == PLACEHOLDER
    || (!Returns(root, PLACEHOLDER) && !Occurs(root, REDACTED))
  }

  /** Sanitizing is idempotent whatever the rules exactly when the root is harmless. */
  lemma AlwaysIdempotent(repoRoot: string)
    ensures (forall r :: MarkerSafe(r) ==> Idempotent(r, repoRoot)) <==> Harmless(NormalizedRoot(repoRoot))
  {
    var root := NormalizedRoot(repoRoot);
    if Harmless(root) {
      forall r | MarkerSafe(r) ensures Idempotent(r, repoRoot) {
        StringExact(r, root, REDACTED);
        forall d ensures Repeats(r, d, repoRoot) { SanitizeIdempotent(r, d, repoRoot); }
      }
    } else if Returns(root, PLACEHOLDER) {
      var lax := Rules(s => None, key => false);
      ComebackChanges(lax, repoRoot, "");
      assert MarkerSafe(lax);
    } else {
      HarmedByMarker(repoRoot);
    }
  }

  /** Rules that accept nothing but the marker and one more text. */
  ghost function Strict(other: string): (r: Rules)
    ensures MarkerSafe(r)
  {
    Rules(s => if s == REDACTED || s == other then None else Some("refused"), key => false)
  }

  lemma RerootKeepsText(value: string, root: string)
    ensures Reroot(value, root) == "" <==> value == ""
  {
  }

  lemma HarmedByMarker(repoRoot: string)
    requires var root := NormalizedRoot(repoRoot);
      root != "" && root != PLACEHOLDER && Occurs(root, REDACTED)
    ensures exists r :: MarkerSafe(r) && !Idempotent(r, repoRoot)
  {
    var root := NormalizedRoot(repoRoot);
    var again := Reroot(REDACTED, root);
    RerootExact(root, REDACTED);
    RerootKeepsText(REDACTED, root);
    RerootKeepsText("", root);
    MarkerChanges(Strict(again), repoRoot, "");
    assert MarkerSafe(Strict(again));
  }

  /** Brackets decide nothing: one root of them is harmless, and one without them is not. */
  lemma HarmlessExamples()
    ensures Harmless("<<") && !Harmless("repo")
  {
    BracketsHarmless("<<");
    assert PLACEHOLDER[1..] == "repo>";
    OccursAt("repo", PLACEHOLDER, 1);
  }

  lemma BracketsHarmless(w: string)
    requires w == ['<', '<']
    ensures Harmless(w)
  {
    assert PLACEHOLDER[1..] == "repo>";
    DoubledStaysAway('<', PLACEHOLDER);
    assert '<' !in REDACTED;
    NeverShows(w, REDACTED);
  }

  lemma ComebackTexts()
    ensures Reroot("x//<r", "/<r") == "x/<repo>" && Reroot("x/<repo>", "/<r")[1] == '<'
  {
    var root := "/<r";
    RerootSelf(root);
    assert "x//<r"[0] != root[0] && "//<r"[1] != root[1] && "x/<repo>"[0] != root[0];
    ReplaceNothingYet("x//<r", root, PLACEHOLDER);
    ReplaceNothingYet("//<r", root, PLACEHOLDER);
    assert "x//<r"[1..] == "//<r" && "//<r"[1..] == root;
    ReplaceNothingYet("x/<repo>", root, PLACEHOLDER);
    assert "x/<repo>"[1..] == "/<repo>" && "/<repo>"[..3] == root;
  }

  /** A root that ends like the placeholder begins can come back. */
  lemma BracketRootNotIdempotent(r: Rules)
    requires r.reason("x/<repo>").None?
    ensures !Repeats(r, Str("x//<r"), "/<r")
  {
    ComebackTexts();
    assert NormalizedRoot("/<r") == "/<r";
    RewrittenAgain(r, "x//<r", "x/<repo>", "/<r");
  }

  lemma RewrittenAgain(r: Rules, value: string, once: string, root: string)
    requires NormalizedRoot(root) == root && Reroot(value, root) == once && r.reason(once).None?
    requires Reroot(once, root) != once && once != REDACTED
    ensures !Repeats(r, Str(value), root)
  {
  }

  // ---------------------------------------------------------------- what survives

  function Visited(r: Rules, root: string, x: Option<Json>): (y: Option<Json>) {
    if x.None? then None else Some(Visit(r, root, x.value))
  }

  lemma {:induction false} VisitItemAt(r: Rules, root: string, items: seq<Json>, i: nat)
    requires i < |items|
    ensures VisitItems(r, root, items)[i] == Visit(r, root, items[i])
  {
    if i > 0 { VisitItemAt(r, root, items[1..], i - 1); }
  }

  lemma {:induction false} VisitFieldUnder(r: Rules, root: string, fields: seq<Field>, key: string)
    ensures Lookup(VisitFields(r, root, fields), key)
      == if Publishable(r, key) then Visited(r, root, Lookup(fields, key)) else None
    decreases fields
  {
    if fields != [] {
      VisitFieldUnder(r, root, fields[1..], key);
      var rest := VisitFields(r, root, fields[1..]);
      if Publishable(r, fields[0].key) {
        assert VisitFields(r, root, fields)[1..] == rest;
      }
    }
  }

  /**
   Nothing else is lost or moved: at every pointer the sanitized document holds
   the sanitized value, and it holds none exactly where a key on the way is
   unpublishable or the original holds none.
   */
  lemma {:induction false} SanitizeKeepsPlaces(r: Rules, root: string, d: Json, tokens: seq<string>)
    ensures Resolve(Visit(r, root, d), tokens) == Visited(r, root, Reach(r, d, tokens))
    decreases tokens
  {
    if tokens != [] {
      match d
      case Arr(items) =>
        var i := IndexOf(tokens[0], |items|);
        if i.Some? {
          VisitItemAt(r, root, items, i.value);
          SanitizeKeepsPlaces(r, root, items[i.value], tokens[1..]);
        }
      case Obj(fields) =>
        VisitFieldUnder(r, root, fields, tokens[0]);
        if Publishable(r, tokens[0]) && Lookup(fields, tokens[0]).Some? {
          SanitizeKeepsPlaces(r, root, Lookup(fields, tokens[0]).value, tokens[1..]);
        }
      case _ =>
    }
  }
}
