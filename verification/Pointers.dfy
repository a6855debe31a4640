/**
 JSON pointers: how the privacy checker writes the location of a finding, and
 how section 4 of RFC 6901 reads one back.
 */
module Pointers {
  import opened Results
  import opened JsonValues
  import opened Text

  /** `escapePointerToken`. */
  function Escape(token: string): (r: string) {
    ReplaceAll(ReplaceAll(token, "~", "~0"), "/", "~1")
  }

  /** Section 4 of RFC 6901: first `~1`, then `~0`. */
  function Unescape(token: string): (r: string) {
    ReplaceAll(ReplaceAll(token, "~1", "/"), "~0", "~")
  }

  // ---------------------------------------------------------------- escaping

  function EscapeChar(c: char): (r: string) {
    if c == '~' then "~0" else if c == '/' then "~1" else [c]
  }

  lemma SingleStep(c: char, s: string, f: char, to: string)
    ensures ReplaceAll([c] + s, [f], to) == (if c == f then to else [c]) + ReplaceAll(s, [f], to)
  {
    assert ([c] + s)[..1] == [c] && ([c] + s)[1..] == s;
  }

  lemma PairStep(c: char, s: string, f: char, g: char, to: string)
    requires c != f
    ensures ReplaceAll([c] + s, [f, g], to) == [c] + ReplaceAll(s, [f, g], to)
  {
    assert ([c] + s)[1..] == s;
  }

  lemma EscapeStep(c: char, s: string)
    ensures Escape([c] + s) == EscapeChar(c) + Escape(s)
  {
    SingleStep(c, s, '~', "~0");
    var rest := ReplaceAll(s, "~", "~0");
    if c == '~' {
      assert "~0" + rest == ['~'] + (['0'] + rest);
      SingleStep('~', ['0'] + rest, '/', "~1");
      SingleStep('0', rest, '/', "~1");
    } else {
      SingleStep(c, rest, '/', "~1");
    }
  }

  lemma UnescapeStep(c: char, s: string)
    ensures Unescape(EscapeChar(c) + s) == [c] + Unescape(s)
  {
    var rest := ReplaceAll(s, "~1", "/");
    if c == '~' {
      var t := "~0" + s;
      assert t[..2] == "~0" && t[1..] == ['0'] + s;
      PairStep('0', s, '~', '1', "/");
      assert ReplaceAll(t, "~1", "/") == "~0" + rest;
      assert ("~0" + rest)[..2] == "~0" && ("~0" + rest)[2..] == rest;
    } else if c == '/' {
      assert ("~1" + s)[..2] == "~1" && ("~1" + s)[2..] == s;
      PairStep('/', rest, '~', '0', "~");
    } else {
      PairStep(c, s, '~', '1', "/");
      PairStep(c, rest, '~', '0', "~");
    }
  }

  /** Reading undoes writing. */
  lemma {:induction false} UnescapeEscape(token: string)
    ensures Unescape(Escape(token)) == token
  {
    if token != "" {
      var c, s := token[0], token[1..];
      assert token == [c] + s;
      EscapeStep(c, s);
      UnescapeStep(c, Escape(s));
      UnescapeEscape(s);
    }
  }

  lemma EscapeInjective(a: string, b: string)
    requires Escape(a) == Escape(b)
    ensures a == b
  {
    UnescapeEscape(a);
    UnescapeEscape(b);
  }

  lemma {:induction false} EscapeHasNoSlash(token: string)
    ensures '/' !in Escape(token)
  {
    if token != "" {
      assert token == [token[0]] + token[1..];
      EscapeStep(token[0], token[1..]);
      EscapeHasNoSlash(token[1..]);
    }
  }

  lemma DecimalIsPlain(n: nat)
    ensures '/' !in Decimal(n) && Unescape(Decimal(n)) == Decimal(n)
  {
    DecimalDigits(n);
    var s := Decimal(n);
    assert s + "" == s;
    if Occurs("~1", s) { OccursPast("~1", s, ""); }
    ReplaceAbsent(s, "~1", "/");
    if Occurs("~0", s) { OccursPast("~0", s, ""); }
    ReplaceAbsent(s, "~0", "~");
  }

  // ---------------------------------------------------------------- reading a pointer

  /** The two characters that are written differently. */
  lemma EscapedCharacters()
    ensures Escape("~") == "~0" && Escape("/") == "~1" && Unescape("~01") == "~1"
  {
    EscapeOne('~');
    EscapeOne('/');
    assert "~01"[1..] == "01" && "01"[1..] == "1" && "~01"[2..] == "1" && "1"[1..] == "";
    assert ReplaceAll("01", "~1", "/") == "01";
    assert ReplaceAll("~01", "~1", "/") == "~01";
    assert ReplaceAll("~01", "~0", "~") == "~" + ReplaceAll("1", "~0", "~");
  }

  lemma EscapeOne(c: char)
    ensures Escape([c]) == EscapeChar(c)
  {
    var s := [c];
    assert s[1..] == "" && s[..1] == s;
    assert "~0"[1..] == "0" && "0"[1..] == "";
    assert ReplaceAll("", "~", "~0") == "" && ReplaceAll("", "/", "~1") == "";
    assert "0"[0] != '/' && "0"[..1][0] == '0' && "~0"[..1][0] == '~';
    assert ReplaceAll("0", "/", "~1") == "0";
    assert ReplaceAll("~0", "/", "~1") == "~0";
  }

  function UnescapeAll(parts: seq<string>): (r: seq<string>) {
    if parts == [] then [] else [Unescape(parts[0])] + UnescapeAll(parts[1..])
  }

  predicate IsPointer(p: string) { p == "" || p[0] == '/' }

  /** The reference tokens of a pointer. */
  function Tokens(p: string): (r: seq<string>)
    requires IsPointer(p)
  {
    if p == "" then [] else UnescapeAll(Parts(p[1..]))
  }

  lemma {:induction false} OnePart(s: string)
    requires '/' !in s
    ensures Parts(s) == [s]
  {
    if s != "" {
      OnePart(s[1..]);
      assert s == [s[0]] + s[1..];
    }
  }

  lemma {:induction false} PartsAppend(a: string, b: string)
    ensures Parts(a + "/" + b) == Parts(a) + Parts(b)
  {
    var whole := a + "/" + b;
    if a == "" {
      assert whole[1..] == b;
    } else {
      assert whole[0] == a[0] && whole[1..] == a[1..] + "/" + b;
      PartsAppend(a[1..], b);
    }
  }

  lemma {:induction false} UnescapeAllAppend(a: seq<string>, t: string)
    ensures UnescapeAll(a + [t]) == UnescapeAll(a) + [Unescape(t)]
  {
    if a != [] {
      assert (a + [t])[1..] == a[1..] + [t];
      UnescapeAllAppend(a[1..], t);
    }
  }

  /** Writing a child's pointer adds exactly its token. */
  lemma TokensOfChild(p: string, written: string)
    requires IsPointer(p) && '/' !in written
    ensures IsPointer(p + "/" + written) && Tokens(p + "/" + written) == Tokens(p) + [Unescape(written)]
  {
    var child := p + "/" + written;
    OnePart(written);
    if p == "" {
      assert child[1..] == written;
      UnescapeAllAppend([], written);
      assert [] + [written] == [written];
    } else {
      assert child[1..] == p[1..] + "/" + written;
      PartsAppend(p[1..], written);
      UnescapeAllAppend(Parts(p[1..]), written);
    }
  }

  // ---------------------------------------------------------------- pointers written with escaping

  /** Tokens joined by slashes, each escaped. */
  function Escaped(path: seq<string>): (p: string)
    ensures IsPointer(p) && (p == "" <==> path == [])
  {
    if path == [] then "" else Escaped(path[..|path| - 1]) + "/" + Escape(path[|path| - 1])
  }

  lemma EscapedNext(path: seq<string>, token: string)
    ensures Escaped(path + [token]) == Escaped(path) + "/" + Escape(token)
  {
    assert (path + [token])[..|path|] == path;
  }

  lemma EscapedIndex(path: seq<string>, i: nat)
    ensures Escaped(path + [Decimal(i)]) == Escaped(path) + "/" + Decimal(i)
  {
    EscapedNext(path, Decimal(i));
    var s := Decimal(i);
    DecimalDigits(i);
    assert s + "" == s;
    if Occurs("~", s) { OccursPast("~", s, ""); }
    ReplaceAbsent(s, "~", "~0");
    if Occurs("/", s) { OccursPast("/", s, ""); }
    ReplaceAbsent(s, "/", "~1");
  }

  /** Written with escaping, every path reads back. */
  lemma {:induction false} EscapedReads(path: seq<string>)
    ensures Tokens(Escaped(path)) == path
  {
    if path != [] {
      var before, last := path[..|path| - 1], path[|path| - 1];
      EscapedReads(before);
      EscapeHasNoSlash(last);
      TokensOfChild(Escaped(before), Escape(last));
      UnescapeEscape(last);
    }
  }

  // ---------------------------------------------------------------- pointers written without escaping

  /** Tokens joined by slashes as they are, none for the whole document. */
  function Joined(path: seq<string>): (p: string)
    ensures IsPointer(p) && (p == "" <==> path == [])
  {
    if path == [] then "" else Joined(path[..|path| - 1]) + "/" + path[|path| - 1]
  }

  lemma JoinedNext(path: seq<string>, token: string)
    ensures Joined(path + [token]) == Joined(path) + "/" + token
  {
    assert (path + [token])[..|path|] == path;
  }

  /** A token that reads back as itself. */
  predicate PlainToken(t: string) { '/' !in t && Unescape(t) == t }

  function Slashes(s: string): (n: nat) {
    if s == "" then 0 else Slashes(s[..|s| - 1]) + if s[|s| - 1] == '/' then 1 else 0
  }

  lemma {:induction false} SlashesConcat(a: string, b: string)
    ensures Slashes(a + b) == Slashes(a) + Slashes(b)
  {
    if b == "" {
      assert a + b == a;
    } else {
      assert (a + b)[..|a + b| - 1] == a + b[..|b| - 1];
      SlashesConcat(a, b[..|b| - 1]);
    }
  }

  lemma {:induction false} SlashesInside(s: string)
    ensures Slashes(s) == 0 <==> '/' !in s
  {
    if s != "" {
      SlashesInside(s[..|s| - 1]);
      assert s == s[..|s| - 1] + [s[|s| - 1]];
    }
  }

  lemma {:induction false} PartsCount(s: string)
    ensures |Parts(s)| == 1 + Slashes(s)
  {
    if s != "" {
      PartsCount(s[1..]);
      assert s == [s[0]] + s[1..];
      SlashesConcat([s[0]], s[1..]);
      assert [s[0]][..0] == "";
    }
  }

  lemma {:induction false} UnescapeAllAt(parts: seq<string>)
    ensures |UnescapeAll(parts)| == |parts|
    ensures forall i :: 0 <= i < |parts| ==> UnescapeAll(parts)[i] == Unescape(parts[i])
  {
    if parts != [] { UnescapeAllAt(parts[1..]); }
  }

  /** A pointer has as many tokens as slashes. */
  lemma TokensCount(p: string)
    requires IsPointer(p)
    ensures |Tokens(p)| == Slashes(p)
  {
    if p != "" {
      UnescapeAllAt(Parts(p[1..]));
      PartsCount(p[1..]);
      assert p == "/" + p[1..];
      SlashesConcat("/", p[1..]);
      assert "/"[..0] == "";
    }
  }

  lemma {:induction false} JoinedSlashes(path: seq<string>)
    ensures Slashes(Joined(path)) >= |path|
    ensures Slashes(Joined(path)) == |path| <==> forall i :: 0 <= i < |path| ==> '/' !in path[i]
  {
    if path != [] {
      var before, last := path[..|path| - 1], path[|path| - 1];
      JoinedSlashes(before);
      SlashesConcat(Joined(before) + "/", last);
      SlashesConcat(Joined(before), "/");
      assert Slashes("/") == 1 by { assert "/"[..0] == ""; }
      SlashesInside(last);
    }
  }

  lemma {:induction false} JoinedTokens(path: seq<string>)
    requires forall i :: 0 <= i < |path| ==> '/' !in path[i]
    ensures |Tokens(Joined(path))| == |path|
    ensures forall i :: 0 <= i < |path| ==> Tokens(Joined(path))[i] == Unescape(path[i])
  {
    if path != [] {
      var before, last := path[..|path| - 1], path[|path| - 1];
      JoinedTokens(before);
      TokensOfChild(Joined(before), last);
    }
  }

  /** Written without escaping, a path reads back exactly when each of its tokens does. */
  lemma JoinedReads(path: seq<string>)
    ensures Tokens(Joined(path)) == path <==> forall i :: 0 <= i < |path| ==> PlainToken(path[i])
  {
    TokensCount(Joined(path));
    JoinedSlashes(path);
    if forall i :: 0 <= i < |path| ==> '/' !in path[i] { JoinedTokens(path); }
  }

  /** The text that stands for the whole document in reports; it reads as one empty token. */
  lemma SlashIsNotTheDocument()
    ensures Tokens("/") == [""]
  {
    assert "/"[1..] == "";
  }

  // ---------------------------------------------------------------- evaluating a pointer

  function IndexOf(token: string, n: nat): (r: Option<nat>)
    ensures r.Some? ==> r.value < n
  {
    if n == 0 then None
    else if Decimal(n - 1) == token then Some(n - 1)
    else IndexOf(token, n - 1)
  }

  lemma {:induction false} IndexOfDecimal(i: nat, n: nat)
    requires i < n
    ensures IndexOf(Decimal(i), n) == Some(i)
  {
    if Decimal(n - 1) == Decimal(i) { DecimalInjective(n - 1, i); }
    else { IndexOfDecimal(i, n - 1); }
  }

  /** One reference token applied to a value. */
  function Child(d: Json, token: string): (r: Option<Json>) {
    match d
    case Arr(items) =>
      var i := IndexOf(token, |items|);
      if i.None? then None else Some(items[i.value])
    case Obj(fields) => Lookup(fields, token)
    case _ => None
  }

  function Resolve(d: Json, tokens: seq<string>): (r: Option<Json>) {
    if tokens == [] then Some(d)
    else
      var child := Child(d, tokens[0]);
      if child.None? then None else Resolve(child.value, tokens[1..])
  }

  /** `d` stands at `path` in the document. */
  ghost predicate Stands(document: Json, path: seq<string>, d: Json) {
    WellFormed(d) && Resolve(document, path) == Some(d)
  }

  lemma {:induction false} ResolveLast(d: Json, tokens: seq<string>, t: string)
    requires Resolve(d, tokens).Some?
    ensures Resolve(d, tokens + [t]) == Child(Resolve(d, tokens).value, t)
  {
    if tokens != [] {
      assert (tokens + [t])[1..] == tokens[1..] + [t];
      ResolveLast(Child(d, tokens[0]).value, tokens[1..], t);
    } else {
      assert (tokens + [t])[1..] == [];
    }
  }

  /** What a pointer denotes in a document. */
  function At(d: Json, p: string): (r: Option<Json>) {
    if IsPointer(p) then Resolve(d, Tokens(p)) else None
  }

  lemma ItemAt(d: Json, p: string, i: nat)
    requires IsPointer(p) && At(d, p).Some? && At(d, p).value.Arr? && i < |At(d, p).value.items|
    ensures IsPointer(p + "/" + Decimal(i))
    ensures At(d, p + "/" + Decimal(i)) == Some(At(d, p).value.items[i])
  {
    DecimalIsPlain(i);
    TokensOfChild(p, Decimal(i));
    ResolveLast(d, Tokens(p), Decimal(i));
    IndexOfDecimal(i, |At(d, p).value.items|);
  }

  lemma FieldAt(d: Json, p: string, i: nat)
    requires IsPointer(p) && At(d, p).Some? && At(d, p).value.Obj?
    requires i < |At(d, p).value.fields| && UniqueKeys(At(d, p).value.fields)
    ensures var field := At(d, p).value.fields[i];
      && IsPointer(p + "/" + Escape(field.key))
      && At(d, p + "/" + Escape(field.key)) == Some(field.value)
  {
    var field := At(d, p).value.fields[i];
    EscapeHasNoSlash(field.key);
    TokensOfChild(p, Escape(field.key));
    UnescapeEscape(field.key);
    ResolveLast(d, Tokens(p), field.key);
    LookupAt(At(d, p).value.fields, i);
  }
}
