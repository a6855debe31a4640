/**
 The bundle writer and the strict bundle reader.

 The writer and the reader are loops over byte buffers, proved against value
 level specifications. The theorems say that the reader is a left inverse of the
 writer, that it accepts nothing but the writer's own output, and that the one
 limit the writer does not check itself (a size that needs more than eleven
 octal digits) is exactly where the round trip ends.
 */
module TarCodec {
  import opened Results
  import opened Sorting
  import opened Text
  import opened Bytes
  import opened Sequences
  import opened TarFormat

  datatype WriteError = UnsafeMemberName(name: string) | MemberNameTooLong(name: string)

  datatype ReadError =
    | NotRegularFile
    | NameNotAscii
    | UnsafeName
    | InvalidSize
    | Truncated
    | NoEndMarker
    | Unwritable(cause: WriteError)
    | NotCanonical

  /** What eleven octal digits can say. */
  type Size = n: nat | n < 0x2_0000_0000

  datatype Entry = Entry(name: Ascii, size: Size)

  /** How a header block is read; the scan and its loop are stated for any. */
  type Reader = seq<byte> -> Result<Entry, ReadError>

  // ---------------------------------------------------------------- specification

  function Refusal(m: Member): (e: Option<WriteError>)
    ensures e.None? <==> Encodable(m)
  {
    if !SafeName(m.name) then Some(UnsafeMemberName(m.name))
    else if SplitName(m.name).None? then Some(MemberNameTooLong(m.name))
    else None
  }

  /** The first refused member, in list order. */
  function FirstRefusal(ms: seq<Member>): (e: Option<WriteError>)
    ensures e.None? <==> AllEncodable(ms)
  {
    if ms == [] then None
    else if Refusal(ms[0]).Some? then Refusal(ms[0])
    else
      assert forall i :: 0 < i < |ms| ==> ms[i] == ms[1..][i - 1];
      FirstRefusal(ms[1..])
  }

  function Written(ms: seq<Member>): (r: Result<seq<byte>, WriteError>) {
    var sorted := Sort(ms, MemberName);
    match FirstRefusal(sorted)
    case Some(e) => Err(e)
    case None => Ok(Archive(sorted))
  }

  /** A refusal names a member that cannot be written, and says why; whatever sorts before it can. */
  lemma {:induction false} FirstRefusalExact(ms: seq<Member>) returns (i: nat)
    requires FirstRefusal(ms).Some?
    ensures i < |ms| && AllEncodable(ms[..i])
    ensures var e, m := FirstRefusal(ms).value, ms[i];
      && (!SafeName(m.name) ==> e == UnsafeMemberName(m.name))
      && (SafeName(m.name) ==> |m.name| > 100 && e == MemberNameTooLong(m.name)
                               && forall k :: !SplitsAt(m.name, k))
  {
    if Refusal(ms[0]).Some? {
      i := 0;
      SplitExact(ms[0].name);
    } else {
      var k := FirstRefusalExact(ms[1..]);
      i := k + 1;
      assert forall j :: 0 < j < i ==> ms[..i][j] == ms[1..][..k][j - 1];
    }
  }

  /** A bundle is written exactly if every name is safe and either short or splits into two that fit. */
  lemma WrittenExactly(ms: seq<Member>)
    ensures Written(ms).Ok? <==>
      forall m :: m in ms ==> SafeName(m.name) && (|m.name| <= 100 || exists k :: SplitsAt(m.name, k))
    ensures Written(ms).Ok? ==> Written(ms).value == Archive(Sort(ms, MemberName))
  {
    var s := Sort(ms, MemberName);
    forall m ensures m in ms <==> m in s { assert m in multiset(ms) <==> m in multiset(s); }
    forall m: Member ensures Encodable(m) <==>
      SafeName(m.name) && (|m.name| <= 100 || exists k :: SplitsAt(m.name, k))
    {
      SplitExact(m.name);
    }
  }

  /** The bytes of a field before its first NUL. */
  function CString(b: seq<byte>): (t: seq<byte>) {
    if b == [] || b[0] == NUL then [] else [b[0]] + CString(b[1..])
  }

  function Decode(b: seq<byte>): (s: Option<Ascii>) {
    if forall i :: 0 <= i < |b| ==> b[i] < 128
    then Some(seq(|b|, i requires 0 <= i < |b| => b[i] as char))
    else None
  }

  function ReadHeader(h: seq<byte>): (r: Result<Entry, ReadError>)
    requires |h| == 512
    ensures r.Ok? ==> SafeName(r.value.name)
  {
    match (Decode(CString(h[0..100])), Decode(CString(h[345..500])))
    case (Some(base), Some(prefix)) =>
      var name := JoinName(NameFields(base, prefix));
      var sizeText := CString(h[124..136]);
      if h[156] != REGULAR_FILE then Err(NotRegularFile)
      else if !SafeName(name) then Err(UnsafeName)
      else if !(1 <= |sizeText| <= 11 && OctalDigits(sizeText)) then Err(InvalidSize)
      else
        SizeTextBound(sizeText);
        Ok(Entry(name, ParseOctal(sizeText)))
    case _ => Err(NameNotAscii)
  }

  /** The archive's own reader; the scan only ever hands it whole blocks. */
  lemma NotAsciiShows(h: seq<byte>, lo: nat, hi: nat)
    requires lo <= hi <= |h| && Decode(CString(h[lo..hi])).None?
    ensures exists i :: lo <= i < hi && h[i] > 127
  {
    var b := h[lo..hi];
    CStringPrefix(b);
    var i :| 0 <= i < |CString(b)| && CString(b)[i] >= 128;
    assert h[lo + i] == b[i] == CString(b)[i];
  }

  /** The size field is empty, or not closed in time, or holds something else than an octal digit. */
  ghost predicate BadSize(h: seq<byte>)
    requires |h| == 512
  {
    h[124] == 0 || h[135] != 0 || exists i :: 124 <= i < 135 && !(0x30 <= h[i] < 0x38)
  }

  lemma BadSizeShows(h: seq<byte>)
    requires |h| == 512
    requires var t := CString(h[124..136]); !(1 <= |t| <= 11 && OctalDigits(t))
    ensures BadSize(h)
  {
    var b := h[124..136];
    var t := CString(b);
    CStringPrefix(b);
    assert t == b[..|t|];
    if t == [] {
      assert b[0] == h[124];
    } else if |t| == 12 {
      assert t[11] == b[11] == h[135] && t[11] in t;
    } else {
      var i :| 0 <= i < |t| && !(48 <= t[i] < 56);
      assert t[i] == b[i] == h[124 + i];
    }
  }

  /** What a refused header block has in it. */
  lemma HeaderRefusal(h: seq<byte>)
    requires |h| == 512 && ReadHeader(h).Err?
    ensures match ReadHeader(h).error
      case NameNotAscii => exists i :: (0 <= i < 100 || 345 <= i < 500) && h[i] > 127
      case NotRegularFile => h[156] != 0x30
      case UnsafeName => h[156] == 0x30
      case InvalidSize => h[156] == 0x30 && BadSize(h)
      case _ => false
  {
    match ReadHeader(h).error
    case NameNotAscii =>
      if Decode(CString(h[0..100])).None? { NotAsciiShows(h, 0, 100); } else { NotAsciiShows(h, 345, 500); }
    case InvalidSize => BadSizeShows(h);
    case _ =>
  }

  lemma {:induction false} CStringPrefix(b: seq<byte>)
    ensures CString(b) <= b && NUL !in CString(b) && (|CString(b)| < |b| ==> b[|CString(b)|] == NUL)
  {
    if b != [] && b[0] != NUL {
      CStringPrefix(b[1..]);
      assert b == [b[0]] + b[1..];
    }
  }

  function HeaderReader(): Reader {
    h => if |h| == 512 then ReadHeader(h) else Err(Truncated)
  }

  predicate AllZero(b: seq<byte>) {
    forall i :: 0 <= i < |b| ==> b[i] == 0
  }

  /** What follows the padded contents of a member at the head of `rest`. */
  function After(rest: seq<byte>, size: nat): (r: seq<byte>)
    requires |rest| >= 512
    ensures |r| < |rest|
  {
    var next := 512 + size + Padding(size);
    if next <= |rest| then rest[next..] else []
  }

  function Contents(rest: seq<byte>, size: Size): (r: Blob)
    requires 512 + size <= |rest|
  {
    rest[512..512 + size]
  }

  /** The members of an archive tail, up to the first zero block. */
  function Scan(read: Reader, rest: seq<byte>): (r: Result<seq<Member>, ReadError>)
    decreases |rest|
  {
    if |rest| < 512 then Err(NoEndMarker)
    else if AllZero(rest[..512]) then Ok([])
    else
      match read(rest[..512])
      case Err(e) => Err(e)
      case Ok(entry) =>
        if 512 + entry.size > |rest| then Err(Truncated)
        else
          match Scan(read, After(rest, entry.size))
          case Err(e) => Err(e)
          case Ok(ms) => Ok([Member(entry.name, Contents(rest, entry.size))] + ms)
  }

  function Read(tar: seq<byte>): (r: Result<seq<Member>, ReadError>) {
    match Scan(HeaderReader(), tar)
    case Err(e) => Err(e)
    case Ok(ms) =>
      match Written(ms)
      case Err(e) => Err(Unwritable(e))
      case Ok(bytes) => if bytes == tar then Ok(ms) else Err(NotCanonical)
  }

  /** Every member size fits the eleven digits of the size field. */
  ghost predicate WithinLimits(ms: seq<Member>) {
    forall i :: 0 <= i < |ms| ==> |ms[i].data| < 0x2_0000_0000
  }

  // ---------------------------------------------------------------- reading one header

  lemma SizeTextBound(t: seq<byte>)
    requires |t| <= 11 && OctalDigits(t)
    ensures ParseOctal(t) < 0x2_0000_0000
  {
    ParseOctalBound(t);
    Pow8Monotone(|t|, 11);
    Pow8Values();
  }

  lemma {:induction false} Pow8Monotone(a: nat, b: nat)
    requires a <= b
    ensures Pow8(a) <= Pow8(b)
    decreases b
  {
    if a < b { Pow8Monotone(a, b - 1); }
  }

  lemma {:induction false} CStringStops(t: seq<byte>, pad: seq<byte>)
    requires NUL !in t && (pad == [] || pad[0] == NUL)
    ensures CString(t + pad) == t
  {
    if t != [] {
      assert (t + pad)[1..] == t[1..] + pad;
      CStringStops(t[1..], pad);
    }
  }

  lemma TextFieldReads(s: Ascii, width: nat)
    requires |s| <= width && '\0' !in s
    ensures Decode(CString(TextField(s, width))) == Some(s)
  {
    assert NUL !in Encode(s) by {
      forall i | 0 <= i < |s| ensures Encode(s)[i] != NUL { assert s[i] in s; }
    }
    CStringStops(Encode(s), Zeros(width - |s|));
    var d := Decode(Encode(s));
    assert d.value == s;
  }

  lemma SizeFieldReads(size: nat)
    requires size < 0x2_0000_0000
    ensures CString(OctalField(size, 12)) == OctalText(size, 11)
    ensures |OctalText(size, 11)| == 11
  {
    Pow8Values();
    OctalWidth(size, 11);
    var t := OctalText(size, 11);
    assert t[..11] == t;
    CStringStops(t, [NUL]);
  }

  lemma FieldsRead(h: seq<byte>, f: NameFields, size: nat)
    requires |h| == 512 && |f.base| <= 100 && |f.prefix| <= 155 && size < 0x2_0000_0000
    requires '\0' !in f.base && '\0' !in f.prefix && SafeName(JoinName(f))
    requires h[0..100] == TextField(f.base, 100) && h[345..500] == TextField(f.prefix, 155)
    requires h[124..136] == OctalField(size, 12) && h[156] == REGULAR_FILE
    ensures ReadHeader(h) == Ok(Entry(JoinName(f), size))
  {
    TextFieldReads(f.base, 100);
    TextFieldReads(f.prefix, 155);
    SizeFieldReads(size);
    ParseOctalText(size, 11);
  }

  /** A written header reads back as the name and the size it was written for. */
  lemma HeaderReads(m: Member)
    requires Encodable(m) && |m.data| < 0x2_0000_0000
    ensures ReadHeader(Header(SplitName(m.name).value, |m.data|)) == Ok(Entry(m.name, |m.data|))
    ensures !AllZero(Header(SplitName(m.name).value, |m.data|))
  {
    var f := SplitName(m.name).value;
    var c := ChecksumField(ByteSum(RawHeader(f, |m.data|, BLANK_CHECKSUM)));
    var h := RawHeader(f, |m.data|, c);
    HeaderLayout(f, |m.data|, c);
    SplitJoin(m.name);
    SplitKeepsCharacters(m.name);
    FieldsRead(h, f, |m.data|);
    assert h[156] != 0;
  }

  lemma SplitKeepsCharacters(name: Ascii)
    requires SplitName(name).Some? && '\0' !in name
    ensures '\0' !in SplitName(name).value.base && '\0' !in SplitName(name).value.prefix
  {
  }

  // ---------------------------------------------------------------- round trip

  lemma Reassociate(a: seq<byte>, b: seq<byte>, c: seq<byte>)
    ensures (a + b) + c == a + (b + c)
  {
  }

  lemma SliceParts(h: seq<byte>, d: seq<byte>, z: seq<byte>, rest: seq<byte>)
    ensures
      var a := h + d + z + rest;
      a[..|h|] == h && a[|h|..|h| + |d|] == d && a[|h| + |d| + |z|..] == rest
  {
  }

  lemma ArchiveStep(ms: seq<Member>)
    requires AllEncodable(ms) && ms != []
    ensures AllEncodable(ms[1..])
    ensures
      var n := |ms[0].data|;
      var a := Archive(ms);
      && |a| >= 512 + n + Padding(n)
      && a[..512] == Header(SplitName(ms[0].name).value, n)
      && a[512..512 + n] == ms[0].data
      && a[512 + n + Padding(n)..] == Archive(ms[1..])
  {
    var n := |ms[0].data|;
    var h := Header(SplitName(ms[0].name).value, n);
    SliceParts(h, ms[0].data, Zeros(Padding(n)), Archive(ms[1..]));
    Reassociate(MemberBlocks(ms[0]), ConcatMap(ms[1..], MemberBlocks), Zeros(1024));
  }

  /** The bytes `a` present the members `ms` one after the other, then a zero block. */
  ghost predicate Presents(read: Reader, a: seq<byte>, ms: seq<Member>)
    decreases |ms|
  {
    if ms == [] then |a| >= 512 && AllZero(a[..512])
    else
      var n := |ms[0].data|;
      && n < 0x2_0000_0000
      && |a| >= 512 + n
      && !AllZero(a[..512])
      && read(a[..512]) == Ok(Entry(ms[0].name, n))
      && Contents(a, n) == ms[0].data
      && Presents(read, After(a, n), ms[1..])
  }

  lemma {:induction false} ArchivePresents(ms: seq<Member>)
    requires AllEncodable(ms) && WithinLimits(ms)
    ensures Presents(HeaderReader(), Archive(ms), ms)
  {
    if ms == [] {
      assert Archive(ms) == Zeros(1024);
    } else {
      ArchiveStep(ms);
      HeaderReads(ms[0]);
      ArchivePresents(ms[1..]);
    }
  }

  ghost function Prepend(ms: seq<Member>, r: Result<seq<Member>, ReadError>): Result<seq<Member>, ReadError> {
    if r.Ok? then Ok(ms + r.value) else r
  }

  /** One round of the scan, seen from outside. */
  lemma ScanStep(read: Reader, rest: seq<byte>, name: Ascii, size: Size, m: Member)
    requires |rest| >= 512 + size && !AllZero(rest[..512])
    requires read(rest[..512]) == Ok(Entry(name, size)) && m == Member(name, Contents(rest, size))
    ensures Scan(read, rest) == Prepend([m], Scan(read, After(rest, size)))
  {
  }

  lemma {:induction false} PresentsScan(read: Reader, a: seq<byte>, ms: seq<Member>)
    requires Presents(read, a, ms)
    ensures Scan(read, a) == Ok(ms)
    decreases |ms|
  {
    if ms != [] {
      var n := |ms[0].data|;
      PresentsScan(read, After(a, n), ms[1..]);
      ScanStep(read, a, ms[0].name, n, ms[0]);
      assert ms == [ms[0]] + ms[1..];
    }
  }

  lemma ScanArchive(ms: seq<Member>)
    requires AllEncodable(ms) && WithinLimits(ms)
    ensures Scan(HeaderReader(), Archive(ms)) == Ok(ms)
  {
    ArchivePresents(ms);
    PresentsScan(HeaderReader(), Archive(ms), ms);
  }

  lemma {:induction false} ScanWithinLimits(read: Reader, rest: seq<byte>)
    requires Scan(read, rest).Ok?
    ensures WithinLimits(Scan(read, rest).value)
    decreases |rest|
  {
    if !AllZero(rest[..512]) {
      ScanWithinLimits(read, After(rest, read(rest[..512]).value.size));
    }
  }

  lemma SortKeepsLimits(ms: seq<Member>)
    ensures WithinLimits(Sort(ms, MemberName)) <==> WithinLimits(ms)
  {
    var s := Sort(ms, MemberName);
    forall i | 0 <= i < |ms| ensures ms[i] in s { InMultiset(ms, s, i); }
    forall i | 0 <= i < |s| ensures s[i] in ms { InMultiset(s, ms, i); }
  }

  lemma WrittenSorted(ms: seq<Member>)
    requires Written(ms).Ok?
    ensures AllEncodable(Sort(ms, MemberName))
    ensures Written(ms).value == Archive(Sort(ms, MemberName))
    ensures Written(Sort(ms, MemberName)) == Written(ms)
  {
    SortSorted(ms, MemberName);
    SortFixpoint(Sort(ms, MemberName), MemberName);
  }

  lemma ReadAccepts(tar: seq<byte>, ms: seq<Member>)
    requires Scan(HeaderReader(), tar) == Ok(ms) && Written(ms) == Ok(tar)
    ensures Read(tar) == Ok(ms)
  {
  }

  lemma SortedRoundTrip(ms: seq<Member>, tar: seq<byte>)
    requires AllEncodable(ms) && tar == Archive(ms) && Written(ms) == Ok(tar)
    ensures Read(tar) == Ok(ms) <==> WithinLimits(ms)
  {
    if WithinLimits(ms) {
      ScanArchive(ms);
      ReadAccepts(tar, ms);
    } else if Read(tar).Ok? {
      ScanWithinLimits(HeaderReader(), tar);
    }
  }

  /**
   Reading a written bundle yields its members sorted by name exactly when
   every size is below 8^11; a larger one is written without complaint but
   never read back.
   */
  lemma RoundTrip(ms: seq<Member>)
    requires Written(ms).Ok?
    ensures Read(Written(ms).value) == Ok(Sort(ms, MemberName)) <==> WithinLimits(ms)
  {
    SortKeepsLimits(ms);
    WrittenSorted(ms);
    SortedRoundTrip(Sort(ms, MemberName), Written(ms).value);
  }

  /** The reader accepts a byte string exactly when some bundle within the limits is written as it. */
  lemma Canonical(tar: seq<byte>)
    ensures Read(tar).Ok? <==> exists ms :: WithinLimits(ms) && Written(ms) == Ok(tar)
  {
    if Read(tar).Ok? {
      ScanWithinLimits(HeaderReader(), tar);
      assert Written(Read(tar).value) == Ok(tar);
    }
    if ms :| WithinLimits(ms) && Written(ms) == Ok(tar) {
      RoundTrip(ms);
    }
  }

  /** What the reader returns is sorted by name and writes back as the bytes it was read from. */
  lemma ReadIsSorted(tar: seq<byte>)
    requires Read(tar).Ok?
    ensures SortedBy(Read(tar).value, MemberName) && Written(Read(tar).value) == Ok(tar)
  {
    var ms := Read(tar).value;
    ScanWithinLimits(HeaderReader(), tar);
    RoundTrip(ms);
    SortSorted(ms, MemberName);
  }

  /** Two bundles within the limits with the same bytes hold the same members. */
  lemma WrittenInjective(a: seq<Member>, b: seq<Member>)
    requires WithinLimits(a) && WithinLimits(b)
    requires Written(a).Ok? && Written(a) == Written(b)
    ensures Sort(a, MemberName) == Sort(b, MemberName) && multiset(a) == multiset(b)
  {
    RoundTrip(a);
    RoundTrip(b);
  }

  lemma LetterEncodable(c: char, data: Blob)
    requires c in "ab"
    ensures Encodable(Member([c], data))
  {
    assert [c][1..] == "";
    assert [c] + "" == [c];
    assert Parts([c]) == [[c]];
  }

  /** The smallest size the round trip loses: one member of 8^11 bytes is written and not read back. */
  lemma OversizeIsNotReadBack()
    ensures
      var ms := [Member("a", Zeros(0x2_0000_0000))];
      Written(ms).Ok? && Read(Written(ms).value) != Ok(ms)
  {
    var m := Member("a", Zeros(0x2_0000_0000));
    LetterEncodable('a', m.data);
    assert Sort([m], MemberName) == [m];
    assert !WithinLimits([m]) by { assert |[m][0].data| == 0x2_0000_0000; }
    RoundTrip([m]);
  }

  lemma {:induction false} OctalPad(value: nat, width: nat)
    requires value >= Pow8(width)
    ensures OctalText(value, width) == OctalText(value, width + 1)
    decreases width
  {
    if width > 0 {
      assert Pow8(width) == 8 * Pow8(width - 1);
      OctalPad(value / 8, width - 1);
    }
  }

  /** Past the limit the size field holds the size without its last digit. */
  lemma OversizeField()
    ensures OctalField(0x2_0000_0000, 12) == OctalField(0x4000_0000, 12)
  {
    assert Pow8(10) == 0x4000_0000 by { Pow8Values(); assert Pow8(11) == 8 * Pow8(10); }
    OctalPad(0x4000_0000, 10);
    SizeFieldReads(0x4000_0000);
    assert OctalText(0x2_0000_0000, 11) == OctalText(0x4000_0000, 10) + [48];
    assert OctalText(0x2_0000_0000, 11)[..11] == OctalText(0x4000_0000, 11)[..11];
  }

  lemma OversizeHeader(f: NameFields)
    requires |f.base| <= 100 && |f.prefix| <= 155
    ensures Header(f, 0x2_0000_0000) == Header(f, 0x4000_0000)
  {
    OversizeField();
    assert LeadingFields(f.base, 0x2_0000_0000) == LeadingFields(f.base, 0x4000_0000);
    assert RawHeader(f, 0x2_0000_0000, BLANK_CHECKSUM) == RawHeader(f, 0x4000_0000, BLANK_CHECKSUM);
  }

  lemma ArchiveOfOne(m: Member)
    requires Encodable(m)
    ensures Archive([m]) == MemberBlocks(m) + Zeros(1024)
  {
    assert [m][1..] == [];
    assert ConcatMap([m], MemberBlocks) == MemberBlocks(m) + ConcatMap([], MemberBlocks);
  }

  lemma ArchiveOfTwo(a: Member, b: Member)
    requires Encodable(a) && Encodable(b)
    ensures Archive([a, b]) == MemberBlocks(a) + MemberBlocks(b) + Zeros(1024)
  {
    assert [a, b][1..] == [b] && [b][1..] == [];
    assert ConcatMap([b], MemberBlocks) == MemberBlocks(b) + ConcatMap([], MemberBlocks);
  }

  lemma PaddedWhole(n: nat, m: nat, h: seq<byte>, first: seq<byte>, rest: seq<byte>)
    requires n % 512 == 0 && m % 512 == 0
    ensures h + (first + rest) + Zeros(Padding(n)) == h + first + Zeros(Padding(m)) + rest
  {
    assert Zeros(Padding(n)) == [] && Zeros(Padding(m)) == [];
  }

  /** The blocks of a member of 8^11 bytes are those of its first 8^10 bytes and then the rest of it. */
  lemma OversizeBlocks(name: Ascii, first: Blob, rest: seq<byte>, big: Member)
    requires |first| == 0x4000_0000 && |first + rest| == 0x2_0000_0000 && big == Member(name, first + rest)
    requires Encodable(big)
    ensures MemberBlocks(big) == MemberBlocks(Member(name, first)) + rest
  {
    var h := Header(SplitName(name).value, 0x4000_0000);
    OversizeHeader(SplitName(name).value);
    PaddedWhole(0x2_0000_0000, 0x4000_0000, h, first, rest);
  }

  lemma WrittenInOrder(ms: seq<Member>)
    requires AllEncodable(ms) && SortedBy(ms, MemberName)
    ensures Written(ms) == Ok(Archive(ms))
  {
    SortFixpoint(ms, MemberName);
  }

  /** A member of 8^11 bytes, and two members it can be mistaken for. */
  ghost predicate Colliding(big: Member, small: Member, second: Member) {
    && Encodable(small) && Encodable(second) && !Below(second.name, small.name)
    && |small.data| == 0x4000_0000 && |second.data| == 7 * 0x4000_0000 - 512
    && big.name == small.name && big.data == small.data + MemberBlocks(second)
  }

  lemma CollidingArchives(big: Member, small: Member, second: Member)
    requires Colliding(big, small, second)
    ensures Encodable(big) && Archive([big]) == Archive([small, second])
  {
    assert |MemberBlocks(second)| == 7 * 0x4000_0000 by { assert Padding(7 * 0x4000_0000 - 512) == 0; }
    OversizeBlocks(big.name, small.data, MemberBlocks(second), big);
    ArchiveOfOne(big);
    ArchiveOfTwo(small, second);
  }

  /** There are such members. */
  lemma CollisionExists()
    ensures exists big, small, second :: Colliding(big, small, second)
  {
    var small := Member("a", Zeros(0x4000_0000));
    var second := Member("b", Zeros(7 * 0x4000_0000 - 512));
    LetterEncodable('a', small.data);
    LetterEncodable('b', second.data);
    assert |MemberBlocks(second)| == 7 * 0x4000_0000 by { assert Padding(7 * 0x4000_0000 - 512) == 0; }
    var big := Member("a", small.data + MemberBlocks(second));
    assert Colliding(big, small, second);
  }

  lemma CollidingLimits(big: Member, small: Member, second: Member)
    requires Colliding(big, small, second)
    ensures WithinLimits([small, second])
  {
  }

  /**
   Past the limits writing is not even injective: a member of 8^11 bytes that
   ends in the blocks of another is written as two members, and read back as
   those two.
   */
  lemma OversizeCollides(big: Member, small: Member, second: Member)
    requires Colliding(big, small, second)
    ensures Written([big]).Ok? && Written([big]) == Written([small, second])
    ensures Read(Written([big]).value) == Ok([small, second])
  {
    CollidingArchives(big, small, second);
    WrittenInOrder([big]);
    WrittenInOrder([small, second]);
    SortFixpoint([small, second], MemberName);
    CollidingLimits(big, small, second);
    RoundTrip([small, second]);
  }

  // ---------------------------------------------------------------- writer

  /** `s` with the bytes `b` put in at `offset`. */
  function Put(s: seq<byte>, offset: nat, b: seq<byte>): (r: seq<byte>)
    requires offset + |b| <= |s|
    ensures |r| == |s|
  {
    s[..offset] + b + s[offset + |b|..]
  }

  lemma PutNext(done: seq<byte>, n: nat, b: seq<byte>, width: nat)
    requires |b| <= width <= n
    ensures Put(done + Zeros(n), |done|, b) == done + (b + Zeros(width - |b|)) + Zeros(n - width)
  {
  }

  lemma PutDigits(done: seq<byte>, tail: seq<byte>, text: seq<byte>, width: nat)
    requires 0 < width && |text| == width - 1 && width <= |tail|
    ensures Put(Put(done + tail, |done|, text), |done| + width - 1, [NUL]) == done + (text + [NUL]) + tail[width..]
  {
  }

  /** Digits that do not fit spill past the field. */
  lemma PutSpill(done: seq<byte>, n: nat, text: seq<byte>, width: nat)
    requires 0 < width <= |text| <= n
    ensures Put(Put(done + Zeros(n), |done|, text), |done| + width - 1, [NUL])
         == done + (text[..width - 1] + [NUL]) + (text[width..] + Zeros(n - |text|))
  {
  }

  method WriteText(header: array<byte>, offset: nat, text: Ascii)
    requires offset + |text| <= header.Length
    modifies header
    ensures header[..] == Put(old(header[..]), offset, Encode(text))
  {
    var bytes := Encode(text);
    forall i | 0 <= i < |bytes| { header[offset + i] := bytes[i]; }
  }

  method WriteOctal(header: array<byte>, offset: nat, width: nat, value: nat)
    requires 0 < width && offset + width <= header.Length
    requires offset + |OctalText(value, width - 1)| <= header.Length
    modifies header
    ensures header[..] ==
      Put(Put(old(header[..]), offset, OctalText(value, width - 1)), offset + width - 1, [NUL])
  {
    var text := OctalText(value, width - 1);
    forall i | 0 <= i < |text| { header[offset + i] := text[i]; }
    assert header[..] == Put(old(header[..]), offset, text);
    header[offset + width - 1] := NUL;
  }

  /** The checksum loop. */
  method SumBytes(header: array<byte>) returns (sum: nat)
    ensures sum == ByteSum(header[..])
  {
    sum := 0;
    for i := 0 to header.Length
      invariant sum == Sum(header[..i])
    {
      assert header[..i + 1][..i] == header[..i];
      sum := sum + header[i];
    }
    assert header[..header.Length] == header[..];
  }

  /** An octal field that fits, written at the end of what is already there. */
  method WriteNext(header: array<byte>, offset: nat, width: nat, value: nat, ghost done: seq<byte>, ghost n: nat)
    requires |done| == offset && 0 < width <= n && header[..] == done + Zeros(n)
    requires |OctalText(value, width - 1)| == width - 1
    modifies header
    ensures header[..] == done + OctalField(value, width) + Zeros(n - width)
  {
    assert header.Length == |done + Zeros(n)|;
    WriteOctal(header, offset, width, value);
    ghost var text := OctalText(value, width - 1);
    assert text[..width - 1] == text;
    PutDigits(done, Zeros(n), text, width);
    assert Zeros(n)[width..] == Zeros(n - width);
  }

  method WriteOwnerFields(header: array<byte>, base: Ascii)
    requires header.Length == 512 && header[..] == Zeros(512) && |base| <= 100
    modifies header
    ensures header[..] == TextField(base, 100) + OWNER_FIELDS + Zeros(388)
  {
    OctalWidths();
    assert Zeros(512) == [] + Zeros(512);
    WriteText(header, 0, base);
    PutNext([], 512, Encode(base), 100);
    ghost var name := TextField(base, 100);
    assert [] + name == name;
    WriteNext(header, 100, 8, 0x1A4, name, 412);
    ghost var mode := name + OctalField(0x1A4, 8);
    WriteNext(header, 108, 8, 0, mode, 404);
    ghost var uid := mode + OctalField(0, 8);
    WriteNext(header, 116, 8, 0, uid, 396);
    Regroup(name, OctalField(0x1A4, 8), OctalField(0, 8), OctalField(0, 8));
  }

  lemma Regroup(a: seq<byte>, b: seq<byte>, c: seq<byte>, d: seq<byte>)
    ensures a + b + c + d == a + (b + c + d)
  {
  }

  lemma OctalWidths()
    ensures |OctalText(0x1A4, 7)| == 7 && |OctalText(0, 7)| == 7 && |OctalText(0, 11)| == 11
    ensures OctalText(0x1A4, 7)[..7] == OctalText(0x1A4, 7)
    ensures OctalText(0, 7)[..7] == OctalText(0, 7) && OctalText(0, 11)[..11] == OctalText(0, 11)
  {
    Pow8Values();
    Pow8Monotone(6, 7);
    Pow8Monotone(6, 11);
    OctalWidth(0x1A4, 7);
    OctalWidth(0, 7);
    OctalWidth(0, 11);
  }

  /** Writes the size, whose digits may spill into the time field behind it. */
  method WriteSize(header: array<byte>, size: nat, ghost done: seq<byte>) returns (ghost tail: seq<byte>)
    requires header.Length == 512 && |done| == 124 && header[..] == done + Zeros(388)
    requires size < 0x20_0000_0000_0000
    modifies header
    ensures header[..] == done + OctalField(size, 12) + tail
    ensures |tail| == 376 && tail[12..] == Zeros(364)
  {
    ghost var text := OctalText(size, 11);
    assert |text| <= 18 by { Pow8Values(); OctalLength(size, 11, 18); }
    WriteOctal(header, 124, 12, size);
    if |text| == 11 {
      assert text[..11] == text;
      PutDigits(done, Zeros(388), text, 12);
      tail := Zeros(388)[12..];
    } else {
      PutSpill(done, 388, text, 12);
      tail := text[12..] + Zeros(388 - |text|);
    }
  }

  method WriteSizeFields(header: array<byte>, ghost done: seq<byte>, size: nat)
    requires header.Length == 512 && |done| == 124 && header[..] == done + Zeros(388)
    requires size < 0x20_0000_0000_0000
    modifies header
    ensures header[..] == done + OctalField(size, 12) + OctalField(0, 12) + Zeros(364)
  {
    OctalWidths();
    ghost var tail := WriteSize(header, size, done);
    WriteOctal(header, 136, 12, 0);
    PutDigits(done + OctalField(size, 12), tail, OctalText(0, 11), 12);
  }

  /** A text field written at the end of what is already there. */
  method WriteNextText(
    header: array<byte>, offset: nat, text: Ascii, ghost width: nat, ghost done: seq<byte>, ghost n: nat)
    requires |done| == offset && |text| <= width <= n && header[..] == done + Zeros(n)
    modifies header
    ensures header[..] == done + TextField(text, width) + Zeros(n - width)
  {
    assert header.Length == |done + Zeros(n)|;
    WriteText(header, offset, text);
    PutNext(done, n, Encode(text), width);
  }

  lemma MagicText()
    ensures TextField("ustar", 6) + TextField("00", 82) == MAGIC_FIELDS
  {
  }

  method WriteTrailingFields(header: array<byte>, ghost done: seq<byte>, prefix: Ascii)
    requires header.Length == 512 && |done| == 148 && header[..] == done + Zeros(364)
    requires |prefix| <= 155
    modifies header
    ensures header[..] == done + BLANK_CHECKSUM + TrailingFields(prefix)
  {
    forall i | 148 <= i < 156 { header[i] := SPACE; }
    header[156] := REGULAR_FILE;
    ghost var head := done + BLANK_CHECKSUM;
    ghost var kind := [REGULAR_FILE] + Zeros(100);
    assert header[..] == head + kind + Zeros(255);
    ghost var magic, version := TextField("ustar", 6), TextField("00", 82);
    WriteNextText(header, 257, "ustar", 6, head + kind, 255);
    WriteNextText(header, 263, "00", 82, head + kind + magic, 249);
    WriteNextText(header, 345, prefix, 155, head + kind + magic + version, 167);
    MagicText();
    RegroupTrailer(head, kind, magic, version, TextField(prefix, 155), Zeros(12));
  }

  lemma RegroupTrailer(h: seq<byte>, k: seq<byte>, m: seq<byte>, v: seq<byte>, p: seq<byte>, z: seq<byte>)
    ensures h + k + m + v + p + z == h + (k + (m + v) + p + z)
  {
  }

  lemma PutBetween(a: seq<byte>, b: seq<byte>, z: seq<byte>, c: seq<byte>)
    requires |b| == |c|
    ensures Put(a + b + z, |a|, c) == a + c + z
  {
  }

  /** Fills a header buffer field by field, then patches the checksum in. */
  method BuildHeader(f: NameFields, size: nat) returns (h: seq<byte>)
    requires |f.base| <= 100 && |f.prefix| <= 155 && size < 0x20_0000_0000_0000
    ensures h == Header(f, size)
  {
    var header := new byte[512](_ => NUL);
    assert header[..] == Zeros(512);
    WriteOwnerFields(header, f.base);
    WriteSizeFields(header, TextField(f.base, 100) + OWNER_FIELDS, size);
    WriteTrailingFields(header, LeadingFields(f.base, size), f.prefix);
    var checksum := SumBytes(header);
    var text := ChecksumField(checksum);
    ghost var blank := header[..];
    forall i | 0 <= i < 8 { header[148 + i] := text[i]; }
    assert header[..] == Put(blank, 148, text);
    PutBetween(LeadingFields(f.base, size), BLANK_CHECKSUM, TrailingFields(f.prefix), text);
    h := header[..];
  }

  lemma {:induction false} FirstRefusalAt(ms: seq<Member>, i: nat)
    requires i < |ms| && AllEncodable(ms[..i]) && !Encodable(ms[i])
    ensures FirstRefusal(ms) == Refusal(ms[i])
  {
    if i > 0 {
      assert Encodable(ms[..i][0]);
      assert ms[1..][..i - 1] == ms[..i][1..];
      FirstRefusalAt(ms[1..], i - 1);
    }
  }

  /** Copies the blocks into one buffer, each at the running offset. */
  method Concatenate(blocks: seq<seq<byte>>) returns (tar: seq<byte>)
    ensures tar == Flatten(blocks)
  {
    var total := 0;
    for i := 0 to |blocks|
      invariant total == |Flatten(blocks[..i])|
    {
      FlattenNext(blocks, i);
      total := total + |blocks[i]|;
    }
    assert blocks[..|blocks|] == blocks;
    var buffer := new byte[total](_ => NUL);
    var offset := 0;
    for i := 0 to |blocks|
      invariant offset == |Flatten(blocks[..i])| <= total
      invariant buffer[..offset] == Flatten(blocks[..i])
    {
      FlattenNext(blocks, i);
      FlattenPrefix(blocks, i + 1);
      forall k | 0 <= k < |blocks[i]| { buffer[offset + k] := blocks[i][k]; }
      offset := offset + |blocks[i]|;
    }
    tar := buffer[..];
  }

  /** Header, contents and padding of one member. */
  method EncodeMember(m: Member) returns (blocks: seq<seq<byte>>)
    requires Encodable(m)
    ensures Flatten(blocks) == MemberBlocks(m)
  {
    var header := BuildHeader(SplitName(m.name).value, |m.data|);
    blocks := [header, m.data];
    assert blocks == [header] + [m.data] && [] + [header] == [header];
    FlattenAppend([], header);
    FlattenAppend([header], m.data);
    var padding := Padding(|m.data|);
    if padding > 0 {
      FlattenAppend(blocks, Zeros(padding));
      blocks := blocks + [Zeros(padding)];
    }
  }

  lemma EncodeStep<T>(xs: seq<T>, i: nat, f: T --> seq<byte>, blocks: seq<seq<byte>>, more: seq<seq<byte>>)
    requires i < |xs| && forall k :: 0 <= k <= i ==> f.requires(xs[k])
    requires Flatten(blocks) == ConcatMap(xs[..i], f) && Flatten(more) == f(xs[i])
    ensures Flatten(blocks + more) == ConcatMap(xs[..i + 1], f)
  {
    ConcatMapNext(xs, i, f);
    FlattenConcat(blocks, more);
  }

  /** The blocks of the first `i` members. */
  ghost predicate Encoded(sorted: seq<Member>, i: nat, blocks: seq<seq<byte>>) {
    i <= |sorted| && AllEncodable(sorted[..i]) && Flatten(blocks) == ConcatMap(sorted[..i], MemberBlocks)
  }

  lemma EncodedNext(sorted: seq<Member>, i: nat, blocks: seq<seq<byte>>, more: seq<seq<byte>>)
    requires Encoded(sorted, i, blocks) && i < |sorted| && Encodable(sorted[i])
    requires Flatten(more) == MemberBlocks(sorted[i])
    ensures Encoded(sorted, i + 1, blocks + more)
  {
    forall k | 0 <= k <= i ensures Encodable(sorted[k]) {
      if k < i { assert sorted[k] == sorted[..i][k]; }
    }
    EncodeStep(sorted, i, MemberBlocks, blocks, more);
  }

  lemma EncodedAll(sorted: seq<Member>, blocks: seq<seq<byte>>)
    requires Encoded(sorted, |sorted|, blocks)
    ensures AllEncodable(sorted) && Flatten(blocks) == ConcatMap(sorted, MemberBlocks)
  {
    assert sorted[..|sorted|] == sorted;
  }

  /** The writer's loop over the sorted members. */
  method EncodeMembers(sorted: seq<Member>) returns (r: Result<seq<seq<byte>>, WriteError>)
    ensures r.Err? ==> FirstRefusal(sorted) == Some(r.error)
    ensures r.Ok? ==> AllEncodable(sorted) && Flatten(r.value) == ConcatMap(sorted, MemberBlocks)
  {
    var blocks: seq<seq<byte>> := [];
    for i := 0 to |sorted|
      invariant Encoded(sorted, i, blocks)
    {
      var m := sorted[i];
      if Refusal(m).Some? {
        FirstRefusalAt(sorted, i);
        return Err(Refusal(m).value);
      }
      var memberBlocks := EncodeMember(m);
      EncodedNext(sorted, i, blocks, memberBlocks);
      blocks := blocks + memberBlocks;
    }
    EncodedAll(sorted, blocks);
    r := Ok(blocks);
  }

  /** `createTar`. */
  method CreateTar(members: seq<Member>) returns (r: Result<seq<byte>, WriteError>)
    ensures r == Written(members)
  {
    var blocks := EncodeMembers(Sort(members, MemberName));
    match blocks
    case Err(e) => return Err(e);
    case Ok(bs) =>
      FlattenAppend(bs, Zeros(1024));
      var tar := Concatenate(bs + [Zeros(1024)]);
      return Ok(tar);
  }

  // ---------------------------------------------------------------- reader

  method EqualBytes(a: seq<byte>, b: seq<byte>) returns (same: bool)
    ensures same <==> a == b
  {
    if |a| != |b| { return false; }
    for i := 0 to |a|
      invariant a[..i] == b[..i]
    {
      if a[i] != b[i] { return false; }
    }
    return true;
  }

  /** What is left of `tar` from `offset` on. */
  ghost function From(tar: seq<byte>, offset: nat): (rest: seq<byte>)
    ensures offset + 512 <= |tar| ==> |rest| >= 512 && rest[..512] == tar[offset..offset + 512]
    ensures offset + 512 > |tar| ==> |rest| < 512
  {
    if offset <= |tar| then tar[offset..] else []
  }

  lemma FromAfter(tar: seq<byte>, offset: nat, size: Size)
    requires offset + 512 + size <= |tar|
    ensures From(tar, offset + 512 + size + Padding(size)) == After(From(tar, offset), size)
    ensures tar[offset + 512..offset + 512 + size] == Contents(From(tar, offset), size)
  {
    var rest := tar[offset..];
    assert rest[512..512 + size] == tar[offset + 512..offset + 512 + size];
    var next := 512 + size + Padding(size);
    if next <= |rest| { assert rest[next..] == tar[offset + next..]; }
  }

  lemma PrependPrepend(ms: seq<Member>, m: Member, r: Result<seq<Member>, ReadError>)
    ensures Prepend(ms, Prepend([m], r)) == Prepend(ms + [m], r)
  {
    if r.Ok? { assert ms + ([m] + r.value) == ms + [m] + r.value; }
  }

  /** The scan so far plus the scan of the rest is the whole scan. */
  ghost predicate Reading(read: Reader, tar: seq<byte>, ms: seq<Member>, offset: nat) {
    Scan(read, tar) == Prepend(ms, Scan(read, From(tar, offset)))
  }

  lemma ReadingStep(read: Reader, tar: seq<byte>, ms: seq<Member>, offset: nat,
                    name: Ascii, size: Size, m: Member, next: nat)
    requires Reading(read, tar, ms, offset) && offset + 512 + size <= |tar|
    requires !AllZero(tar[offset..offset + 512])
    requires read(tar[offset..offset + 512]) == Ok(Entry(name, size))
    requires m.name == name && m.data == tar[offset + 512..offset + 512 + size]
    requires next == offset + 512 + size + Padding(size)
    ensures Reading(read, tar, ms + [m], next)
  {
    FromAfter(tar, offset, size);
    ScanStep(read, From(tar, offset), name, size, m);
    PrependPrepend(ms, m, Scan(read, From(tar, next)));
  }

  lemma ScanRefusesHeader(read: Reader, rest: seq<byte>)
    requires |rest| >= 512 && !AllZero(rest[..512])
    ensures var h := read(rest[..512]);
      && (h.Err? ==> Scan(read, rest) == Err(h.error))
      && (h.Ok? && 512 + h.value.size > |rest| ==> Scan(read, rest) == Err(Truncated))
  {
  }

  lemma ReadingEnds(read: Reader, tar: seq<byte>, ms: seq<Member>, offset: nat)
    requires Reading(read, tar, ms, offset)
    ensures offset + 512 > |tar| ==> Scan(read, tar) == Err(NoEndMarker)
    ensures offset + 512 <= |tar| && AllZero(tar[offset..offset + 512]) ==> Scan(read, tar) == Ok(ms)
  {
    assert ms + [] == ms;
  }

  lemma ReadingRefuses(read: Reader, tar: seq<byte>, ms: seq<Member>, offset: nat)
    requires Reading(read, tar, ms, offset) && offset + 512 <= |tar| && !AllZero(tar[offset..offset + 512])
    ensures var h := read(tar[offset..offset + 512]);
      && (h.Err? ==> Scan(read, tar) == Err(h.error))
      && (h.Ok? && offset + 512 + h.value.size > |tar| ==> Scan(read, tar) == Err(Truncated))
  {
    ScanRefusesHeader(read, From(tar, offset));
  }

  /** The reader's loop over the archive. */
  method ScanMembers(read: Reader, tar: seq<byte>) returns (r: Result<seq<Member>, ReadError>)
    ensures r == Scan(read, tar)
  {
    var members: seq<Member> := [];
    var offset := 0;
    ReadingStarts(read, tar);
    while offset + 512 <= |tar|
      invariant Reading(read, tar, members, offset)
      decreases |tar| - offset
    {
      var header := tar[offset..offset + 512];
      if AllZero(header) {
        ReadingEnds(read, tar, members, offset);
        return Ok(members);
      }
      ReadingRefuses(read, tar, members, offset);
      match read(header)
      case Err(e) =>
        return Err(e);
      case Ok(Entry(name, size)) =>
        if offset + 512 + size > |tar| { return Err(Truncated); }
        var m := Member(name, tar[offset + 512..offset + 512 + size]);
        var next := offset + 512 + size + Padding(size);
        ReadingStep(read, tar, members, offset, name, size, m, next);
        members := members + [m];
        offset := next;
    }
    ReadingEnds(read, tar, members, offset);
    r := Err(NoEndMarker);
  }

  lemma ReadingStarts(read: Reader, tar: seq<byte>)
    ensures Reading(read, tar, [], 0)
  {
    assert From(tar, 0) == tar;
    var s := Scan(read, tar);
    assert s.Ok? ==> [] + s.value == s.value;
  }

  /** `readTarGz` after inflation. */
  method ReadTar(tar: seq<byte>) returns (r: Result<seq<Member>, ReadError>)
    ensures r == Read(tar)
  {
    r := ScanMembers(HeaderReader(), tar);
    if r.Ok? {
      var written := CreateTar(r.value);
      match written
      case Err(e) => return Err(Unwritable(e));
      case Ok(bytes) =>
        var same := EqualBytes(tar, bytes);
        if !same { return Err(NotCanonical); }
    }
  }
}
