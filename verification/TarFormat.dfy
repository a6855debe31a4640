/**
 The canonical bundle format: a deterministic subset of the "ustar Interchange
 Format" of the pax utility in IEEE Std 1003.1.

 This module says what the bytes are: numeric and text header fields, the
 512-byte header with its checksum, and the archive as member blocks followed
 by two zero blocks. `TarCodec` holds the writer and the reader.
 */
module TarFormat {
  import opened Results
  import opened Bytes
  import opened Sequences
  import opened Text

  /** A string that UTF-8 encodes one byte per character. */
  type Ascii = s: string | forall i :: 0 <= i < |s| ==> s[i] as int < 128

  /** The bytes of a `Uint8Array`, whose length is a safe integer. */
  type Blob = s: seq<byte> | |s| < 0x20_0000_0000_0000

  datatype Member = Member(name: Ascii, data: Blob)

  function MemberName(m: Member): string { m.name }

  const NUL: byte := 0
  const SPACE: byte := 0x20
  const REGULAR_FILE: byte := 0x30

  // ---------------------------------------------------------------- names

  predicate SafeName(name: string) {
    && 0 < |name| <= 255
    && name[0] != '/'
    && '\\' !in name
    && '\0' !in name
    && forall p :: p in Parts(name) ==> p != "" && p != "." && p != ".."
  }

  ghost predicate PlainPart(p: string) { p != "" && p != "." && p != ".." }

  lemma PlainParts(name: string)
    ensures (forall p :: p in Parts(name) ==> PlainPart(p))
      <==> forall i: nat, j: nat :: IsPart(name, i, j) ==> PlainPart(name[i..j])
  {
    forall p ensures p in Parts(name) <==> PartFrom(name, 0, p) { PartsExact(name, p); }
    if forall p :: p in Parts(name) ==> PlainPart(p) {
      forall i: nat, j: nat | IsPart(name, i, j) ensures PlainPart(name[i..j]) {
        assert PartFrom(name, 0, name[i..j]);
      }
    }
  }

  /**
   A name is safe if it is neither empty nor too long, holds no backslash and no
   NUL, and nothing between its slashes is empty, a dot or two dots. In
   particular it neither begins nor ends with a slash.
   */
  lemma SafeNameExact(name: string)
    ensures SafeName(name) <==>
      && 0 < |name| <= 255
      && (forall c :: c in name ==> c != '\\' && c != '\0')
      && (forall i: nat, j: nat :: IsPart(name, i, j) ==> PlainPart(name[i..j]))
  {
    PlainParts(name);
    assert 0 < |name| && name[0] == '/' ==> IsPart(name, 0, 0) && name[0..0] == "";
    assert SafeName(name) ==> forall p :: p in Parts(name) ==> PlainPart(p);
  }

  /** Index of the last slash, or -1. */
  function LastSlash(name: string): (i: int)
    ensures -1 <= i < |name|
    ensures i >= 0 ==> name[i] == '/'
    ensures forall k :: i < k < |name| ==> name[k] != '/'
  {
    if name == "" then -1
    else if name[|name| - 1] == '/' then |name| - 1
    else LastSlash(name[..|name| - 1])
  }

  datatype NameFields = NameFields(base: Ascii, prefix: Ascii)

  /** How a name is laid out over the 100-byte name and the 155-byte prefix field. */
  function SplitName(name: Ascii): (r: Option<NameFields>)
    ensures r.Some? ==> |r.value.base| <= 100 && |r.value.prefix| <= 155
  {
    if |name| <= 100 then Some(NameFields(name, ""))
    else
      var split := LastSlash(name);
      if split <= 0 || split > 155 || |name| - split - 1 > 100 then None
      else Some(NameFields(name[split + 1..], name[..split]))
  }

  function JoinName(f: NameFields): (r: Ascii)
  {
    if f.prefix == "" then f.base else f.prefix + "/" + f.base
  }

  /** Joining the two fields restores the name that was split. */
  lemma SplitJoin(name: Ascii)
    requires SplitName(name).Some?
    ensures JoinName(SplitName(name).value) == name
  {
  }

  /** The slash at `k` is the last one, and leaves two parts that fit their fields. */
  ghost predicate SplitsAt(name: string, k: nat) {
    0 < k < |name| && name[k] == '/' && '/' !in name[k + 1..] && k <= 155 && |name| - k - 1 <= 100
  }

  /** Names of up to 100 characters are kept whole; longer ones are split at their last slash or refused. */
  lemma SplitExact(name: Ascii)
    ensures |name| <= 100 ==> SplitName(name) == Some(NameFields(name, ""))
    ensures |name| > 100 ==> (SplitName(name).Some? <==> exists k :: SplitsAt(name, k))
    ensures |name| > 100 && SplitName(name).Some? ==> '/' !in SplitName(name).value.base
  {
    var split := LastSlash(name);
    if split >= 0 { assert forall k :: split < k < |name| ==> name[split + 1..][k - split - 1] == name[k]; }
    forall k: nat | k < |name| && name[k] == '/' && '/' !in name[k + 1..] ensures k == split {
      assert forall i :: k < i < |name| ==> name[i] == name[k + 1..][i - k - 1];
    }
    if split > 0 { assert SplitsAt(name, split) <==> split <= 155 && |name| - split - 1 <= 100; }
  }

  // ---------------------------------------------------------------- octal fields

  ghost function Pow8(n: nat): (p: nat)
    ensures p > 0
  {
    if n == 0 then 1 else 8 * Pow8(n - 1)
  }

  /** Octal digits, at least `width` of them: `value.toString(8).padStart(width, "0")` for a positive width. */
  function OctalText(value: nat, width: nat): (t: seq<byte>)
    ensures |t| >= width
    ensures forall i :: 0 <= i < |t| ==> 48 <= t[i] < 56
    decreases value + width
  {
    if value == 0 && width == 0 then []
    else OctalText(value / 8, if width == 0 then 0 else width - 1) + [48 + value % 8]
  }

  predicate OctalDigits(t: seq<byte>) {
    forall i :: 0 <= i < |t| ==> 48 <= t[i] < 56
  }

  /** `Number.parseInt(text, 8)` on octal digits. */
  function ParseOctal(t: seq<byte>): (v: nat)
    requires OctalDigits(t)
  {
    if t == [] then 0 else 8 * ParseOctal(t[..|t| - 1]) + (t[|t| - 1] - 48)
  }

  /** Reading what was written gives the value back, whatever the width. */
  lemma {:induction false} ParseOctalText(value: nat, width: nat)
    ensures ParseOctal(OctalText(value, width)) == value
    decreases value + width
  {
    if value != 0 || width != 0 {
      var w := if width == 0 then 0 else width - 1;
      var t := OctalText(value, width);
      assert t[..|t| - 1] == OctalText(value / 8, w);
      ParseOctalText(value / 8, w);
    }
  }

  /** A value fits `width` digits exactly when it is below 8^width. */
  lemma {:induction false} OctalWidth(value: nat, width: nat)
    ensures |OctalText(value, width)| == width <==> value < Pow8(width)
    decreases value + width
  {
    if width == 0 {
    } else {
      OctalWidth(value / 8, width - 1);
      assert value / 8 < Pow8(width - 1) <==> value < 8 * Pow8(width - 1);
    }
  }

  lemma {:induction false} OctalLength(value: nat, width: nat, limit: nat)
    requires value < Pow8(limit) && width <= limit
    ensures |OctalText(value, width)| <= limit
    decreases value + width
  {
    if value != 0 || width != 0 {
      if limit > 0 {
        assert Pow8(limit) == 8 * Pow8(limit - 1);
        OctalLength(value / 8, if width == 0 then 0 else width - 1, limit - 1);
      }
    }
  }

  /** `n` digits denote a value below 8^n. */
  lemma {:induction false} ParseOctalBound(t: seq<byte>)
    requires OctalDigits(t)
    ensures ParseOctal(t) < Pow8(|t|)
  {
    if t != [] { ParseOctalBound(t[..|t| - 1]); }
  }

  lemma Pow8Values()
    ensures Pow8(6) == 0x4_0000
    ensures Pow8(11) == 0x2_0000_0000
    ensures Pow8(18) == 0x40_0000_0000_0000
  {
    assert Pow8(2) == 64;
    assert Pow8(4) == 0x1000;
    assert Pow8(6) == 0x4_0000;
    assert Pow8(8) == 0x100_0000;
    assert Pow8(10) == 0x4000_0000;
    assert Pow8(12) == 0x10_0000_0000;
    assert Pow8(14) == 0x400_0000_0000;
    assert Pow8(16) == 0x1_0000_0000_0000;
  }

  // ---------------------------------------------------------------- header

  function Encode(s: Ascii): (b: seq<byte>)
    ensures |b| == |s| && forall i :: 0 <= i < |s| ==> b[i] == s[i] as int < 128
  {
    seq(|s|, i requires 0 <= i < |s| => s[i] as int)
  }

  /** A text field: the bytes of the text, then NULs. */
  function TextField(s: Ascii, width: nat): (f: seq<byte>)
    requires |s| <= width
    ensures |f| == width
  {
    Encode(s) + Zeros(width - |s|)
  }

  /** What `writeOctal` leaves in a field: the leading digits that fit, then NUL. */
  function OctalField(value: nat, width: nat): (f: seq<byte>)
    requires width > 0
    ensures |f| == width
  {
    OctalText(value, width - 1)[..width - 1] + [NUL]
  }

  const OWNER_FIELDS: seq<byte> := OctalField(0x1A4, 8) + OctalField(0, 8) + OctalField(0, 8)
  const MAGIC_FIELDS: seq<byte> := [0x75, 0x73, 0x74, 0x61, 0x72, 0, 0x30, 0x30] + Zeros(80)

  /** Name, mode 0644, owner 0, size and time 0: the 148 bytes before the checksum. */
  function LeadingFields(base: Ascii, size: nat): (h: seq<byte>)
    requires |base| <= 100
    ensures |h| == 148
  {
    TextField(base, 100) + OWNER_FIELDS + OctalField(size, 12) + OctalField(0, 12)
  }

  /** Type flag, magic and prefix: the 356 bytes after the checksum. */
  function TrailingFields(prefix: Ascii): (h: seq<byte>)
    requires |prefix| <= 155
    ensures |h| == 356
  {
    ([REGULAR_FILE] + Zeros(100)) + MAGIC_FIELDS + TextField(prefix, 155) + Zeros(12)
  }

  /** Header bytes around a given checksum field. */
  function RawHeader(f: NameFields, size: nat, checksum: seq<byte>): (h: seq<byte>)
    requires |f.base| <= 100 && |f.prefix| <= 155 && |checksum| == 8
    ensures |h| == 512
  {
    LeadingFields(f.base, size) + checksum + TrailingFields(f.prefix)
  }

  const BLANK_CHECKSUM: seq<byte> := [SPACE, SPACE, SPACE, SPACE, SPACE, SPACE, SPACE, SPACE]

  function ChecksumField(sum: nat): (f: seq<byte>)
    requires sum <= 255 * 512
    ensures |f| == 8 && OctalDigits(f[..6]) && ParseOctal(f[..6]) == sum && f[6] == 0 && f[7] == 0x20
  {
    Pow8Values();
    OctalWidth(sum, 6);
    ParseOctalText(sum, 6);
    var digits := OctalText(sum, 6);
    assert (digits + [NUL, SPACE])[..6] == digits;
    digits + [NUL, SPACE]
  }

  /** The checksum is the byte sum of the header with a blank checksum field. */
  function Header(f: NameFields, size: nat): (h: seq<byte>)
    requires |f.base| <= 100 && |f.prefix| <= 155
    ensures |h| == 512
  {
    RawHeader(f, size, ChecksumField(ByteSum(RawHeader(f, size, BLANK_CHECKSUM))))
  }

  /** Where each field of a header sits. */
  lemma HeaderLayout(f: NameFields, size: nat, c: seq<byte>)
    requires |f.base| <= 100 && |f.prefix| <= 155 && |c| == 8
    ensures
      var h := RawHeader(f, size, c);
      && h[0..100] == TextField(f.base, 100)
      && h[100..124] == OWNER_FIELDS
      && h[124..136] == OctalField(size, 12)
      && h[136..148] == OctalField(0, 12)
      && h[148..156] == c
      && h[156] == REGULAR_FILE
      && h[157..257] == Zeros(100)
      && h[257..345] == MAGIC_FIELDS
      && h[345..500] == TextField(f.prefix, 155)
      && h[500..512] == Zeros(12)
  {
  }

  lemma {:induction false} OctalZeros(n: nat)
    ensures OctalText(0, n) == Repeat(n, 0x30)
  {
    if n > 0 { OctalZeros(n - 1); }
  }

  lemma ModeField()
    ensures OctalField(0x1A4, 8) == [0x30, 0x30, 0x30, 0x30, 0x36, 0x34, 0x34, 0]
  {
    OctalZeros(4);
    var six := OctalText(6, 5);
    assert six == [0x30, 0x30, 0x30, 0x30, 0x36];
    assert OctalText(52, 6) == six + [0x34];
    assert OctalText(0x1A4, 7) == six + [0x34] + [0x34];
  }

  /** The fields that are the same in every header, byte by byte: mode 0644, owner and time 0, "ustar" version 00. */
  lemma HeaderConstants(f: NameFields, size: nat)
    requires |f.base| <= 100 && |f.prefix| <= 155
    ensures var h := Header(f, size);
      && h[100..108] == [0x30, 0x30, 0x30, 0x30, 0x36, 0x34, 0x34, 0]
      && h[108..116] == h[116..124] == [0x30, 0x30, 0x30, 0x30, 0x30, 0x30, 0x30, 0]
      && h[136..148] == [0x30, 0x30, 0x30, 0x30, 0x30, 0x30, 0x30, 0x30, 0x30, 0x30, 0x30, 0]
      && h[156] == 0x30
      && h[257..265] == [0x75, 0x73, 0x74, 0x61, 0x72, 0, 0x30, 0x30]
      && forall i :: 157 <= i < 257 || 265 <= i < 345 || 500 <= i < 512 ==> h[i] == 0
  {
    var h := Header(f, size);
    HeaderIsRaw(f, size);
    HeaderLayout(f, size, h[148..156]);
    ModeField();
    OctalZeros(7);
    OctalZeros(11);
    Pieces(h, 100, OctalField(0x1A4, 8), OctalField(0, 8), OctalField(0, 8));
    Pieces(h, 257, [0x75, 0x73, 0x74, 0x61, 0x72, 0, 0x30, 0x30], Zeros(80), []);
    assert forall i :: 157 <= i < 257 ==> h[i] == h[157..257][i - 157];
    assert forall i :: 265 <= i < 345 ==> h[i] == h[265..345][i - 265];
    assert forall i :: 500 <= i < 512 ==> h[i] == h[500..512][i - 500];
  }

  lemma Pieces(h: seq<byte>, at: nat, a: seq<byte>, b: seq<byte>, c: seq<byte>)
    requires at + |a| + |b| + |c| <= |h| && h[at..at + |a| + |b| + |c|] == a + b + c
    ensures h[at..at + |a|] == a
    ensures h[at + |a|..at + |a| + |b|] == b
    ensures h[at + |a| + |b|..at + |a| + |b| + |c|] == c
  {
    var n := |a| + |b| + |c|;
    SliceOfSlice(h, at, at + n, 0, |a|);
    SliceOfSlice(h, at, at + n, |a|, |a| + |b|);
    SliceOfSlice(h, at, at + n, |a| + |b|, n);
  }

  lemma HeaderIsRaw(f: NameFields, size: nat)
    requires |f.base| <= 100 && |f.prefix| <= 155
    ensures Header(f, size) == RawHeader(f, size, Header(f, size)[148..156])
  {
    var c := ChecksumField(ByteSum(RawHeader(f, size, BLANK_CHECKSUM)));
    HeaderLayout(f, size, c);
  }

  /** The fields that vary: the names, NUL-filled, and the size in octal as long as it fits. */
  lemma HeaderNames(f: NameFields, size: nat)
    requires |f.base| <= 100 && |f.prefix| <= 155
    ensures var h := Header(f, size);
      && (forall i :: 0 <= i < 100 ==> h[i] == if i < |f.base| then f.base[i] as int else 0)
      && (forall i :: 0 <= i < 155 ==> h[345 + i] == if i < |f.prefix| then f.prefix[i] as int else 0)
      && h[135] == 0 && OctalDigits(h[124..135])
      && (size < 0x2_0000_0000 ==> ParseOctal(h[124..135]) == size)
  {
    var h := Header(f, size);
    HeaderIsRaw(f, size);
    HeaderLayout(f, size, h[148..156]);
    assert forall i :: 0 <= i < 100 ==> h[i] == h[0..100][i];
    assert forall i :: 0 <= i < 155 ==> h[345 + i] == h[345..500][i];
    var field := h[124..136];
    assert h[135] == field[11] && h[124..135] == field[..11] == OctalText(size, 11)[..11];
    Pow8Values();
    OctalWidth(size, 11);
    ParseOctalText(size, 11);
    if size < 0x2_0000_0000 { assert OctalText(size, 11)[..11] == OctalText(size, 11); }
  }

  /** The checksum is the sum of the header's bytes with eight spaces in its place: six digits, NUL, space. */
  lemma ChecksumExact(f: NameFields, size: nat)
    requires |f.base| <= 100 && |f.prefix| <= 155
    ensures var h := Header(f, size);
      && OctalDigits(h[148..154]) && h[154] == 0 && h[155] == 0x20
      && ParseOctal(h[148..154]) ==
           ByteSum(h[..148] + [0x20, 0x20, 0x20, 0x20, 0x20, 0x20, 0x20, 0x20] + h[156..])
  {
    var h := Header(f, size);
    var blank := RawHeader(f, size, BLANK_CHECKSUM);
    var sum := ByteSum(blank);
    var c := ChecksumField(sum);
    assert h == LeadingFields(f.base, size) + c + TrailingFields(f.prefix);
    assert h[..148] == LeadingFields(f.base, size) && h[148..156] == c && h[156..] == TrailingFields(f.prefix);
    assert h[148..154] == c[..6] && h[154] == c[6] && h[155] == c[7];
  }

  // ---------------------------------------------------------------- archive

  function Padding(size: nat): (n: nat)
    ensures n < 512 && (size + n) % 512 == 0
  {
    (512 - size % 512) % 512
  }

  predicate Encodable(m: Member) {
    SafeName(m.name) && SplitName(m.name).Some?
  }

  function MemberBlocks(m: Member): (b: seq<byte>)
    requires Encodable(m)
  {
    Header(SplitName(m.name).value, |m.data|) + m.data + Zeros(Padding(|m.data|))
  }

  predicate AllEncodable(ms: seq<Member>) {
    forall i :: 0 <= i < |ms| ==> Encodable(ms[i])
  }

  function Archive(ms: seq<Member>): (b: seq<byte>)
    requires AllEncodable(ms)
  {
    ConcatMap(ms, MemberBlocks) + Zeros(1024)
  }

  /** A member takes whole blocks: header, contents, and no more zeros than fill the last block. */
  lemma MemberLayout(m: Member)
    requires Encodable(m)
    ensures var b, n := MemberBlocks(m), |m.data|;
      && |b| % 512 == 0 && 512 + n <= |b| < 512 + n + 512
      && b[..512] == Header(SplitName(m.name).value, n)
      && b[512..512 + n] == m.data
      && forall i :: 512 + n <= i < |b| ==> b[i] == 0
  {
  }

  /** An archive takes whole blocks too, and ends with two of zeros. */
  lemma ArchiveEnds(ms: seq<Member>)
    requires AllEncodable(ms)
    ensures var a := Archive(ms);
      && |a| % 512 == 0 && |a| >= 1024
      && forall i :: |a| - 1024 <= i < |a| ==> a[i] == 0
  {
    MembersWhole(ms);
    Terminated(ConcatMap(ms, MemberBlocks));
  }

  lemma Terminated(body: seq<byte>)
    requires |body| % 512 == 0
    ensures var a := body + Zeros(1024);
      |a| % 512 == 0 && |a| >= 1024 && forall i :: |a| - 1024 <= i < |a| ==> a[i] == 0
  {
  }

  lemma MembersWhole(ms: seq<Member>)
    requires AllEncodable(ms)
    ensures |ConcatMap(ms, MemberBlocks)| % 512 == 0
  {
    forall i | 0 <= i < |ms| ensures MemberBlocks.requires(ms[i]) && |MemberBlocks(ms[i])| % 512 == 0 {
      MemberLayout(ms[i]);
    }
    WholeBlocks(ms, MemberBlocks);
  }

  lemma {:induction false} WholeBlocks<T>(xs: seq<T>, f: T --> seq<byte>)
    requires forall i :: 0 <= i < |xs| ==> f.requires(xs[i]) && |f(xs[i])| % 512 == 0
    ensures |ConcatMap(xs, f)| % 512 == 0
  {
    if xs != [] { WholeBlocks(xs[1..], f); }
  }
}
