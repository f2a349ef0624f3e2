/** The zero-width watermark codec, the whitespace fingerprint and their removal. */
module Watermark {
  import opened Text
  import opened Encoding
  import opened Modular

  const BIT0 := '\U{200b}'
  const BIT1 := '\U{200c}'
  const JOINER := '\U{200d}'
  const START := '\U{feff}'
  const END := '\U{2060}'

  predicate IsZeroWidth(c: char) {
    c == BIT0 || c == BIT1 || c == JOINER || c == START || c == END
  }

  /** Free of the five zero-width characters. */
  ghost predicate Plain(s: string) {
    forall c :: c in s ==> !IsZeroWidth(c)
  }

  ghost predicate Ascii(s: string) {
    forall c :: c in s ==> (c as int) < 128
  }

  // ------------------------------------------------------- Bits

  /** `str.encode('utf-8')` of one character. */
  function Utf8(c: char): (bytes: Bytes)
    ensures (c as int) < 128 ==> bytes == [c as int]
    ensures (c as int) >= 128 ==> |bytes| >= 2
  {
    var n := c as int;
    if n < 0x80 then [n]
    else if n < 0x800 then [0xc0 + n / 64, 0x80 + n % 64]
    else if n < 0x10000 then [0xe0 + n / 4096, 0x80 + n / 64 % 64, 0x80 + n % 64]
    else [0xf0 + n / 262144, 0x80 + n / 4096 % 64, 0x80 + n / 64 % 64, 0x80 + n % 64]
  }

  /** The number that six-bit groups spell, after what the first byte holds. */
  function Spelled(high: int, rest: Bytes): int
    decreases |rest|
  {
    if rest == [] then high else Spelled(high * 64 + rest[0] % 64, rest[1..])
  }

  /** What the first byte holds beside the mark that tells how many follow. */
  function Head(b: byte): int {
    if b < 0x80 then b else if b < 0xe0 then b % 32 else if b < 0xf0 then b % 16 else b % 8
  }

  function Followers(b: byte): nat {
    if b < 0x80 then 0 else if b < 0xe0 then 1 else if b < 0xf0 then 2 else 3
  }

  /** The bytes are those of one character, as many as the first one tells. */
  ghost predicate Spells(bytes: Bytes, n: int) {
    && bytes != [] && |bytes| == 1 + Followers(bytes[0]) && Spelled(Head(bytes[0]), bytes[1..]) == n
    && forall i :: 1 <= i < |bytes| ==> 0x80 <= bytes[i] < 0xc0
  }

  /** One more group of six bits. */
  lemma SpelledStep(high: int, group: int, rest: Bytes)
    requires 0 <= group < 64
    ensures Spelled(high, [0x80 + group] + rest) == Spelled(high * 64 + group, rest)
  {
  }

  lemma TwoBytes(h: int, l: int)
    requires 0 <= h < 32 && 0 <= l < 64
    ensures Spells([0xc0 + h] + ([0x80 + l] + []), h * 64 + l)
  {
    assert Head(0xc0 + h) == h;
    SpelledStep(h, l, []);
  }

  lemma ThreeBytes(h: int, m: int, l: int)
    requires 0 <= h < 16 && 0 <= m < 64 && 0 <= l < 64
    ensures Spells([0xe0 + h] + ([0x80 + m] + ([0x80 + l] + [])), (h * 64 + m) * 64 + l)
  {
    assert Head(0xe0 + h) == h;
    SpelledStep(h, m, [0x80 + l] + []);
    SpelledStep(h * 64 + m, l, []);
  }

  lemma FourBytes(h: int, k: int, m: int, l: int)
    requires 0 <= h < 8 && 0 <= k < 64 && 0 <= m < 64 && 0 <= l < 64
    ensures Spells([0xf0 + h] + ([0x80 + k] + ([0x80 + m] + ([0x80 + l] + []))), ((h * 64 + k) * 64 + m) * 64 + l)
  {
    assert Head(0xf0 + h) == h;
    SpelledStep(h, k, [0x80 + m] + ([0x80 + l] + []));
    SpelledStep(h * 64 + k, m, [0x80 + l] + []);
    SpelledStep((h * 64 + k) * 64 + m, l, []);
  }

  /** The encoded character can be read back. */
  lemma Utf8Spells(c: char)
    ensures Spells(Utf8(c), c as int)
  {
    var n := c as int;
    assert n / 4096 == n / 64 / 64 && n / 262144 == n / 64 / 64 / 64;
    if n >= 0x10000 {
      FourBytes(n / 262144, n / 4096 % 64, n / 64 % 64, n % 64);
      assert Utf8(c) == [0xf0 + n / 262144]
                        + ([0x80 + n / 4096 % 64] + ([0x80 + n / 64 % 64] + ([0x80 + n % 64] + [])));
    } else if n >= 0x800 {
      ThreeBytes(n / 4096, n / 64 % 64, n % 64);
      assert Utf8(c) == [0xe0 + n / 4096] + ([0x80 + n / 64 % 64] + ([0x80 + n % 64] + []));
    } else if n >= 0x80 {
      TwoBytes(n / 64, n % 64);
      assert Utf8(c) == [0xc0 + n / 64] + ([0x80 + n % 64] + []);
    }
  }

  function Utf8All(s: string): (bytes: Bytes) {
    if s == "" then [] else Utf8(s[0]) + Utf8All(s[1..])
  }

  /** The k lowest binary digits of n, highest first. */
  function Bits(n: nat, k: nat): (bits: string)
    ensures |bits| == k && Binary(bits)
  {
    if k == 0 then "" else Bits(n / 2, k - 1) + [if n % 2 == 0 then '0' else '1']
  }

  predicate Binary(bits: string) {
    forall i :: 0 <= i < |bits| ==> bits[i] == '0' || bits[i] == '1'
  }

  /** `int(bits, 2)` */
  function Value(bits: string): (n: nat)
    ensures n < Pow2(|bits|)
  {
    if bits == "" then 0
    else 2 * Value(bits[..|bits| - 1]) + (if bits[|bits| - 1] == '1' then 1 else 0)
  }

  /** n has at most k binary digits. */
  predicate Short(n: nat, k: nat) {
    if k == 0 then n == 0 else Short(n / 2, k - 1)
  }

  lemma {:induction false} ValueOfBits(n: nat, k: nat)
    requires Short(n, k)
    ensures Value(Bits(n, k)) == n
  {
    if k > 0 {
      ValueOfBits(n / 2, k - 1);
      assert Bits(n, k)[..k - 1] == Bits(n / 2, k - 1);
    }
  }

  lemma ByteIsShort(b: byte)
    ensures Short(b, 8)
  {
    assert Short(b / 64, 2);
    assert Short(b / 8, 5) by {
      assert b / 8 / 2 / 2 / 2 == b / 64;
    }
    assert b / 2 / 2 / 2 == b / 8;
  }

  /** `format(byte, '08b')` over the bytes of a text. */
  function ByteBits(bytes: Bytes): (bits: string)
    ensures |bits| == 8 * |bytes| && Binary(bits)
  {
    if bytes == [] then "" else Bits(bytes[0], 8) + ByteBits(bytes[1..])
  }

  /** `_bits_to_string`: eight bits to the character with that code; a shorter rest
      is dropped. */
  function Chars(bits: string): string {
    if |bits| < 8 then ""
    else
      assert Pow2(8) == 256;
      [Value(bits[..8]) as char] + Chars(bits[8..])
  }

  method BitsToString(bits: string) returns (text: string)
    ensures text == Chars(bits)
  {
    text := "";
    var i := 0;
    while i < |bits|
      invariant 0 <= i
      invariant i <= |bits| ==> Chars(bits) == text + Chars(bits[i..])
      invariant i > |bits| ==> Chars(bits) == text
    {
      var piece := bits[i..if i + 8 <= |bits| then i + 8 else |bits|];
      if |piece| == 8 {
        assert bits[i..][..8] == piece && bits[i..][8..] == bits[i + 8..] && Pow2(8) == 256;
        text := text + [Value(piece) as char];
      }
      i := i + 8;
    }
  }

  // ------------------------------------------------------- Encoding and decoding

  function ZeroWidth(bits: string): string {
    if bits == "" then "" else ZeroWidth(bits[..|bits| - 1]) + [if bits[|bits| - 1] == '0' then BIT0 else BIT1]
  }

  /** `_encode_zero_width` */
  function Encode(data: string): string {
    [START] + ZeroWidth(ByteBits(Utf8All(data))) + [END]
  }

  function BitsIn(section: string): string {
    if section == "" then ""
    else
      var c := section[|section| - 1];
      BitsIn(section[..|section| - 1]) + (if c == BIT0 then "0" else if c == BIT1 then "1" else "")
  }

  function TextOf(bits: string): Option<string> {
    if |bits| < 8 then None else Some(Chars(bits))
  }

  /** What `_decode_zero_width` returns. */
  function Decode(text: string): Option<string> {
    var start, end := FindFrom(text, [START], 0), FindFrom(text, [END], 0);
    if start == -1 || end == -1 || end <= start then None else TextOf(BitsIn(text[start + 1..end]))
  }

  method DecodeZeroWidth(text: string) returns (data: Option<string>)
    ensures data == Decode(text)
  {
    var start, end := FindFrom(text, [START], 0), FindFrom(text, [END], 0);
    if start == -1 || end == -1 || end <= start {
      return None;
    }
    var section := text[start + 1..end];
    var bits := "";
    for i := 0 to |section|
      invariant bits == BitsIn(section[..i])
    {
      assert section[..i + 1][..i] == section[..i];
      if section[i] == BIT0 {
        bits := bits + "0";
      } else if section[i] == BIT1 {
        bits := bits + "1";
      }
    }
    assert section[..|section|] == section;
    if |bits| < 8 {
      return None;
    }
    WholeBytesSuffice(bits);
    var chars := BitsToString(bits[..|bits| - |bits| % 8]);
    data := Some(chars);
  }

  /** Cutting the bits to whole bytes changes nothing. */
  lemma {:induction false} WholeBytesSuffice(bits: string)
    ensures Chars(bits[..|bits| - |bits| % 8]) == Chars(bits)
    decreases |bits|
  {
    var whole := bits[..|bits| - |bits| % 8];
    if |bits| >= 8 {
      var rest := bits[8..];
      WholeBytesSuffice(rest);
      assert whole[..8] == bits[..8];
      assert whole[8..] == rest[..|rest| - |rest| % 8];
    }
  }

  // ------------------------------------------------------- Round trip

  lemma {:induction false} BitsInZeroWidth(bits: string)
    requires Binary(bits)
    ensures BitsIn(ZeroWidth(bits)) == bits
    ensures forall c :: c in ZeroWidth(bits) ==> c == BIT0 || c == BIT1
  {
    if bits != "" {
      var rest := bits[..|bits| - 1];
      BitsInZeroWidth(rest);
      assert ZeroWidth(bits)[..|ZeroWidth(bits)| - 1] == ZeroWidth(rest);
    }
  }

  /** One character for each byte. */
  function Latin(bytes: Bytes): (s: string)
    ensures |s| == |bytes| && forall i :: 0 <= i < |s| ==> s[i] == bytes[i] as char
  {
    seq(|bytes|, i requires 0 <= i < |bytes| => bytes[i] as char)
  }

  lemma {:induction false} CharsOfByteBits(bytes: Bytes)
    ensures Chars(ByteBits(bytes)) == Latin(bytes)
  {
    if bytes != [] {
      var bits := ByteBits(bytes);
      ByteIsShort(bytes[0]);
      ValueOfBits(bytes[0], 8);
      assert bits[..8] == Bits(bytes[0], 8) && bits[8..] == ByteBits(bytes[1..]);
      CharsOfByteBits(bytes[1..]);
      assert Latin(bytes) == [bytes[0] as char] + Latin(bytes[1..]);
    }
  }

  /** The first markers found are the ones put there. */
  lemma FirstMarkers(before: string, section: string, after: string)
    requires START !in before && END !in before && END !in section
    ensures var text := before + ([START] + section + [END]) + after;
            && FindFrom(text, [START], 0) == |before|
            && FindFrom(text, [END], 0) == |before| + 1 + |section|
            && text[|before| + 1..|before| + 1 + |section|] == section
  {
    var text := before + ([START] + section + [END]) + after;
    assert text == before + [START] + (section + [END] + after);
    FirstSeparator(before, [START], section + [END] + after, 0);
    var upTo := before + [START] + section;
    assert text == upTo + [END] + after;
    FirstSeparator(upTo, [END], after, 0);
  }

  lemma DecodeMarked(before: string, bits: string, after: string)
    requires START !in before && END !in before && Binary(bits)
    ensures Decode(before + ([START] + ZeroWidth(bits) + [END]) + after) == TextOf(bits)
  {
    BitsInZeroWidth(bits);
    FirstMarkers(before, ZeroWidth(bits), after);
  }

  /** An encoded text decodes to one character for each of its bytes, wherever it is
      embedded, as long as no marker stands before it. */
  lemma DecodeEncoded(before: string, data: string, after: string)
    requires START !in before && END !in before
    ensures Decode(before + Encode(data) + after) == if data == "" then None else Some(Latin(Utf8All(data)))
  {
    var bytes := Utf8All(data);
    DecodeMarked(before, ByteBits(bytes), after);
    CharsOfByteBits(bytes);
    assert data != "" ==> |bytes| >= 1;
  }

  lemma LatinConcat(a: Bytes, b: Bytes)
    ensures Latin(a + b) == Latin(a) + Latin(b)
  {
  }

  lemma AsciiStep(s: string)
    requires s != ""
    ensures Ascii(s) <==> (s[0] as int) < 128 && Ascii(s[1..])
  {
    if Ascii(s) {
      assert s[0] in s;
      forall c | c in s[1..]
        ensures (c as int) < 128
      {
        assert c in s;
      }
    }
    if (s[0] as int) < 128 && Ascii(s[1..]) {
      forall c | c in s
        ensures (c as int) < 128
      {
        assert c == s[0] || c in s[1..];
      }
    }
  }

  lemma {:induction false} LatinAscii(s: string)
    ensures |Latin(Utf8All(s))| >= |s|
    ensures Ascii(s) ==> Latin(Utf8All(s)) == s
    ensures !Ascii(s) ==> |Latin(Utf8All(s))| > |s|
  {
    if s != "" {
      var first, rest := Utf8(s[0]), Utf8All(s[1..]);
      LatinConcat(first, rest);
      LatinAscii(s[1..]);
      AsciiStep(s);
      assert Latin(Utf8All(s)) == Latin(first) + Latin(rest);
      if Ascii(s) {
        assert Latin(first) == [s[0]];
        assert s == [s[0]] + s[1..];
      }
    }
  }

  /** The codec restores exactly the non-empty ASCII texts: it writes UTF-8 and reads
      one character for each byte. */
  lemma RoundTripIff(before: string, data: string, after: string)
    requires START !in before && END !in before
    ensures Decode(before + Encode(data) + after) == Some(data) <==> data != "" && Ascii(data)
  {
    DecodeEncoded(before, data, after);
    LatinAscii(data);
  }

  // ------------------------------------------------------- What decodes

  ghost predicate FirstAt(text: string, c: char, i: nat) {
    i < |text| && text[i] == c && forall k :: 0 <= k < i ==> text[k] != c
  }

  lemma FindIsFirst(text: string, c: char)
    ensures var i := FindFrom(text, [c], 0);
            (i == -1 <==> c !in text) && (i != -1 ==> FirstAt(text, c, i))
  {
    var i := FindFrom(text, [c], 0);
    forall j | 0 <= j < |text|
      ensures OccursAt(text, [c], j) <==> text[j] == c
    {
      assert text[j..j + 1] == [text[j]];
    }
  }

  function BitChars(s: string): string {
    if s == "" then ""
    else (if s[0] == BIT0 || s[0] == BIT1 then [s[0]] else "") + BitChars(s[1..])
  }

  lemma {:induction false} BitCharsSnoc(s: string, c: char)
    ensures BitChars(s + [c]) == BitChars(s) + if c == BIT0 || c == BIT1 then [c] else ""
  {
    if s == "" {
      assert s + [c] == [c] && [c][1..] == "";
    } else {
      assert (s + [c])[1..] == s[1..] + [c];
      BitCharsSnoc(s[1..], c);
    }
  }

  /** What stands between the bit characters does not matter. */
  lemma {:induction false} BitsOfBitChars(s: string)
    ensures ZeroWidth(BitsIn(s)) == BitChars(s)
  {
    if s != "" {
      var m := |s| - 1;
      BitsOfBitChars(s[..m]);
      BitCharsSnoc(s[..m], s[m]);
      assert s == s[..m] + [s[m]];
      ZeroWidthSnoc(BitsIn(s[..m]), s[m]);
    }
  }

  lemma ZeroWidthSnoc(bits: string, c: char)
    ensures c == BIT0 ==> ZeroWidth(bits + "0") == ZeroWidth(bits) + [c]
    ensures c == BIT1 ==> ZeroWidth(bits + "1") == ZeroWidth(bits) + [c]
    ensures ZeroWidth(bits + "") == ZeroWidth(bits)
  {
    assert (bits + "0")[..|bits|] == bits && (bits + "1")[..|bits|] == bits && bits + "" == bits;
  }

  lemma {:induction false} ZeroWidthLength(bits: string)
    ensures |ZeroWidth(bits)| == |bits|
  {
    if bits != "" {
      ZeroWidthLength(bits[..|bits| - 1]);
    }
  }

  /** For every text: something is decoded if and only if the first end marker comes
      after the first start marker, with at least eight bit characters between. */
  lemma DecodedIff(text: string)
    ensures Decode(text).Some? <==>
            exists i: nat, j: nat :: i < j && FirstAt(text, START, i) && FirstAt(text, END, j)
                                     && |BitChars(text[i + 1..j])| >= 8
  {
    FindIsFirst(text, START);
    FindIsFirst(text, END);
    var start, end := FindFrom(text, [START], 0), FindFrom(text, [END], 0);
    if 0 <= start < end {
      BitsOfBitChars(text[start + 1..end]);
      ZeroWidthLength(BitsIn(text[start + 1..end]));
    }
    forall i: nat, j: nat | FirstAt(text, START, i) && FirstAt(text, END, j)
      ensures i == start && j == end
    {
      FirstIsOne(text, START, i, start);
      FirstIsOne(text, END, j, end);
    }
  }

  lemma FirstIsOne(text: string, c: char, i: nat, j: nat)
    requires FirstAt(text, c, i) && FirstAt(text, c, j)
    ensures i == j
  {
  }

  /** A mark is read through whatever other characters get between its bits. */
  lemma NoiseIsIgnored(before: string, section: string, after: string, data: string)
    requires START !in before && END !in before && END !in section
    requires BitChars(section) == ZeroWidth(ByteBits(Utf8All(data)))
    ensures Decode(before + ([START] + section + [END]) + after) == Decode(before + Encode(data) + after)
  {
    DecodeMarked(before, ByteBits(Utf8All(data)), after);
    DecodeSection(before + ([START] + section + [END]) + after, before, section, after);
    SameBits(section, ByteBits(Utf8All(data)));
  }

  lemma DecodeSection(text: string, before: string, section: string, after: string)
    requires START !in before && END !in before && END !in section
    requires text == before + ([START] + section + [END]) + after
    ensures Decode(text) == TextOf(BitsIn(section))
  {
    FirstMarkers(before, section, after);
    DecodeAt(text, |before|, |before| + 1 + |section|);
  }

  lemma DecodeAt(text: string, i: nat, j: nat)
    requires FindFrom(text, [START], 0) == i < j == FindFrom(text, [END], 0)
    ensures Decode(text) == TextOf(BitsIn(text[i + 1..j]))
  {
  }

  lemma SameBits(section: string, bits: string)
    requires Binary(bits) && BitChars(section) == ZeroWidth(bits)
    ensures BitsIn(section) == bits
  {
    BitsOfBitChars(section);
    BinaryBits(section);
    BitsInZeroWidth(BitsIn(section));
    BitsInZeroWidth(bits);
  }

  lemma {:induction false} BinaryBits(section: string)
    ensures Binary(BitsIn(section))
  {
    if section != "" {
      BinaryBits(section[..|section| - 1]);
    }
  }

  // ------------------------------------------------------- Embedding

  function Spaces(n: nat): string {
    if n == 0 then "" else Spaces(n - 1) + " "
  }

  /** Line i gets (seed + i) mod 3 trailing spaces. */
  function Padded(lines: seq<string>, seed: nat): seq<string> {
    if lines == [] then []
    else Padded(lines[..|lines| - 1], seed) + [lines[|lines| - 1] + Spaces((seed + |lines| - 1) % 3)]
  }

  function Fingerprinted(content: string, seed: nat): string {
    Join(Padded(Split(content, "\n"), seed), "\n")
  }

  method AddWhitespaceFingerprint(content: string, seed: nat) returns (text: string)
    ensures text == Fingerprinted(content, seed)
  {
    var lines := Split(content, "\n");
    var result := [];
    for i := 0 to |lines|
      invariant result == Padded(lines[..i], seed)
    {
      assert lines[..i + 1][..i] == lines[..i];
      result := result + [lines[i] + Spaces((seed + i) % 3)];
    }
    assert lines[..|lines|] == lines;
    text := Join(result, "\n");
  }

  datatype Options = Options(zeroWidth: bool, linguistic: bool, whitespace: bool)

  /** The text before the zero-width mark goes in; `rewrite` is the linguistic step. */
  function Prepared(content: string, seed: nat, rewrite: string -> string, o: Options): string {
    var text := if o.linguistic then rewrite(content) else content;
    if o.whitespace then Fingerprinted(text, seed) else text
  }

  /** The mark goes before the first space, unless there is none or it comes first. */
  function Insert(text: string, mark: string): string {
    var space := FindFrom(text, " ", 0);
    if space > 0 then text[..space] + mark + text[space..] else text + mark
  }

  /** `embed_watermark` */
  function Embed(content: string, seed: nat, json: string, rewrite: string -> string, o: Options): string {
    var text := Prepared(content, seed, rewrite, o);
    if o.zeroWidth then Insert(text, Encode(json)) else text
  }

  function Visible(c: char): string {
    if IsZeroWidth(c) then "" else [c]
  }

  /** `_remove_zero_width` */
  function RemoveZeroWidth(s: string): string {
    if s == "" then "" else Visible(s[0]) + RemoveZeroWidth(s[1..])
  }

  function StripLines(lines: seq<string>): (r: seq<string>)
    ensures |r| == |lines|
    ensures forall i :: 0 <= i < |lines| ==> r[i] == StripRight(lines[i])
  {
    if lines == [] then [] else [StripRight(lines[0])] + StripLines(lines[1..])
  }

  /** `strip_all_watermarks` */
  function StripAll(s: string): string {
    Join(StripLines(Split(RemoveZeroWidth(s), "\n")), "\n")
  }

  // ------------------------------------------------------- Removal

  lemma {:induction false} RemoveConcat(a: string, b: string)
    ensures RemoveZeroWidth(a + b) == RemoveZeroWidth(a) + RemoveZeroWidth(b)
  {
    if a == "" {
      assert a + b == b;
    } else {
      RemoveConcat(a[1..], b);
      assert (a + b)[1..] == a[1..] + b;
      Associate(Visible(a[0]), RemoveZeroWidth(a[1..]), RemoveZeroWidth(b));
    }
  }

  lemma Associate(a: string, b: string, c: string)
    ensures a + (b + c) == (a + b) + c
  {
  }

  lemma {:induction false} RemoveIff(s: string)
    ensures RemoveZeroWidth(s) == s <==> Plain(s)
    ensures |RemoveZeroWidth(s)| <= |s|
    ensures (forall c :: c in s ==> IsZeroWidth(c)) ==> RemoveZeroWidth(s) == ""
  {
    if s != "" {
      RemoveIff(s[1..]);
      assert s == [s[0]] + s[1..];
      assert s[0] in s;
      if !IsZeroWidth(s[0]) {
        assert RemoveZeroWidth(s)[1..] == RemoveZeroWidth(s[1..]);
      }
    }
  }

  lemma RemoveBetween(a: string, mark: string, b: string)
    requires RemoveZeroWidth(mark) == ""
    ensures RemoveZeroWidth(a + mark + b) == RemoveZeroWidth(a + b)
  {
    RemoveConcat(a + mark, b);
    RemoveConcat(a, mark);
    RemoveConcat(a, b);
    assert RemoveZeroWidth(a) + "" == RemoveZeroWidth(a);
  }

  /** The mark stands right before the first space; with no space in the text, or one
      at its beginning, it stands at the end. */
  lemma MarkPlace(text: string, mark: string) returns (at: nat)
    ensures at <= |text| && Insert(text, mark) == text[..at] + mark + text[at..]
    ensures if ' ' in text && text[0] != ' ' then at < |text| && text[at] == ' ' && ' ' !in text[..at]
            else at == |text|
  {
    var space := FindFrom(text, " ", 0);
    at := if space > 0 then space else |text|;
    assert " " == [' '];
    FindIsFirst(text, ' ');
  }

  lemma RemoveInserted(text: string, mark: string)
    requires RemoveZeroWidth(mark) == ""
    ensures RemoveZeroWidth(Insert(text, mark)) == RemoveZeroWidth(text)
  {
    var at := MarkPlace(text, mark);
    RemoveBetween(text[..at], mark, text[at..]);
    assert text == text[..at] + text[at..];
  }

  lemma MarkIsInvisible(json: string)
    ensures RemoveZeroWidth(Encode(json)) == ""
  {
    BitsInZeroWidth(ByteBits(Utf8All(json)));
    RemoveIff(Encode(json));
  }

  /** Wherever the mark was put, removing the zero-width characters gives back the
      text it was put into, if and only if that text had none. */
  lemma RemovalRestoresIff(text: string, json: string)
    ensures RemoveZeroWidth(Insert(text, Encode(json))) == text <==> Plain(text)
  {
    MarkIsInvisible(json);
    RemoveInserted(text, Encode(json));
    RemoveIff(text);
  }

  // ------------------------------------------------------- Lines

  /** The lines of a text hold no line break, and nothing that the text does not. */
  lemma {:induction false} LinesOf(s: string)
    ensures forall line :: line in Split(s, "\n") ==> '\n' !in line
    ensures Plain(s) ==> forall line :: line in Split(s, "\n") ==> PlainLine(line)
    decreases |s|
  {
    var i := FindFrom(s, "\n", 0);
    if i < 0 {
      forall j | 0 <= j < |s|
        ensures s[j] != '\n'
      {
        assert !OccursAt(s, "\n", j);
        assert s[j..j + 1] == [s[j]];
      }
    } else {
      forall j | 0 <= j < i
        ensures s[j] != '\n'
      {
        assert !OccursAt(s, "\n", j);
        assert s[j..j + 1] == [s[j]];
      }
      LinesOf(s[i + 1..]);
    }
  }

  lemma {:induction false} JoinPlain(lines: seq<string>)
    requires forall line :: line in lines ==> PlainLine(line)
    ensures Plain(Join(lines, "\n"))
  {
    if |lines| > 1 {
      assert lines[0] in lines;
      JoinPlain(lines[1..]);
    } else if |lines| == 1 {
      assert lines[0] in lines;
    }
  }

  lemma {:induction false} SpacesAre(n: nat)
    ensures forall c :: c in Spaces(n) ==> c == ' '
  {
    if n > 0 {
      SpacesAre(n - 1);
    }
  }

  lemma StripOneSpace(s: string)
    ensures StripRight(s + " ") == StripRight(s)
  {
  }

  lemma {:induction false} StripSpaces(line: string, n: nat)
    ensures StripRight(line + Spaces(n)) == StripRight(line)
  {
    if n == 0 {
      assert line + "" == line;
    } else {
      StripSpaces(line, n - 1);
      StripOneSpace(line + Spaces(n - 1));
      Associate(line, Spaces(n - 1), " ");
    }
  }

  lemma {:induction false} PaddedAt(lines: seq<string>, seed: nat)
    ensures |Padded(lines, seed)| == |lines|
    ensures forall i :: 0 <= i < |lines| ==> Padded(lines, seed)[i] == lines[i] + Spaces((seed + i) % 3)
  {
    if lines != [] {
      PaddedAt(lines[..|lines| - 1], seed);
    }
  }

  ghost predicate PlainLine(line: string) {
    '\n' !in line && Plain(line)
  }

  /** Padding keeps lines lines, keeps them plain, and goes with the trailing
      whitespace. */
  lemma PaddingIsStripped(lines: seq<string>, seed: nat)
    requires forall line :: line in lines ==> PlainLine(line)
    ensures forall line :: line in Padded(lines, seed) ==> PlainLine(line)
    ensures |Padded(lines, seed)| == |lines|
    ensures StripLines(Padded(lines, seed)) == StripLines(lines)
  {
    PaddedAt(lines, seed);
    forall i | 0 <= i < |lines|
      ensures PlainLine(Padded(lines, seed)[i]) && StripRight(Padded(lines, seed)[i]) == StripRight(lines[i])
    {
      assert lines[i] in lines;
      SpacesAre((seed + i) % 3);
      StripSpaces(lines[i], (seed + i) % 3);
    }
  }

  ghost predicate NoTrailingSpace(line: string) {
    line == "" || !IsSpace(line[|line| - 1])
  }

  lemma StripLinesIff(lines: seq<string>)
    ensures StripLines(lines) == lines <==> forall line :: line in lines ==> NoTrailingSpace(line)
  {
    if StripLines(lines) == lines {
      forall i | 0 <= i < |lines|
        ensures NoTrailingSpace(lines[i])
      {
        assert StripLines(lines)[i] == lines[i];
      }
    }
    if forall line :: line in lines ==> NoTrailingSpace(line) {
      forall i | 0 <= i < |lines|
        ensures StripLines(lines)[i] == lines[i]
      {
        assert NoTrailingSpace(lines[i]);
      }
    }
  }

  lemma SplitLines(lines: seq<string>)
    requires lines != [] && forall line :: line in lines ==> '\n' !in line
    ensures Split(Join(lines, "\n"), "\n") == lines
  {
    assert Unmarked(lines, "\n", 0);
    SplitJoin(lines, "\n", 0);
  }

  /** Stripping works on the lines, whatever trailing whitespace they show. */
  lemma StripShown(text: string, lines: seq<string>, shown: seq<string>)
    requires lines != [] && |shown| == |lines| && StripLines(shown) == StripLines(lines)
    requires forall line :: line in shown ==> PlainLine(line)
    requires RemoveZeroWidth(text) == Join(shown, "\n")
    ensures StripAll(text) == Join(StripLines(lines), "\n")
  {
    SplitLines(shown);
  }

  lemma JoinStrippedIff(lines: seq<string>)
    requires lines != [] && forall line :: line in lines ==> PlainLine(line)
    ensures Join(StripLines(lines), "\n") == Join(lines, "\n") <==>
            forall line :: line in lines ==> NoTrailingSpace(line)
  {
    StripLinesIff(lines);
    SplitLines(lines);
    forall i | 0 <= i < |lines|
      ensures '\n' !in StripLines(lines)[i]
    {
      assert lines[i] in lines;
    }
    SplitLines(StripLines(lines));
  }

  /** The text before the mark goes in, as lines. */
  lemma PreparedLines(content: string, seed: nat, rewrite: string -> string, o: Options) returns (shown: seq<string>)
    requires Plain(content) && !o.linguistic
    ensures Prepared(content, seed, rewrite, o) == Join(shown, "\n")
    ensures |shown| == |Split(content, "\n")| && StripLines(shown) == StripLines(Split(content, "\n"))
    ensures forall line :: line in shown ==> PlainLine(line)
  {
    var lines := Split(content, "\n");
    LinesOf(content);
    PaddingIsStripped(lines, seed);
    shown := if o.whitespace then Padded(lines, seed) else lines;
  }

  lemma {:induction false} RemoveIsPlain(s: string)
    ensures Plain(RemoveZeroWidth(s))
  {
    if s != "" {
      RemoveIsPlain(s[1..]);
    }
  }

  /** Removal takes away the five zero-width characters, and nothing else. */
  lemma {:induction false} RemovedAre(s: string, c: char)
    ensures c in RemoveZeroWidth(s) <==>
            c in s && c !in {'\U{200b}', '\U{200c}', '\U{200d}', '\U{feff}', '\U{2060}'}
  {
    if s != "" {
      RemovedAre(s[1..], c);
      assert s == [s[0]] + s[1..];
    }
  }

  /** Stripping leaves no zero-width character. */
  lemma StripAllIsPlain(s: string)
    ensures Plain(StripAll(s))
  {
    var shown := RemoveZeroWidth(s);
    RemoveIsPlain(s);
    LinesOf(shown);
    var lines := Split(shown, "\n");
    forall i | 0 <= i < |lines|
      ensures PlainLine(StripLines(lines)[i])
    {
      assert lines[i] in lines;
    }
    JoinPlain(StripLines(lines));
  }

  lemma PlainStripIff(content: string, seed: nat, json: string, rewrite: string -> string, o: Options)
    requires Plain(content) && !o.linguistic
    ensures StripAll(Embed(content, seed, json, rewrite, o)) == content <==>
            forall line :: line in Split(content, "\n") ==> NoTrailingSpace(line)
  {
    var shown := PreparedLines(content, seed, rewrite, o);
    var text := Prepared(content, seed, rewrite, o);
    JoinPlain(shown);
    RemoveIff(text);
    RemovalRestoresIff(text, json);
    StripShown(Embed(content, seed, json, rewrite, o), Split(content, "\n"), shown);
    LinesOf(content);
    JoinStrippedIff(Split(content, "\n"));
  }

  /** Whatever the options but the linguistic one, stripping the watermarks restores
      a content if and only if it held no zero-width character and no line of it
      ended in whitespace. */
  lemma StripRestoresIff(content: string, seed: nat, json: string, rewrite: string -> string, o: Options)
    requires !o.linguistic
    ensures StripAll(Embed(content, seed, json, rewrite, o)) == content <==>
            Plain(content) && forall line :: line in Split(content, "\n") ==> NoTrailingSpace(line)
  {
    StripAllIsPlain(Embed(content, seed, json, rewrite, o));
    if Plain(content) {
      PlainStripIff(content, seed, json, rewrite, o);
    }
  }

  // ------------------------------------------------------- Reading the fingerprint

  /** `len(line) - len(line.rstrip(' '))` */
  function TrailingSpaces(line: string): nat {
    if line != "" && line[|line| - 1] == ' ' then 1 + TrailingSpaces(line[..|line| - 1]) else 0
  }

  /** As many spaces as stand at the end, and no more. */
  lemma {:induction false} TrailingSpacesAre(line: string)
    ensures var n := TrailingSpaces(line);
            && n <= |line| && (forall k :: |line| - n <= k < |line| ==> line[k] == ' ')
            && (n < |line| ==> line[|line| - n - 1] != ' ')
  {
    if line != "" {
      TrailingSpacesAre(line[..|line| - 1]);
    }
  }

  lemma OneMoreSpace(s: string)
    ensures TrailingSpaces(s + " ") == TrailingSpaces(s) + 1
  {
  }

  lemma {:induction false} TrailingOfPadded(line: string, n: nat)
    ensures TrailingSpaces(line + Spaces(n)) == TrailingSpaces(line) + n
  {
    if n == 0 {
      assert line + "" == line;
    } else {
      TrailingOfPadded(line, n - 1);
      OneMoreSpace(line + Spaces(n - 1));
      Associate(line, Spaces(n - 1), " ");
    }
  }

  /** The lines of a fingerprinted text are the padded lines. */
  lemma FingerprintedLines(content: string, seed: nat)
    ensures Split(Fingerprinted(content, seed), "\n") == Padded(Split(content, "\n"), seed)
  {
    var lines := Split(content, "\n");
    LinesOf(content);
    PaddedAt(lines, seed);
    forall k | 0 <= k < |lines|
      ensures '\n' !in Padded(lines, seed)[k]
    {
      assert lines[k] in lines;
      SpacesAre((seed + k) % 3);
    }
    SplitLines(Padded(lines, seed));
  }

  /** Reading the lines back, line i shows the seed's pattern if and only if the
      original line ended in a multiple of three spaces. */
  lemma FingerprintReadIff(content: string, seed: nat, i: nat)
    requires i < |Split(content, "\n")|
    ensures |Split(Fingerprinted(content, seed), "\n")| == |Split(content, "\n")|
    ensures TrailingSpaces(Split(Fingerprinted(content, seed), "\n")[i]) % 3 == (seed + i) % 3 <==>
            TrailingSpaces(Split(content, "\n")[i]) % 3 == 0
  {
    FingerprintedLines(content, seed);
    PatternAt(Split(content, "\n"), Split(Fingerprinted(content, seed), "\n"), seed, i);
  }

  lemma PatternAt(lines: seq<string>, shown: seq<string>, seed: nat, i: nat)
    requires i < |lines| && shown == Padded(lines, seed)
    ensures |shown| == |lines|
    ensures TrailingSpaces(shown[i]) % 3 == (seed + i) % 3 <==> TrailingSpaces(lines[i]) % 3 == 0
  {
    PaddedAt(lines, seed);
    PatternOfLine(lines[i], seed + i);
  }

  lemma PatternOfLine(line: string, k: nat)
    ensures TrailingSpaces(line + Spaces(k % 3)) % 3 == k % 3 <==> TrailingSpaces(line) % 3 == 0
  {
    TrailingOfPadded(line, k % 3);
    SamePatternIff(TrailingSpaces(line), k);
  }

  lemma SamePatternIff(n: nat, k: nat)
    ensures (n + k % 3) % 3 == k % 3 <==> n % 3 == 0
  {
  }

  lemma FingerprintedPlain(text: string, seed: nat)
    requires Plain(text)
    ensures Plain(Fingerprinted(text, seed))
  {
    LinesOf(text);
    PaddingIsStripped(Split(text, "\n"), seed);
    JoinPlain(Padded(Split(text, "\n"), seed));
  }

  lemma DecodeInserted(text: string, json: string)
    requires Plain(text) && json != "" && Ascii(json)
    ensures Decode(Insert(text, Encode(json))) == Some(json)
  {
    var at := MarkPlace(text, Encode(json));
    var before, after := text[..at], text[at..];
    assert START !in before by {
      assert START in before ==> START in text;
    }
    assert END !in before by {
      assert END in before ==> END in text;
    }
    RoundTripIff(before, json, after);
  }

  /** A plain content carries its watermark: decoding gives the exact JSON text, and
      removal gives the text before the mark went in. The linguistic step may be any
      rewriting that brings in no zero-width character. */
  lemma EmbedThenExtract(content: string, seed: nat, json: string, rewrite: string -> string, o: Options)
    requires Plain(content) && o.zeroWidth && json != "" && Ascii(json)
    requires o.linguistic ==> Plain(rewrite(content))
    ensures Decode(Embed(content, seed, json, rewrite, o)) == Some(json)
    ensures RemoveZeroWidth(Embed(content, seed, json, rewrite, o)) == Prepared(content, seed, rewrite, o)
  {
    FingerprintedPlain(if o.linguistic then rewrite(content) else content, seed);
    RemovalRestoresIff(Prepared(content, seed, rewrite, o), json);
    DecodeInserted(Prepared(content, seed, rewrite, o), json);
  }

  lemma MarkIsSeen(text: string, json: string)
    ensures !Plain(Insert(text, Encode(json)))
  {
    var at := MarkPlace(text, Encode(json));
    assert Encode(json)[0] == START && Insert(text, Encode(json))[at] == START;
    assert START in Insert(text, Encode(json));
  }

  /** The mark is there exactly when it is asked for; without it the text is the
      prepared one. */
  lemma MarkedIff(content: string, seed: nat, json: string, rewrite: string -> string, o: Options)
    requires Plain(content) && (o.linguistic ==> Plain(rewrite(content)))
    ensures Plain(Embed(content, seed, json, rewrite, o)) <==> !o.zeroWidth
    ensures !o.zeroWidth ==> Embed(content, seed, json, rewrite, o) == Prepared(content, seed, rewrite, o)
  {
    var text := Prepared(content, seed, rewrite, o);
    FingerprintedPlain(if o.linguistic then rewrite(content) else content, seed);
    if o.zeroWidth {
      MarkIsSeen(text, json);
    }
  }
}
