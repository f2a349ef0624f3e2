/** Big-endian bytes, `0x` integers, hexadecimal byte strings and the 31-byte
    chunks of the secret sharing code, each with its inverse. */
module Encoding {
  import opened Text

  type byte = x: int | 0 <= x < 256
  type Bytes = seq<byte>

  const CHUNK: nat := 31

  // ------------------------------------------------------- Integers and bytes

  /** The number fits that many bytes; `to_bytes` raises otherwise. */
  predicate Fits(n: nat, length: nat) {
    if length == 0 then n == 0 else Fits(n / 256, length - 1)
  }

  /** `int.from_bytes(data, 'big')` */
  function FromBytes(b: Bytes): (n: nat)
    ensures Fits(n, |b|)
  {
    if b == [] then 0 else
      var high := FromBytes(b[..|b| - 1]);
      assert (high * 256 + b[|b| - 1]) / 256 == high;
      high * 256 + b[|b| - 1]
  }

  /** `num.to_bytes(length, 'big')`, for a number that fits. */
  function ToBytes(n: nat, length: nat): (b: Bytes)
    requires Fits(n, length)
    ensures |b| == length && FromBytes(b) == n
  {
    if length == 0 then []
    else
      var front := ToBytes(n / 256, length - 1);
      assert (front + [n % 256])[..length - 1] == front;
      front + [n % 256]
  }

  /** Bytes of one length are determined by their number. */
  lemma {:induction false} FromBytesInjective(a: Bytes, b: Bytes)
    requires |a| == |b| && FromBytes(a) == FromBytes(b)
    ensures a == b
  {
    if a != [] {
      var m := |a| - 1;
      FromBytesInjective(a[..m], b[..m]);
      assert a == a[..m] + [a[m]] && b == b[..m] + [b[m]];
    }
  }

  lemma BytesRoundTrip(b: Bytes)
    ensures ToBytes(FromBytes(b), |b|) == b
  {
    FromBytesInjective(ToBytes(FromBytes(b), |b|), b);
  }

  // ------------------------------------------------------- Hexadecimal

  function Digit(d: nat): (c: char)
    requires d < 16
    ensures c != '|'
  {
    if d < 10 then '0' + d as char else 'a' + (d - 10) as char
  }

  function DigitValue(c: char): (d: Option<nat>)
    ensures d.Some? ==> d.value < 16
  {
    if '0' <= c <= '9' then Some(c as int - '0' as int)
    else if 'a' <= c <= 'f' then Some(c as int - 'a' as int + 10)
    else if 'A' <= c <= 'F' then Some(c as int - 'A' as int + 10)
    else None
  }

  lemma DigitRoundTrip(d: nat)
    requires d < 16
    ensures DigitValue(Digit(d)) == Some(d)
  {
  }

  function Digits(n: nat): (s: string)
    ensures s != "" && '|' !in s
  {
    if n < 16 then [Digit(n)] else Digits(n / 16) + [Digit(n % 16)]
  }

  function ParseDigits(s: string): (n: Option<nat>) {
    if s == "" then Some(0)
    else
      var high, low := ParseDigits(s[..|s| - 1]), DigitValue(s[|s| - 1]);
      if high.Some? && low.Some? then Some(high.value * 16 + low.value) else None
  }

  lemma {:induction false} DigitsRoundTrip(n: nat)
    ensures ParseDigits(Digits(n)) == Some(n)
  {
    DigitRoundTrip(n % 16);
    if n < 16 {
      assert Digits(n)[..0] == "";
    } else {
      DigitsRoundTrip(n / 16);
      assert Digits(n)[..|Digits(n)| - 1] == Digits(n / 16);
    }
  }

  /** `hex(n)` */
  function Hex(n: nat): (s: string)
    ensures '|' !in s
  {
    "0x" + Digits(n)
  }

  /** `int(s, 16)` on plain digits with an optional prefix. */
  function ParseHex(s: string): (n: Option<nat>) {
    var digits := if |s| >= 2 && s[0] == '0' && (s[1] == 'x' || s[1] == 'X') then s[2..] else s;
    if digits == "" then None else ParseDigits(digits)
  }

  lemma HexRoundTrip(n: nat)
    ensures ParseHex(Hex(n)) == Some(n)
  {
    DigitsRoundTrip(n);
    assert Hex(n)[2..] == Digits(n);
  }

  /** Capital letters for the lower-case ones. */
  function Capital(c: char): char {
    if 'a' <= c <= 'z' then c - 32 as char else c
  }

  function Capitals(s: string): (r: string)
    ensures |r| == |s| && forall i :: 0 <= i < |s| ==> r[i] == Capital(s[i])
  {
    seq(|s|, i requires 0 <= i < |s| => Capital(s[i]))
  }

  lemma {:induction false} DigitsInCapitals(s: string)
    ensures ParseDigits(Capitals(s)) == ParseDigits(s)
  {
    if s != "" {
      DigitsInCapitals(s[..|s| - 1]);
      assert Capitals(s)[..|s| - 1] == Capitals(s[..|s| - 1]);
    }
  }

  /** Hexadecimal numbers read the same in capitals, prefix included. */
  lemma HexInCapitals(s: string)
    ensures ParseHex(Capitals(s)) == ParseHex(s)
  {
    DigitsInCapitals(s);
    if |s| >= 2 {
      DigitsInCapitals(s[2..]);
      assert Capitals(s)[2..] == Capitals(s[2..]);
      PrefixInCapitals(s);
    }
  }

  /** Both ways of writing the prefix become one. */
  lemma PrefixInCapitals(s: string)
    requires |s| >= 2
    ensures Capital(s[0]) == '0' <==> s[0] == '0'
    ensures Capital(s[1]) == 'X' <==> s[1] == 'x' || s[1] == 'X'
  {
  }

  /** `data.hex()` */
  function BytesToHex(b: Bytes): string {
    if b == [] then "" else [Digit(b[0] / 16), Digit(b[0] % 16)] + BytesToHex(b[1..])
  }

  /** `bytes.fromhex(s)` on digit pairs. */
  function HexToBytes(s: string): (b: Option<Bytes>) {
    if s == "" then Some([])
    else if |s| == 1 then None
    else
      var high, low, rest := DigitValue(s[0]), DigitValue(s[1]), HexToBytes(s[2..]);
      if high.Some? && low.Some? && rest.Some? then Some([high.value * 16 + low.value] + rest.value) else None
  }

  lemma {:induction false} BytesHexRoundTrip(b: Bytes)
    ensures HexToBytes(BytesToHex(b)) == Some(b)
  {
    if b != [] {
      BytesHexRoundTrip(b[1..]);
      DigitRoundTrip(b[0] / 16);
      DigitRoundTrip(b[0] % 16);
      assert BytesToHex(b)[2..] == BytesToHex(b[1..]);
      assert b == [(b[0] / 16) * 16 + b[0] % 16] + b[1..];
    }
  }

  // ------------------------------------------------------- Chunks

  function Zeros(n: nat): (b: Bytes)
    ensures |b| == n
  {
    seq(n, _ => 0)
  }

  /** The data in blocks of 31 bytes, the last one padded with zeros. */
  function Blocks(data: Bytes): (chunks: seq<Bytes>)
    ensures forall i :: 0 <= i < |chunks| ==> |chunks[i]| == CHUNK
  {
    if data == [] then []
    else if |data| < CHUNK then [data + Zeros(CHUNK - |data|)]
    else [data[..CHUNK]] + Blocks(data[CHUNK..])
  }

  /** The chunk that carries the length; fits because the length does. */
  function LengthChunk(n: nat): (chunk: Bytes)
    requires Fits(n, 4)
    ensures |chunk| == CHUNK
  {
    ToBytes(n, 4) + Zeros(CHUNK - 4)
  }

  function Concat(chunks: seq<Bytes>): Bytes {
    if chunks == [] then [] else chunks[0] + Concat(chunks[1..])
  }

  /** Python's `s[:n]` for any integer n. */
  function TakeUpTo<T>(s: seq<T>, n: int): (r: seq<T>)
    ensures r <= s
    ensures 0 <= n <= |s| ==> |r| == n
  {
    if n >= |s| then s else if n >= 0 then s[..n] else if |s| + n > 0 then s[..|s| + n] else []
  }

  /** A negative number counts from the end. */
  lemma TakeFromEnd<T>(s: seq<T>, n: int)
    requires n < 0
    ensures TakeUpTo(s, n) == if n < -|s| then [] else TakeUpTo(s, |s| + n)
  {
  }

  /** The blocks concatenated begin with the data. */
  lemma {:induction false} BlocksKeepData(data: Bytes)
    ensures data <= Concat(Blocks(data))
  {
    var blocks := Blocks(data);
    if data == [] {
    } else if |data| < CHUNK {
      assert blocks[1..] == [];
    } else {
      BlocksKeepData(data[CHUNK..]);
      assert blocks[1..] == Blocks(data[CHUNK..]);
      assert data == data[..CHUNK] + data[CHUNK..];
    }
  }

  /** `_split_into_chunks`: the loop over slices of 31 bytes. A length that does not
      fit four bytes makes `to_bytes` raise; the result is then None. */
  method SplitIntoChunks(data: Bytes) returns (r: Option<seq<Bytes>>)
    ensures r.None? <==> !Fits(|data|, 4)
    ensures r.Some? ==> r.value == [LengthChunk(|data|)] + Blocks(data)
  {
    var chunks: seq<Bytes> := [];
    var i := 0;
    while i < |data|
      invariant 0 <= i
      invariant i <= |data| ==> Blocks(data) == chunks + Blocks(data[i..])
      invariant i >= |data| ==> Blocks(data) == chunks
    {
      var chunk := TakeUpTo(data[i..], CHUNK);
      if |chunk| < CHUNK {
        chunk := chunk + Zeros(CHUNK - |chunk|);
        assert Blocks(data[i..]) == [chunk];
      } else {
        assert chunk == data[i..][..CHUNK];
        assert data[i..][CHUNK..] == data[i + CHUNK..];
        assert Blocks(data[i..]) == [chunk] + Blocks(data[i + CHUNK..]);
      }
      chunks := chunks + [chunk];
      i := i + CHUNK;
    }
    if !Fits(|data|, 4) {
      return None;
    }
    return Some([LengthChunk(|data|)] + chunks);
  }
}
