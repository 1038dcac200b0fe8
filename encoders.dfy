/**
 * The text encodings a table can be read from. The ASCII-hex and binary
 * schemes are modelled in full: their encoders, their decoders (length check,
 * then one chunk at a time through `int(chunk, base)` and `bytes((v,))`), and
 * the errors they raise. Base64, URL and plain text are library codecs and are
 * passed in as functions. `DecodeList` decodes every line with one scheme.
 */
module Encoders {
  import opened Common
  import opened PyText

  const BadLengthMsg: string := "One of the parameters given does not have a correct length"
  const BadCharsMsg: string := "Invalid characters for this encoding scheme"
  const BadEncoderMsg: string := "Invalid encoder specified"

  /**
   * What a decoder raises: an `EncoderException` carrying one of the messages
   * above (its `errors` list is always empty), or a bare `ValueError`.
   */
  datatype Failure = EncoderException(message: string) | ValueError

  datatype Result<+T> = Ok(value: T) | Err(error: Failure)

  // ---------------------------------------------------------------- digits

  /** The character Python's `hex()` prints for a digit below sixteen: `0`-`9`, then lower-case `a`-`f`. */
  function HexDigit(d: nat): (c: char)
    requires d < 16
    ensures IsHexDigit(c) && !('A' <= c <= 'F') && DigitValue(c) == d
  {
    if d < 10 then ('0' as int + d) as char else ('a' as int + d - 10) as char
  }

  /** `hex(v)[2:]`: the digits of `v` in base sixteen, lower case, no leading zeros. */
  function HexOf(v: nat): string
    decreases v
  {
    if v < 16 then [HexDigit(v)] else HexOf(v / 16) + [HexDigit(v % 16)]
  }

  /** The character `bin()` prints for a bit. */
  function BitChar(d: nat): (c: char)
    requires d < 2
    ensures IsDigitOf(c, 2) && DigitValue(c) == d
  {
    if d == 0 then '0' else '1'
  }

  /** `bin(v)[2:]`: the digits of `v` in base two, no leading zeros. */
  function BinDigits(v: nat): string
    decreases v
  {
    if v < 2 then [BitChar(v)] else BinDigits(v / 2) + [BitChar(v % 2)]
  }

  /** `"0" * n`, which is empty for `n <= 0`. */
  function Zeros(n: int): (z: string)
    ensures |z| == if n <= 0 then 0 else n
    decreases if n <= 0 then 0 else n
  {
    if n <= 0 then [] else Zeros(n - 1) + ['0']
  }

  function Pow2(w: nat): (p: nat)
    ensures p >= 1
  {
    if w == 0 then 1 else 2 * Pow2(w - 1)
  }

  /** The reference for the binary encoding: the low `w` bits of `v`, most significant first. */
  function BitsOf(v: nat, w: nat): (r: string)
    ensures |r| == w
    ensures forall i :: 0 <= i < w ==> IsDigitOf(r[i], 2)
  {
    if w == 0 then [] else BitsOf(v / 2, w - 1) + [BitChar(v % 2)]
  }

  /** A byte below sixteen gets one hexadecimal digit and every other byte two: `hex()` does not pad. */
  lemma HexOfByte(v: Byte)
    ensures HexOf(v) == if v < 16 then [HexDigit(v)] else [HexDigit(v / 16), HexDigit(v % 16)]
  {
    if v >= 16 {
      assert HexOf(v / 16) == [HexDigit(v / 16)];
    }
  }

  /** Zero bits are zero characters. */
  lemma {:induction false} ZeroBits(w: nat)
    ensures BitsOf(0, w) == Zeros(w)
  {
    if w > 0 {
      ZeroBits(w - 1);
    }
  }

  /** Left-padding `bin(v)[2:]` with zeros to `w` characters gives the `w`-bit representation of `v`. */
  lemma {:induction false} PaddedBinDigits(v: nat, w: nat)
    requires 1 <= w && v < Pow2(w)
    ensures Zeros(w - |BinDigits(v)|) + BinDigits(v) == BitsOf(v, w)
    decreases w
  {
    if v < 2 {
      ZeroBits(w - 1);
      assert BitsOf(v, w) == BitsOf(0, w - 1) + [BitChar(v)];
    } else {
      assert Pow2(1) == 2;
      PaddedBinDigits(v / 2, w - 1);
      assert BinDigits(v) == BinDigits(v / 2) + [BitChar(v % 2)];
    }
  }

  /** The padded `bin()` digits of a byte are its eight bits. */
  lemma ByteBits(b: Byte)
    ensures Zeros(8 - |BinDigits(b)|) + BinDigits(b) == BitsOf(b, 8)
  {
    assert Pow2(8) == 256;
    PaddedBinDigits(b, 8);
  }

  /** Read back in base two, the `w` bits of `v` give `v` again. */
  lemma {:induction false} BitsOfValue(v: nat, w: nat)
    requires v < Pow2(w)
    ensures DigitsValue(BitsOf(v, w), 2) == v
  {
    if w > 0 {
      var r := BitsOf(v, w);
      BitsOfValue(v / 2, w - 1);
      assert r[..w - 1] == BitsOf(v / 2, w - 1);
    }
  }

  // ---------------------------------------------------------------- encoders

  /** The ASCII-hex encoding of `bytes`: each byte's `hex()` digits, one after another. */
  function AsciiHexEncoding(bytes: seq<Byte>): (s: string)
    ensures |bytes| <= |s| <= 2 * |bytes|
  {
    if bytes == [] then ""
    else
      HexOfByte(bytes[0]);
      HexOf(bytes[0]) + AsciiHexEncoding(bytes[1..])
  }

  /** The binary encoding of `bytes`: eight bits per byte, most significant first. */
  function BinaryEncoding(bytes: seq<Byte>): (s: string)
    ensures |s| == 8 * |bytes|
  {
    if bytes == [] then "" else BitsOf(bytes[0], 8) + BinaryEncoding(bytes[1..])
  }

  /** Appends the `hex()` digits of every byte in turn. */
  method AsciiHexEncode(inputBytes: seq<Byte>) returns (encoded: string)
    ensures encoded == AsciiHexEncoding(inputBytes)
  {
    encoded := "";
    for i := 0 to |inputBytes|
      invariant AsciiHexEncoding(inputBytes) == encoded + AsciiHexEncoding(inputBytes[i..])
    {
      var b := inputBytes[i];
      assert inputBytes[i..] == [b] + inputBytes[i + 1..];
      encoded := encoded + HexOf(b);
    }
    assert inputBytes[|inputBytes|..] == [];
  }

  /** Appends the `bin()` digits of every byte in turn, left-padded with zeros to eight. */
  method BinaryEncode(inputBytes: seq<Byte>) returns (encoded: string)
    ensures encoded == BinaryEncoding(inputBytes)
  {
    encoded := "";
    for i := 0 to |inputBytes|
      invariant BinaryEncoding(inputBytes) == encoded + BinaryEncoding(inputBytes[i..])
    {
      var b := inputBytes[i];
      ghost var rest := BinaryEncoding(inputBytes[i + 1..]);
      assert inputBytes[i..][0] == b && inputBytes[i..][1..] == inputBytes[i + 1..];
      assert BinaryEncoding(inputBytes[i..]) == BitsOf(b, 8) + rest;
      var bits := BinDigits(b);
      bits := Zeros(8 - |bits|) + bits;
      ByteBits(b);
      assert encoded + (bits + rest) == (encoded + bits) + rest;
      encoded := encoded + bits;
    }
    assert inputBytes[|inputBytes|..] == [];
  }

  // ---------------------------------------------------------------- failing fast

  /** `f` applied to every element in order; the first failure, if any, is the result. */
  function MapOrFail<T, U>(xs: seq<T>, f: T -> Result<U>): (r: Result<seq<U>>)
    ensures r.Ok? ==> |r.value| == |xs|
  {
    if xs == [] then Ok([])
    else
      match f(xs[0])
      case Err(e) => Err(e)
      case Ok(y) => PrependOk([y], MapOrFail(xs[1..], f))
  }

  /** `acc` in front of a successful result; a failure stays that failure. */
  function PrependOk<U>(acc: seq<U>, r: Result<seq<U>>): Result<seq<U>> {
    match r
    case Err(e) => Err(e)
    case Ok(rest) => Ok(acc + rest)
  }

  lemma PrependOkNothing<U>(r: Result<seq<U>>)
    ensures PrependOk([], r) == r
  {
    if r.Ok? {
      assert [] + r.value == r.value;
    }
  }

  lemma PrependOkAssoc<U>(acc: seq<U>, b: seq<U>, r: Result<seq<U>>)
    ensures PrependOk(acc, PrependOk(b, r)) == PrependOk(acc + b, r)
  {
    if r.Ok? {
      assert acc + (b + r.value) == acc + b + r.value;
    }
  }

  /** One step of a loop over `xs`: a failing element ends it with that failure, a good one moves its value to the accumulator. */
  lemma MapOrFailStep<T, U>(xs: seq<T>, f: T -> Result<U>, acc: seq<U>)
    requires xs != []
    ensures f(xs[0]).Err? ==> MapOrFail(xs, f) == Err(f(xs[0]).error)
    ensures f(xs[0]).Ok? ==> PrependOk(acc, MapOrFail(xs, f)) == PrependOk(acc + [f(xs[0]).value], MapOrFail(xs[1..], f))
  {
    if f(xs[0]).Ok? {
      PrependOkAssoc(acc, [f(xs[0]).value], MapOrFail(xs[1..], f));
    }
  }

  /** The result is a success exactly when every element succeeds. */
  lemma {:induction false} MapOrFailOk<T, U>(xs: seq<T>, f: T -> Result<U>)
    ensures MapOrFail(xs, f).Ok? <==> forall k :: 0 <= k < |xs| ==> f(xs[k]).Ok?
  {
    if xs != [] {
      MapOrFailOk(xs[1..], f);
      forall k | 1 <= k < |xs| ensures xs[k] == xs[1..][k - 1] {
      }
    }
  }

  /** A success holds one value per element, in order. */
  lemma {:induction false} MapOrFailValues<T, U>(xs: seq<T>, f: T -> Result<U>)
    requires MapOrFail(xs, f).Ok?
    ensures |MapOrFail(xs, f).value| == |xs|
    ensures forall k :: 0 <= k < |xs| ==> f(xs[k]) == Ok(MapOrFail(xs, f).value[k])
  {
    if xs != [] {
      var y := f(xs[0]).value;
      MapOrFailValues(xs[1..], f);
      assert MapOrFail(xs, f).value == [y] + MapOrFail(xs[1..], f).value;
      forall k | 1 <= k < |xs| ensures xs[k] == xs[1..][k - 1] {
      }
    }
  }

  /** A failure is the failure of the first element that fails: nothing after it is looked at. */
  lemma {:induction false} MapOrFailFirstError<T, U>(xs: seq<T>, f: T -> Result<U>)
    requires MapOrFail(xs, f).Err?
    ensures exists j :: && 0 <= j < |xs|
                        && (forall k :: 0 <= k < j ==> f(xs[k]).Ok?)
                        && f(xs[j]).Err?
                        && MapOrFail(xs, f) == Err(f(xs[j]).error)
  {
    if f(xs[0]).Ok? {
      MapOrFailFirstError(xs[1..], f);
      var j :| && 0 <= j < |xs[1..]|
               && (forall k :: 0 <= k < j ==> f(xs[1..][k]).Ok?)
               && f(xs[1..][j]).Err?
               && MapOrFail(xs[1..], f) == Err(f(xs[1..][j]).error);
      assert forall k :: 0 <= k < j + 1 ==> f(xs[k]).Ok? by {
        forall k | 1 <= k < j + 1 ensures xs[k] == xs[1..][k - 1] {
        }
      }
      assert xs[j + 1] == xs[1..][j];
    } else {
      assert MapOrFail(xs, f) == Err(f(xs[0]).error);
    }
  }

  /** When every element gives its value, the result is those values. */
  lemma MapOrFailAllOk<T, U>(xs: seq<T>, f: T -> Result<U>, ys: seq<U>)
    requires |xs| == |ys| && forall k :: 0 <= k < |xs| ==> f(xs[k]) == Ok(ys[k])
    ensures MapOrFail(xs, f) == Ok(ys)
  {
    MapOrFailOk(xs, f);
    MapOrFailValues(xs, f);
    assert MapOrFail(xs, f).value == ys;
  }

  // ---------------------------------------------------------------- decoders

  /** `s[i:i+w]` for `i` in `range(0, len(s), w)`: the consecutive chunks of width `w`, the last one possibly shorter. */
  function Chunks(s: string, w: nat): seq<string>
    requires w > 0
  {
    if s == [] then [] else if |s| <= w then [s] else [s[..w]] + Chunks(s[w..], w)
  }

  /** `bytes((int(chunk, base),))`: the byte, or the `ValueError` that either call raises. */
  function ChunkByte(chunk: string, base: Base): (r: Result<Byte>)
    ensures r.Err? ==> r == Err(ValueError)
  {
    match ParseInt(chunk, base)
    case None => Err(ValueError)
    case Some(v) => if 0 <= v < 256 then Ok(v) else Err(ValueError)
  }

  /** A pair of the ASCII-hex string read as a byte. */
  function HexPair(pair: string): Result<Byte> {
    ChunkByte(pair, 16)
  }

  /** Eight characters of the binary string read as a byte. */
  function Octet(bits: string): Result<Byte> {
    ChunkByte(bits, 2)
  }

  /** The result of `ascii_hex_decode`: the length check first, then every pair, a failing pair reported as bad characters. */
  function AsciiHexDecoding(s: string): (r: Result<seq<Byte>>)
    ensures r.Ok? ==> |r.value| == |s| / 2
    ensures r.Err? ==> r.error.EncoderException?
  {
    if |s| % 2 != 0 then Err(EncoderException(BadLengthMsg))
    else
      ChunkCount(s, 2);
      match MapOrFail(Chunks(s, 2), HexPair)
      case Err(_) => Err(EncoderException(BadCharsMsg))
      case Ok(bytes) => Ok(bytes)
  }

  /** The result of `binary_decode`: the length check first, then every octet, a failing octet's `ValueError` left uncaught. */
  function BinaryDecoding(s: string): (r: Result<seq<Byte>>)
    ensures r.Ok? ==> |r.value| == |s| / 8
  {
    if |s| % 8 != 0 then Err(EncoderException(BadLengthMsg))
    else
      ChunkCount(s, 8);
      MapOrFail(Chunks(s, 8), Octet)
  }

  /** With the length a multiple of the width, the next chunk is a whole one. */
  lemma ChunkFits(n: nat, i: nat, w: nat)
    requires w == 2 || w == 8
    requires n % w == 0 && i % w == 0 && i < n
    ensures i + w <= n && (i + w) % w == 0
  {
  }

  /** A whole number of chunks is a multiple of the width. */
  lemma WholeWidths(n: nat, w: nat)
    requires w == 2 || w == 8
    ensures (w * n) % w == 0
  {
  }

  /** Dropping one whole chunk drops one from the chunk count. */
  lemma WholeChunkCount(n: nat, w: nat)
    requires w == 2 || w == 8
    requires n % w == 0 && n >= w
    ensures (n - w) % w == 0 && (n - w) / w == n / w - 1
  {
  }

  /** The chunks from position `i` on: the whole chunk at `i`, then the chunks after it. */
  lemma ChunksFrom(s: string, w: nat, i: nat)
    requires w > 0 && i + w <= |s|
    ensures Chunks(s[i..], w) != []
    ensures Chunks(s[i..], w)[0] == s[i..i + w]
    ensures Chunks(s[i..], w)[1..] == Chunks(s[i + w..], w)
  {
    var t := s[i..];
    assert t[..w] == s[i..i + w];
    if |t| == w {
      assert t[..w] == t;
      assert s[i + w..] == [];
      assert Chunks(t, w) == [t];
    } else {
      assert t[w..] == s[i + w..];
      assert Chunks(t, w) == [t[..w]] + Chunks(t[w..], w);
    }
  }

  /** Splitting off a leading chunk of exactly the width. */
  lemma ChunksCons(c: string, t: string, w: nat)
    requires w > 0 && |c| == w
    ensures Chunks(c + t, w) == [c] + Chunks(t, w)
  {
    var s := c + t;
    assert s[..w] == c;
    if t == [] {
      assert s == c;
    } else {
      assert s[w..] == t;
    }
  }

  /** A string whose length is a multiple of `w` splits into `|s| / w` chunks. */
  lemma {:induction false} ChunkCount(s: string, w: nat)
    requires w == 2 || w == 8
    requires |s| % w == 0
    ensures |Chunks(s, w)| == |s| / w
    decreases |s|
  {
    if s != [] {
      ChunkFits(|s|, 0, w);
      assert s[0..] == s;
      ChunksFrom(s, w, 0);
      WholeChunkCount(|s|, w);
      ChunkCount(s[w..], w);
    }
  }

  /** Pair `k` of an even-length string is its characters `2k` and `2k + 1`. */
  lemma {:induction false} HexPairsAt(s: string)
    requires |s| % 2 == 0
    ensures |Chunks(s, 2)| == |s| / 2
    ensures forall k :: 0 <= k < |s| / 2 ==> Chunks(s, 2)[k] == [s[2 * k], s[2 * k + 1]]
    decreases |s|
  {
    if s != [] {
      var t := s[2..];
      HexPairsAt(t);
      assert s == [s[0], s[1]] + t;
      ChunksCons([s[0], s[1]], t, 2);
      forall k | 1 <= k < |s| / 2 ensures Chunks(s, 2)[k] == [s[2 * k], s[2 * k + 1]] {
        assert Chunks(s, 2)[k] == Chunks(t, 2)[k - 1];
        assert t[2 * (k - 1)] == s[2 * k] && t[2 * (k - 1) + 1] == s[2 * k + 1];
      }
    }
  }

  /** Rejects an odd length, then decodes pair by pair, turning the `ValueError` of a bad pair into bad characters. */
  method AsciiHexDecode(hexString: string) returns (r: Result<seq<Byte>>)
    ensures r == AsciiHexDecoding(hexString)
  {
    if |hexString| % 2 != 0 {
      return Err(EncoderException(BadLengthMsg));
    }
    var decodedBytes: seq<Byte> := [];
    var i := 0;
    assert hexString[i..] == hexString;
    PrependOkNothing(MapOrFail(Chunks(hexString, 2), HexPair));
    while i < |hexString|
      invariant 0 <= i <= |hexString| && i % 2 == 0
      invariant MapOrFail(Chunks(hexString, 2), HexPair)
                == PrependOk(decodedBytes, MapOrFail(Chunks(hexString[i..], 2), HexPair))
      decreases |hexString| - i
    {
      ChunkFits(|hexString|, i, 2);
      var pair := hexString[i..i + 2];
      ChunksFrom(hexString, 2, i);
      MapOrFailStep(Chunks(hexString[i..], 2), HexPair, decodedBytes);
      var v := ParseInt(pair, 16);
      if v.None? || !(0 <= v.value < 256) {
        return Err(EncoderException(BadCharsMsg));
      }
      decodedBytes := decodedBytes + [v.value];
      i := i + 2;
    }
    assert hexString[i..] == [];
    assert decodedBytes + [] == decodedBytes;
    return Ok(decodedBytes);
  }

  /** Rejects a length that is not a multiple of eight, then decodes octet by octet; a bad octet's `ValueError` escapes. */
  method BinaryDecode(binaryString: string) returns (r: Result<seq<Byte>>)
    ensures r == BinaryDecoding(binaryString)
  {
    if |binaryString| % 8 != 0 {
      return Err(EncoderException(BadLengthMsg));
    }
    var decodedBytes: seq<Byte> := [];
    var i := 0;
    assert binaryString[i..] == binaryString;
    PrependOkNothing(MapOrFail(Chunks(binaryString, 8), Octet));
    while i < |binaryString|
      invariant 0 <= i <= |binaryString| && i % 8 == 0
      invariant MapOrFail(Chunks(binaryString, 8), Octet)
                == PrependOk(decodedBytes, MapOrFail(Chunks(binaryString[i..], 8), Octet))
      decreases |binaryString| - i
    {
      ChunkFits(|binaryString|, i, 8);
      var bits := binaryString[i..i + 8];
      ChunksFrom(binaryString, 8, i);
      MapOrFailStep(Chunks(binaryString[i..], 8), Octet, decodedBytes);
      var v := ParseInt(bits, 2);
      if v.None? || !(0 <= v.value < 256) {
        return Err(ValueError);
      }
      decodedBytes := decodedBytes + [v.value];
      i := i + 8;
    }
    assert binaryString[i..] == [];
    assert decodedBytes + [] == decodedBytes;
    return Ok(decodedBytes);
  }

  // ---------------------------------------------------------------- what the decoders accept

  /**
   * `ascii_hex_decode` accepts a string exactly when its length is even and
   * every pair passes `int(pair, 16)` and `bytes()`; the bytes are then the
   * pairs' values in order (`HexPairsAt` says where each pair sits). An odd
   * length is reported as a bad length, a bad pair as bad characters.
   */
  lemma AsciiHexDecodingSpec(s: string)
    ensures |s| % 2 != 0 ==> AsciiHexDecoding(s) == Err(EncoderException(BadLengthMsg))
    ensures AsciiHexDecoding(s).Ok? <==>
              |s| % 2 == 0 && forall k :: 0 <= k < |Chunks(s, 2)| ==> HexPair(Chunks(s, 2)[k]).Ok?
    ensures |s| % 2 == 0 && AsciiHexDecoding(s).Err? ==> AsciiHexDecoding(s) == Err(EncoderException(BadCharsMsg))
    ensures AsciiHexDecoding(s).Ok? ==>
              && |AsciiHexDecoding(s).value| == |Chunks(s, 2)| == |s| / 2
              && forall k :: 0 <= k < |Chunks(s, 2)| ==> HexPair(Chunks(s, 2)[k]) == Ok(AsciiHexDecoding(s).value[k])
  {
    if |s| % 2 == 0 {
      ChunkCount(s, 2);
      MapOrFailOk(Chunks(s, 2), HexPair);
      if AsciiHexDecoding(s).Ok? {
        MapOrFailValues(Chunks(s, 2), HexPair);
      }
    }
  }

  /**
   * `binary_decode` accepts a string exactly when its length is a multiple of
   * eight and every octet passes `int(bits, 2)` and `bytes()`; a bad octet's
   * `ValueError` is not turned into an `EncoderException`.
   */
  lemma BinaryDecodingSpec(s: string)
    ensures |s| % 8 != 0 ==> BinaryDecoding(s) == Err(EncoderException(BadLengthMsg))
    ensures BinaryDecoding(s).Ok? <==>
              |s| % 8 == 0 && forall k :: 0 <= k < |Chunks(s, 8)| ==> Octet(Chunks(s, 8)[k]).Ok?
    ensures |s| % 8 == 0 && BinaryDecoding(s).Err? ==> BinaryDecoding(s) == Err(ValueError)
    ensures BinaryDecoding(s).Ok? ==>
              && |BinaryDecoding(s).value| == |Chunks(s, 8)| == |s| / 8
              && forall k :: 0 <= k < |Chunks(s, 8)| ==> Octet(Chunks(s, 8)[k]) == Ok(BinaryDecoding(s).value[k])
  {
    if |s| % 8 == 0 {
      var cs := Chunks(s, 8);
      ChunkCount(s, 8);
      MapOrFailOk(cs, Octet);
      if BinaryDecoding(s).Ok? {
        MapOrFailValues(cs, Octet);
      } else {
        MapOrFailFirstError(cs, Octet);
        var j :| 0 <= j < |cs| && Octet(cs[j]).Err? && MapOrFail(cs, Octet) == Err(Octet(cs[j]).error);
        assert Octet(cs[j]) == Err(ValueError);
      }
    }
  }

  /** Two hexadecimal digits always make a byte: sixteen times the first plus the second. */
  lemma HexPairByte(c0: char, c1: char)
    requires IsHexDigit(c0) && IsHexDigit(c1)
    ensures HexPair([c0, c1]) == Ok(16 * DigitValue(c0) + DigitValue(c1))
  {
    HexPairValue(c0, c1);
  }

  /** On an even-length string of hexadecimal digits, byte `k` is `16 * d(2k) + d(2k+1)`. */
  lemma StrictHexDecoding(s: string)
    requires |s| % 2 == 0 && forall i :: 0 <= i < |s| ==> IsHexDigit(s[i])
    ensures AsciiHexDecoding(s).Ok?
    ensures |AsciiHexDecoding(s).value| == |s| / 2
    ensures forall k :: 0 <= k < |s| / 2 ==>
              AsciiHexDecoding(s).value[k] == 16 * DigitValue(s[2 * k]) + DigitValue(s[2 * k + 1])
  {
    var cs := Chunks(s, 2);
    HexPairsAt(s);
    forall k | 0 <= k < |cs|
      ensures HexPair(cs[k]) == Ok(16 * DigitValue(s[2 * k]) + DigitValue(s[2 * k + 1]))
    {
      HexPairByte(s[2 * k], s[2 * k + 1]);
    }
    AsciiHexDecodingSpec(s);
  }

  /** ASCII lower-casing, the only case difference hexadecimal digits have. */
  function LowerAscii(c: char): (l: char)
    ensures IsHexDigit(c) ==> IsHexDigit(l) && DigitValue(l) == DigitValue(c)
  {
    if 'A' <= c <= 'Z' then (c as int - 'A' as int + 'a' as int) as char else c
  }

  /** Upper- and lower-case hexadecimal digits decode to the same bytes. */
  lemma DecodingIgnoresCase(s: string)
    requires |s| % 2 == 0 && forall i :: 0 <= i < |s| ==> IsHexDigit(s[i])
    ensures AsciiHexDecoding(seq(|s|, i requires 0 <= i < |s| => LowerAscii(s[i]))) == AsciiHexDecoding(s)
  {
    var t := seq(|s|, i requires 0 <= i < |s| => LowerAscii(s[i]));
    StrictHexDecoding(s);
    StrictHexDecoding(t);
    var a, b := AsciiHexDecoding(t).value, AsciiHexDecoding(s).value;
    assert |a| == |b|;
    forall k | 0 <= k < |a| ensures a[k] == b[k] {
      assert t[2 * k] == LowerAscii(s[2 * k]) && t[2 * k + 1] == LowerAscii(s[2 * k + 1]);
    }
    assert a == b;
  }

  // ---------------------------------------------------------------- round trips

  /** Read back by `int(bits, 2)`, the eight bits of a byte give the byte. */
  lemma BitsByte(b: Byte)
    ensures Octet(BitsOf(b, 8)) == Ok(b)
  {
    assert Pow2(8) == 256;
    ParseIntOfDigits(BitsOf(b, 8), 2);
    BitsOfValue(b, 8);
  }

  /** The octets of the binary encoding are the bytes' eight-bit forms, one per byte. */
  lemma {:induction false} BinaryChunks(bytes: seq<Byte>)
    ensures |Chunks(BinaryEncoding(bytes), 8)| == |bytes|
    ensures forall k :: 0 <= k < |bytes| ==> Chunks(BinaryEncoding(bytes), 8)[k] == BitsOf(bytes[k], 8)
  {
    if bytes != [] {
      ChunksCons(BitsOf(bytes[0], 8), BinaryEncoding(bytes[1..]), 8);
      BinaryChunks(bytes[1..]);
      forall k | 1 <= k < |bytes| ensures bytes[k] == bytes[1..][k - 1] {
      }
    }
  }

  /** `binary_decode(binary_encode(b)) == b` for every byte string, the empty one included. */
  lemma BinaryRoundTrip(bytes: seq<Byte>)
    ensures BinaryDecoding(BinaryEncoding(bytes)) == Ok(bytes)
  {
    var cs := Chunks(BinaryEncoding(bytes), 8);
    BinaryChunks(bytes);
    forall k | 0 <= k < |cs| ensures Octet(cs[k]) == Ok(bytes[k]) {
      BitsByte(bytes[k]);
    }
    MapOrFailAllOk(cs, Octet, bytes);
    WholeWidths(|bytes|, 8);
  }

  /** A byte of at least `0x10` gets two digits, and they decode back to it. */
  lemma WideHexByte(b: Byte)
    requires b >= 16
    ensures |HexOf(b)| == 2 && HexPair(HexOf(b)) == Ok(b)
  {
    HexOfByte(b);
    HexPairByte(HexDigit(b / 16), HexDigit(b % 16));
  }

  /** When every byte is at least `0x10`, the pairs of the encoding are the bytes' `hex()` digits, one pair per byte. */
  lemma {:induction false} WideHexChunks(bytes: seq<Byte>)
    requires forall k :: 0 <= k < |bytes| ==> bytes[k] >= 16
    ensures |AsciiHexEncoding(bytes)| == 2 * |bytes|
    ensures |Chunks(AsciiHexEncoding(bytes), 2)| == |bytes|
    ensures forall k :: 0 <= k < |bytes| ==> Chunks(AsciiHexEncoding(bytes), 2)[k] == HexOf(bytes[k])
  {
    if bytes != [] {
      HexOfByte(bytes[0]);
      WideHexChunks(bytes[1..]);
      ChunksCons(HexOf(bytes[0]), AsciiHexEncoding(bytes[1..]), 2);
      forall k | 1 <= k < |bytes| ensures bytes[k] == bytes[1..][k - 1] {
      }
    }
  }

  /** The ASCII-hex encoding is never longer than two digits per byte, and is shorter as soon as one byte is below `0x10`. */
  lemma {:induction false} AsciiHexEncodingLength(bytes: seq<Byte>)
    ensures |AsciiHexEncoding(bytes)| <= 2 * |bytes|
    ensures (exists k :: 0 <= k < |bytes| && bytes[k] < 16) ==> |AsciiHexEncoding(bytes)| < 2 * |bytes|
  {
    if bytes != [] {
      HexOfByte(bytes[0]);
      AsciiHexEncodingLength(bytes[1..]);
      if exists k :: 0 <= k < |bytes| && bytes[k] < 16 {
        var k :| 0 <= k < |bytes| && bytes[k] < 16;
        if k > 0 {
          assert bytes[1..][k - 1] < 16;
        }
      }
    }
  }

  lemma HalfBelow(n: nat, m: nat)
    requires n < 2 * m
    ensures n / 2 < m
  {
  }

  /**
   * `ascii_hex_decode(ascii_hex_encode(b)) == b` holds exactly when every byte
   * is at least `0x10`: `hex()` writes a smaller byte as a single digit, which
   * throws every later pair out of step.
   */
  lemma AsciiHexRoundTrip(bytes: seq<Byte>)
    ensures AsciiHexDecoding(AsciiHexEncoding(bytes)) == Ok(bytes) <==> forall k :: 0 <= k < |bytes| ==> bytes[k] >= 16
  {
    var s := AsciiHexEncoding(bytes);
    if forall k :: 0 <= k < |bytes| ==> bytes[k] >= 16 {
      var cs := Chunks(s, 2);
      WideHexChunks(bytes);
      forall k | 0 <= k < |cs| ensures HexPair(cs[k]) == Ok(bytes[k]) {
        WideHexByte(bytes[k]);
      }
      MapOrFailAllOk(cs, HexPair, bytes);
      WholeWidths(|bytes|, 2);
    } else {
      AsciiHexEncodingLength(bytes);
      AsciiHexDecodingSpec(s);
      if |s| % 2 == 0 {
        HalfBelow(|s|, |bytes|);
      }
    }
  }

  /** The smallest witness: the byte `0x05` encodes to `"5"`, which the decoder rejects for its length. */
  lemma AsciiHexRoundTripCounterexample()
    ensures AsciiHexEncoding([5]) == "5"
    ensures AsciiHexDecoding("5") == Err(EncoderException(BadLengthMsg))
  {
    assert HexOf(5) == "5";
    assert [5][1..] == [];
  }

  /** `'%02x' % b`: the two-digit form `ascii_hex_decode` expects. */
  function PaddedHexOf(b: Byte): (r: string)
    ensures |r| == 2
  {
    HexOfByte(b);
    if b < 16 then "0" + HexOf(b) else HexOf(b)
  }

  /** The ASCII-hex encoding with every byte written as two digits. */
  function PaddedAsciiHexEncoding(bytes: seq<Byte>): (s: string)
    ensures |s| == 2 * |bytes|
  {
    if bytes == [] then "" else PaddedHexOf(bytes[0]) + PaddedAsciiHexEncoding(bytes[1..])
  }

  /** Every byte's two padded digits decode back to it. */
  lemma PaddedHexByte(b: Byte)
    ensures HexPair(PaddedHexOf(b)) == Ok(b)
  {
    HexOfByte(b);
    if b < 16 {
      assert PaddedHexOf(b) == ['0', HexDigit(b)];
      HexPairByte('0', HexDigit(b));
    } else {
      HexPairByte(HexDigit(b / 16), HexDigit(b % 16));
    }
  }

  /** The pairs of the padded encoding are the bytes' padded digits, one pair per byte. */
  lemma {:induction false} PaddedHexChunks(bytes: seq<Byte>)
    ensures |Chunks(PaddedAsciiHexEncoding(bytes), 2)| == |bytes|
    ensures forall k :: 0 <= k < |bytes| ==> Chunks(PaddedAsciiHexEncoding(bytes), 2)[k] == PaddedHexOf(bytes[k])
  {
    if bytes != [] {
      ChunksCons(PaddedHexOf(bytes[0]), PaddedAsciiHexEncoding(bytes[1..]), 2);
      PaddedHexChunks(bytes[1..]);
      forall k | 1 <= k < |bytes| ensures bytes[k] == bytes[1..][k - 1] {
      }
    }
  }

  /** With two digits per byte the round trip holds for every byte string. */
  lemma PaddedAsciiHexRoundTrip(bytes: seq<Byte>)
    ensures AsciiHexDecoding(PaddedAsciiHexEncoding(bytes)) == Ok(bytes)
  {
    var cs := Chunks(PaddedAsciiHexEncoding(bytes), 2);
    PaddedHexChunks(bytes);
    forall k | 0 <= k < |cs| ensures HexPair(cs[k]) == Ok(bytes[k]) {
      PaddedHexByte(bytes[k]);
    }
    MapOrFailAllOk(cs, HexPair, bytes);
    WholeWidths(|bytes|, 2);
  }

  // ---------------------------------------------------------------- what `int()` lets through

  /** `int()` skips surrounding whitespace, so a padded single digit is accepted. */
  lemma HexDecodingSkipsSpace()
    ensures AsciiHexDecoding(" 5") == Ok([5])
  {
    var s := " 5";
    assert SpaceRunEnd(s, 0, IntSpace) == 1;
    assert SpaceRunStart(s, 1, 2, IntSpace) == 2;
    assert Trim(s, IntSpace) == "5";
    assert DropPrefix(DropSign("5"), 16) == "5";
    assert WellFormedDigits("5", 16);
    assert DigitsValue("5", 16) == 5 by {
      assert "5"[..0] == [];
    }
    assert HexPair(s) == Ok(5);
    assert Chunks(s, 2) == [s];
    AsciiHexDecodingSpec(s);
    assert AsciiHexDecoding(s).value == [5];
  }

  /** A sign is parsed, and a negative value is then refused by `bytes()` and reported as bad characters. */
  lemma HexDecodingRejectsNegative()
    ensures AsciiHexDecoding("-1") == Err(EncoderException(BadCharsMsg))
  {
    var s := "-1";
    assert SpaceRunEnd(s, 0, IntSpace) == 0;
    assert SpaceRunStart(s, 0, 2, IntSpace) == 2;
    assert Trim(s, IntSpace) == s;
    assert DropPrefix(DropSign(s), 16) == "1";
    assert WellFormedDigits("1", 16);
    assert DigitsValue("1", 16) == 1 by {
      assert "1"[..0] == [];
    }
    assert ParseInt(s, 16) == Some(-1);
    assert Chunks(s, 2) == [s];
    AsciiHexDecodingSpec(s);
  }

  /** The `0b` prefix is accepted inside an octet. */
  lemma BinaryDecodingAcceptsPrefix()
    ensures BinaryDecoding("0b000101") == Ok([5])
  {
    var s := "0b000101";
    assert SpaceRunEnd(s, 0, IntSpace) == 0;
    assert SpaceRunStart(s, 0, 8, IntSpace) == 8;
    assert Trim(s, IntSpace) == s;
    var digits := "000101";
    assert DropPrefix(DropSign(s), 2) == digits;
    assert forall i :: 0 <= i < |digits| ==> IsDigitOf(digits[i], 2);
    assert WellFormedDigits(digits, 2);
    assert BitsOf(5, 6) == digits;
    assert Pow2(6) == 64;
    BitsOfValue(5, 6);
    assert Octet(s) == Ok(5);
    assert Chunks(s, 8) == [s];
    MapOrFailAllOk([s], Octet, [5]);
  }

  /** `int()` does not skip the separator U+001C that `strip()` would, so a pair holding one is bad characters. */
  lemma HexDecodingRejectsSeparator()
    ensures AsciiHexDecoding("ab\U{1C}5") == Err(EncoderException(BadCharsMsg))
  {
    var s := "ab\U{1C}5";
    var pair := "\U{1C}5";
    SeparatorNotSkippedByInt();
    assert HexPair(pair).Err?;
    assert s[2..] == pair && s[..2] == "ab";
    assert Chunks(s, 2)[1] == pair;
    AsciiHexDecodingSpec(s);
  }

  /** The same separator makes an octet fail with the `ValueError` that `binary_decode` lets escape. */
  lemma BinaryDecodingRejectsSeparator()
    ensures BinaryDecoding("\U{1C}0000101") == Err(ValueError)
  {
    var s := "\U{1C}0000101";
    assert SpaceRunEnd(s, 0, IntSpace) == 0;
    assert SpaceRunStart(s, 0, 8, IntSpace) == 8;
    assert Trim(s, IntSpace) == s;
    assert DropPrefix(DropSign(s), 2) == s;
    assert !WellFormedDigits(s, 2);
    assert Octet(s) == Err(ValueError);
    assert Chunks(s, 8) == [s];
    assert [s][1..] == [];
  }

  // ---------------------------------------------------------------- schemes and decode_list

  /** The encoding scheme classes; `decode_list` is handed one of them. */
  datatype Scheme = Base64 | AsciiHex | Binary | Url | Plain

  /**
   * The decoders that delegate to the standard library (`base64.b64decode`,
   * `urllib.parse.unquote_to_bytes`, `bytes(s, 'utf-8')`), given as functions.
   * Their exceptions (`binascii.Error`, `UnicodeEncodeError`) are kinds of
   * `ValueError`.
   */
  datatype LibraryCodecs = LibraryCodecs(base64: string -> Result<Row>, url: string -> Result<Row>, plain: string -> Result<Row>)

  /** What the standard library promises of these decoders: they fail only with kinds of `ValueError`. */
  ghost predicate RaisesValueErrorOnly(lib: LibraryCodecs) {
    forall line: string ::
      && (lib.base64(line).Err? ==> lib.base64(line).error == ValueError)
      && (lib.url(line).Err? ==> lib.url(line).error == ValueError)
      && (lib.plain(line).Err? ==> lib.plain(line).error == ValueError)
  }

  /** `scheme.decode(line)`. */
  function Decode(scheme: Scheme, line: string, lib: LibraryCodecs): (r: Result<Row>)
    ensures scheme == AsciiHex ==> (r.Ok? ==> |r.value| == |line| / 2) && (r.Err? ==> r.error.EncoderException?)
    ensures scheme == Binary && r.Ok? ==> |r.value| == |line| / 8
  {
    match scheme
    case Base64 => lib.base64(line)
    case AsciiHex => AsciiHexDecoding(line)
    case Binary => BinaryDecoding(line)
    case Url => lib.url(line)
    case Plain => lib.plain(line)
  }

  /** The static `decode` of each scheme class, calling the decoding methods above. */
  method DecodeLine(scheme: Scheme, line: string, lib: LibraryCodecs) returns (r: Result<Row>)
    ensures r == Decode(scheme, line, lib)
  {
    match scheme
    case Base64 => r := lib.base64(line);
    case AsciiHex => r := AsciiHexDecode(line);
    case Binary => r := BinaryDecode(line);
    case Url => r := lib.url(line);
    case Plain => r := lib.plain(line);
  }

  /** `scheme.decode` as a function value. */
  function LineDecoder(scheme: Scheme, lib: LibraryCodecs): string -> Result<Row> {
    line => Decode(scheme, line, lib)
  }

  /** The rows of `decode_list`: every line decoded in order, the first failure propagated. */
  function DecodeAll(lines: seq<string>, scheme: Scheme, lib: LibraryCodecs): (r: Result<Table>)
    ensures r.Ok? ==> |r.value| == |lines|
  {
    MapOrFail(lines, LineDecoder(scheme, lib))
  }

  /** Appends the decoding of every line in turn; the first line that fails ends the call with its failure. */
  method DecodeList(l: seq<string>, encoder: Scheme, lib: LibraryCodecs) returns (r: Result<Table>)
    ensures r == DecodeAll(l, encoder, lib)
  {
    var sequence: Table := [];
    assert l[0..] == l;
    PrependOkNothing(DecodeAll(l, encoder, lib));
    for i := 0 to |l|
      invariant DecodeAll(l, encoder, lib) == PrependOk(sequence, DecodeAll(l[i..], encoder, lib))
    {
      var decoded := DecodeLine(encoder, l[i], lib);
      assert l[i..][0] == l[i] && l[i..][1..] == l[i + 1..];
      MapOrFailStep(l[i..], LineDecoder(encoder, lib), sequence);
      if decoded.Err? {
        return Err(decoded.error);
      }
      sequence := sequence + [decoded.value];
    }
    assert l[|l|..] == [];
    assert sequence + [] == sequence;
    return Ok(sequence);
  }

  /** The table is built exactly when every line decodes, and then row `k` is line `k` decoded. */
  lemma DecodeAllOk(lines: seq<string>, scheme: Scheme, lib: LibraryCodecs)
    ensures DecodeAll(lines, scheme, lib).Ok? <==> forall k :: 0 <= k < |lines| ==> Decode(scheme, lines[k], lib).Ok?
    ensures DecodeAll(lines, scheme, lib).Ok? ==>
              && |DecodeAll(lines, scheme, lib).value| == |lines|
              && forall k :: 0 <= k < |lines| ==> Decode(scheme, lines[k], lib) == Ok(DecodeAll(lines, scheme, lib).value[k])
  {
    var f := LineDecoder(scheme, lib);
    forall k | 0 <= k < |lines| ensures f(lines[k]) == Decode(scheme, lines[k], lib) {
    }
    MapOrFailOk(lines, f);
    if DecodeAll(lines, scheme, lib).Ok? {
      MapOrFailValues(lines, f);
    }
  }

  /** A failure is the failure of the first line that does not decode: `decode_list` stops there. */
  lemma DecodeAllFirstFailure(lines: seq<string>, scheme: Scheme, lib: LibraryCodecs)
    ensures DecodeAll(lines, scheme, lib).Err? ==>
              exists j :: && 0 <= j < |lines|
                          && (forall k :: 0 <= k < j ==> Decode(scheme, lines[k], lib).Ok?)
                          && Decode(scheme, lines[j], lib).Err?
                          && DecodeAll(lines, scheme, lib) == Err(Decode(scheme, lines[j], lib).error)
  {
    var f := LineDecoder(scheme, lib);
    if DecodeAll(lines, scheme, lib).Err? {
      MapOrFailFirstError(lines, f);
      var j :| && 0 <= j < |lines|
               && (forall k :: 0 <= k < j ==> f(lines[k]).Ok?)
               && f(lines[j]).Err?
               && MapOrFail(lines, f) == Err(f(lines[j]).error);
      forall k | 0 <= k < j ensures Decode(scheme, lines[k], lib).Ok? {
        assert f(lines[k]).Ok?;
      }
      assert f(lines[j]) == Decode(scheme, lines[j], lib);
    }
  }

  /**
   * A line that fails to decode fails with a `ValueError` or with the
   * bad-length or bad-characters message, never with the bad-encoder one.
   */
  lemma DecodeFailureKinds(scheme: Scheme, line: string, lib: LibraryCodecs)
    requires RaisesValueErrorOnly(lib)
    ensures Decode(scheme, line, lib).Err? ==>
              Decode(scheme, line, lib).error in {ValueError, EncoderException(BadLengthMsg), EncoderException(BadCharsMsg)}
  {
    match scheme
    case AsciiHex => AsciiHexDecodingSpec(line);
    case Binary => BinaryDecodingSpec(line);
    case _ =>
  }
}
