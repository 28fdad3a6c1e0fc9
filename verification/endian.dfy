/** Byte order of words in a binary (`First`) and decoding of one
    fixed-width word from its bytes. */
module Endian {
  import opened Base
  import Numeric

  /** Least- or most-significant byte first (little/big-endian). */
  datatype First = Lsb | Msb

  /** The byte order used when none is declared. */
  function DefaultFirst(): (f: First)
    ensures f == Lsb
  {
    Lsb
  }

  /** The configuration spelling of a byte order. */
  function FirstName(f: First): string
  {
    match f
    case Lsb => "lsb"
    case Msb => "msb"
  }

  /** Parses a byte order; only the two spellings `lsb` and `msb` are
      accepted. */
  function ParseFirst(s: string): (r: Result<First, Error>)
    ensures r.Ok? <==> s == "lsb" || s == "msb"
    ensures r.Err? ==> r.error == NeitherLsbNorMsbFirst
  {
    if s == "lsb" then Ok(Lsb)
    else if s == "msb" then Ok(Msb)
    else Err(NeitherLsbNorMsbFirst)
  }

  lemma ParseFirstName(f: First)
    ensures ParseFirst(FirstName(f)) == Ok(f)
  {
  }

  /** Little-endian value: byte i weighs 256^i. */
  function DecodeLsb(chunk: seq<Byte>): nat
  {
    if |chunk| == 0 then 0 else chunk[0] + 256 * DecodeLsb(chunk[1..])
  }

  /** Big-endian value: the last byte weighs 1, each byte before it 256
      times the next. */
  function DecodeMsb(chunk: seq<Byte>): nat
  {
    if |chunk| == 0 then 0
    else 256 * DecodeMsb(chunk[..|chunk| - 1]) + chunk[|chunk| - 1]
  }

  /** The `n` least significant bytes of `v`, least significant first. */
  function EncodeLsb(v: nat, n: nat): (r: seq<Byte>)
    ensures |r| == n
  {
    if n == 0 then [] else [v % 256] + EncodeLsb(v / 256, n - 1)
  }

  function Reverse<T>(s: seq<T>): (r: seq<T>)
    ensures |r| == |s|
    ensures forall i :: 0 <= i < |s| ==> r[i] == s[|s| - 1 - i]
  {
    if |s| == 0 then [] else [s[|s| - 1]] + Reverse(s[..|s| - 1])
  }

  /** A little-endian value of n bytes is below 256^n. */
  lemma {:induction false} DecodeLsbBound(chunk: seq<Byte>)
    ensures DecodeLsb(chunk) < Pow(256, |chunk|)
  {
    if |chunk| > 0 {
      DecodeLsbBound(chunk[1..]);
      var rest := DecodeLsb(chunk[1..]);
      assert rest + 1 <= Pow(256, |chunk| - 1);
      assert 256 * (rest + 1) <= 256 * Pow(256, |chunk| - 1);
    }
  }

  /** A big-endian value of n bytes is below 256^n. */
  lemma {:induction false} DecodeMsbBound(chunk: seq<Byte>)
    ensures DecodeMsb(chunk) < Pow(256, |chunk|)
  {
    if |chunk| > 0 {
      var init := chunk[..|chunk| - 1];
      DecodeMsbBound(init);
      var rest := DecodeMsb(init);
      assert rest + 1 <= Pow(256, |chunk| - 1);
      assert 256 * (rest + 1) <= 256 * Pow(256, |chunk| - 1);
    }
  }

  /** Decoding a little-endian encoding recovers the value. */
  lemma {:induction false} DecodeEncodeLsb(v: nat, n: nat)
    requires v < Pow(256, n)
    ensures DecodeLsb(EncodeLsb(v, n)) == v
  {
    if n > 0 {
      assert v / 256 < Pow(256, n - 1);
      DecodeEncodeLsb(v / 256, n - 1);
      assert EncodeLsb(v, n)[1..] == EncodeLsb(v / 256, n - 1);
    }
  }

  /** Encoding the little-endian value of bytes recovers the bytes. */
  lemma {:induction false} EncodeDecodeLsb(chunk: seq<Byte>)
    ensures EncodeLsb(DecodeLsb(chunk), |chunk|) == chunk
  {
    if |chunk| > 0 {
      var v := DecodeLsb(chunk);
      EncodeDecodeLsb(chunk[1..]);
      assert v % 256 == chunk[0];
      assert v / 256 == DecodeLsb(chunk[1..]);
      assert chunk == [chunk[0]] + chunk[1..];
    }
  }

  /** Reading bytes most significant first is reading the reversed bytes
      least significant first. */
  lemma {:induction false} DecodeMsbReversed(chunk: seq<Byte>)
    ensures DecodeMsb(chunk) == DecodeLsb(Reverse(chunk))
  {
    if |chunk| > 0 {
      var init := chunk[..|chunk| - 1];
      DecodeMsbReversed(init);
      assert Reverse(chunk)[1..] == Reverse(init);
    }
  }

  /** A decoded word of the byte order `first`; at most 16 bytes, so it
      fits the 128-bit word type. */
  function Decode(chunk: seq<Byte>, first: First): U128
    requires |chunk| <= Numeric.MaxAlign
  {
    DecodeLsbBound(chunk);
    DecodeMsbBound(chunk);
    PowMonotonic(256, |chunk|, 16);
    PowBytes(16);
    Pow2Constants();
    match first
    case Lsb => DecodeLsb(chunk)
    case Msb => DecodeMsb(chunk)
  }

  /** What a decoded word is: below 256^n for n bytes; with `Lsb` byte i
      weighs 256^i, with `Msb` the bytes are taken in reverse. */
  lemma DecodeMeaning(chunk: seq<Byte>, first: First)
    requires |chunk| <= Numeric.MaxAlign
    ensures Decode(chunk, first) < Pow(256, |chunk|)
    ensures first == Lsb ==> Decode(chunk, first) == DecodeLsb(chunk)
    ensures first == Msb ==> Decode(chunk, first) == DecodeLsb(Reverse(chunk))
  {
    DecodeLsbBound(chunk);
    DecodeMsbBound(chunk);
    DecodeMsbReversed(chunk);
  }

  /** The endianness round trip: little-endian bytes of a value decode to
      the value with `Lsb`, and to the value of the reversed bytes with
      `Msb`. */
  lemma EndianRoundTrip(v: nat, n: nat)
    requires n <= Numeric.MaxAlign && v < Pow(256, n)
    ensures Decode(EncodeLsb(v, n), Lsb) == v
    ensures Decode(EncodeLsb(v, n), Msb) == DecodeLsb(Reverse(EncodeLsb(v, n)))
    ensures Decode(Reverse(EncodeLsb(v, n)), Msb) == v
  {
    DecodeEncodeLsb(v, n);
    var bytes := EncodeLsb(v, n);
    DecodeMeaning(bytes, Lsb);
    DecodeMeaning(bytes, Msb);
    DecodeMeaning(Reverse(bytes), Msb);
    assert Reverse(Reverse(bytes)) == bytes;
  }
}
