/**
 * The two string conversions the transaction bodies rely on: Rust's `format!("{}", n)` of an
 * unsigned number, and `String::as_bytes`, the UTF-8 encoding that turns an address string into a
 * store key.
 */
module Formatting {
  import opened Base

  /** The ASCII digit for `d`. */
  function DigitChar(d: nat): (c: char)
    requires d < 10
    ensures '0' <= c <= '9' && c as int - '0' as int == d
  {
    (('0' as int) + d) as char
  }

  predicate IsDigits(s: string) {
    forall i :: 0 <= i < |s| ==> '0' <= s[i] <= '9'
  }

  /** `format!("{}", n)`: the decimal digits of `n`, most significant first, without leading zeros. */
  function Decimal(n: nat): (s: string)
    ensures |s| >= 1 && IsDigits(s)
    ensures (s[0] == '0') == (n == 0)
    ensures (|s| == 1) == (n < 10)
    decreases n
  {
    if n < 10 then [DigitChar(n)] else Decimal(n / 10) + [DigitChar(n % 10)]
  }

  /** Reads a string of digits back as a number; the inverse of `Decimal`. */
  function ParseDecimal(s: string): nat
    requires IsDigits(s)
    decreases |s|
  {
    if s == [] then 0 else 10 * ParseDecimal(s[..|s| - 1]) + (s[|s| - 1] as int - '0' as int)
  }

  lemma {:induction false} ParseDecimalOfDecimal(n: nat)
    ensures ParseDecimal(Decimal(n)) == n
    decreases n
  {
    if n >= 10 {
      var s := Decimal(n);
      ParseDecimalOfDecimal(n / 10);
      assert s[..|s| - 1] == Decimal(n / 10);
    }
  }

  /** Distinct numbers print differently. */
  lemma DecimalInjective(m: nat, n: nat)
    ensures Decimal(m) == Decimal(n) ==> m == n
  {
    ParseDecimalOfDecimal(m);
    ParseDecimalOfDecimal(n);
  }

  /** The address string `format!("0x{}", i)` used to name accounts. */
  function Address(i: nat): (s: string)
    ensures |s| >= 3 && s[..2] == "0x" && s[2..] == Decimal(i)
  {
    "0x" + Decimal(i)
  }

  lemma AddressInjective(i: nat, j: nat)
    ensures Address(i) == Address(j) ==> i == j
  {
    if Address(i) == Address(j) {
      assert Address(i)[2..] == Address(j)[2..];
      DecimalInjective(i, j);
    }
  }

  // ---------------------------------------------------------------------------------------------
  // UTF-8

  /** A continuation byte `10xxxxxx` carrying the six bits `v`. */
  function Continuation(v: int): (b: u8)
    requires 0 <= v < 0x40
    ensures 0x80 <= b < 0xC0
  {
    (0x80 + v) as u8
  }

  /** The UTF-8 encoding of one Unicode scalar value. */
  function EncodeChar(c: char): (bs: seq<u8>)
    ensures 1 <= |bs| <= 4
    ensures (|bs| == 1) == (c as int < 0x80)
    ensures |bs| == 1 ==> bs[0] as int == c as int
    ensures |bs| > 1 ==> 0xC0 <= bs[0]
    ensures forall k :: 1 <= k < |bs| ==> 0x80 <= bs[k] < 0xC0
  {
    var cp := c as int;
    if cp < 0x80 then
      [cp as u8]
    else if cp < 0x800 then
      [(0xC0 + cp / 0x40) as u8, Continuation(cp % 0x40)]
    else if cp < 0x1_0000 then
      [(0xE0 + cp / 0x1000) as u8, Continuation(cp / 0x40 % 0x40), Continuation(cp % 0x40)]
    else
      [(0xF0 + cp / 0x4_0000) as u8, Continuation(cp / 0x1000 % 0x40),
       Continuation(cp / 0x40 % 0x40), Continuation(cp % 0x40)]
  }

  /** `String::as_bytes`: the UTF-8 encoding of a string, character by character. */
  function Utf8(s: string): (bs: seq<u8>)
    ensures |bs| >= |s|
    decreases |s|
  {
    if s == [] then [] else EncodeChar(s[0]) + Utf8(s[1..])
  }

  predicate IsScalar(cp: int) {
    0 <= cp < 0xD800 || 0xE000 <= cp < 0x11_0000
  }

  /** The length of the encoding that starts with byte `b0`; 0 for a byte that cannot start one. */
  function SequenceLength(b0: u8): nat {
    if b0 < 0x80 then 1 else if b0 < 0xC0 then 0 else if b0 < 0xE0 then 2
    else if b0 < 0xF0 then 3 else if b0 < 0xF8 then 4 else 0
  }

  /** The code point carried by the first `n` bytes of `bs`. */
  function CodePoint(bs: seq<u8>, n: nat): int
    requires 1 <= n <= 4 && n <= |bs|
  {
    var b0 := bs[0] as int;
    if n == 1 then b0
    else if n == 2 then (b0 - 0xC0) * 0x40 + (bs[1] as int - 0x80)
    else if n == 3 then (b0 - 0xE0) * 0x1000 + (bs[1] as int - 0x80) * 0x40 + (bs[2] as int - 0x80)
    else (b0 - 0xF0) * 0x4_0000 + (bs[1] as int - 0x80) * 0x1000
         + (bs[2] as int - 0x80) * 0x40 + (bs[3] as int - 0x80)
  }

  /** Decodes the first character of `bs`, with the number of bytes it occupies. */
  function DecodeFirst(bs: seq<u8>): (r: Option<(char, nat)>)
    ensures r.Some? ==> 1 <= r.value.1 <= |bs|
  {
    if |bs| == 0 then None
    else
      var n := SequenceLength(bs[0]);
      if n == 0 || |bs| < n then None
      else if exists k :: 1 <= k < n && !(0x80 <= bs[k] < 0xC0) then None
      else if IsScalar(CodePoint(bs, n)) then Some((CodePoint(bs, n) as char, n))
      else None
  }

  /**
   * Decodes a whole byte sequence: the inverse of `Utf8` (see `DecodeUtf8`). It returns `None` on
   * bad lead or continuation bytes and surrogates, but accepts overlong forms.
   */
  function Decode(bs: seq<u8>): Option<string>
    decreases |bs|
  {
    if bs == [] then Some([])
    else match DecodeFirst(bs)
      case None => None
      case Some((c, n)) =>
        match Decode(bs[n..])
        case None => None
        case Some(rest) => Some([c] + rest)
  }

  /** The code point of an encoded character, read back from its bytes, is the character's. */
  lemma CodePointOfEncodeChar(c: char, rest: seq<u8>)
    ensures |EncodeChar(c)| <= |EncodeChar(c) + rest|
    ensures CodePoint(EncodeChar(c) + rest, |EncodeChar(c)|) == c as int
  {
    var e := EncodeChar(c);
    var bs := e + rest;
    var cp := c as int;
    assert forall k :: 0 <= k < |e| ==> bs[k] == e[k];
    if cp < 0x80 {
    } else if cp < 0x800 {
      assert (cp / 0x40) * 0x40 + cp % 0x40 == cp;
    } else if cp < 0x1_0000 {
      assert (cp / 0x1000) * 0x1000 + (cp / 0x40 % 0x40) * 0x40 + cp % 0x40 == cp;
    } else {
      assert (cp / 0x4_0000) * 0x4_0000 + (cp / 0x1000 % 0x40) * 0x1000
             + (cp / 0x40 % 0x40) * 0x40 + cp % 0x40 == cp;
    }
  }

  /** The leading byte of an encoded character announces the encoding's length. */
  lemma SequenceLengthOfEncodeChar(c: char)
    ensures SequenceLength(EncodeChar(c)[0]) == |EncodeChar(c)|
  {
  }

  lemma DecodeFirstOfEncodeChar(c: char, rest: seq<u8>)
    ensures DecodeFirst(EncodeChar(c) + rest) == Some((c, |EncodeChar(c)|))
  {
    var e := EncodeChar(c);
    var bs := e + rest;
    SequenceLengthOfEncodeChar(c);
    CodePointOfEncodeChar(c, rest);
    assert bs[0] == e[0];
    assert forall k :: 1 <= k < |e| ==> bs[k] == e[k];
  }

  /** Decoding undoes `as_bytes`. */
  lemma {:induction false} DecodeUtf8(s: string)
    ensures Decode(Utf8(s)) == Some(s)
    decreases |s|
  {
    if s != [] {
      var e := EncodeChar(s[0]);
      DecodeFirstOfEncodeChar(s[0], Utf8(s[1..]));
      assert (e + Utf8(s[1..]))[|e|..] == Utf8(s[1..]);
      DecodeUtf8(s[1..]);
      assert [s[0]] + s[1..] == s;
    }
  }

  /** Different strings give different keys. */
  lemma Utf8Injective(s: string, t: string)
    ensures Utf8(s) == Utf8(t) ==> s == t
  {
    DecodeUtf8(s);
    DecodeUtf8(t);
  }

  /** The store key of account `i`: the bytes of `"0x{i}"`. */
  function AddressKey(i: nat): (k: Key)
    ensures |k| >= 3
  {
    Utf8(Address(i))
  }

  lemma AddressKeyInjective(i: nat, j: nat)
    ensures AddressKey(i) == AddressKey(j) ==> i == j
  {
    Utf8Injective(Address(i), Address(j));
    AddressInjective(i, j);
  }
}
