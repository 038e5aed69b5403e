/**
 * Bytes, their lower-case hexadecimal rendering (the form the ethers
 * library returns hashes and encodings in), the numeric value of a hex
 * string (`BigInt("0x...")`), and fixed-width big-endian encoding of
 * natural numbers (`toBeHex(n, width)` and the `uint256` packing rule).
 */
module Hex {

  /** A byte, as the unsigned value it encodes. */
  type Byte = x: int | 0 <= x < 256

  predicate IsHexDigit(c: char)
  {
    '0' <= c <= '9' || 'a' <= c <= 'f' || 'A' <= c <= 'F'
  }

  predicate IsLowerHexDigit(c: char)
  {
    '0' <= c <= '9' || 'a' <= c <= 'f'
  }

  predicate IsHexString(s: string)
  {
    forall i :: 0 <= i < |s| ==> IsHexDigit(s[i])
  }

  /** The value of one hex digit, either case. */
  function DigitValue(c: char): (v: nat)
    requires IsHexDigit(c)
    ensures v < 16
  {
    if '0' <= c <= '9' then c as int - '0' as int
    else if 'a' <= c <= 'f' then c as int - 'a' as int + 10
    else c as int - 'A' as int + 10
  }

  /** The lower-case hex digit of `d`. */
  function DigitChar(d: nat): (c: char)
    requires d < 16
    ensures IsLowerHexDigit(c) && DigitValue(c) == d
  {
    if d < 10 then ('0' as int + d) as char else ('a' as int + d - 10) as char
  }

  /** The two hex digits of a byte, high nibble first. */
  function ByteHex(b: Byte): string
  {
    [DigitChar(b / 16), DigitChar(b % 16)]
  }

  /** The hex digits of a byte string, two per byte, without a prefix. */
  function HexDigits(bs: seq<Byte>): (s: string)
    ensures |s| == 2 * |bs|
    ensures forall i :: 0 <= i < |s| ==> IsLowerHexDigit(s[i])
  {
    if bs == [] then "" else HexDigits(bs[..|bs| - 1]) + ByteHex(bs[|bs| - 1])
  }

  /** The "0x"-prefixed lower-case hex string of a byte string. */
  function ToHex(bs: seq<Byte>): string
  {
    "0x" + HexDigits(bs)
  }

  /** The number a string of hex digits denotes, most significant digit first. */
  function HexValue(s: string): nat
    requires IsHexString(s)
  {
    if s == "" then 0 else HexValue(s[..|s| - 1]) * 16 + DigitValue(s[|s| - 1])
  }

  /** The number a byte string denotes, read big-endian. */
  function BEValue(bs: seq<Byte>): nat
  {
    if bs == [] then 0 else BEValue(bs[..|bs| - 1]) * 256 + bs[|bs| - 1]
  }

  /** 256^k. */
  function Pow256(k: nat): (p: nat)
    ensures p >= 1
  {
    if k == 0 then 1 else 256 * Pow256(k - 1)
  }

  /** 256^(j + k) = 256^j * 256^k. */
  lemma {:induction false} Pow256Add(j: nat, k: nat)
    ensures Pow256(j + k) == Pow256(j) * Pow256(k)
    decreases k
  {
    if k > 0 {
      Pow256Add(j, k - 1);
      assert Pow256(j + k) == 256 * Pow256(j + k - 1);
    }
  }

  /** 256^j <= 256^k when j <= k. */
  lemma {:induction false} Pow256Monotonic(j: nat, k: nat)
    requires j <= k
    ensures Pow256(j) <= Pow256(k)
    decreases k
  {
    if j < k {
      Pow256Monotonic(j, k - 1);
    }
  }

  /** The `len` low-order bytes of `n`, most significant first. */
  function BigEndian(n: nat, len: nat): (bs: seq<Byte>)
    ensures |bs| == len
  {
    if len == 0 then [] else BigEndian(n / 256, len - 1) + [n % 256]
  }

  /** Rendering in hex distributes over concatenation of byte strings. */
  lemma {:induction false} HexDigitsAppend(a: seq<Byte>, b: seq<Byte>)
    ensures HexDigits(a + b) == HexDigits(a) + HexDigits(b)
    decreases |b|
  {
    if b == [] {
      assert a + b == a;
    } else {
      var b' := b[..|b| - 1];
      assert (a + b)[..|a + b| - 1] == a + b';
      HexDigitsAppend(a, b');
    }
  }

  /** Appending one digit multiplies the value by sixteen and adds the digit. */
  lemma HexValueSnoc(s: string, c: char)
    requires IsHexString(s) && IsHexDigit(c)
    ensures IsHexString(s + [c]) && HexValue(s + [c]) == HexValue(s) * 16 + DigitValue(c)
  {
    assert (s + [c])[..|s + [c]| - 1] == s;
  }

  /** Reading back the hex rendering of a byte string gives its big-endian value. */
  lemma {:induction false} HexValueOfDigits(bs: seq<Byte>)
    ensures IsHexString(HexDigits(bs)) && HexValue(HexDigits(bs)) == BEValue(bs)
    decreases |bs|
  {
    if bs != [] {
      var init, b := bs[..|bs| - 1], bs[|bs| - 1];
      var h := HexDigits(init);
      HexValueOfDigits(init);
      var hi, lo := DigitChar(b / 16), DigitChar(b % 16);
      HexValueSnoc(h, hi);
      HexValueSnoc(h + [hi], lo);
      assert HexDigits(bs) == h + [hi] + [lo];
    }
  }

  /** A byte string of length k denotes a number below 256^k. */
  lemma {:induction false} BEValueBound(bs: seq<Byte>)
    ensures BEValue(bs) < Pow256(|bs|)
    decreases |bs|
  {
    if bs != [] {
      BEValueBound(bs[..|bs| - 1]);
    }
  }

  /** Encoding a number that fits in `len` bytes and reading it back gives the number. */
  lemma {:induction false} BigEndianValue(n: nat, len: nat)
    requires n < Pow256(len)
    ensures BEValue(BigEndian(n, len)) == n
    decreases len
  {
    if len > 0 {
      assert n / 256 < Pow256(len - 1);
      BigEndianValue(n / 256, len - 1);
      var bs := BigEndian(n, len);
      assert bs[..|bs| - 1] == BigEndian(n / 256, len - 1);
    }
  }

  /** Reading a byte string and encoding the value at the same width gives the byte string back. */
  lemma {:induction false} BigEndianOfValue(bs: seq<Byte>)
    ensures BigEndian(BEValue(bs), |bs|) == bs
    decreases |bs|
  {
    if bs != [] {
      var init, b := bs[..|bs| - 1], bs[|bs| - 1];
      var v := BEValue(bs);
      assert v / 256 == BEValue(init) && v % 256 == b;
      BigEndianOfValue(init);
    }
  }

  /** Distinct numbers that fit in `len` bytes have distinct encodings. */
  lemma BigEndianInjective(m: nat, n: nat, len: nat)
    requires m < Pow256(len) && n < Pow256(len)
    requires BigEndian(m, len) == BigEndian(n, len)
    ensures m == n
  {
    BigEndianValue(m, len);
    BigEndianValue(n, len);
  }
}
