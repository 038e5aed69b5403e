/**
 * The string operations the hook miner relies on: ASCII lower-casing,
 * removal of one leading "0x", substring search and decimal rendering
 * of integers.
 */
module Text {

  /** ASCII lower-casing of one character. */
  function LowerChar(c: char): char
  {
    if 'A' <= c <= 'Z' then (c as int + 32) as char else c
  }

  /** `s.toLowerCase()`, restricted to ASCII letters. */
  function Lower(s: string): (r: string)
    ensures |r| == |s|
    ensures forall i :: 0 <= i < |s| ==> r[i] == LowerChar(s[i])
  {
    seq(|s|, i requires 0 <= i < |s| => LowerChar(s[i]))
  }

  /** True when `s` begins with the two characters "0x" (lower-case x only). */
  predicate HasHexPrefix(s: string)
  {
    |s| >= 2 && s[0] == '0' && s[1] == 'x'
  }

  /** `s.replace(/^0x/, '')`: drops one leading "0x", if there is one. */
  function StripHexPrefix(s: string): (r: string)
    ensures HasHexPrefix(s) ==> s == "0x" + r
    ensures !HasHexPrefix(s) ==> r == s
  {
    if HasHexPrefix(s) then s[2..] else s
  }

  /** `s.replace(/^0x/, '').toLowerCase()`, the normal form both sides of a selector test take. */
  function Normalize(s: string): string
  {
    Lower(StripHexPrefix(s))
  }

  /** `needle` occurs in `hay` starting at index `i`. */
  predicate OccursAt(hay: string, needle: string, i: nat)
  {
    i + |needle| <= |hay| && hay[i..i + |needle|] == needle
  }

  /** `hay.includes(needle)`: the first window of `hay`, then the rest of `hay`. */
  function Includes(hay: string, needle: string): bool
    decreases |hay|
  {
    if |needle| > |hay| then false
    else if hay[..|needle|] == needle then true
    else Includes(hay[1..], needle)
  }

  /** `Includes` holds exactly when some window of `hay` equals `needle`. */
  lemma {:induction false} IncludesIff(hay: string, needle: string)
    ensures Includes(hay, needle) <==> exists i: nat :: OccursAt(hay, needle, i)
    decreases |hay|
  {
    if |needle| > |hay| {
    } else if hay[..|needle|] == needle {
      assert OccursAt(hay, needle, 0);
    } else {
      var tail := hay[1..];
      IncludesIff(tail, needle);
      if exists i: nat :: OccursAt(tail, needle, i) {
        var i: nat :| OccursAt(tail, needle, i);
        assert hay[i + 1..i + 1 + |needle|] == tail[i..i + |needle|];
        assert OccursAt(hay, needle, i + 1);
      }
      if exists i: nat :: OccursAt(hay, needle, i) {
        var i: nat :| OccursAt(hay, needle, i);
        assert i != 0;
        assert tail[i - 1..i - 1 + |needle|] == hay[i..i + |needle|];
        assert OccursAt(tail, needle, i - 1);
      }
    }
  }

  /** Lower-casing distributes over concatenation. */
  lemma LowerAppend(a: string, b: string)
    ensures Lower(a + b) == Lower(a) + Lower(b)
  {
    assert forall i :: 0 <= i < |a + b| ==> Lower(a + b)[i] == (Lower(a) + Lower(b))[i];
  }

  /** Lower-casing commutes with dropping a prefix. */
  lemma LowerDrop(s: string, k: nat)
    requires k <= |s|
    ensures Lower(s[k..]) == Lower(s)[k..]
  {
  }

  /** Decimal digit character for `d`. */
  function DecimalDigit(d: nat): char
    requires d < 10
  {
    ('0' as int + d) as char
  }

  /** All characters of `s` are decimal digits. */
  predicate IsDecimal(s: string)
  {
    forall i :: 0 <= i < |s| ==> '0' <= s[i] <= '9'
  }

  /** The number a string of decimal digits denotes, most significant digit first. */
  function DecValue(s: string): nat
    requires IsDecimal(s)
  {
    if s == [] then 0 else DecValue(s[..|s| - 1]) * 10 + (s[|s| - 1] as int - '0' as int)
  }

  /**
   * The decimal rendering of a natural number, most significant digit
   * first: digits that denote `n`, with no leading zero.
   */
  function NatToDecimal(n: nat): (s: string)
    ensures |s| >= 1 && IsDecimal(s)
    ensures DecValue(s) == n
    ensures s[0] == '0' ==> s == "0"
  {
    if n < 10 then [DecimalDigit(n)]
    else
      var init := NatToDecimal(n / 10);
      var s := init + [DecimalDigit(n % 10)];
      assert s[..|s| - 1] == init;
      s
  }

  /**
   * `${v}` for an integer number `v` written without an exponent: a minus
   * sign exactly for negative values, then the digits of the magnitude.
   */
  function IntToDecimal(v: int): (r: string)
    ensures |r| >= 1 && (r[0] == '-' <==> v < 0)
    ensures v >= 0 ==> IsDecimal(r) && DecValue(r) == v && (r[0] == '0' ==> r == "0")
    ensures v < 0 ==> IsDecimal(r[1..]) && DecValue(r[1..]) == -v && r[1] != '0'
  {
    if v < 0 then
      var digits := NatToDecimal(-v);
      assert ("-" + digits)[1..] == digits;
      "-" + digits
    else NatToDecimal(v)
  }
}
