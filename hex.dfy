/**
 * `strtoupper(dechex($v))`: how src/Emoji.php writes one code point.
 * PHP's `dechex` writes its integer argument as an unsigned 64-bit
 * number in lower-case hexadecimal without padding, and `strtoupper`
 * raises the ASCII letters.
 */
module Hex {

  const TWO_64: int := 0x1_0000_0000_0000_0000

  /** The range of a PHP integer (64 bits, two's complement). */
  predicate IsPhpInt(v: int) {
    -0x8000_0000_0000_0000 <= v < 0x8000_0000_0000_0000
  }

  function LowerDigit(d: nat): char
    requires d < 16
  {
    "0123456789abcdef"[d]
  }

  /** Lower-case hexadecimal of `n`, most significant digit first. */
  function DecHex(n: nat): string
  {
    if n < 16 then [LowerDigit(n)] else DecHex(n / 16) + [LowerDigit(n % 16)]
  }

  /** `dechex`: a negative argument is read as its unsigned 64-bit pattern. */
  function PhpDechex(v: int): string
    requires IsPhpInt(v)
  {
    DecHex(if v < 0 then v + TWO_64 else v)
  }

  function UpperChar(c: char): char {
    if 'a' <= c <= 'z' then (c as int - 32) as char else c
  }

  /** `strtoupper`, on ASCII. */
  function ToUpper(s: string): string {
    seq(|s|, i requires 0 <= i < |s| => UpperChar(s[i]))
  }

  /** How the code writes a code point: `strtoupper(dechex($v))`. */
  function HexOf(v: int): string
    requires IsPhpInt(v)
  {
    ToUpper(PhpDechex(v))
  }

  predicate IsUpperHexDigit(c: char) {
    '0' <= c <= '9' || 'A' <= c <= 'F'
  }

  /** Upper-case hexadecimal digits, at least one, with no leading zero
      except in "0" itself. */
  predicate IsCanonicalHex(s: string) {
    |s| > 0 && (forall i :: 0 <= i < |s| ==> IsUpperHexDigit(s[i])) &&
    (s[0] == '0' ==> |s| == 1)
  }

  function DigitValue(c: char): nat
    requires IsUpperHexDigit(c)
  {
    if c <= '9' then c as int - '0' as int else c as int - 'A' as int + 10
  }

  /** Reads upper-case hexadecimal digits back as a number (`hexdec`). */
  function ParseHex(s: string): nat
    requires forall i :: 0 <= i < |s| ==> IsUpperHexDigit(s[i])
  {
    if s == [] then 0 else ParseHex(s[..|s| - 1]) * 16 + DigitValue(s[|s| - 1])
  }

  /** The value `dechex` reads a PHP integer as. */
  function Unsigned(v: int): nat
    requires IsPhpInt(v)
  {
    if v < 0 then v + TWO_64 else v
  }

  lemma UpperAppend(s: string, c: char)
    ensures ToUpper(s + [c]) == ToUpper(s) + [UpperChar(c)]
  {
  }

  /** `strtoupper(dechex(n))` is canonical upper-case hex that reads back as `n`. */
  lemma {:induction false} UpperDecHex(n: nat)
    ensures IsCanonicalHex(ToUpper(DecHex(n)))
    ensures ParseHex(ToUpper(DecHex(n))) == n
  {
    var r := ToUpper(DecHex(n));
    if n >= 16 {
      UpperDecHex(n / 16);
      var hi := ToUpper(DecHex(n / 16));
      UpperAppend(DecHex(n / 16), LowerDigit(n % 16));
      assert r == hi + [UpperChar(LowerDigit(n % 16))];
      assert r[..|r| - 1] == hi;
      assert hi[0] == '0' ==> hi == "0";
    }
  }

  /** Each entry of `points_hex` is canonical upper-case hex (no padding,
      no leading zeros) that parses back to the value `dechex` saw; for a
      non-negative code point, that is the code point itself. */
  lemma {:induction false} HexOfForm(v: int)
    requires IsPhpInt(v)
    ensures IsCanonicalHex(HexOf(v))
    ensures ParseHex(HexOf(v)) == Unsigned(v)
    ensures v >= 0 ==> ParseHex(HexOf(v)) == v
  {
    UpperDecHex(Unsigned(v));
  }

  /** Different PHP integers are written differently. */
  lemma {:induction false} HexOfInjective(a: int, b: int)
    requires IsPhpInt(a) && IsPhpInt(b)
    requires HexOf(a) == HexOf(b)
    ensures a == b
  {
    HexOfForm(a);
    HexOfForm(b);
  }

  /** A written code point never contains the key separator '-'. */
  lemma {:induction false} HexOfHasNoDash(v: int)
    requires IsPhpInt(v)
    ensures '-' !in HexOf(v)
  {
    HexOfForm(v);
  }
}
