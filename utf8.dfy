/**
 * The hand-written UTF-8 decoder `uniOrd` of src/Emoji.php, and the
 * encoding of section 3 of RFC 3629 that it is measured against.
 *
 * A character is the byte string that `mb_substr($s, $i, 1)` returns:
 * one to four bytes.
 */
module Utf8 {
  import opened Wrappers

  type byte = b: int | 0 <= b < 256

  /** One character of a string, as its bytes. */
  type Char = c: seq<byte> | 1 <= |c| <= 4 witness [0]

  /** Number of bytes a sequence led by `b` occupies; a byte that leads
      nothing (a continuation byte, or 248..255) is taken on its own. */
  function LeadLength(b: byte): (n: nat)
    ensures 1 <= n <= 4
  {
    if b <= 127 then 1
    else if 192 <= b <= 223 then 2
    else if 224 <= b <= 239 then 3
    else if 240 <= b <= 247 then 4
    else 1
  }

  /** True when `b` is one of the leading bytes `uniOrd` recognises. */
  predicate IsLeader(b: byte) {
    b <= 127 || 192 <= b <= 247
  }

  predicate IsContinuation(b: byte) {
    128 <= b <= 191
  }

  /** The character holds every byte its leader makes `uniOrd` read. */
  predicate Decodable(c: Char) {
    LeadLength(c[0]) <= |c|
  }

  /** A well-formed UTF-8 sequence in the sense `uniOrd` understands it:
      a recognised leader, followed by exactly the continuation bytes it
      announces. (Overlong forms and leaders F5..F7, which RFC 3629 rules
      out, are accepted here exactly as the decoder accepts them.) */
  predicate WellFormed(c: Char) {
    IsLeader(c[0]) && |c| == LeadLength(c[0]) &&
    forall i :: 1 <= i < |c| ==> IsContinuation(c[i])
  }

  /** `uniOrd`: the code point a character starts with, or None for a byte
      that leads no sequence. Continuation bytes are not checked, so a
      malformed one (below 128) can make the result negative. */
  function UniOrd(c: Char): (r: Option<int>)
    requires Decodable(c)
    ensures c[0] <= 127 ==> r == Some(c[0] as int)
    ensures r.None? <==> !IsLeader(c[0])
    ensures r.Some? ==> -0x10_0000 < r.value < 0x40_0000
  {
    var b0 := c[0] as int;
    if b0 <= 127 then Some(b0)
    else if 192 <= b0 <= 223 then Some((b0 - 192) * 64 + (c[1] as int - 128))
    else if 224 <= b0 <= 239 then
      Some((b0 - 224) * 4096 + (c[1] as int - 128) * 64 + (c[2] as int - 128))
    else if 240 <= b0 <= 247 then
      Some((b0 - 240) * 262144 + (c[1] as int - 128) * 4096 + (c[2] as int - 128) * 64 + (c[3] as int - 128))
    else None
  }

  /** Exclusive upper bound of the values an `n`-byte sequence carries. */
  function Cap(n: nat): nat
    requires 1 <= n <= 4
  {
    if n == 1 then 0x80 else if n == 2 then 0x800 else if n == 3 then 0x1_0000 else 0x20_0000
  }

  /** Writes `v` in `n` bytes: the leader carries the high bits, each
      continuation byte six more (section 3 of RFC 3629, without the
      shortest-form rule). */
  function EncodeIn(v: nat, n: nat): (c: Char)
    requires 1 <= n <= 4 && v < Cap(n)
  {
    if n == 1 then [v]
    else if n == 2 then [0xC0 + v / 64, 0x80 + v % 64]
    else if n == 3 then [0xE0 + v / 4096, 0x80 + (v / 64) % 64, 0x80 + v % 64]
    else [0xF0 + v / 262144, 0x80 + (v / 4096) % 64, 0x80 + (v / 64) % 64, 0x80 + v % 64]
  }

  /** A Unicode scalar value: a code point that is not a surrogate. */
  predicate IsScalarValue(cp: int) {
    0 <= cp <= 0x10_FFFF && !(0xD800 <= cp <= 0xDFFF)
  }

  /** The number of bytes RFC 3629 uses for `cp` (its shortest form). */
  function MinLength(cp: nat): (n: nat)
    ensures 1 <= n <= 4
  {
    if cp < 0x80 then 1 else if cp < 0x800 then 2 else if cp < 0x1_0000 then 3 else 4
  }

  /** The UTF-8 encoding of a scalar value (section 3 of RFC 3629). */
  function Encode(cp: int): (c: Char)
    requires IsScalarValue(cp)
    ensures |c| == MinLength(cp)
  {
    EncodeIn(cp, MinLength(cp))
  }

  lemma DivMod64(q: int, r: int)
    requires 0 <= r < 64
    ensures (q * 64 + r) / 64 == q && (q * 64 + r) % 64 == r
  {
  }

  /** Decoding what was written in `n` bytes gives the value back, and
      the bytes form a well-formed sequence of exactly `n` bytes. */
  lemma {:induction false} DecodeEncodeIn(v: nat, n: nat)
    requires 1 <= n <= 4 && v < Cap(n)
    ensures WellFormed(EncodeIn(v, n)) && |EncodeIn(v, n)| == n
    ensures UniOrd(EncodeIn(v, n)) == Some(v as int)
  {
    var c := EncodeIn(v, n);
    if n == 2 {
      assert v == (v / 64) * 64 + v % 64;
    } else if n == 3 {
      assert v / 64 == (v / 4096) * 64 + (v / 64) % 64;
      assert v == (v / 64) * 64 + v % 64;
    } else if n == 4 {
      assert v / 4096 == (v / 262144) * 64 + (v / 4096) % 64;
      assert v / 64 == (v / 4096) * 64 + (v / 64) % 64;
      assert v == (v / 64) * 64 + v % 64;
    }
  }

  /** A well-formed sequence decodes to a value that fits its length, and
      re-encoding that value in the same number of bytes gives the
      sequence back. In particular the 2-, 3- and 4-byte branches stay
      below 0x800, 0x10000 and 0x200000. */
  lemma {:induction false} EncodeDecode(c: Char)
    requires WellFormed(c)
    ensures UniOrd(c).Some?
    ensures 0 <= UniOrd(c).value < Cap(|c|)
    ensures EncodeIn(UniOrd(c).value, |c|) == c
  {
    var n := |c|;
    var v := UniOrd(c).value;
    var b0 := c[0] as int;
    if n == 2 {
      DivMod64(b0 - 192, c[1] as int - 128);
    } else if n == 3 {
      var hi := (b0 - 224) * 64 + (c[1] as int - 128);
      assert v == hi * 64 + (c[2] as int - 128);
      DivMod64(hi, c[2] as int - 128);
      DivMod64(b0 - 224, c[1] as int - 128);
      assert v / 4096 == hi / 64;
    } else if n == 4 {
      var top := (b0 - 240) * 64 + (c[1] as int - 128);
      var mid := top * 64 + (c[2] as int - 128);
      assert v == mid * 64 + (c[3] as int - 128);
      DivMod64(mid, c[3] as int - 128);
      DivMod64(top, c[2] as int - 128);
      DivMod64(b0 - 240, c[1] as int - 128);
      assert v / 4096 == mid / 64;
      assert v / 262144 == top / 64;
    }
  }

  /** Round trip against the reference encoder: `uniOrd` decodes the
      RFC 3629 encoding of every scalar value to that value. */
  lemma {:induction false} DecodeEncode(cp: int)
    requires IsScalarValue(cp)
    ensures WellFormed(Encode(cp))
    ensures UniOrd(Encode(cp)) == Some(cp)
  {
    DecodeEncodeIn(cp, MinLength(cp));
  }

  /** The converse round trip: a well-formed sequence in shortest form
      that carries a scalar value is that value's RFC 3629 encoding. */
  lemma {:induction false} EncodeOfDecoded(c: Char)
    requires WellFormed(c)
    requires UniOrd(c).Some? && IsScalarValue(UniOrd(c).value)
    requires |c| == MinLength(UniOrd(c).value)
    ensures Encode(UniOrd(c).value) == c
  {
    EncodeDecode(c);
  }
}
