/**
 * The matcher and classifier of src/Emoji.php: turning the matches of
 * the emoji pattern into records (`detectEmoji`) and deciding whether a
 * string is one emoji and nothing else (`isSingleEmoji`).
 *
 * A string is a sequence of characters, each given by its UTF-8 bytes;
 * `mb_strlen` is the length of that sequence, `mb_substr($s, $i, 1)` its
 * `i`-th element and `strlen` the length of `Bytes(s)`.
 *
 * The regular-expression scan (`preg_match_all` over a pattern loaded
 * from data) is not modelled: its result is passed in as a list of
 * spans, each a non-empty run of characters of the input, in order and
 * not overlapping. The name table is passed in as a map.
 */
module Emoji {
  import opened Wrappers
  import opened Utf8
  import opened Hex
  import opened Text

  /** `LONGEST_EMOJI`: strings of this many characters or more are never
      one emoji. It has to agree with the longest sequence the pattern
      knows; nothing in this code ties the two together. */
  const LONGEST_EMOJI: nat := 8

  /** The separator of the lookup key. */
  const KEY_SEPARATOR: char := '-'

  /** The five Fitzpatrick modifiers, by their written form. */
  const SKIN_TONES: map<string, string> := map[
    "1F3FB" := "skin-tone-2",
    "1F3FC" := "skin-tone-3",
    "1F3FD" := "skin-tone-4",
    "1F3FE" := "skin-tone-5",
    "1F3FF" := "skin-tone-6"
  ]

  type Str = seq<Char>

  /** The byte string PHP holds for `s`. */
  function Bytes(s: Str): seq<byte>
  {
    if s == [] then [] else s[0] + Bytes(s[1..])
  }

  predicate AllDecodable(s: Str) {
    forall i :: 0 <= i < |s| ==> Decodable(s[i])
  }

  predicate AllWellFormed(s: Str) {
    forall i :: 0 <= i < |s| ==> WellFormed(s[i])
  }

  /** One match of the pattern: the characters `start` to `end` (exclusive). */
  datatype Span = Span(start: nat, end: nat)

  /** What the pattern scan is taken to deliver: non-empty runs of the
      input's characters, in order, not overlapping. */
  predicate ValidSpans(input: Str, spans: seq<Span>) {
    (forall k :: 0 <= k < |spans| ==> spans[k].start < spans[k].end <= |input|) &&
    (forall j, k :: 0 <= j < k < |spans| ==> spans[j].end <= spans[k].start)
  }

  /** The matched text, as `$matches[0]` holds it. */
  function MatchText(input: Str, sp: Span): Str
    requires sp.start <= sp.end <= |input|
  {
    input[sp.start..sp.end]
  }

  /** The result of one record of `detectEmoji`. */
  datatype EmojiRecord = EmojiRecord(
    emoji: Str,
    shortName: Option<string>,
    numPoints: nat,
    pointsHex: seq<string>,
    hexStr: string,
    skinTone: Option<string>)

  /** The integer `dechex` receives for one character: the decoded code
      point, with `null` read as 0 the way PHP coerces it. */
  function PointValue(c: Char): (v: int)
    requires Decodable(c)
    ensures IsPhpInt(v)
  {
    match UniOrd(c)
    case Some(x) => x
    case None => 0
  }

  /** The written code points of a match, one per character. */
  function PointsHex(m: Str): seq<string>
    requires AllDecodable(m)
  {
    seq(|m|, i requires 0 <= i < |m| => HexOf(PointValue(m[i])))
  }

  /** `self::$map[$key] ?? null`. */
  function Lookup(names: map<string, string>, key: string): Option<string>
  {
    if key in names then Some(names[key]) else None
  }

  /** The skin tone the points carry: that of the last modifier among them. */
  function SkinToneOf(points: seq<string>): Option<string>
  {
    if |points| == 0 then None
    else if points[|points| - 1] in SKIN_TONES then Some(SKIN_TONES[points[|points| - 1]])
    else SkinToneOf(points[..|points| - 1])
  }

  /** The record `detectEmoji` builds for the matched text `m`. */
  function RecordOf(m: Str, names: map<string, string>): EmojiRecord
    requires AllDecodable(m)
  {
    var points := PointsHex(m);
    var key := Join(points, KEY_SEPARATOR);
    EmojiRecord(m, Lookup(names, key), |m|, points, key, SkinToneOf(points))
  }

  /** The inner `for` loop of `detectEmoji`: one written code point per
      character of the match. */
  method DecodePoints(m: Str) returns (points: seq<string>)
    requires AllDecodable(m)
    ensures points == PointsHex(m)
  {
    points := [];
    var i := 0;
    while i < |m|
      invariant 0 <= i <= |m|
      invariant points == PointsHex(m)[..i]
    {
      points := points + [HexOf(PointValue(m[i]))];
      i := i + 1;
    }
  }

  /** The `foreach` over the points: every modifier found overwrites the
      tone, so the last one stays. */
  method ScanSkinTone(points: seq<string>) returns (tone: Option<string>)
    ensures tone == SkinToneOf(points)
  {
    tone := None;
    var i := 0;
    while i < |points|
      invariant 0 <= i <= |points|
      invariant tone == SkinToneOf(points[..i])
    {
      assert points[..i + 1][..i] == points[..i];
      if points[i] in SKIN_TONES {
        tone := Some(SKIN_TONES[points[i]]);
      }
      i := i + 1;
    }
    assert points[..|points|] == points;
  }

  /** `detectEmoji`: one record per match, in the matcher's order, each
      built from its matched text. */
  method DetectEmoji(input: Str, spans: seq<Span>, names: map<string, string>)
    returns (data: seq<EmojiRecord>)
    requires ValidSpans(input, spans)
    requires AllDecodable(input)
    ensures |data| == |spans|
    ensures forall k :: 0 <= k < |spans| ==>
      data[k] == RecordOf(MatchText(input, spans[k]), names)
  {
    data := [];
    var k := 0;
    while k < |spans|
      invariant 0 <= k <= |spans|
      invariant |data| == k
      invariant forall j :: 0 <= j < k ==> data[j] == RecordOf(MatchText(input, spans[j]), names)
    {
      var detected := MatchText(input, spans[k]);
      var points := DecodePoints(detected);
      var hexString := Join(points, KEY_SEPARATOR);
      var shortName := Lookup(names, hexString);
      var skinTone := ScanSkinTone(points);
      data := data + [EmojiRecord(detected, shortName, |detected|, points, hexString, skinTone)];
      k := k + 1;
    }
  }

  /** The value `isSingleEmoji` returns, `None` standing for `false`. */
  function SingleEmoji(input: Str, spans: seq<Span>, names: map<string, string>): Option<EmojiRecord>
    requires ValidSpans(input, spans)
    requires AllDecodable(input)
  {
    if |input| >= LONGEST_EMOJI || |spans| != 1 then None
    else
      var m := MatchText(input, spans[0]);
      if |RemoveAll(Bytes(m), Bytes(input))| > 0 then None else Some(RecordOf(m, names))
  }

  lemma {:induction false} BytesAtLeast(s: Str)
    ensures |Bytes(s)| >= |s|
  {
    if s != [] {
      BytesAtLeast(s[1..]);
    }
  }

  /** `isSingleEmoji`. What the code alone guarantees of a positive answer
      is that the input is one or more copies of the record's text. */
  method IsSingleEmoji(input: Str, spans: seq<Span>, names: map<string, string>)
    returns (r: Option<EmojiRecord>)
    requires ValidSpans(input, spans)
    requires AllDecodable(input)
    ensures |input| >= LONGEST_EMOJI ==> r == None
    ensures |spans| != 1 ==> r == None
    ensures r == SingleEmoji(input, spans, names)
    ensures r.Some? ==> r.value == RecordOf(MatchText(input, spans[0]), names)
    ensures r.Some? ==> exists n: nat :: n >= 1 && Bytes(input) == Repeat(Bytes(r.value.emoji), n)
  {
    if |input| >= LONGEST_EMOJI {
      return None;
    }
    var allEmoji := DetectEmoji(input, spans, names);
    var emoji: Option<EmojiRecord> := None;
    var rest := Bytes(input);
    if |allEmoji| == 1 {
      emoji := Some(allEmoji[0]);
      rest := RemoveAll(Bytes(allEmoji[0].emoji), rest);
      if |rest| > 0 {
        emoji := None;
      } else {
        var m := allEmoji[0].emoji;
        BytesAtLeast(m);
        RemovedToNothing(Bytes(m), Bytes(input));
        var n: nat :| Bytes(input) == Repeat(Bytes(m), n);
        BytesAtLeast(input);
        assert n >= 1;
      }
    }
    r := emoji;
  }
}
