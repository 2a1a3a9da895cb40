/**
 * What the records of `detectEmoji` and the answer of `isSingleEmoji`
 * mean, stated about the functions the methods of module Emoji are
 * proved against.
 */
module EmojiProperties {
  import opened Wrappers
  import opened Utf8
  import opened Hex
  import opened Text
  import opened Emoji

  // ---------------------------------------------------------------------
  // Records

  /** A record has one written point per character of its text, each in
      canonical upper-case hex that reads back as the value `dechex` got
      (the code point itself for a well-formed character), and its name
      is the table's entry for its key. */
  lemma {:induction false} RecordShape(m: Str, names: map<string, string>)
    requires AllDecodable(m)
    ensures var r := RecordOf(m, names);
      r.emoji == m && r.numPoints == |r.pointsHex| == |m| &&
      (forall i :: 0 <= i < |m| ==>
        IsCanonicalHex(r.pointsHex[i]) &&
        ParseHex(r.pointsHex[i]) == Unsigned(PointValue(m[i])) &&
        (WellFormed(m[i]) ==> ParseHex(r.pointsHex[i]) == UniOrd(m[i]).value)) &&
      (r.hexStr in names ==> r.shortName == Some(names[r.hexStr])) &&
      (r.hexStr !in names ==> r.shortName == None)
  {
    var r := RecordOf(m, names);
    forall i | 0 <= i < |m|
      ensures IsCanonicalHex(r.pointsHex[i])
      ensures ParseHex(r.pointsHex[i]) == Unsigned(PointValue(m[i]))
      ensures WellFormed(m[i]) ==> ParseHex(r.pointsHex[i]) == UniOrd(m[i]).value
    {
      HexOfForm(PointValue(m[i]));
      if WellFormed(m[i]) {
        EncodeDecode(m[i]);
      }
    }
  }

  lemma {:induction false} PointsHaveNoSeparator(m: Str)
    requires AllDecodable(m)
    ensures forall i :: 0 <= i < |PointsHex(m)| ==> KEY_SEPARATOR !in PointsHex(m)[i]
  {
    forall i | 0 <= i < |PointsHex(m)|
      ensures KEY_SEPARATOR !in PointsHex(m)[i]
    {
      HexOfHasNoDash(PointValue(m[i]));
    }
  }

  /** Splitting `hex_str` on '-' gives `points_hex` back. */
  lemma {:induction false} HexStrSplits(m: Str, names: map<string, string>)
    requires AllDecodable(m) && |m| > 0
    ensures Split(RecordOf(m, names).hexStr, KEY_SEPARATOR) == RecordOf(m, names).pointsHex
  {
    PointsHaveNoSeparator(m);
    SplitJoin(PointsHex(m), KEY_SEPARATOR);
  }

  /** Two matches with the same lookup key have the same code points. */
  lemma {:induction false} KeyDeterminesPoints(m1: Str, m2: Str, names: map<string, string>)
    requires AllDecodable(m1) && |m1| > 0
    requires AllDecodable(m2) && |m2| > 0
    requires RecordOf(m1, names).hexStr == RecordOf(m2, names).hexStr
    ensures |m1| == |m2|
    ensures forall i :: 0 <= i < |m1| ==> PointValue(m1[i]) == PointValue(m2[i])
  {
    PointsHaveNoSeparator(m1);
    PointsHaveNoSeparator(m2);
    JoinInjective(PointsHex(m1), PointsHex(m2), KEY_SEPARATOR);
    forall i | 0 <= i < |m1|
      ensures PointValue(m1[i]) == PointValue(m2[i])
    {
      assert PointsHex(m1)[i] == PointsHex(m2)[i];
      HexOfInjective(PointValue(m1[i]), PointValue(m2[i]));
    }
  }

  // ---------------------------------------------------------------------
  // Skin tone

  /** The tone is absent exactly when no point is a modifier; otherwise it
      is the label of the last modifier. */
  lemma {:induction false} SkinToneIsLastModifier(points: seq<string>)
    ensures SkinToneOf(points) == None <==> forall i :: 0 <= i < |points| ==> points[i] !in SKIN_TONES
    ensures SkinToneOf(points) != None ==>
      exists i :: 0 <= i < |points| && points[i] in SKIN_TONES &&
        SkinToneOf(points) == Some(SKIN_TONES[points[i]]) &&
        forall j :: i < j < |points| ==> points[j] !in SKIN_TONES
  {
    if |points| > 0 {
      var last := |points| - 1;
      var front := points[..last];
      SkinToneIsLastModifier(front);
      if points[last] !in SKIN_TONES {
        if SkinToneOf(front) != None {
          var i :| 0 <= i < |front| && front[i] in SKIN_TONES &&
            SkinToneOf(front) == Some(SKIN_TONES[front[i]]) &&
            forall j :: i < j < |front| ==> front[j] !in SKIN_TONES;
          assert points[i] == front[i];
        } else {
          forall i | 0 <= i < |points| ensures points[i] !in SKIN_TONES {
            if i < last { assert points[i] == front[i]; }
          }
        }
      }
    }
  }

  predicate IsFitzpatrick(v: int) {
    0x1F3FB <= v <= 0x1F3FF
  }

  /** "skin-tone-2" for U+1F3FB up to "skin-tone-6" for U+1F3FF. */
  function ToneLabel(v: int): string
    requires IsFitzpatrick(v)
  {
    "skin-tone-" + [(v - 0x1F3FB + '2' as int) as char]
  }

  /** The modifiers are written "1F3FB" to "1F3FF". */
  lemma {:induction false} FitzpatrickHex(v: int)
    requires IsFitzpatrick(v)
    ensures HexOf(v) == "1F3F" + [UpperChar(LowerDigit(v - 0x1F3F0))]
  {
    assert v / 16 == 0x1F3F && v % 16 == v - 0x1F3F0;
    assert DecHex(0x1F3F) == "1f3f";
    assert DecHex(v) == "1f3f" + [LowerDigit(v - 0x1F3F0)];
  }

  lemma ModifierHexes()
    ensures HexOf(0x1F3FB) == "1F3FB" && HexOf(0x1F3FC) == "1F3FC" && HexOf(0x1F3FD) == "1F3FD"
    ensures HexOf(0x1F3FE) == "1F3FE" && HexOf(0x1F3FF) == "1F3FF"
  {
    FitzpatrickHex(0x1F3FB);
    FitzpatrickHex(0x1F3FC);
    FitzpatrickHex(0x1F3FD);
    FitzpatrickHex(0x1F3FE);
    FitzpatrickHex(0x1F3FF);
  }

  lemma {:induction false} ModifierIsKey(v: int)
    requires IsFitzpatrick(v)
    ensures HexOf(v) in SKIN_TONES && SKIN_TONES[HexOf(v)] == ToneLabel(v)
  {
    FitzpatrickHex(v);
    if v == 0x1F3FB {
      assert HexOf(v) == "1F3FB";
    } else if v == 0x1F3FC {
      assert HexOf(v) == "1F3FC";
    } else if v == 0x1F3FD {
      assert HexOf(v) == "1F3FD";
    } else if v == 0x1F3FE {
      assert HexOf(v) == "1F3FE";
    } else {
      assert HexOf(v) == "1F3FF";
    }
  }

  lemma {:induction false} KeyIsModifier(v: int)
    requires IsPhpInt(v)
    requires HexOf(v) in SKIN_TONES
    ensures IsFitzpatrick(v)
  {
    ModifierHexes();
    var h := HexOf(v);
    if h == "1F3FB" { HexOfInjective(v, 0x1F3FB); }
    else if h == "1F3FC" { HexOfInjective(v, 0x1F3FC); }
    else if h == "1F3FD" { HexOfInjective(v, 0x1F3FD); }
    else if h == "1F3FE" { HexOfInjective(v, 0x1F3FE); }
    else { HexOfInjective(v, 0x1F3FF); }
  }

  /** A written point is a key of the tone table exactly when the code
      point is a Fitzpatrick modifier, and then it maps to that
      modifier's label. */
  lemma {:induction false} ToneTableByValue(v: int)
    requires IsPhpInt(v)
    ensures HexOf(v) in SKIN_TONES <==> IsFitzpatrick(v)
    ensures IsFitzpatrick(v) ==> SKIN_TONES[HexOf(v)] == ToneLabel(v)
  {
    if IsFitzpatrick(v) {
      ModifierIsKey(v);
    } else if HexOf(v) in SKIN_TONES {
      KeyIsModifier(v);
    }
  }

  /** `skin_tone` of a record, in terms of the code points: null exactly
      when none of them is a Fitzpatrick modifier, otherwise the label of
      the last one. */
  lemma {:induction false} RecordSkinTone(m: Str, names: map<string, string>)
    requires AllDecodable(m)
    ensures RecordOf(m, names).skinTone == None <==>
      forall i :: 0 <= i < |m| ==> !IsFitzpatrick(PointValue(m[i]))
    ensures RecordOf(m, names).skinTone != None ==>
      exists i :: 0 <= i < |m| && IsFitzpatrick(PointValue(m[i])) &&
        RecordOf(m, names).skinTone == Some(ToneLabel(PointValue(m[i]))) &&
        forall j :: i < j < |m| ==> !IsFitzpatrick(PointValue(m[j]))
  {
    var points := PointsHex(m);
    SkinToneIsLastModifier(points);
    forall i | 0 <= i < |m|
      ensures points[i] in SKIN_TONES <==> IsFitzpatrick(PointValue(m[i]))
      ensures IsFitzpatrick(PointValue(m[i])) ==> SKIN_TONES[points[i]] == ToneLabel(PointValue(m[i]))
    {
      ToneTableByValue(PointValue(m[i]));
    }
  }

  // ---------------------------------------------------------------------
  // Bytes of a string

  lemma {:induction false} BytesAppend(a: Str, b: Str)
    ensures Bytes(a + b) == Bytes(a) + Bytes(b)
  {
    if a != [] {
      assert (a + b)[0] == a[0];
      assert (a + b)[1..] == a[1..] + b;
      BytesAppend(a[1..], b);
      assert Bytes(a + b) == a[0] + Bytes(a[1..] + b);
    } else {
      assert a + b == b;
    }
  }

  lemma {:induction false} BytesRepeat(s: Str, n: nat)
    ensures Bytes(Repeat(s, n)) == Repeat(Bytes(s), n)
  {
    if n > 0 {
      BytesRepeat(s, n - 1);
      BytesAppend(s, Repeat(s, n - 1));
    }
  }

  /** Well-formed UTF-8 has one reading as characters: the leading byte
      of each says how long it is. */
  lemma {:induction false} BytesInjective(a: Str, b: Str)
    requires AllWellFormed(a) && AllWellFormed(b)
    requires Bytes(a) == Bytes(b)
    ensures a == b
  {
    if a != [] && b != [] {
      var x, y := a[0], b[0];
      assert Bytes(a) == x + Bytes(a[1..]);
      assert Bytes(b) == y + Bytes(b[1..]);
      assert x[0] == Bytes(a)[0] == y[0];
      assert |x| == LeadLength(x[0]) == |y|;
      assert x == Bytes(a)[..|x|] == y;
      assert Bytes(a[1..]) == Bytes(a)[|x|..] == Bytes(b[1..]);
      BytesInjective(a[1..], b[1..]);
      assert a == [x] + a[1..] && b == [y] + b[1..];
    }
  }

  // ---------------------------------------------------------------------
  // The single-emoji answer

  /** From the code alone: a positive answer is the record of the one
      match, and the input, read as characters, is one or more copies of
      that record's text. */
  lemma {:induction false} SingleEmojiIsCopies(input: Str, spans: seq<Span>, names: map<string, string>)
    requires ValidSpans(input, spans) && AllWellFormed(input)
    requires SingleEmoji(input, spans, names).Some?
    ensures |input| < LONGEST_EMOJI && |spans| == 1
    ensures SingleEmoji(input, spans, names).value == RecordOf(MatchText(input, spans[0]), names)
    ensures exists n: nat :: n >= 1 && input == Repeat(SingleEmoji(input, spans, names).value.emoji, n)
  {
    var t := MatchText(input, spans[0]);
    BytesAtLeast(t);
    RemovedToNothing(Bytes(t), Bytes(input));
    var n: nat :| Bytes(input) == Repeat(Bytes(t), n);
    BytesRepeat(t, n);
    RepeatWellFormed(t, n);
    BytesInjective(input, Repeat(t, n));
    assert n >= 1;
  }

  lemma {:induction false} RepeatWellFormed(t: Str, n: nat)
    requires AllWellFormed(t)
    ensures AllWellFormed(Repeat(t, n))
  {
    if n > 0 {
      RepeatWellFormed(t, n - 1);
      var r := Repeat(t, n);
      forall i | 0 <= i < |r| ensures WellFormed(r[i]) {
        if i >= |t| { assert r[i] == Repeat(t, n - 1)[i - |t|]; }
      }
    }
  }

  /** `t` occurs in `input` starting at character `p`. */
  ghost predicate OccursAt(input: Str, t: Str, p: nat) {
    p + |t| <= |input| && input[p..p + |t|] == t
  }

  /** The assumption about the pattern that the code relies on: wherever
      the text of a match occurs in the input, some match starts there.
      (The pattern is not visible, so this is a hypothesis, not a fact.) */
  ghost predicate FindsEveryOccurrence(input: Str, spans: seq<Span>)
    requires ValidSpans(input, spans)
  {
    forall k, p :: 0 <= k < |spans| && OccursAt(input, MatchText(input, spans[k]), p) ==>
      exists j :: 0 <= j < |spans| && spans[j].start == p
  }

  /** With that assumption, a positive answer means the input is exactly
      one copy of the emoji: the one match spans the whole input. */
  lemma {:induction false} SingleEmojiIsWholeInput(input: Str, spans: seq<Span>, names: map<string, string>)
    requires ValidSpans(input, spans) && AllWellFormed(input)
    requires FindsEveryOccurrence(input, spans)
    requires SingleEmoji(input, spans, names).Some?
    ensures spans == [Span(0, |input|)]
    ensures SingleEmoji(input, spans, names) == Some(RecordOf(input, names))
  {
    SingleEmojiIsCopies(input, spans, names);
    var t := MatchText(input, spans[0]);
    var n: nat :| n >= 1 && input == Repeat(t, n);
    if n >= 2 {
      assert Repeat(t, n - 1) == t + Repeat(t, n - 2);
      assert input == t + (t + Repeat(t, n - 2));
      assert OccursAt(input, t, 0);
      assert input[|t|..|t| + |t|] == t;
      assert OccursAt(input, t, |t|);
      assert false;
    }
    assert input == t + Repeat(t, 0) == t;
  }

  /** And conversely: a short input that the one match covers entirely is
      accepted, with the record of the whole input. */
  lemma {:induction false} WholeInputIsSingleEmoji(input: Str, names: map<string, string>)
    requires AllDecodable(input)
    requires 0 < |input| < LONGEST_EMOJI
    ensures SingleEmoji(input, [Span(0, |input|)], names) == Some(RecordOf(input, names))
  {
    BytesAtLeast(input);
    assert Repeat(Bytes(input), 1) == Bytes(input);
    RemoveRepeat(Bytes(input), 1);
    assert MatchText(input, Span(0, |input|)) == input;
  }

  lemma {:induction false} RepeatMembers(t: Str, n: nat, i: nat)
    requires i < |Repeat(t, n)|
    ensures Repeat(t, n)[i] in t
  {
    if i >= |t| {
      RepeatMembers(t, n - 1, i - |t|);
    }
  }

  /** A character of the input that the match does not contain (the
      "kitty " before a cat) makes the answer negative. */
  lemma {:induction false} ExtraCharacterRejected(input: Str, spans: seq<Span>, names: map<string, string>, i: nat)
    requires ValidSpans(input, spans) && AllWellFormed(input)
    requires |spans| == 1
    requires i < |input| && input[i] !in MatchText(input, spans[0])
    ensures SingleEmoji(input, spans, names) == None
  {
    if SingleEmoji(input, spans, names).Some? {
      SingleEmojiIsCopies(input, spans, names);
      var n: nat :| n >= 1 && input == Repeat(MatchText(input, spans[0]), n);
      RepeatMembers(MatchText(input, spans[0]), n, i);
    }
  }

  // ---------------------------------------------------------------------
  // Scenarios from tests/EmojiDetectTest.php and tests/EmojiSingleTest.php

  /** U+1F63B SMILING CAT FACE WITH HEART-SHAPED EYES, in UTF-8. */
  const CAT: Char := [0xF0, 0x9F, 0x98, 0xBB]

  /** U+1F44D THUMBS UP SIGN and U+1F3FC EMOJI MODIFIER FITZPATRICK TYPE-3. */
  const THUMBS_UP: Char := [0xF0, 0x9F, 0x91, 0x8D]
  const TYPE_3: Char := [0xF0, 0x9F, 0x8F, 0xBC]

  lemma CatRecord(names: map<string, string>)
    requires "1F63B" in names && names["1F63B"] == "heart_eyes_cat"
    ensures RecordOf([CAT], names).hexStr == "1F63B"
    ensures RecordOf([CAT], names).shortName == Some("heart_eyes_cat")
    ensures RecordOf([CAT], names).skinTone == None
  {
    assert UniOrd(CAT) == Some(0x1F63B);
    assert DecHex(0x1F63B) == DecHex(0x1F63) + "b";
    assert HexOf(0x1F63B) == "1F63B";
    assert PointsHex([CAT]) == ["1F63B"];
    assert "1F63B" !in SKIN_TONES;
    assert ["1F63B"][..0] == [];
  }

  lemma ThumbsUpHex()
    ensures HexOf(PointValue(THUMBS_UP)) == "1F44D"
  {
    assert UniOrd(THUMBS_UP) == Some(0x1F44D);
    assert DecHex(0x1F44D) == DecHex(0x1F44) + "d";
  }

  lemma Type3Hex()
    ensures HexOf(PointValue(TYPE_3)) == "1F3FC"
  {
    assert UniOrd(TYPE_3) == Some(0x1F3FC);
    FitzpatrickHex(0x1F3FC);
  }

  lemma ThumbsUpPoints()
    ensures PointsHex([THUMBS_UP, TYPE_3]) == ["1F44D", "1F3FC"]
  {
    ThumbsUpHex();
    Type3Hex();
    var points := PointsHex([THUMBS_UP, TYPE_3]);
    assert points[0] == "1F44D" && points[1] == "1F3FC";
  }

  lemma ThumbsUpRecord(names: map<string, string>)
    ensures RecordOf([THUMBS_UP, TYPE_3], names).hexStr == "1F44D-1F3FC"
    ensures RecordOf([THUMBS_UP, TYPE_3], names).skinTone == Some("skin-tone-3")
  {
    ThumbsUpPoints();
    var points: seq<string> := ["1F44D", "1F3FC"];
    assert Join(points, KEY_SEPARATOR) == "1F44D" + "-" + "1F3FC";
    assert points[|points| - 1] in SKIN_TONES;
  }

  /** "kitty \u{1F63B}" with the cat as its one match is not one emoji. */
  lemma KittyIsNotSingle(names: map<string, string>)
    ensures SingleEmoji([[0x6B], [0x69], [0x74], [0x74], [0x79], [0x20], CAT], [Span(6, 7)], names) == None
  {
    var input: Str := [[0x6B], [0x69], [0x74], [0x74], [0x79], [0x20], CAT];
    assert MatchText(input, Span(6, 7)) == [CAT];
    assert AllWellFormed(input);
    ExtraCharacterRejected(input, [Span(6, 7)], names, 0);
  }
}
