# Emoji detector: a Dafny model

This project models the core of the PHP library `Emoji\Emoji`. The library finds emoji in a string and builds one record per emoji found. A record holds the matched text, its short name, its code points written in upper-case hexadecimal, the hyphen-joined lookup key and the skin tone. The library also decides whether a string is one emoji and nothing else.

Modules:

- `Wrappers` (wrappers.dfy): `Option`. `None` stands for PHP's `null`, and for the `false` that `isSingleEmoji` returns.
- `Utf8` (utf8.dfy): `uniOrd`, the hand-written UTF-8 leading-byte decoder, as `UniOrd`. It is proved against the encoding of section 3 of RFC 3629 in both directions.
- `Hex` (hex.dfy): `strtoupper(dechex($v))`. `dechex` writes its argument as an unsigned 64-bit number, so `PhpDechex` adds 2^64 to a negative argument. `ParseHex` reads the digits back.
- `Text` (text.dfy): `implode`, `explode` and `str_replace($needle, '', $subject)`. `explode` is there only to state that `implode` loses nothing.
- `Emoji` (emoji.dfy): the constant `LONGEST_EMOJI`, the skin-tone table, the records, and the methods `DetectEmoji` and `IsSingleEmoji` with their loops. Each method is proved against a specification function (`RecordOf`, `SkinToneOf`, `SingleEmoji`).
- `EmojiProperties` (emoji_properties.dfy): what those functions mean. It covers the shape of a record, the key round trip, the last-modifier-wins rule and the two readings of a positive `isSingleEmoji` answer. It also holds scenarios taken from the test files.

Representation:

- A string is a sequence of characters (`Str`). Each character is the one to four bytes that `mb_substr($s, $i, 1)` returns.
- `mb_strlen` is the length of that sequence.
- PHP's byte string is `Bytes(s)`, and `strlen` is its length.
- `str_replace` works on bytes in PHP, and so does the model. `BytesInjective` lifts the result to characters for well-formed UTF-8.
- The pattern scan (`preg_match_all`) is an input: a list of `Span`s, each a non-empty run of characters of the input. `ValidSpans` says they come in order and do not overlap.
- The name table is an input `map<string, string>`.

The model follows the code in these places, where the behaviour is easy to misread:

- A character that does not decode (`uniOrd` returns `null`) is not left unset. The code passes `null` to `dechex`, which reads it as 0, so that point is written `"0"` (`PointValue`).
- `uniOrd` does not check continuation bytes. A malformed one can make the decoded value negative, and `dechex` then writes the unsigned 64-bit pattern of that value. The decoder also accepts overlong forms and the leaders F5 to F7, which RFC 3629 rules out.
- The single-emoji check removes every occurrence of the match text, and it counts what is left in bytes. From the code alone, a positive answer only means the input is one or more copies of the emoji (`SingleEmojiIsCopies`). It means exactly one copy only under the stated assumption about the pattern, `FindsEveryOccurrence` (`SingleEmojiIsWholeInput`).

## Model

| member | source | states |
|---|---|---|
| `Utf8.UniOrd` | src/Emoji.php:156-176 | A leading byte 0..127 is returned unchanged. The result is null exactly when the leading byte is 128..191 or 248..255. Any value returned lies strictly between -0x100000 and 0x400000. |
| `Utf8.DecodeEncodeIn` | src/Emoji.php:162-173 | A value below 0x80, 0x800, 0x10000 or 0x200000, written in 1, 2, 3 or 4 bytes, forms a well-formed sequence of that length, and `uniOrd` decodes it back to the value. |
| `Utf8.EncodeDecode` | src/Emoji.php:162-173 | With continuation bytes in 128..191, each branch returns a value in 0 up to 0x80, 0x800, 0x10000 or 0x200000 (exclusive). Re-encoding that value in the same number of bytes gives the character back. |
| `Utf8.DecodeEncode` | src/Emoji.php:156-176 | For every Unicode scalar value, `uniOrd` of its RFC 3629 encoding returns that value, and the encoding is well-formed. |
| `Utf8.EncodeOfDecoded` | src/Emoji.php:162-173 | A well-formed character in shortest form that decodes to a scalar value is exactly the RFC 3629 encoding of that value. |
| `Hex.UpperDecHex` | src/Emoji.php:60 | `strtoupper(dechex(n))` is made of upper-case hex digits, has no leading zero (except "0" itself) and parses back to `n`. |
| `Hex.HexOfForm` | src/Emoji.php:60 | For any PHP integer, the written form is canonical upper-case hex and parses back to the unsigned value `dechex` read. For a non-negative code point, that is the code point itself. |
| `Hex.HexOfInjective` | src/Emoji.php:60 | Two PHP integers with the same written form are equal. |
| `Hex.HexOfHasNoDash` | src/Emoji.php:60-62 | A written code point never contains the key separator '-'. |
| `Text.SplitJoin` | src/Emoji.php:62 | Exploding on the separator gives back the pieces of the implode, when the pieces are separator-free and there is at least one. |
| `Text.JoinInjective` | src/Emoji.php:62 | Equal implodes of non-empty lists of separator-free pieces come from equal lists. |
| `Text.RemovedToNothing` | src/Emoji.php:116-119 | With a non-empty needle, if `str_replace(needle, '', hay)` leaves nothing, then `hay` is a whole number of copies of the needle. |
| `Text.RemoveRepeat` | src/Emoji.php:116-119 | Any number of copies of a non-empty needle is removed completely. |
| `Emoji.DecodePoints` | src/Emoji.php:57-61 | The inner loop yields exactly one written code point per character of the match, in order: `PointsHex(m)`. |
| `Emoji.ScanSkinTone` | src/Emoji.php:65-77 | The loop's final tone is that of the last point found in the five-entry modifier table: `SkinToneOf(points)`. |
| `Emoji.DetectEmoji` | src/Emoji.php:48-95 | Exactly one record per match, in the matcher's order. Record `k` is the one assembled from match `k`'s text. No matches give an empty result. |
| `Emoji.IsSingleEmoji` | src/Emoji.php:97-129 | False when the input has 8 or more characters, or when the match count is not 1. Otherwise the sole record is returned exactly when removing every occurrence of its text leaves zero bytes. A positive answer means the input bytes are one or more copies of the emoji's bytes. |
| `EmojiProperties.RecordShape` | src/Emoji.php:57-86 | `emoji` is the matched text, and `num_points`, the length of `points_hex` and the character count are equal. Each entry is canonical upper-case hex that parses back to the decoded code point. `short_name` is the table entry for `hex_str`, or null when the key is absent. |
| `EmojiProperties.HexStrSplits` | src/Emoji.php:62 | Splitting `hex_str` on '-' gives `points_hex` back. |
| `EmojiProperties.KeyDeterminesPoints` | src/Emoji.php:62-64 | Two matches with equal `hex_str` have the same number of characters and the same code points. |
| `EmojiProperties.SkinToneIsLastModifier` | src/Emoji.php:73-77 | The tone is null exactly when no point is a table key. Otherwise it is the label of a key point with no key point after it. |
| `EmojiProperties.FitzpatrickHex` | src/Emoji.php:66-72 | Code points U+1F3FB..U+1F3FF are written "1F3F" followed by their last digit. |
| `EmojiProperties.ToneTableByValue` | src/Emoji.php:66-75 | A written point is a key of the skin-tone table exactly when its code point is in U+1F3FB..U+1F3FF. It then maps to "skin-tone-2".."skin-tone-6", in that order. |
| `EmojiProperties.RecordSkinTone` | src/Emoji.php:65-77 | `skin_tone` is null exactly when no code point of the match is a Fitzpatrick modifier. Otherwise it is the label of the last modifier. |
| `EmojiProperties.BytesInjective` | src/Emoji.php:116 | Two sequences of well-formed UTF-8 characters with the same bytes are equal. So the byte-level removal can be read on characters. |
| `EmojiProperties.SingleEmojiIsCopies` | src/Emoji.php:103-121 | A positive answer implies fewer than 8 characters and exactly one match. The answer is that match's record, and the input is one or more concatenated copies of its `emoji` text. |
| `EmojiProperties.SingleEmojiIsWholeInput` | src/Emoji.php:107-121 | Assume every occurrence of a match's text starts a match. Then a positive answer means the one match spans the whole input, and the record is the record of the whole input. |
| `EmojiProperties.WholeInputIsSingleEmoji` | src/Emoji.php:103-121 | Conversely, a non-empty input of fewer than 8 characters, matched as a whole by one match, is accepted with the record of the whole input. |
| `EmojiProperties.ExtraCharacterRejected` | src/Emoji.php:112-121 | With one match, any character of the input that the match text does not contain forces a negative answer. |
| `EmojiProperties.CatRecord` | tests/EmojiDetectTest.php:18-26 | The UTF-8 bytes F0 9F 98 BB give key "1F63B", short name "heart_eyes_cat" (from a table holding it) and no skin tone. |
| `EmojiProperties.ThumbsUpRecord` | tests/EmojiDetectTest.php:56-65 | Thumbs-up followed by the type-3 modifier gives key "1F44D-1F3FC" and skin tone "skin-tone-3". |
| `EmojiProperties.KittyIsNotSingle` | tests/EmojiSingleTest.php:39-44 | "kitty " followed by the cat, whose one match is the cat, is not a single emoji. |

## Left out

- `loadMap`, `loadRegexp` and the constructor's static caching (src/Emoji.php:33-41, 136-149) read files and call `json_decode`. That is I/O over unseen data, so the map and the match list are inputs instead.
- The PCRE semantics of `preg_match_all` and the alternation pattern (src/Emoji.php:55) are not modelled. The longest-match policy lives in the unseen pattern data. The scan result is an input constrained by `ValidSpans`, and a `false` return from a failing PCRE call is not represented.
- The full claim "exactly one copy" for `isSingleEmoji` depends on the pattern. It is proved only under the explicit hypothesis `FindsEveryOccurrence`.
- Saving and restoring `mb_internal_encoding` (src/Emoji.php:51-52, 90-92, 99-100, 124-126) is process-global library state and is not modelled. So is the early `return false` that skips the restore.
- Utf8.UniOrd: PHP's behaviour for string offsets past the end is not modelled. The precondition `Decodable` asks for as many bytes as the leader makes the code read. A byte that leads nothing demands only itself, since its result is null whatever follows.
- The mapping from a PHP string to characters (`mb_substr` in UTF-8 mode) is taken as given: the input is already a sequence of characters.
- Running `detectEmoji` twice on the same input gives the same result, but no lemma states this. Every member here is a deterministic function of its inputs.
- The PHPUnit harness and test-class constructors are not modelled.
