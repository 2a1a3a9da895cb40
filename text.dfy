/**
 * The PHP string functions src/Emoji.php relies on: `implode`,
 * `explode` (to state that `implode` loses nothing) and
 * `str_replace($needle, '', $subject)`.
 */
module Text {

  /** `implode($sep, $parts)`. */
  function Join(parts: seq<string>, sep: char): string
  {
    if |parts| == 0 then ""
    else if |parts| == 1 then parts[0]
    else parts[0] + [sep] + Join(parts[1..], sep)
  }

  /** `explode($sep, $s)`: the pieces between separators; always at least one. */
  function Split(s: string, sep: char): (r: seq<string>)
    ensures |r| >= 1
  {
    if |s| == 0 then [""]
    else
      var rest := Split(s[1..], sep);
      if s[0] == sep then [""] + rest else [[s[0]] + rest[0]] + rest[1..]
  }

  lemma {:induction false} SplitWithoutSep(p: string, sep: char)
    requires sep !in p
    ensures Split(p, sep) == [p]
  {
    if |p| > 0 {
      SplitWithoutSep(p[1..], sep);
      assert [p[0]] + p[1..] == p;
    }
  }

  lemma {:induction false} SplitAfterPiece(p: string, sep: char, rest: string)
    requires sep !in p
    ensures Split(p + [sep] + rest, sep) == [p] + Split(rest, sep)
  {
    var s := p + [sep] + rest;
    if |p| == 0 {
      assert s[1..] == rest;
    } else {
      assert s[1..] == p[1..] + [sep] + rest;
      SplitAfterPiece(p[1..], sep, rest);
      assert [p[0]] + p[1..] == p;
    }
  }

  /** Splitting a join of separator-free pieces gives the pieces back. */
  lemma {:induction false} SplitJoin(parts: seq<string>, sep: char)
    requires |parts| > 0
    requires forall i :: 0 <= i < |parts| ==> sep !in parts[i]
    ensures Split(Join(parts, sep), sep) == parts
  {
    if |parts| == 1 {
      SplitWithoutSep(parts[0], sep);
    } else {
      SplitJoin(parts[1..], sep);
      SplitAfterPiece(parts[0], sep, Join(parts[1..], sep));
      assert [parts[0]] + parts[1..] == parts;
    }
  }

  /** So equal joins of separator-free pieces come from equal pieces. */
  lemma {:induction false} JoinInjective(a: seq<string>, b: seq<string>, sep: char)
    requires |a| > 0 && |b| > 0
    requires forall i :: 0 <= i < |a| ==> sep !in a[i]
    requires forall i :: 0 <= i < |b| ==> sep !in b[i]
    requires Join(a, sep) == Join(b, sep)
    ensures a == b
  {
    SplitJoin(a, sep);
    SplitJoin(b, sep);
  }

  /** `n` copies of `s`, one after the other. */
  function Repeat<T>(s: seq<T>, n: nat): seq<T>
  {
    if n == 0 then [] else s + Repeat(s, n - 1)
  }

  /** `str_replace($needle, '', $hay)`: scanning from the left, every
      occurrence of `needle` that does not overlap an earlier one is
      dropped. An empty needle leaves the subject as it is. */
  function RemoveAll<T(==)>(needle: seq<T>, hay: seq<T>): seq<T>
    decreases |hay|
  {
    if |needle| == 0 || |hay| < |needle| then hay
    else if hay[..|needle|] == needle then RemoveAll(needle, hay[|needle|..])
    else [hay[0]] + RemoveAll(needle, hay[1..])
  }

  /** Nothing is left after the removal exactly when the subject is a
      number of copies of the (non-empty) needle. This direction: an
      empty remainder means copies. */
  lemma {:induction false} RemovedToNothing<T>(needle: seq<T>, hay: seq<T>)
    requires |needle| > 0
    requires RemoveAll(needle, hay) == []
    ensures exists n: nat :: hay == Repeat(needle, n)
    decreases |hay|
  {
    if |hay| < |needle| {
      assert hay == Repeat(needle, 0);
    } else {
      assert hay[..|needle|] == needle;
      var rest := hay[|needle|..];
      RemovedToNothing(needle, rest);
      var n: nat :| rest == Repeat(needle, n);
      assert hay == needle + rest;
      assert hay == Repeat(needle, n + 1);
    }
  }

  /** The other direction: copies of the needle are removed completely. */
  lemma {:induction false} RemoveRepeat<T>(needle: seq<T>, n: nat)
    requires |needle| > 0
    ensures RemoveAll(needle, Repeat(needle, n)) == []
  {
    if n > 0 {
      var hay := Repeat(needle, n);
      assert hay[..|needle|] == needle;
      assert hay[|needle|..] == Repeat(needle, n - 1);
      RemoveRepeat(needle, n - 1);
    }
  }
}
