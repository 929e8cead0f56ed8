/**
 * The JavaScript string operations the login handler relies on:
 * `String.prototype.split` with a one-character separator and
 * `String.prototype.startsWith`.
 */
module JsStrings {

  /** The inverse of splitting: the pieces glued back with the separator. */
  function Join(parts: seq<string>, sep: char): string
  {
    if |parts| == 0 then ""
    else if |parts| == 1 then parts[0]
    else parts[0] + [sep] + Join(parts[1..], sep)
  }

  /**
   * `s.split(sep)`: the maximal separator-free pieces of s, in order.  There
   * is always at least one piece (the empty string splits to `[""]`), no piece
   * holds the separator, and gluing the pieces back gives s.
   */
  function Split(s: string, sep: char): (parts: seq<string>)
    ensures |parts| >= 1
    ensures forall i :: 0 <= i < |parts| ==> sep !in parts[i]
    ensures Join(parts, sep) == s
  {
    if s == [] then [""]
    else
      var rest := Split(s[1..], sep);
      if s[0] == sep then
        assert s == [sep] + s[1..];
        [""] + rest
      else
        var parts := [[s[0]] + rest[0]] + rest[1..];
        assert parts[1..] == rest[1..];
        assert s == [s[0]] + s[1..];
        parts
  }

  /** `s.startsWith(prefix)`. */
  predicate StartsWith(s: string, prefix: string) {
    |prefix| <= |s| && s[..|prefix|] == prefix
  }

  /**
   * w is the text of s up to its first separator: w holds no separator, s
   * starts with w, and s either ends there or continues with the separator.
   */
  predicate IsLeadingPiece(s: string, sep: char, w: string) {
    sep !in w && StartsWith(s, w) && (|w| == |s| || s[|w|] == sep)
  }

  /** The leading piece is unique, so a contract stating it fixes the value. */
  lemma LeadingPieceUnique(s: string, sep: char, w1: string, w2: string)
    requires IsLeadingPiece(s, sep, w1) && IsLeadingPiece(s, sep, w2)
    ensures w1 == w2
  {
  }

  /**
   * The first piece of `s.split(sep)` is the leading piece of s; when there
   * is a second, it is the leading piece of what follows the first separator.
   */
  lemma SplitLeadingPieces(s: string, sep: char)
    ensures IsLeadingPiece(s, sep, Split(s, sep)[0])
    ensures |Split(s, sep)| == 1 <==> sep !in s
    ensures |Split(s, sep)| > 1 ==>
              |Split(s, sep)[0]| < |s| && IsLeadingPiece(s[|Split(s, sep)[0]| + 1..], sep, Split(s, sep)[1])
  {
    var parts := Split(s, sep);
    if |parts| == 1 {
      assert s == parts[0];
    } else {
      var tail := Join(parts[1..], sep);
      assert s == parts[0] + [sep] + tail;
      assert s[..|parts[0]|] == parts[0];
      assert s[|parts[0]|] == sep;
      assert s[|parts[0]| + 1..] == tail;
      if |parts| == 2 {
        assert tail == parts[1];
      } else {
        assert tail == parts[1] + [sep] + Join(parts[2..], sep);
        assert tail[..|parts[1]|] == parts[1];
      }
    }
  }

  /** A piece that holds no separator splits to itself. */
  lemma {:induction false} SplitWithoutSeparator(w: string, sep: char)
    requires sep !in w
    ensures Split(w, sep) == [w]
  {
    if w != [] {
      SplitWithoutSeparator(w[1..], sep);
    }
  }

  /** Splitting at the first separator: the leading piece, then the rest split. */
  lemma {:induction false} SplitAtFirst(w: string, sep: char, rest: string)
    requires sep !in w
    ensures Split(w + [sep] + rest, sep) == [w] + Split(rest, sep)
  {
    var s := w + [sep] + rest;
    if w == [] {
      assert s[1..] == rest;
    } else {
      assert s[1..] == w[1..] + [sep] + rest;
      SplitAtFirst(w[1..], sep, rest);
      var r := Split(s[1..], sep);
      assert s[0] == w[0] != sep;
      assert [s[0]] + r[0] == w;
      assert r[1..] == Split(rest, sep);
    }
  }

  /** Splitting undoes joining whenever no piece holds the separator. */
  lemma {:induction false} SplitJoin(parts: seq<string>, sep: char)
    requires |parts| >= 1
    requires forall i :: 0 <= i < |parts| ==> sep !in parts[i]
    ensures Split(Join(parts, sep), sep) == parts
  {
    if |parts| == 1 {
      SplitWithoutSeparator(parts[0], sep);
    } else {
      SplitJoin(parts[1..], sep);
      SplitAtFirst(parts[0], sep, Join(parts[1..], sep));
    }
  }
}
