/** `java.lang.String.split(String regex)` for a one-character, non-meta
    separator, which is how the continuation-key parser calls it:
    `s.split(",")` and `piece.split(":")`. */
module JavaStrings {

  /** The pieces of `pieces` glued back together with `sep` between
      neighbours. Nothing in the source joins strings; this is the
      specification-side inverse of splitting. */
  ghost function Join(pieces: seq<string>, sep: char): string
  {
    if |pieces| == 0 then ""
    else if |pieces| == 1 then pieces[0]
    else pieces[0] + [sep] + Join(pieces[1..], sep)
  }

  /** Every piece of `s` around every occurrence of `sep`, empty pieces
      included: a string with n separators has n + 1 fields. */
  function Fields(s: string, sep: char): (r: seq<string>)
    ensures |r| >= 1
    ensures forall p <- r :: sep !in p
    ensures Join(r, sep) == s
  {
    if |s| == 0 then [""]
    else
      var rest := Fields(s[1..], sep);
      if s[0] == sep then
        [""] + rest
      else
        assert s == [s[0]] + s[1..];
        [[s[0]] + rest[0]] + rest[1..]
  }

  /** Drops the empty strings at the end of `pieces`, as `split` does when
      called without a limit. */
  function DropTrailingEmpty(pieces: seq<string>): (r: seq<string>)
    ensures r <= pieces
    ensures forall i | |r| <= i < |pieces| :: pieces[i] == ""
    ensures |r| == 0 || r[|r| - 1] != ""
  {
    if |pieces| > 0 && pieces[|pieces| - 1] == "" then
      DropTrailingEmpty(pieces[..|pieces| - 1])
    else
      pieces
  }

  /** `s.split(sep)`. When `sep` does not occur the result is `{s}` itself,
      even for the empty string; otherwise it is the fields of `s` with the
      trailing empty ones removed, which may leave no piece at all. */
  function Split(s: string, sep: char): (r: seq<string>)
    ensures sep !in s ==> r == [s]
    ensures forall p <- r :: sep !in p
    ensures sep in s ==> r == [] || r[|r| - 1] != ""
    ensures sep in s ==> r <= Fields(s, sep)
    ensures sep in s ==> forall i | |r| <= i < |Fields(s, sep)| :: Fields(s, sep)[i] == ""
  {
    if sep !in s then [s] else DropTrailingEmpty(Fields(s, sep))
  }

  /** A string free of `sep` is a single field. */
  lemma {:induction false} FieldsOfPiece(p: string, sep: char)
    requires sep !in p
    ensures Fields(p, sep) == [p]
  {
    if |p| > 0 {
      FieldsOfPiece(p[1..], sep);
      assert [p[0]] + p[1..] == p;
    }
  }

  /** A leading piece free of `sep`, then `sep`, splits off as the first field. */
  lemma {:induction false} FieldsOfCons(p: string, sep: char, rest: string)
    requires sep !in p
    ensures Fields(p + [sep] + rest, sep) == [p] + Fields(rest, sep)
  {
    var s := p + [sep] + rest;
    if |p| == 0 {
      assert s[1..] == rest;
    } else {
      assert s[1..] == p[1..] + [sep] + rest;
      FieldsOfCons(p[1..], sep, rest);
      assert [p[0]] + p[1..] == p;
    }
  }

  /** Fields is the inverse of Join on pieces that hold no separator. */
  lemma {:induction false} FieldsOfJoin(pieces: seq<string>, sep: char)
    requires |pieces| >= 1
    requires forall p <- pieces :: sep !in p
    ensures Fields(Join(pieces, sep), sep) == pieces
  {
    if |pieces| == 1 {
      FieldsOfPiece(pieces[0], sep);
    } else {
      FieldsOfJoin(pieces[1..], sep);
      FieldsOfCons(pieces[0], sep, Join(pieces[1..], sep));
      assert [pieces[0]] + pieces[1..] == pieces;
    }
  }

  /** Split undoes Join when no piece holds the separator and the last piece
      is not empty (a lone empty piece is the `"".split(sep) == {""}` case). */
  lemma SplitOfJoin(pieces: seq<string>, sep: char)
    requires |pieces| >= 1
    requires forall p <- pieces :: sep !in p
    requires |pieces| == 1 || pieces[|pieces| - 1] != ""
    ensures Split(Join(pieces, sep), sep) == pieces
  {
    var s := Join(pieces, sep);
    if |pieces| == 1 {
      assert s == pieces[0];
    } else {
      assert s[|pieces[0]|] == sep;
      FieldsOfJoin(pieces, sep);
    }
  }

  /** Two separator-free pieces, the second non-empty, split back apart. */
  lemma SplitPair(a: string, sep: char, b: string)
    requires sep !in a && sep !in b && b != ""
    ensures Split(a + [sep] + b, sep) == [a, b]
  {
    assert Join([a, b], sep) == a + [sep] + b;
    SplitOfJoin([a, b], sep);
  }

  /** When there are at least two fields, the input starts with the first
      field, the separator and the second field. */
  lemma FieldsLead(s: string, sep: char)
    requires |Fields(s, sep)| >= 2
    ensures Fields(s, sep)[0] + [sep] + Fields(s, sep)[1] <= s
  {
    var r := Fields(s, sep);
    assert s == r[0] + [sep] + Join(r[1..], sep);
    if |r| > 2 {
      assert Join(r[1..], sep) == r[1] + [sep] + Join(r[2..], sep);
    }
  }
}
