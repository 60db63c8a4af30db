/** The query parameters of a paginated scan or query: the page size and the
    continuation key of the previous page, as `f1:v1,f2:v2`. */
module PagingRequest {
  import opened JavaLang
  import opened JavaStrings
  import opened Attributes

  /** The page size used when the request names none. */
  const DEFAULT_LIMIT: int32 := 10

  /** The `limit` and `lastEvaluatedKey` query parameters, `None` when absent. */
  datatype PaginationRequest = PaginationRequest(limit: Option<int32>, lastEvaluatedKey: JString) {

    /** `getLimit()`: the default when absent, otherwise the value as given,
        with no clamping and no positivity check. */
    function GetLimit(): (r: int32)
      ensures limit.None? ==> r == DEFAULT_LIMIT
      ensures limit.Some? ==> r == limit.value
    {
      if limit.None? then DEFAULT_LIMIT else limit.value
    }

    /** `getLastEvaluatedKey()`: splits the parameter on `,`, splits each piece
        on `:` and puts segment 0 -> string attribute of segment 1 into a fresh
        map, piece by piece. */
    method GetLastEvaluatedKey() returns (r: Result<AttributeMap, Exception>)
      ensures r == Decode(lastEvaluatedKey)
    {
      if lastEvaluatedKey.None? || lastEvaluatedKey.value == "" {
        return Success(map[]);
      }
      var keys: AttributeMap := map[];
      var pieces := Split(lastEvaluatedKey.value, ',');
      var i := 0;
      while i < |pieces|
        invariant 0 <= i <= |pieces|
        invariant PutAll(keys, pieces[i..]) == PutAll(map[], pieces)
      {
        var split := Split(pieces[i], ':');
        if |split| < 2 {
          return Failure(IndexOutOfBounds);
        }
        keys := keys[split[0] := Str(split[1])];
        i := i + 1;
      }
      return Success(keys);
    }
  }

  /** A `,`-piece with a second `:`-segment; any other piece makes `split[1]`
      (or, for `":"`, already `split[0]`) index past the array. */
  predicate WellFormed(piece: string)
    ensures WellFormed(piece) ==> ':' in piece
  {
    |Split(piece, ':')| >= 2
  }

  /** The field name a well-formed piece contributes: its first `:`-segment. */
  function FieldName(piece: string): (r: string)
    requires WellFormed(piece)
    ensures ':' !in r
    ensures r + [':'] <= piece
  {
    FieldsLead(piece, ':');
    Split(piece, ':')[0]
  }

  /** The value a well-formed piece contributes: its second `:`-segment only. */
  function FieldValue(piece: string): (r: string)
    requires WellFormed(piece)
    ensures ':' !in r
    ensures FieldName(piece) + [':'] + r <= piece
    ensures FieldName(piece) + [':'] + r == piece || FieldName(piece) + [':'] + r + [':'] <= piece
  {
    FieldsLead(piece, ':');
    var f := Fields(piece, ':');
    assert piece == f[0] + [':'] + Join(f[1..], ':');
    assert |f| > 2 ==> Join(f[1..], ':') == f[1] + [':'] + Join(f[2..], ':');
    Split(piece, ':')[1]
  }

  /** One iteration of the loop: `keys.put(split[0], s(split[1]))`. */
  function Put(keys: AttributeMap, piece: string): (r: Result<AttributeMap, Exception>)
    ensures r.Failure? <==> !WellFormed(piece)
    ensures r.Failure? ==> r.error == IndexOutOfBounds
    ensures r.Success? ==> r.value.Keys == keys.Keys + {FieldName(piece)}
    ensures r.Success? ==> r.value[FieldName(piece)] == Str(FieldValue(piece))
    ensures r.Success? ==> forall k <- keys.Keys | k != FieldName(piece) :: r.value[k] == keys[k]
  {
    if WellFormed(piece) then Success(keys[FieldName(piece) := Str(FieldValue(piece))])
    else Failure(IndexOutOfBounds)
  }

  /** The loop over all pieces, in order, stopping at the first exception. */
  function PutAll(keys: AttributeMap, pieces: seq<string>): (r: Result<AttributeMap, Exception>)
    ensures r.Failure? ==> r.error == IndexOutOfBounds
    ensures r.Success? ==> keys.Keys <= r.value.Keys
    ensures r.Success? ==> forall k <- r.value.Keys :: r.value[k].Str? || (k in keys && r.value[k] == keys[k])
    decreases |pieces|
  {
    if pieces == [] then Success(keys)
    else
      var next :- Put(keys, pieces[0]);
      PutAll(next, pieces[1..])
  }

  /** The decoded continuation key: empty for an absent or empty parameter. */
  function Decode(s: JString): (r: Result<AttributeMap, Exception>)
    ensures s.None? || s == Some("") ==> r == Success(map[])
  {
    if s.None? || s.value == "" then Success(map[])
    else PutAll(map[], Split(s.value, ','))
  }

  /** The names the well-formed pieces contribute. */
  ghost function Names(pieces: seq<string>): set<string>
  {
    set p | p in pieces && WellFormed(p) :: FieldName(p)
  }

  lemma {:induction false} PutAllFails(keys: AttributeMap, pieces: seq<string>)
    ensures PutAll(keys, pieces).Failure? <==> exists p <- pieces :: !WellFormed(p)
    ensures PutAll(keys, pieces).Failure? ==> PutAll(keys, pieces).error == IndexOutOfBounds
    decreases |pieces|
  {
    if pieces != [] && WellFormed(pieces[0]) {
      PutAllFails(Put(keys, pieces[0]).value, pieces[1..]);
      assert forall p <- pieces :: p == pieces[0] || p in pieces[1..];
    }
  }

  lemma {:induction false} PutAllKeys(keys: AttributeMap, pieces: seq<string>, m: AttributeMap)
    requires PutAll(keys, pieces) == Success(m)
    ensures m.Keys == keys.Keys + Names(pieces)
    decreases |pieces|
  {
    if pieces != [] {
      var next := Put(keys, pieces[0]).value;
      PutAllKeys(next, pieces[1..], m);
      NamesCons(pieces);
    }
  }

  lemma NamesCons(pieces: seq<string>)
    requires pieces != [] && WellFormed(pieces[0])
    ensures Names(pieces) == {FieldName(pieces[0])} + Names(pieces[1..])
  {
    assert forall p <- pieces :: p == pieces[0] || p in pieces[1..];
  }

  /** No well-formed piece names `k`. */
  ghost predicate Unnamed(pieces: seq<string>, k: string)
  {
    forall p <- pieces :: !WellFormed(p) || FieldName(p) != k
  }

  /** Piece `j` is the last piece that names `k`, and it gives `k` the value `v`. */
  ghost predicate LastNaming(pieces: seq<string>, j: int, k: string, v: AttributeValue)
  {
    && 0 <= j < |pieces|
    && WellFormed(pieces[j])
    && FieldName(pieces[j]) == k
    && v == Str(FieldValue(pieces[j]))
    && Unnamed(pieces[j + 1..], k)
  }

  lemma LastNamingShift(pieces: seq<string>, j: int, k: string, v: AttributeValue)
    requires |pieces| > 0
    requires LastNaming(pieces[1..], j, k, v)
    ensures LastNaming(pieces, j + 1, k, v)
  {
    assert pieces[1..][j + 1..] == pieces[j + 2..];
  }

  /** Every entry either was in `keys` and no piece names it, or comes from
      the LAST piece that names it. */
  lemma {:induction false} PutAllEntry(keys: AttributeMap, pieces: seq<string>, m: AttributeMap, k: string)
    requires PutAll(keys, pieces) == Success(m)
    requires k in m
    ensures || (k in keys && m[k] == keys[k] && Unnamed(pieces, k))
            || (exists j :: LastNaming(pieces, j, k, m[k]))
    decreases |pieces|
  {
    if pieces != [] {
      var next := Put(keys, pieces[0]).value;
      PutAllEntry(next, pieces[1..], m, k);
      if k in next && m[k] == next[k] && Unnamed(pieces[1..], k) {
        assert pieces[1..] == pieces[0 + 1..];
        if FieldName(pieces[0]) == k {
          assert LastNaming(pieces, 0, k, m[k]);
        } else {
          assert forall p <- pieces :: p == pieces[0] || p in pieces[1..];
        }
      } else {
        var j :| LastNaming(pieces[1..], j, k, m[k]);
        LastNamingShift(pieces, j, k, m[k]);
      }
    }
  }

  /** Decoding a non-empty parameter fails exactly when some `,`-piece lacks a
      second `:`-segment, and then always with an index-out-of-bounds error;
      such a piece is never skipped. */
  lemma DecodeFails(s: string)
    requires s != ""
    ensures Decode(Some(s)).Failure? <==> exists p <- Split(s, ',') :: !WellFormed(p)
    ensures Decode(Some(s)).Failure? ==> Decode(Some(s)).error == IndexOutOfBounds
  {
    PutAllFails(map[], Split(s, ','));
  }

  /** A decoded key holds exactly the names of the pieces, each mapped to the
      string attribute of the second segment of the last piece that names it. */
  lemma DecodeEntries(s: string, m: AttributeMap)
    requires s != ""
    requires Decode(Some(s)) == Success(m)
    ensures m.Keys == Names(Split(s, ','))
    ensures forall k <- m.Keys :: m[k].Str? && exists j :: LastNaming(Split(s, ','), j, k, m[k])
  {
    var pieces := Split(s, ',');
    assert PutAll(map[], pieces) == Success(m);
    assert m.Keys == Names(pieces) by {
      PutAllKeys(map[], pieces, m);
    }
    assert forall k <- m.Keys :: m[k].Str? && exists j :: LastNaming(pieces, j, k, m[k]) by {
      DecodedEntries(pieces, m);
    }
  }

  lemma DecodedEntries(pieces: seq<string>, m: AttributeMap)
    requires PutAll(map[], pieces) == Success(m)
    ensures forall k <- m.Keys :: m[k].Str? && exists j :: LastNaming(pieces, j, k, m[k])
  {
    forall k <- m.Keys ensures m[k].Str? && exists j :: LastNaming(pieces, j, k, m[k]) {
      PutAllEntry(map[], pieces, m, k);
    }
  }

  // The source never writes a continuation key as a string; what follows is
  // the specification-side encoder the parser is the inverse of.

  /** A field name and value the `k:v` format can carry: no delimiter in
      either, and a non-empty value (an empty one would leave `"k:"`, whose
      split has no second segment). */
  ghost predicate Encodable(k: string, v: string)
  {
    ',' !in k && ':' !in k && ',' !in v && ':' !in v && v != ""
  }

  /** `k:v`. */
  ghost function EntryPiece(k: string, v: string): string
  {
    k + [':'] + v
  }

  /** The entries as `k1:v1,k2:v2,...`, in the given order. */
  ghost function EncodeEntries(entries: seq<(string, string)>): string
  {
    Join(seq(|entries|, i requires 0 <= i < |entries| => EntryPiece(entries[i].0, entries[i].1)), ',')
  }

  /** The entries put into `keys` one after the other, later ones overwriting
      earlier ones. */
  ghost function PutEntries(keys: AttributeMap, entries: seq<(string, string)>): AttributeMap
    decreases |entries|
  {
    if entries == [] then keys
    else PutEntries(keys[entries[0].0 := Str(entries[0].1)], entries[1..])
  }

  /** Some order on a set of field names. */
  ghost function KeyOrder(names: set<string>): (r: seq<string>)
    ensures forall k :: k in r <==> k in names
  {
    if names == {} then []
    else
      var k :| k in names;
      [k] + KeyOrder(names - {k})
  }

  /** The entries of a flattened key, in some order. */
  ghost function EntriesOf(m: map<string, string>): (r: seq<(string, string)>)
  {
    var names := KeyOrder(m.Keys);
    seq(|names|, i requires 0 <= i < |names| => (names[i], m[names[i]]))
  }

  /** A flattened key written as the `lastEvaluatedKey` parameter. */
  ghost function Encode(m: map<string, string>): string
  {
    EncodeEntries(EntriesOf(m))
  }

  lemma {:induction false} PutAllEntries(keys: AttributeMap, entries: seq<(string, string)>)
    requires forall e <- entries :: Encodable(e.0, e.1)
    ensures PutAll(keys, seq(|entries|, i requires 0 <= i < |entries| => EntryPiece(entries[i].0, entries[i].1)))
         == Success(PutEntries(keys, entries))
    decreases |entries|
  {
    var pieces := seq(|entries|, i requires 0 <= i < |entries| => EntryPiece(entries[i].0, entries[i].1));
    if entries != [] {
      var (k, v) := entries[0];
      SplitPair(k, ':', v);
      assert pieces[0] == k + [':'] + v;
      var rest := entries[1..];
      assert pieces[1..] == seq(|rest|, i requires 0 <= i < |rest| => EntryPiece(rest[i].0, rest[i].1));
      PutAllEntries(keys[k := Str(v)], rest);
    }
  }

  /** Decoding `k1:v1,...,kn:vn` puts the entries in order. */
  lemma DecodeEncodedEntries(entries: seq<(string, string)>)
    requires forall e <- entries :: Encodable(e.0, e.1)
    ensures Decode(Some(EncodeEntries(entries))) == Success(PutEntries(map[], entries))
  {
    var pieces := seq(|entries|, i requires 0 <= i < |entries| => EntryPiece(entries[i].0, entries[i].1));
    if entries != [] {
      var s := EncodeEntries(entries);
      assert s[..|pieces[0]|] == pieces[0] by {
        if |pieces| > 1 {
          assert s == pieces[0] + ([','] + Join(pieces[1..], ','));
        }
      }
      assert |pieces[|pieces| - 1]| > 0;
      SplitOfJoin(pieces, ',');
      PutAllEntries(map[], entries);
    }
  }

  lemma {:induction false} PutEntriesOfMap(keys: AttributeMap, m: map<string, string>, names: seq<string>)
    requires forall k <- names :: k in m
    ensures PutEntries(keys, seq(|names|, i requires 0 <= i < |names| => (names[i], m[names[i]])))
         == keys + map k | k in names :: Str(m[k])
    decreases |names|
  {
    var entries := seq(|names|, i requires 0 <= i < |names| => (names[i], m[names[i]]));
    if names != [] {
      var rest := names[1..];
      assert entries[1..] == seq(|rest|, i requires 0 <= i < |rest| => (rest[i], m[rest[i]]));
      PutEntriesOfMap(keys[names[0] := Str(m[names[0]])], m, rest);
      assert forall k :: k in names <==> k == names[0] || k in rest;
    }
  }

  /** Round trip: writing a key map as `k:v,...` (in any order) and parsing it
      back gives every field as a string attribute of its value. The empty map
      is written as the empty string and parses back empty. */
  lemma DecodeEncode(m: map<string, string>)
    requires forall k <- m :: Encodable(k, m[k])
    ensures Decode(Some(Encode(m))) == Success(map k | k in m :: Str(m[k]))
  {
    var names := KeyOrder(m.Keys);
    var entries := EntriesOf(m);
    assert forall e <- entries :: Encodable(e.0, e.1);
    DecodeEncodedEntries(entries);
    PutEntriesOfMap(map[], m, names);
    assert map[] + (map k | k in names :: Str(m[k])) == map k | k in m :: Str(m[k]);
  }

  /** Two pieces decode to both entries, put in order: the second wins when
      both name the same field. */
  lemma DecodeTwoPieces(k1: string, v1: string, k2: string, v2: string)
    requires Encodable(k1, v1) && Encodable(k2, v2)
    ensures Decode(Some(k1 + [':'] + v1 + [','] + k2 + [':'] + v2))
         == Success(map[k1 := Str(v1)][k2 := Str(v2)])
  {
    var p1, p2 := k1 + [':'] + v1, k2 + [':'] + v2;
    assert k1 + [':'] + v1 + [','] + k2 + [':'] + v2 == p1 + [','] + p2;
    SplitPair(p1, ',', p2);
    SplitPair(k1, ':', v1);
    SplitPair(k2, ':', v2);
    assert Put(map[], p1) == Success(map[k1 := Str(v1)]);
    assert Put(map[k1 := Str(v1)], p2) == Success(map[k1 := Str(v1)][k2 := Str(v2)]);
    assert [p1, p2][1..] == [p2];
    assert PutAll(map[k1 := Str(v1)], [p2]) == Success(map[k1 := Str(v1)][k2 := Str(v2)]);
    assert PutAll(map[], [p1, p2]) == Success(map[k1 := Str(v1)][k2 := Str(v2)]);
    assert |p1 + [','] + p2| > 0;
  }

  /** Only the second `:`-segment becomes the value; a third is dropped. */
  lemma DecodeThreeSegments(k: string, v: string, w: string)
    requires Encodable(k, v) && Encodable("", w)
    ensures Decode(Some(k + [':'] + v + [':'] + w)) == Success(map[k := Str(v)])
  {
    var s := k + [':'] + v + [':'] + w;
    assert [k, v, w][1..] == [v, w];
    assert Join([v, w], ':') == v + [':'] + w;
    assert Join([k, v, w], ':') == s;
    SplitOfJoin([k, v, w], ':');
    assert Split(s, ',') == [s];
    assert Put(map[], s) == Success(map[k := Str(v)]);
    assert [s][1..] == [];
    assert PutAll(map[], [s]) == Success(map[k := Str(v)]);
    assert |s| > 0;
  }

  /** A trailing `,` adds no piece: split drops the empty field after it. */
  lemma DecodeTrailingComma(k: string, v: string)
    requires Encodable(k, v)
    ensures Decode(Some(k + [':'] + v + [','])) == Success(map[k := Str(v)])
  {
    var p := k + [':'] + v;
    var s := p + [','];
    assert Join([p, ""], ',') == s;
    FieldsOfJoin([p, ""], ',');
    assert s[|p|] == ',';
    assert Split(s, ',') == [p];
    SplitPair(k, ':', v);
    assert Put(map[], p) == Success(map[k := Str(v)]);
    assert [p][1..] == [];
    assert PutAll(map[], [p]) == Success(map[k := Str(v)]);
  }

  /** A piece with no value segment is an error, not skipped, whether it has
      no `:` at all or ends in one. */
  lemma DecodeMissingValue(k: string)
    requires k != "" && ',' !in k && ':' !in k
    ensures Decode(Some(k)) == Failure(IndexOutOfBounds)
    ensures Decode(Some(k + [':'])) == Failure(IndexOutOfBounds)
  {
    var s := k + [':'];
    assert Split(k, ',') == [k];
    assert Split(k, ':') == [k];
    assert Join([k, ""], ':') == s;
    FieldsOfJoin([k, ""], ':');
    assert s[|k|] == ':';
    assert Split(s, ':') == [k];
    assert Split(s, ',') == [s];
    assert PutAll(map[], [s]) == Failure(IndexOutOfBounds);
  }
}