/** Particular continuation-key parameters and what they decode to. */
module PagingRequestExamples {
  import opened JavaLang
  import opened JavaStrings
  import opened Attributes
  import opened PagingRequest

  /** The parameter of the unit test decodes to the two string attributes. */
  lemma DecodeTestKey()
    ensures Decode(Some("firstName:Person5,lastName:lastNameTest"))
         == Success(map["firstName" := Str("Person5"), "lastName" := Str("lastNameTest")])
  {
    assert "firstName" + [':'] + "Person5" + [','] + "lastName" + [':'] + "lastNameTest"
        == "firstName:Person5,lastName:lastNameTest";
    DecodeTwoPieces("firstName", "Person5", "lastName", "lastNameTest");
  }

  /** Segments after the second are dropped: `"a:b:c"` maps `a` to `b`. */
  lemma DecodeExtraSegments()
    ensures Decode(Some("a:b:c")) == Success(map["a" := Str("b")])
  {
    assert "a" + [':'] + "b" + [':'] + "c" == "a:b:c";
    DecodeThreeSegments("a", "b", "c");
  }

  /** Of two pieces with the same name the later one wins. */
  lemma DecodeLaterWins()
    ensures Decode(Some("a:1,a:2")) == Success(map["a" := Str("2")])
  {
    assert "a" + [':'] + "1" + [','] + "a" + [':'] + "2" == "a:1,a:2";
    DecodeTwoPieces("a", "1", "a", "2");
    assert map["a" := Str("1")]["a" := Str("2")] == map["a" := Str("2")];
  }

  /** A trailing `,` leaves no empty piece behind, and `","` alone has no
      piece at all. */
  lemma DecodeTrailingCommaExample()
    ensures Decode(Some("a:b,")) == Success(map["a" := Str("b")])
    ensures Decode(Some(",")) == Success(map[])
  {
    assert "a" + [':'] + "b" + [','] == "a:b,";
    DecodeTrailingComma("a", "b");
    assert Join(["", ""], ',') == ",";
    FieldsOfJoin(["", ""], ',');
  }

  /** `"a"` and `"a:"` have no value segment. */
  lemma DecodeMissingValueExample()
    ensures Decode(Some("a")) == Failure(IndexOutOfBounds)
    ensures Decode(Some("a:")) == Failure(IndexOutOfBounds)
  {
    assert "a" + [':'] == "a:";
    DecodeMissingValue("a");
  }

  /** A request without parameters pages by 10 from the start: its key is the
      empty map, not `null`. */
  lemma EmptyRequest()
    ensures PaginationRequest(None, None).GetLimit() == 10
    ensures Decode(PaginationRequest(None, None).lastEvaluatedKey) == Success(map[])
  {
  }
}
