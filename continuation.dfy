/** The continuation key across two requests: the key map a response carries,
    written back by the client as the `lastEvaluatedKey` parameter. */
module Continuation {
  import opened JavaLang
  import opened Attributes
  import PagingRequest
  import PagingResponse

  /** A store key whose attributes are all strings the `k:v` format can carry:
      its flattened form, as the response hands it out, written back as
      `k:v,...` decodes to the very same key map. */
  lemma ResumeFromResponseKey(key: AttributeMap)
    requires forall k <- key.Keys :: key[k].Str? && PagingRequest.Encodable(k, key[k].str)
    ensures var flat := PagingResponse.Flatten(Some(key));
            && (forall k <- flat.Keys :: flat[k].Some?)
            && PagingRequest.Decode(Some(PagingRequest.Encode(map k | k in flat :: flat[k].value)))
               == Success(key)
  {
    var flat := PagingResponse.Flatten(Some(key));
    var written := map k | k in flat :: flat[k].value;
    assert written == map k | k in key :: key[k].str;
    PagingRequest.DecodeEncode(written);
    assert (map k | k in written :: Str(written[k])) == key;
  }
}
