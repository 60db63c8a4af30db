/** DynamoDB's `AttributeValue` as far as this layer uses it: the string
    variant, and everything else lumped together. */
module Attributes {
  import opened JavaLang

  /** An attribute value. `Str` is a value built with `.s(x)` for a non-null
      `x`; `NonString` is any other value (a number, a list, a map, or a
      builder given `.s(null)`). */
  datatype AttributeValue = Str(str: string) | NonString {

    /** `AttributeValue.s()`: the string component, `null` when there is none. */
    function S(): (r: JString)
      ensures r.Some? <==> Str?
      ensures Str? ==> r == Some(str)
    {
      if Str? then Some(str) else None
    }
  }

  /** `AttributeValue.builder().s(x).build()`. */
  function OfS(x: JString): (r: AttributeValue)
    ensures r.S() == x
  {
    if x.Some? then Str(x.value) else NonString
  }

  /** A DynamoDB item or key as the low-level client hands it over. */
  type AttributeMap = map<string, AttributeValue>

  /** `item.get(column).s()`: a missing column makes `get` return `null`,
      and calling `s()` on it throws. */
  function Column(item: AttributeMap, column: string): (r: Result<JString, Exception>)
    ensures r.Failure? <==> column !in item
    ensures r.Failure? ==> r.error == NullPointer
    ensures column in item ==> r.value == item[column].S()
  {
    if column in item then Success(item[column].S()) else Failure(NullPointer)
  }
}
