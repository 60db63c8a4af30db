/** The `person` table's record and its codec to and from a low-level
    DynamoDB item. */
module PersonRecord {
  import opened JavaLang
  import opened Attributes

  const TABLE_NAME := "person"
  const FIRST_NAME_COLUMN := "firstName"
  const LAST_NAME_COLUMN := "lastName"
  const CPF_COLUMN := "cpf"

  /** An immutable person. A field is `None` (`null`) when it was read from
      an attribute that has no string component. */
  datatype Person = Person(firstName: JString, lastName: JString, cpf: JString)
  {
    /** `Person.from(item)`: a null or empty item is rejected outright;
        otherwise each column is read with `get(...).s()`, so a missing column
        dereferences `null`. No person is built unless all three reads
        succeed. */
    static function From(item: Option<AttributeMap>): (r: Result<Person, Exception>)
      ensures r == Failure(IllegalArgument) <==> item.None? || item.value == map[]
      ensures r == Failure(NullPointer) <==>
                item.Some? && item.value != map[] && !(HasColumns(item.value))
      ensures r.Success? <==> item.Some? && HasColumns(item.value)
      ensures r.Success? ==>
                && r.value.firstName == item.value[FIRST_NAME_COLUMN].S()
                && r.value.lastName == item.value[LAST_NAME_COLUMN].S()
                && r.value.cpf == item.value[CPF_COLUMN].S()
    {
      if item.None? || |item.value| == 0 then
        Failure(IllegalArgument)
      else
        var firstName :- Column(item.value, FIRST_NAME_COLUMN);
        var lastName :- Column(item.value, LAST_NAME_COLUMN);
        var cpf :- Column(item.value, CPF_COLUMN);
        Success(Person(firstName, lastName, cpf))
    }

    /** `toDynamodbAttributes()`: exactly the three columns, each built with
        `AttributeValue.builder().s(field)`. */
    function ToDynamodbAttributes(): (r: AttributeMap)
      ensures r.Keys == {FIRST_NAME_COLUMN, LAST_NAME_COLUMN, CPF_COLUMN}
      ensures r[FIRST_NAME_COLUMN].S() == firstName
      ensures r[LAST_NAME_COLUMN].S() == lastName
      ensures r[CPF_COLUMN].S() == cpf
    {
      map[FIRST_NAME_COLUMN := OfS(firstName), LAST_NAME_COLUMN := OfS(lastName), CPF_COLUMN := OfS(cpf)]
    }

    /** `equals(o)`. `identical` is the reference test `this == o`; `other`
        is `o`, `None` for `null`. `firstName` and `lastName` are compared
        with `String.equals`, which throws when the receiver is `null`;
        `cpf` with the null-safe `Objects.equals`. */
    function Equals(identical: bool, other: Option<Person>): (r: Result<bool, Exception>)
      requires identical ==> other == Some(this)
      ensures identical ==> r == Success(true)
      ensures !identical && other.None? ==> r == Success(false)
      ensures !identical && other.Some? && firstName.Some? && lastName.Some? ==>
                r == Success(this == other.value)
      ensures !identical && other.Some? && firstName.None? ==> r == Failure(NullPointer)
      ensures !identical && other.Some? && firstName.Some? && lastName.None? ==>
                r == (if firstName == other.value.firstName then Failure(NullPointer) else Success(false))
      ensures r.Failure? ==> r.error == NullPointer && (firstName.None? || lastName.None?)
    {
      if identical then Success(true)
      else if other.None? then Success(false)
      else if firstName.None? then Failure(NullPointer)
      else if firstName != other.value.firstName then Success(false)
      else if lastName.None? then Failure(NullPointer)
      else Success(lastName == other.value.lastName && cpf == other.value.cpf)
    }
  }

  /** All three columns are present in `item`. */
  predicate HasColumns(item: AttributeMap)
  {
    FIRST_NAME_COLUMN in item && LAST_NAME_COLUMN in item && CPF_COLUMN in item
  }

  /** Round trip: every person, `null` fields included, is read back from
      its own attributes. */
  lemma FromToDynamodbAttributes(p: Person)
    ensures Person.From(Some(p.ToDynamodbAttributes())) == Success(p)
  {
  }

  /** Columns other than the three are ignored: two items that agree on the
      three columns decode alike. */
  lemma FromIgnoresExtraColumns(item: AttributeMap, other: AttributeMap)
    requires HasColumns(item) && HasColumns(other)
    requires item[FIRST_NAME_COLUMN] == other[FIRST_NAME_COLUMN]
    requires item[LAST_NAME_COLUMN] == other[LAST_NAME_COLUMN]
    requires item[CPF_COLUMN] == other[CPF_COLUMN]
    ensures Person.From(Some(item)) == Person.From(Some(other))
  {
  }

  /** The item of the unit test decodes to the person it was built from. */
  lemma FromTestItem()
    ensures Person.From(Some(map[FIRST_NAME_COLUMN := Str("Name"), LAST_NAME_COLUMN := Str("Lastname"),
                                 CPF_COLUMN := Str("86679311033")]))
         == Success(Person(Some("Name"), Some("Lastname"), Some("86679311033")))
  {
  }

  /** Round trip the other way: an item with exactly the three columns, all
      string attributes, decodes and is written back unchanged. */
  lemma ToDynamodbAttributesFrom(item: AttributeMap)
    requires item.Keys == {FIRST_NAME_COLUMN, LAST_NAME_COLUMN, CPF_COLUMN}
    requires forall k <- item.Keys :: item[k].Str?
    ensures Person.From(Some(item)).Success?
    ensures Person.From(Some(item)).value.ToDynamodbAttributes() == item
  {
  }
}
