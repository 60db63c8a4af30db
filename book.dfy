/** The `Book` table's record, its decoder from a low-level DynamoDB item,
    and the encoder the book services write inline before a `putItem`. */
module BookRecord {
  import opened JavaLang
  import opened Attributes

  const BOOK_TABLE := "Book"
  const ISBN_COLUMN := "Isbn"
  const NAME_COLUMN := "Name"
  const DESCRIPTION_COLUMN := "Description"

  /** An immutable book. A field is `None` (`null`) when it was read from an
      attribute that has no string component. */
  datatype Book = Book(isbn: JString, name: JString, description: JString)
  {
    /** `Book.from(item)`: a null or empty item is rejected outright;
        otherwise each column is read with `get(...).s()`, so a missing column
        dereferences `null`. No book is built unless all three reads succeed. */
    static function From(item: Option<AttributeMap>): (r: Result<Book, Exception>)
      ensures r == Failure(IllegalArgument) <==> item.None? || item.value == map[]
      ensures r == Failure(NullPointer) <==>
                item.Some? && item.value != map[] && !(HasColumns(item.value))
      ensures r.Success? <==> item.Some? && HasColumns(item.value)
      ensures r.Success? ==>
                && r.value.isbn == item.value[ISBN_COLUMN].S()
                && r.value.name == item.value[NAME_COLUMN].S()
                && r.value.description == item.value[DESCRIPTION_COLUMN].S()
    {
      if item.None? || |item.value| == 0 then
        Failure(IllegalArgument)
      else
        var isbn :- Column(item.value, ISBN_COLUMN);
        var name :- Column(item.value, NAME_COLUMN);
        var description :- Column(item.value, DESCRIPTION_COLUMN);
        Success(Book(isbn, name, description))
    }

    /** `equals(o)`. `identical` is the reference test `this == o`; `other`
        is `o`, `None` for `null`. `isbn` and `name` are compared with
        `String.equals`, which throws when the receiver is `null`;
        `description` with the null-safe `Objects.equals`. */
    function Equals(identical: bool, other: Option<Book>): (r: Result<bool, Exception>)
      requires identical ==> other == Some(this)
      ensures identical ==> r == Success(true)
      ensures !identical && other.None? ==> r == Success(false)
      ensures !identical && other.Some? && isbn.Some? && name.Some? ==>
                r == Success(this == other.value)
      ensures !identical && other.Some? && isbn.None? ==> r == Failure(NullPointer)
      ensures !identical && other.Some? && isbn.Some? && name.None? ==>
                r == (if isbn == other.value.isbn then Failure(NullPointer) else Success(false))
      ensures r.Failure? ==> r.error == NullPointer && (isbn.None? || name.None?)
    {
      if identical then Success(true)
      else if other.None? then Success(false)
      else if isbn.None? then Failure(NullPointer)
      else if isbn != other.value.isbn then Success(false)
      else if name.None? then Failure(NullPointer)
      else Success(name == other.value.name && description == other.value.description)
    }
  }

  /** All three columns are present in `item`. */
  predicate HasColumns(item: AttributeMap)
  {
    ISBN_COLUMN in item && NAME_COLUMN in item && DESCRIPTION_COLUMN in item
  }

  /** The item the book services put: three `put`s of
      `AttributeValue.builder().s(field)` into a fresh map. */
  function BookToAttributes(b: Book): (r: AttributeMap)
    ensures r.Keys == {ISBN_COLUMN, NAME_COLUMN, DESCRIPTION_COLUMN}
    ensures r[ISBN_COLUMN].S() == b.isbn
    ensures r[NAME_COLUMN].S() == b.name
    ensures r[DESCRIPTION_COLUMN].S() == b.description
  {
    map[ISBN_COLUMN := OfS(b.isbn), NAME_COLUMN := OfS(b.name), DESCRIPTION_COLUMN := OfS(b.description)]
  }

  /** Round trip: every book, `null` fields included, is read back from the
      item the services write for it. */
  lemma FromBookToAttributes(b: Book)
    ensures Book.From(Some(BookToAttributes(b))) == Success(b)
  {
  }

  /** Columns other than the three are ignored: two items that agree on the
      three columns decode alike. */
  lemma FromIgnoresExtraColumns(item: AttributeMap, other: AttributeMap)
    requires HasColumns(item) && HasColumns(other)
    requires item[ISBN_COLUMN] == other[ISBN_COLUMN]
    requires item[NAME_COLUMN] == other[NAME_COLUMN]
    requires item[DESCRIPTION_COLUMN] == other[DESCRIPTION_COLUMN]
    ensures Book.From(Some(item)) == Book.From(Some(other))
  {
  }

  /** Round trip the other way: an item with exactly the three columns, all
      string attributes, decodes and is written back unchanged. */
  lemma BookToAttributesFrom(item: AttributeMap)
    requires item.Keys == {ISBN_COLUMN, NAME_COLUMN, DESCRIPTION_COLUMN}
    requires forall k <- item.Keys :: item[k].Str?
    ensures Book.From(Some(item)).Success?
    ensures BookToAttributes(Book.From(Some(item)).value) == item
  {
  }
}
