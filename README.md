# Paging and record marshalling of the DynamoDB demo service

This project models the small layer of the Quarkus/DynamoDB demo service that
sits between its REST resources and the DynamoDB SDK. It proves properties of
that model in Dafny. The layer has three parts:

- **Continuation-key decoding** (`PaginationRequest`). The `limit` query
  parameter defaults to 10. The `lastEvaluatedKey` query parameter has the
  form `f1:v1,f2:v2` and is parsed into a DynamoDB key map. The parser calls
  `String.split(",")` and then `split(":")`. It keeps segment 0 as the field
  name and segment 1 as a string attribute, and puts the entries into a fresh
  map in order.
- **The page envelope** (`PaginationResponse`). Three factories build
  `{items, size, lastEvaluatedKey}`: from a single `Page`, from the first
  page of a `PageIterable`, or from a list plus a raw key map. The key map
  is flattened to strings with `AttributeValue.s()`.
- **The record codecs** (`Person`, `Book`). These read an immutable record
  from a low-level item map and write a record back as an item map.

Files and modules:

| file | module | models |
|---|---|---|
| `java_lang.dfy` | `JavaLang` | `null` (as `Option`), exceptions (as `Result`), `int` |
| `java_strings.dfy` | `JavaStrings` | `String.split` with a one-character separator, and its inverse `Join` |
| `attributes.dfy` | `Attributes` | `AttributeValue`, `s()`, `builder().s(x)`, `item.get(c).s()` |
| `pagination_request.dfy` | `PagingRequest` | `getLimit`, `getLastEvaluatedKey`, and a ghost key encoder with no counterpart in the source |
| `pagination_request_examples.dfy` | `PagingRequestExamples` | particular parameters and what they decode to |
| `pagination_response.dfy` | `PagingResponse` | the three factories and `transformLastEvaluatedKey` |
| `continuation.dfy` | `Continuation` | a response key written back as the next request's parameter |
| `person.dfy` | `PersonRecord` | `Person.from`, `toDynamodbAttributes`, `equals` |
| `book.dfy` | `BookRecord` | `Book.from`, `equals`, and the item the book services write |

Modelling choices:

- Java `null` is `None`. A `String` field is a `JString` (`Option<string>`).
- An `AttributeValue` is either `Str(s)` or `NonString`. `NonString` is any
  value without a string component, and `s()` returns `null` for it.
- Each exception becomes a `Failure` of a `Result`. There are four kinds:
  `IllegalArgument`, `NullPointer`, `IndexOutOfBounds` and `NoSuchElement`.
- The Java reference test `this == o` inside `equals` is the parameter
  `identical`, which is allowed only when `o` is the same value.
- `String.split` is modelled exactly:
  - a string without the separator gives itself, so `"".split(",")` is `[""]`;
  - otherwise all fields are kept, minus the trailing empty ones.
- `getLastEvaluatedKey` and `transformLastEvaluatedKey` mutate a fresh
  `HashMap` in a loop, so they are methods with loops. Each is proved equal
  to a specification function (`Decode`, `Flatten`), and the factories and
  lemmas use those functions.
- `Page` is a value holding items and an optional key. `PageIterable` is the
  sequence of pages its iterator yields.

Where the code and its written description disagree, the model follows the
code:

- The unit test (src/test/java/com/matheus/unit/PaginationRequestTest.java:39,41)
  expects a `null` key when the parameter is absent. The code returns an empty
  map (src/main/java/com/matheus/vo/request/PaginationRequest.java:30), and
  `EmptyRequest` states that.
- The value of a piece is its second `:`-segment. Later segments are
  dropped; the piece is not split at the first `:` only.
- A missing or empty item and an item that lacks a column fail differently.
  The first is an `IllegalArgumentException`; the second is a
  `NullPointerException` from `get(...).s()`. The model keeps the two apart.

## Model

| member | source | states |
|---|---|---|
| `PagingRequest.PaginationRequest.GetLimit` | src/main/java/com/matheus/vo/request/PaginationRequest.java:17-19 | no `limit` gives 10; a given limit is returned unchanged, with no clamping or positivity check |
| `PagingRequest.PaginationRequest.GetLastEvaluatedKey` | src/main/java/com/matheus/vo/request/PaginationRequest.java:21-32 | the loop that puts piece after piece into a fresh map returns exactly `Decode` of the parameter, including its first exception |
| `PagingRequest.Decode` | src/main/java/com/matheus/vo/request/PaginationRequest.java:22-31 | a `null` or empty parameter decodes to the empty map |
| `PagingRequest.WellFormed` | src/main/java/com/matheus/vo/request/PaginationRequest.java:25-26 | a piece that `split(":")[1]` can read contains a `:` |
| `PagingRequest.FieldName` | src/main/java/com/matheus/vo/request/PaginationRequest.java:25-26 | segment 0 holds no `:` and, followed by `:`, starts the piece |
| `PagingRequest.FieldValue` | src/main/java/com/matheus/vo/request/PaginationRequest.java:25-26 | segment 1 holds no `:`, comes right after the name and its `:`, and runs to the next `:` or to the end of the piece, so the value is all of segment 1 and nothing more |
| `PagingRequest.Put` | src/main/java/com/matheus/vo/request/PaginationRequest.java:25-26 | a piece with no second segment throws index-out-of-bounds; otherwise the map gains the piece's name, mapped to a string attribute of its second segment, and every other entry is unchanged |
| `PagingRequest.PutAll` | src/main/java/com/matheus/vo/request/PaginationRequest.java:24-27 | the loop throws only index-out-of-bounds; it keeps every key already present, and every entry it leaves is either a string attribute or was there before unchanged |
| `PagingRequest.DecodeFails` | src/main/java/com/matheus/vo/request/PaginationRequest.java:24-27 | decoding fails iff some `,`-piece has no second `:`-segment, and it always fails with index-out-of-bounds; a bad piece is never skipped |
| `PagingRequest.DecodeEntries` | src/main/java/com/matheus/vo/request/PaginationRequest.java:24-27 | the key set is exactly the set of first segments of the pieces; each value is a string attribute holding the second segment of the last piece that names the key |
| `PagingRequest.PutAllFails` | src/main/java/com/matheus/vo/request/PaginationRequest.java:24-27 | the loop stops with index-out-of-bounds iff some piece is malformed |
| `PagingRequest.NamesCons` | src/main/java/com/matheus/vo/request/PaginationRequest.java:24-27 | the names of a sequence of pieces starting with a well-formed piece are that piece's name plus the names of the rest |
| `PagingRequest.DecodedEntries` | src/main/java/com/matheus/vo/request/PaginationRequest.java:24-27 | after a successful loop from the empty map, every value is a string attribute taken from the last piece naming its key |
| `PagingRequest.PutAllKeys` | src/main/java/com/matheus/vo/request/PaginationRequest.java:24-27 | the loop adds exactly the pieces' field names to the map's keys |
| `PagingRequest.PutAllEntry` | src/main/java/com/matheus/vo/request/PaginationRequest.java:24-27 | each entry after the loop either was there before and no piece names it, or comes from the last piece naming it |
| `PagingRequest.LastNamingShift` | src/main/java/com/matheus/vo/request/PaginationRequest.java:24-27 | the last piece naming a key stays the last one when a piece is put in front |
| `PagingRequest.PutAllEntries` | src/main/java/com/matheus/vo/request/PaginationRequest.java:24-27 | putting `k:v` pieces one by one equals putting their entries in order, later ones overwriting earlier ones |
| `PagingRequest.DecodeEncodedEntries` | src/main/java/com/matheus/vo/request/PaginationRequest.java:23-28 | `k1:v1,...,kn:vn` decodes to the entries put in order, when no name or value holds a delimiter and no value is empty |
| `PagingRequest.PutEntriesOfMap` | src/main/java/com/matheus/vo/request/PaginationRequest.java:24-27 | putting every entry of a map, in any order, adds the map's entries as string attributes |
| `PagingRequest.DecodeEncode` | src/main/java/com/matheus/vo/request/PaginationRequest.java:23-28 | round trip: a key map written as `k:v` pieces joined by `,`, in any order, decodes to the same map (the empty map through the empty string), when no name or value holds `,` or `:` and no value is empty |
| `PagingRequest.DecodeTwoPieces` | src/main/java/com/matheus/vo/request/PaginationRequest.java:24-27 | two pieces decode to both entries put in order, so with one shared name the later value wins |
| `PagingRequest.DecodeThreeSegments` | src/main/java/com/matheus/vo/request/PaginationRequest.java:25-26 | in `k:v:w` only `v` becomes the value |
| `PagingRequest.DecodeTrailingComma` | src/main/java/com/matheus/vo/request/PaginationRequest.java:24 | `k:v,` decodes like `k:v`, because the trailing empty piece is dropped |
| `PagingRequest.DecodeMissingValue` | src/main/java/com/matheus/vo/request/PaginationRequest.java:25-26 | `k` and `k:` both fail with index-out-of-bounds |
| `PagingRequestExamples.DecodeTestKey` | src/test/java/com/matheus/unit/PaginationRequestTest.java:31-46 | `firstName:Person5,lastName:lastNameTest` decodes to exactly those two string attributes |
| `PagingRequestExamples.DecodeExtraSegments` | src/main/java/com/matheus/vo/request/PaginationRequest.java:25-26 | `a:b:c` maps `a` to `b` |
| `PagingRequestExamples.DecodeLaterWins` | src/main/java/com/matheus/vo/request/PaginationRequest.java:24-27 | `a:1,a:2` maps `a` to `2` |
| `PagingRequestExamples.DecodeTrailingCommaExample` | src/main/java/com/matheus/vo/request/PaginationRequest.java:24 | `a:b,` maps `a` to `b`; `,` decodes to the empty map |
| `PagingRequestExamples.DecodeMissingValueExample` | src/main/java/com/matheus/vo/request/PaginationRequest.java:25-26 | `a` and `a:` fail with index-out-of-bounds |
| `PagingRequestExamples.EmptyRequest` | src/main/java/com/matheus/vo/request/PaginationRequest.java:17-31 | a request without parameters has limit 10 and an empty (not `null`) key |
| `JavaStrings.Fields` | src/main/java/com/matheus/vo/request/PaginationRequest.java:24-25 | the fields around every separator hold no separator and join back to the input |
| `JavaStrings.DropTrailingEmpty` | src/main/java/com/matheus/vo/request/PaginationRequest.java:24-25 | keeps a prefix, drops only empty strings, and leaves no empty string last |
| `JavaStrings.Split` | src/main/java/com/matheus/vo/request/PaginationRequest.java:24-25 | without the separator the result is the input alone; otherwise it is a prefix of the fields, none holding the separator, whose last element is non-empty and beyond which every field is empty |
| `JavaStrings.FieldsOfPiece` | src/main/java/com/matheus/vo/request/PaginationRequest.java:24-25 | a string without the separator is one field |
| `JavaStrings.FieldsOfCons` | src/main/java/com/matheus/vo/request/PaginationRequest.java:24-25 | a separator-free prefix followed by the separator splits off as the first field |
| `JavaStrings.FieldsOfJoin` | src/main/java/com/matheus/vo/request/PaginationRequest.java:24-25 | splitting into fields inverts joining separator-free pieces |
| `JavaStrings.SplitOfJoin` | src/main/java/com/matheus/vo/request/PaginationRequest.java:24-25 | split inverts join when no piece holds the separator and the last piece is non-empty |
| `JavaStrings.FieldsLead` | src/main/java/com/matheus/vo/request/PaginationRequest.java:25 | when there are two fields or more, the first field, the separator and the second field start the string |
| `JavaStrings.SplitPair` | src/main/java/com/matheus/vo/request/PaginationRequest.java:25 | `a:b` with separator-free `a` and non-empty separator-free `b` splits into `[a, b]` |
| `Attributes.AttributeValue.S` | src/main/java/com/matheus/vo/response/PaginationResponse.java:44 | `s()` is non-null exactly for a string attribute, and then it is that attribute's string |
| `Attributes.OfS` | src/main/java/com/matheus/model/Person.java:33-36 | `builder().s(x).build().s()` gives back `x`, `null` included |
| `Attributes.Column` | src/main/java/com/matheus/model/Person.java:28-29 | `item.get(c).s()` throws a null dereference iff `c` is absent, and otherwise gives the attribute's `s()` |
| `PagingResponse.Flatten` | src/main/java/com/matheus/vo/response/PaginationResponse.java:40-47 | a `null` key gives the empty map, never `null`; otherwise the same key set, with each value the attribute's `s()` |
| `PagingResponse.TransformLastEvaluatedKey` | src/main/java/com/matheus/vo/response/PaginationResponse.java:40-47 | the `forEach`/`put` loop builds exactly `Flatten` of its input |
| `PagingResponse.FromPage` | src/main/java/com/matheus/vo/response/PaginationResponse.java:23-26 | the page's items, unchanged and in order; `size` is their count; the key is the page's key flattened |
| `PagingResponse.FromPageIterable` | src/main/java/com/matheus/vo/response/PaginationResponse.java:28-32 | only the first page's items and key are used, with `size` their count; with no page `next()` throws no-such-element |
| `PagingResponse.Of` | src/main/java/com/matheus/vo/response/PaginationResponse.java:34-38 | the given items, unchanged and in order; `size` is their count; the key is flattened |
| `PagingResponse.FactoriesAgree` | src/test/java/com/matheus/unit/PaginationResponseTest.java:24-76 | the three factories give equal envelopes for the same items and key, whatever pages follow the first |
| `PagingResponse.EmptyKeyFlattensEmpty` | src/main/java/com/matheus/vo/response/PaginationResponse.java:42-46 | an empty or `null` key gives an empty map |
| `PagingResponse.FlattenStrings` | src/main/java/com/matheus/vo/response/PaginationResponse.java:43-45 | a key of string attributes flattens to exactly those strings |
| `PagingResponse.FlattenTestKey` | src/test/java/com/matheus/unit/PaginationResponseTest.java:29-58 | the test's two-attribute key flattens to `{firstName: Name, lastName: Lastname}` |
| `Continuation.ResumeFromResponseKey` | src/main/java/com/matheus/vo/request/PaginationRequest.java:21-32 | a key whose attributes are all strings, flattened by `transformLastEvaluatedKey` and written back as `k:v,...`, has no `null` value and decodes to the very same key |
| `PersonRecord.Person.From` | src/main/java/com/matheus/model/Person.java:24-30 | a `null` or empty item fails with illegal-argument; a non-empty item missing a column fails with a null dereference; otherwise the person holds the three columns' `s()` |
| `PersonRecord.Person.ToDynamodbAttributes` | src/main/java/com/matheus/model/Person.java:32-37 | exactly the keys `firstName`, `lastName`, `cpf`, each holding its field |
| `PersonRecord.Person.Equals` | src/main/java/com/matheus/model/Person.java:51-63 | true for the same reference; false for `null`; with non-null `firstName` and `lastName` true iff all three fields are equal (`cpf` null-safe); with non-null `firstName` and `null` `lastName` false when the first names differ and a null dereference when they agree; a `null` `firstName` throws; it throws only for a `null` `firstName` or `lastName` |
| `PersonRecord.FromToDynamodbAttributes` | src/main/java/com/matheus/model/Person.java:24-37 | round trip: `from(p.toDynamodbAttributes())` is `p` for every person |
| `PersonRecord.ToDynamodbAttributesFrom` | src/main/java/com/matheus/model/Person.java:24-37 | round trip: an item with exactly the three columns, all string attributes, decodes and is written back unchanged |
| `PersonRecord.FromIgnoresExtraColumns` | src/main/java/com/matheus/model/Person.java:28-29 | items that agree on the three columns decode alike; other keys are ignored |
| `PersonRecord.FromTestItem` | src/test/java/com/matheus/unit/PersonTest.java:23-36 | the test's three-column item decodes to `Name`, `Lastname`, `86679311033` |
| `BookRecord.Book.From` | src/main/java/com/matheus/model/Book.java:24-30 | a `null` or empty item fails with illegal-argument; a non-empty item missing a column fails with a null dereference; otherwise the book holds the three columns' `s()` |
| `BookRecord.Book.Equals` | src/main/java/com/matheus/model/Book.java:44-55 | true for the same reference; false for `null`; with non-null `isbn` and `name` true iff all three fields are equal (`description` null-safe); with non-null `isbn` and `null` `name` false when the ISBNs differ and a null dereference when they agree; a `null` `isbn` throws; it throws only for a `null` `isbn` or `name` |
| `BookRecord.BookToAttributes` | src/main/java/com/matheus/service/BookService.java:44-47 | exactly the keys `Isbn`, `Name`, `Description`, each holding its field |
| `BookRecord.FromBookToAttributes` | src/main/java/com/matheus/model/Book.java:24-30 | round trip: decoding the item the services write for a book gives that book back |
| `BookRecord.BookToAttributesFrom` | src/main/java/com/matheus/model/Book.java:24-30 | round trip: an item with exactly the three columns, all string attributes, decodes to a book whose written item is that item |
| `BookRecord.FromIgnoresExtraColumns` | src/main/java/com/matheus/model/Book.java:28-29 | items that agree on the three columns decode alike; other keys are ignored |

## Left out

- The service classes: `PersonService`, `PersonAsyncService`, `PersonEnhancedService`, `PersonEnhancedAsyncService`, `BookService`, `BookAsyncService`, `BookEnhancedService` and `BookAsyncEnhancedService`. Each is a single call into a DynamoDB SDK client, and the async ones compose Mutiny `Uni`/`Multi`. The exception is the Book item they write (src/main/java/com/matheus/service/BookService.java:44-47, the same at src/main/java/com/matheus/service/BookAsyncService.java:60-63), which is `BookToAttributes`.
- The resource classes: JAX-RS routing only.
- `PersonEnhanced`: a mutable bean that the SDK's `TableSchema.fromBean` maps. That mapping code is not part of this model.
- `hashCode`, `toString` and the field getters of `Person` and `Book`. The getters are the datatype fields.
- The JAX-RS and Jackson binding of query parameters, including the coercion of the string `"2"` to an `Integer`.
- The class test in `equals` (`getClass() != o.getClass()`): the model compares only with values of the same record type or `null`.
- A Java map that maps a column to a `null` value: `AttributeMap` values are never `null`.
- `from(PageIterable)` calls `iterator()` twice, and each call starts the scan anew. The model reads the first page for both. A store that changes between the two calls is not modelled.
- `PaginationResponse` `size` is a Java `int` from `List.size()`, which returns `Integer.MAX_VALUE` for a list with more elements than that. The model's `size` is the `nat` `|items|`, so the two differ only for lists longer than 2^31 - 1 elements.
- UTF-16 detail of Java strings: a string is a sequence of Dafny characters.
