# My Movies catalog, modelled in Dafny

The model covers the core of a small catalog service for a personal movie collection. A movie record has three kinds of data:

- an internal id, which the store assigns;
- an IMDB id, the natural key callers use;
- a name, a seen flag and a rating.

The model covers these parts of the service:

- **Validation.** The record carries Bean Validation constraints:
  - the IMDB id must be not blank and 1..20 characters;
  - the name must be not blank and 1..255 characters;
  - a class-level rule ties the rating to the seen flag. An unseen movie has rating 0. A seen movie has a rating in 1..10.
- **The service** lists, fetches, adds, updates and deletes records. It works over a repository that looks records up by IMDB id and searches them by name.
- **The exception handlers** turn each exception into a fixed response body and HTTP status. When a save is refused, the response lists the message of every violated constraint.

Every part is a pure function over immutable data:

- The movie table is a `map<nat, Movie>` from internal id to record. Every row sits under its own positive id.
- A service call maps the store before the call to `Result<store after, exception>`. A call that raises an exception makes no write.
- `save` validates before it writes. This is a stated assumption about the persistence layer, not code in the service:
  - it refuses an invalid record with every violated constraint;
  - it overwrites the row whose id the record carries;
  - otherwise it inserts the record under a fresh id. The caller supplies that id, in place of the database's identity column.
- A lookup by IMDB id has three outcomes:
  - no row holds the key: it returns nothing;
  - one row holds it: it returns that row;
  - several rows hold it: it fails, as a single-result query does on duplicates.

Modules, in dependency order:

- `Wrappers`: `Option` and `Result`.
- `Text`:
  - Java's nullable string, `String.length()` in UTF-16 code units, and `String.trim()`;
  - `String.contains`;
  - the `", "` join of the violation report and its inverse split.
- `Movies`: the record, its constructor and setters, and `updateMovie`.
- `SeenAndRatingValidator`: the class-level validator.
- `Validation`: the five constraints, their messages and the violation set.
- `Errors`: the exceptions.
- `MovieRepository`: the store, lookup, name search, save and delete.
- `MovieService`: the service operations.
- `CatalogProperties`: the invariants and round trips across calls.
- `MovieExceptionController`: the exception handlers.

Two behaviours of the code deserve a note:

- **Uniqueness of the IMDB id.** Only `addMovie` checks for an existing IMDB id. The entity declares no unique column (`@Column(name = "imdb_id")` at `Movie.java:19`).
  - The model enforces uniqueness only where the code does.
  - `CatalogProperties.RenameOntoTakenKeyDuplicates` exhibits the gap: `updateImdbId` onto a key another row holds leaves two rows with that key. Looking the key up then fails.
  - Rename and full update keep uniqueness only under an explicit precondition. See `CatalogProperties.RenameToFreeKeyKeepsConsistent` and `CatalogProperties.ReplaceValuesKeepsConsistent`.
- **How the size rule counts characters.** `@Size` counts the raw string, surrounding blanks included, in UTF-16 code units. The model does the same: `"  a  "` is five units long, and a character above U+FFFF counts as two.

## Model

| member | source | states |
|---|---|---|
| Text.Utf16Length | src/main/java/se/martenb/mymoviesback/model/Movie.java:18 | `String.length()`, which `@Size` bounds, lies between the number of characters and twice that number |
| Text.Utf16LengthUniform | src/main/java/se/martenb/mymoviesback/model/Movie.java:18 | text without characters above U+FFFF is as long in code units as in characters; text of only such characters is twice as long |
| Text.Trim | src/main/java/se/martenb/mymoviesback/model/Movie.java:17 | what trim() leaves is no longer than the input, and when it is not empty it starts and ends with a character above U+0020 |
| Text.TrimIsPiece | src/main/java/se/martenb/mymoviesback/model/Movie.java:17 | what trim() leaves occurs in the input as one contiguous piece |
| Text.TrimKeepsMiddle | src/main/java/se/martenb/mymoviesback/model/Movie.java:17 | what trim() leaves is the slice of the input between a run of characters at or below U+0020 at the start and another at the end |
| Text.TrimEmptyIffAllTrimmable | src/main/java/se/martenb/mymoviesback/model/Movie.java:17 | trim() leaves nothing exactly when every character is at or below U+0020, which is the blank test of `@NotBlank` |
| Text.Contains | src/main/java/se/martenb/mymoviesback/dao/MovieRepository.java:9 | the empty string is contained in every string, and nothing longer than a string is contained in it |
| Text.JoinAppend | src/main/java/se/martenb/mymoviesback/controller/MovieExceptionController.java:36-41 | appending one more message to a non-empty report adds exactly one ", " and the message |
| Text.JoinContainsParts | src/main/java/se/martenb/mymoviesback/controller/MovieExceptionController.java:36-41 | every message the loop appends can be found in the report |
| Text.SplitJoin | src/main/java/se/martenb/mymoviesback/controller/MovieExceptionController.java:36-41 | for comma-free messages, splitting the joined report at ", " gives back the messages in order, so no separator leads, trails or doubles |
| Movies.NewMovie | src/main/java/se/martenb/mymoviesback/model/Movie.java:40-45 | the constructor sets exactly the four given value fields and leaves the id unassigned |
| Movies.SetImdbId | src/main/java/se/martenb/mymoviesback/model/Movie.java:97-99 | the IMDB id becomes the argument and every other field, the id included, is unchanged |
| Movies.SetName | src/main/java/se/martenb/mymoviesback/model/Movie.java:106-108 | the name becomes the argument and every other field is unchanged |
| Movies.SetSeen | src/main/java/se/martenb/mymoviesback/model/Movie.java:115-117 | the seen flag becomes the argument and every other field is unchanged |
| Movies.SetRating | src/main/java/se/martenb/mymoviesback/model/Movie.java:124-126 | the rating becomes the argument and every other field is unchanged |
| Movies.UpdateMovie | src/main/java/se/martenb/mymoviesback/model/Movie.java:134-139 | the result agrees with the source record on all four value fields and with the receiver on its id |
| Movies.AgreeEverywhere | src/main/java/se/martenb/mymoviesback/model/Movie.java:14-28 | two records that agree on all five fields are the same record |
| SeenAndRatingValidator.IsValid | src/main/java/se/martenb/mymoviesback/model/SeenAndRatingValidator.java:12-20 | a null argument throws IllegalArgumentException with its message rather than answering false; a seen movie is valid exactly when its rating is in 1..10; an unseen one exactly when its rating is 0 |
| SeenAndRatingValidator.IsValidIgnoresOtherFields | src/main/java/se/martenb/mymoviesback/model/SeenAndRatingValidator.java:16-19 | two records that differ only in id, IMDB id or name get the same verdict |
| SeenAndRatingValidator.ValidRatingCounts | src/main/java/se/martenb/mymoviesback/model/SeenAndRatingValidator.java:19 | unseen admits the single rating 0, and seen admits exactly the ten ratings 1..10 |
| Validation.Message | src/main/java/se/martenb/mymoviesback/model/Movie.java:10-22 | the five declared messages have five different lengths |
| Validation.NotBlank | src/main/java/se/martenb/mymoviesback/model/Movie.java:17-21 | a string is not blank exactly when it is non-null and holds a character above U+0020 |
| Validation.SizeBetween | src/main/java/se/martenb/mymoviesback/model/Movie.java:18-22 | null always passes; a string that passes has at most `max` characters and at least half of `min`, and one outside those bounds fails |
| Validation.NarrowTextSize | src/main/java/se/martenb/mymoviesback/model/Movie.java:18-22 | for text without characters above U+FFFF the size bound holds exactly when the number of characters lies in min..max |
| Validation.ConstraintViolations | src/main/java/se/martenb/mymoviesback/model/Movie.java:10-22 | a size violation only ever concerns a non-null string, and the class-level violation is present exactly when the seen/rating rule fails |
| Validation.FieldAcceptableIff | src/main/java/se/martenb/mymoviesback/model/Movie.java:17-22 | a text field is acceptable exactly when neither its not-blank nor its size constraint is violated |
| Validation.ViolationsMeaning | src/main/java/se/martenb/mymoviesback/model/Movie.java:10-22 | each constraint is violated exactly when its rule fails: a null or all-blank value for not-blank; an empty string or one over its bound in UTF-16 code units, but never null, for size; a false verdict from the validator for the seen/rating rule |
| Validation.NoViolationsIff | src/main/java/se/martenb/mymoviesback/model/Movie.java:10-22 | a record has no violations exactly when both text fields are non-blank strings within their bounds and the seen/rating pair obeys the rule |
| Validation.ViolationsIgnoreId | src/main/java/se/martenb/mymoviesback/model/Movie.java:14-16 | the internal id never adds or removes a violation |
| Validation.ImdbIdViolationCounts | src/main/java/se/martenb/mymoviesback/model/Movie.java:17-18 | with the rest valid, a null IMDB id breaks one constraint, an empty one breaks two, and a non-blank one longer than 20 code units breaks only the size rule |
| Validation.WideCharactersCountTwice | src/main/java/se/martenb/mymoviesback/model/Movie.java:22 | a name of 128 characters above U+FFFF is 256 code units long and breaks the size rule |
| Validation.NameViolationCounts | src/main/java/se/martenb/mymoviesback/model/Movie.java:21-22 | the same for the name with its bound of 255 code units: null gives one violation, empty gives two, over-long gives the size violation alone |
| Validation.MessagesDistinct | src/main/java/se/martenb/mymoviesback/model/Movie.java:10-22 | no two constraints share a message |
| Validation.MessageCount | src/main/java/se/martenb/mymoviesback/model/Movie.java:10-22 | a set of violations reports exactly as many messages as it holds violations |
| MovieRepository.HoldersMeaning | src/main/java/se/martenb/mymoviesback/dao/MovieRepository.java:10 | no holder of a key means it is absent; one holder is its sole holder; more than one means two distinct rows hold it |
| MovieRepository.FindByNameContaining | src/main/java/se/martenb/mymoviesback/dao/MovieRepository.java:9 | the result is a sub-map of the store, holding exactly the rows whose non-null name contains the search string |
| MovieRepository.FindOneByImdbId | src/main/java/se/martenb/mymoviesback/dao/MovieRepository.java:10 | it returns nothing exactly when the key is absent, and the sole holder's row when there is one; it fails with IncorrectResultSize exactly when two distinct rows hold the key |
| MovieRepository.Save | src/main/java/se/martenb/mymoviesback/dao/MovieRepository.java:8 | assumption: save fails exactly when the record breaks a constraint, reporting all of them; otherwise it overwrites the row with the record's id, or inserts the record under the fresh id |
| MovieRepository.SaveExisting | src/main/java/se/martenb/mymoviesback/dao/MovieRepository.java:8 | the same assumption for a record fetched from the store, which always overwrites its own row |
| MovieRepository.Put | src/main/java/se/martenb/mymoviesback/dao/MovieRepository.java:8 | writing a record under its own id adds that id, stores the record there and leaves every other row alone |
| MovieRepository.DeleteById | src/main/java/se/martenb/mymoviesback/dao/MovieRepository.java:8 | deleteById removes exactly that id and keeps every other row unchanged |
| MovieService.GetAllMovies | src/main/java/se/martenb/mymoviesback/service/MovieServiceImpl.java:29-36 | a null filter returns every stored record; a filter returns exactly the records whose name contains it, always a subset of the store |
| MovieService.GetMovieByImdbId | src/main/java/se/martenb/mymoviesback/service/MovieServiceImpl.java:45-47 | it returns null exactly when no record holds the IMDB id, a found record is stored under its own id and holds that IMDB id, and it fails, with IncorrectResultSize, exactly when several records hold it |
| MovieService.AddMovie | src/main/java/se/martenb/mymoviesback/service/MovieServiceImpl.java:55-58 | an IMDB id held by one record gives MovieAlreadyExists; a free one succeeds exactly when the record is valid, and otherwise fails with exactly the set of violated constraints; a record with no stored id becomes exactly one new row with its four values under the fresh id, every old row unchanged |
| MovieService.ApplyEdit | src/main/java/se/martenb/mymoviesback/service/MovieServiceImpl.java:71-146 | no in-memory update changes the id, and each changes only the fields it names |
| MovieService.Modify | src/main/java/se/martenb/mymoviesback/service/MovieServiceImpl.java:68-72 | the fetch-edit-save pattern: MovieNotFound exactly when the key is absent; for a sole holder, success exactly when the edited record is valid, writing it over that one row, and otherwise the full violation set |
| MovieService.ModifyFrame | src/main/java/se/martenb/mymoviesback/service/MovieServiceImpl.java:68-72 | a successful update changes only the matched row, only in the fields its edit names, and keeps every id |
| MovieService.UpdateMovieByImdbId | src/main/java/se/martenb/mymoviesback/service/MovieServiceImpl.java:67-73 | an absent key gives MovieNotFound; on success the matched row takes all four value fields of the given record and keeps its internal id, and no other row changes |
| MovieService.UpdateRating | src/main/java/se/martenb/mymoviesback/service/MovieServiceImpl.java:81-87 | an absent key gives MovieNotFound; on success only the matched row's rating changes, to the new value |
| MovieService.UpdateName | src/main/java/se/martenb/mymoviesback/service/MovieServiceImpl.java:96-102 | an absent key gives MovieNotFound; on success only the matched row's name changes, to the new value |
| MovieService.UpdateImdbId | src/main/java/se/martenb/mymoviesback/service/MovieServiceImpl.java:111-117 | an absent key gives MovieNotFound; on success only the matched row's IMDB id changes, to the new value, which nothing checks for uniqueness |
| MovieService.SetMovieSeen | src/main/java/se/martenb/mymoviesback/service/MovieServiceImpl.java:126-133 | an absent key gives MovieNotFound; on success the matched row is seen with the given rating, and nothing else changes |
| MovieService.SetMovieUnseen | src/main/java/se/martenb/mymoviesback/service/MovieServiceImpl.java:141-148 | an absent key gives MovieNotFound; on success the matched row is unseen with rating 0, whatever it was before |
| MovieService.DeleteMovie | src/main/java/se/martenb/mymoviesback/service/MovieServiceImpl.java:156-161 | MovieNotFound exactly when the key is absent; a sole holder is always removed, by its internal id, and every other row stays unchanged |
| CatalogProperties.LookupUnambiguous | src/main/java/se/martenb/mymoviesback/dao/MovieRepository.java:10 | while IMDB ids are unique, a lookup never fails, and any holder of a key is its sole holder |
| CatalogProperties.PutKeepsValid | src/main/java/se/martenb/mymoviesback/service/MovieServiceImpl.java:57 | writing a valid record keeps every stored record valid |
| CatalogProperties.AddMovieKeepsConsistent | src/main/java/se/martenb/mymoviesback/service/MovieServiceImpl.java:55-58 | a successful addMovie keeps IMDB ids unique and every stored record valid, whether it inserts or overwrites |
| CatalogProperties.AddThenGet | src/main/java/se/martenb/mymoviesback/service/MovieServiceImpl.java:55-58 | after adding a new record, looking up its IMDB id returns that record under the fresh id |
| CatalogProperties.AddDuplicateRefused | src/main/java/se/martenb/mymoviesback/service/MovieServiceImpl.java:56 | adding a record whose IMDB id is already stored fails with MovieAlreadyExists, whatever its other fields |
| CatalogProperties.ModifyKeepsValid | src/main/java/se/martenb/mymoviesback/service/MovieServiceImpl.java:68-72 | every successful update leaves every stored record valid |
| CatalogProperties.ModifyKeepsUnique | src/main/java/se/martenb/mymoviesback/service/MovieServiceImpl.java:68-72 | an update keeps IMDB ids unique when the edited record keeps its key or takes one no row holds |
| CatalogProperties.KeyPreservingEdit | src/main/java/se/martenb/mymoviesback/service/MovieServiceImpl.java:81-148 | the rating, name, seen and unseen updates never change the IMDB id |
| CatalogProperties.FieldUpdateKeepsConsistent | src/main/java/se/martenb/mymoviesback/service/MovieServiceImpl.java:81-148 | rating, name, seen and unseen updates keep a consistent store consistent without any precondition on the new value |
| CatalogProperties.RenameToFreeKeyKeepsConsistent | src/main/java/se/martenb/mymoviesback/service/MovieServiceImpl.java:111-117 | updateImdbId onto a key nobody holds keeps the store consistent |
| CatalogProperties.RenameOntoTakenKeyDuplicates | src/main/java/se/martenb/mymoviesback/service/MovieServiceImpl.java:111-117 | updateImdbId onto a key another row holds succeeds, breaks uniqueness, and makes every later lookup of that key fail |
| CatalogProperties.ReplaceValuesKeepsConsistent | src/main/java/se/martenb/mymoviesback/service/MovieServiceImpl.java:67-73 | updateMovie keeps the store consistent when the new values carry the record's own key or a free one |
| CatalogProperties.RenameThenGet | src/main/java/se/martenb/mymoviesback/service/MovieServiceImpl.java:111-117 | after renaming onto a free key, the new key finds the same internal id and the old key finds nothing |
| CatalogProperties.DeleteThenGet | src/main/java/se/martenb/mymoviesback/service/MovieServiceImpl.java:156-161 | deleting the sole holder of a key always succeeds, and afterwards the key finds nothing |
| CatalogProperties.SetUnseenSucceeds | src/main/java/se/martenb/mymoviesback/service/MovieServiceImpl.java:141-148 | on a valid store, setMovieUnseen always succeeds and leaves the seen/rating rule satisfied |
| CatalogProperties.SetSeenSucceedsIff | src/main/java/se/martenb/mymoviesback/service/MovieServiceImpl.java:126-133 | on a valid store, setMovieSeen succeeds exactly when the rating is in 1..10 |
| CatalogProperties.UpdateRatingSucceedsIff | src/main/java/se/martenb/mymoviesback/service/MovieServiceImpl.java:81-87 | on a valid store, updateRating succeeds exactly when the new rating suits the record's seen flag |
| MovieExceptionController.MessagesInOrder | src/main/java/se/martenb/mymoviesback/controller/MovieExceptionController.java:35-38 | the report lists one message per violation the iterator yields, in that order |
| MovieExceptionController.AppendViolations | src/main/java/se/martenb/mymoviesback/controller/MovieExceptionController.java:33-41 | the StringBuilder loop, with a separator only when the iterator has more, builds exactly the messages joined by ", " |
| MovieExceptionController.ViolationResponse | src/main/java/se/martenb/mymoviesback/controller/MovieExceptionController.java:31-44 | the loop-built response for a ConstraintViolationException is exactly the one ExceptionResponse gives: status 403, the fixed prefix, then the messages joined by ", " |
| MovieExceptionController.ExceptionResponse | src/main/java/se/martenb/mymoviesback/controller/MovieExceptionController.java:21-50 | MovieNotFound gives ("Movie not found", 404); MovieAlreadyExists gives ("Movie already exists", 409); a refused save gives 403 with the fixed prefix followed by the messages of the violations, in iteration order, joined by ", "; an integrity violation gives ("Potentially malicious action detected", 403) whatever its cause; a failed single-result lookup has no handler |
| MovieExceptionController.StatusCodes | src/main/java/se/martenb/mymoviesback/controller/MovieExceptionController.java:21-50 | the handled exceptions answer 404, 409, and 403 for both kinds of refusal |
| MovieExceptionController.ReportNamesEveryViolation | src/main/java/se/martenb/mymoviesback/controller/MovieExceptionController.java:31-44 | the report body contains the message of every violated constraint |
| MovieExceptionController.ReportOfFewViolations | src/main/java/se/martenb/mymoviesback/controller/MovieExceptionController.java:33-43 | no violations give the prefix alone, and one violation gives the prefix followed by its message verbatim |
| MovieExceptionController.ReportSplitsIntoMessages | src/main/java/se/martenb/mymoviesback/controller/MovieExceptionController.java:36-41 | for comma-free messages, the text after the prefix splits at ", " back into the messages in iteration order, one per violation |
| MovieExceptionController.EnumerationSize | src/main/java/se/martenb/mymoviesback/controller/MovieExceptionController.java:34-35 | one pass of the set's iterator yields as many elements as the set holds |

## Left out

- HTTP routing, JSON decoding, CORS and building the response entity in `MovieServiceController.java` are framework plumbing and are left out. The "Movie is saved successfully" bodies are left out with them.
- `getByImdbId` tests the path variable for null instead of the lookup result (`MovieServiceController.java:38`). So an absent movie comes back as 200 with an empty body, not as 204. This is a boundary concern of the HTTP layer and is not modelled.
- The service returns a `List`. The model returns the matching rows as a map keyed by id, so list order is not modelled. Spring Data gives no order without a sort.
- `findByNameContaining` is modelled as exact, case-sensitive substring matching on characters. A case-insensitive collation of the name column would make the match case-insensitive.
- `findOneByImdbId` is modelled as exact, case-sensitive equality of the IMDB id. A case-insensitive collation would merge keys that differ only in case, which changes the MovieAlreadyExists, MovieNotFound and uniqueness results of the model.
- Id generation by the identity column is modelled as a caller-supplied fresh id, positive and unused. Which id the database picks is not modelled.
- Transactions, the moment Hibernate runs validation, merge of detached entities and flush order are not modelled. That save validates before it writes is an assumption, `MovieRepository.Save`.
- The entity declares no unique column (`Movie.java:19`), so the model never raises `DataIntegrityViolation`; only the handler's response to it is modelled. A unique index created outside the code would make the rename in `CatalogProperties.RenameOntoTakenKeyDuplicates` fail with that exception instead.
- The read-modify-write race between two concurrent requests on the same record is a concurrency concern and is not modelled.
- The warning the integrity handler logs, and all other logging, is I/O and is left out.
- `SeenAndRatingAnnotation.java` is not part of this model beyond the message its use declares. `MovieService.java` declares the interface only.
- Text is a `seq<char>` of Unicode scalar values. `Text.Utf16Length` counts a character above U+FFFF as two code units, as `String.length()` does. A Java string can also hold an unpaired surrogate, which no `char` here can; such strings are not modelled.
- MovieExceptionController.ReportSplitsIntoMessages: assumes, and does not prove, that the five messages contain no comma. The solver does not evaluate membership in the long message literals.
- MovieExceptionController.ExceptionResponse: takes the set's iteration order as a parameter, because the order of a Java `Set` is unspecified.
- MovieService.UpdateMovieByImdbId: its own contract does not state the validation-failure and ambiguous-lookup cases. MovieService.Modify, which it calls, states them.
- MovieService.UpdateRating: its own contract does not state the validation-failure and ambiguous-lookup cases. MovieService.Modify, which it calls, states them.
- MovieService.UpdateName: its own contract does not state the validation-failure and ambiguous-lookup cases. MovieService.Modify, which it calls, states them.
- MovieService.UpdateImdbId: its own contract does not state the validation-failure and ambiguous-lookup cases. MovieService.Modify, which it calls, states them.
- MovieService.SetMovieSeen: its own contract does not state the validation-failure and ambiguous-lookup cases. MovieService.Modify, which it calls, states them.
- MovieService.SetMovieUnseen: its own contract does not state the validation-failure and ambiguous-lookup cases. MovieService.Modify, which it calls, states them.
