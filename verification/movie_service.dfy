/**
 * The catalog service: list, fetch, add, the field-level updates and delete,
 * each a pure function from the store before the call to the store after it
 * or to the exception the call raises. On an exception the caller keeps the
 * store it had: the write is never made.
 */
module MovieService {
  import opened Wrappers
  import opened Text
  import opened Movies
  import opened Validation
  import opened Errors
  import opened MovieRepository

  /**
   * The store after a successful call changed row `k` at most in the fields
   * `changed`, and no other row and no id.
   */
  ghost predicate OnlyRowChanged(before: Rows, after: Rows, k: nat, changed: set<Field>) {
    && k in before
    && after.Keys == before.Keys
    && AgreeOutside(after[k], before[k], changed)
    && forall j | j in before && j != k :: after[j] == before[j]
  }

  /** getAllMovies: every stored record without a filter, those whose name contains the filter with one. */
  function GetAllMovies(rows: Rows, name: JavaString): (r: Rows)
    ensures name.Null? ==> r == rows
    ensures forall k | k in r :: k in rows && r[k] == rows[k]
    ensures name.Str? ==> forall k | k in rows :: k in r <==> NameContains(rows[k], name.chars)
  {
    if name.Null? then rows else FindByNameContaining(rows, name.chars)
  }

  /** getMovieByImdbId: the stored record holding the IMDB id, or null when none does. */
  function GetMovieByImdbId(rows: Rows, imdbId: JavaString): (r: Result<Option<Movie>, Error>)
    ensures r == Success(None) <==> Absent(rows, imdbId)
    ensures r.Success? && r.value.Some? ==>
      && r.value.value.id in rows
      && rows[r.value.value.id] == r.value.value
      && r.value.value.imdbId == imdbId
    ensures r.Failure? <==> |Holders(rows, imdbId)| > 1
    ensures r.Failure? ==> r.error == IncorrectResultSize
  {
    HoldersMeaning(rows, imdbId);
    FindOneByImdbId(rows, imdbId)
  }

  /**
   * addMovie: refuse a record whose IMDB id is already stored, otherwise save
   * it. A record carrying no stored id becomes one new row under a fresh id;
   * one carrying the id of a stored row overwrites that row.
   */
  function AddMovie(rows: Rows, movie: Movie, freshId: nat): (r: Result<Rows, Error>)
    requires IsFresh(rows, freshId)
    ensures r == Failure(MovieAlreadyExists) <==> |Holders(rows, movie.imdbId)| == 1
    ensures r == Failure(IncorrectResultSize) <==> |Holders(rows, movie.imdbId)| > 1
    ensures Absent(rows, movie.imdbId) ==>
      (r.Success? <==> ConstraintViolations(movie) == {})
    ensures r.Failure? && r.error.ConstraintViolation? ==>
      r.error.violations == ConstraintViolations(movie) != {}
    ensures Absent(rows, movie.imdbId) && ConstraintViolations(movie) != {} ==>
      r == Failure(ConstraintViolation(ConstraintViolations(movie)))
    ensures r.Success? ==> Absent(rows, movie.imdbId) && ConstraintViolations(movie) == {}
    ensures r.Success? && movie.id !in rows ==>
      && r.value.Keys == rows.Keys + {freshId}
      && r.value[freshId].id == freshId
      && AgreeOutside(r.value[freshId], movie, {IdField})
      && forall k | k in rows :: r.value[k] == rows[k]
    ensures r.Success? && movie.id in rows ==> r.value == rows[movie.id := movie]
  {
    HoldersMeaning(rows, movie.imdbId);
    match FindOneByImdbId(rows, movie.imdbId)
    case Failure(err) => Failure(err)
    case Success(Some(_)) => Failure(MovieAlreadyExists)
    case Success(None) => Save(rows, movie, freshId)
  }

  /** The in-memory change each update makes to the fetched record before it is saved. */
  datatype Edit =
    | ReplaceValues(source: Movie)
    | NewRating(rating: Int32)
    | NewName(name: JavaString)
    | NewImdbId(imdbId: JavaString)
    | MarkSeen(seenRating: Int32)
    | MarkUnseen

  /** The fields an edit may change. */
  function Touches(e: Edit): set<Field> {
    match e
    case ReplaceValues(_) => ValueFields
    case NewRating(_) => {RatingField}
    case NewName(_) => {NameField}
    case NewImdbId(_) => {ImdbIdField}
    case MarkSeen(_) => {SeenField, RatingField}
    case MarkUnseen => {SeenField, RatingField}
  }

  /** Applies an edit with the record's own setters; no edit ever changes the id. */
  function ApplyEdit(m: Movie, e: Edit): (r: Movie)
    ensures r.id == m.id
    ensures AgreeOutside(r, m, Touches(e))
  {
    match e
    case ReplaceValues(source) => UpdateMovie(m, source)
    case NewRating(rating) => SetRating(m, rating)
    case NewName(name) => SetName(m, name)
    case NewImdbId(imdbId) => SetImdbId(m, imdbId)
    case MarkSeen(rating) => SetRating(SetSeen(m, true), rating)
    case MarkUnseen => SetRating(SetSeen(m, false), 0)
  }

  /**
   * The shape every update shares: fetch the record by IMDB id, raise
   * MovieNotFound when there is none, apply the edit and save the result
   * over the same row.
   */
  function Modify(rows: Rows, key: JavaString, e: Edit): (r: Result<Rows, Error>)
    ensures r == Failure(MovieNotFound) <==> Absent(rows, key)
    ensures r == Failure(IncorrectResultSize) <==> |Holders(rows, key)| > 1
    ensures forall k: nat | SoleHolder(rows, key, k) ::
      && (r.Success? <==> ConstraintViolations(ApplyEdit(rows[k], e)) == {})
      && (r.Success? ==> r.value == rows[k := ApplyEdit(rows[k], e)])
      && (r.Failure? ==> r.error == ConstraintViolation(ConstraintViolations(ApplyEdit(rows[k], e))))
  {
    HoldersMeaning(rows, key);
    match FindOneByImdbId(rows, key)
    case Failure(err) => Failure(err)
    case Success(None) => Failure(MovieNotFound)
    case Success(Some(found)) => SaveExisting(rows, ApplyEdit(found, e))
  }

  /** A successful edit of the sole holder `k` changes that row in the edit's fields only. */
  lemma ModifyFrame(rows: Rows, key: JavaString, e: Edit, k: nat)
    requires SoleHolder(rows, key, k)
    requires Modify(rows, key, e).Success?
    ensures OnlyRowChanged(rows, Modify(rows, key, e).value, k, Touches(e))
    ensures Modify(rows, key, e).value[k] == ApplyEdit(rows[k], e)
  {
  }

  /** updateMovie: overwrite every value field of the record found by IMDB id; its id stays. */
  function UpdateMovieByImdbId(rows: Rows, imdbId: JavaString, movie: Movie): (r: Result<Rows, Error>)
    ensures Absent(rows, imdbId) ==> r == Failure(MovieNotFound)
    ensures forall k: nat | SoleHolder(rows, imdbId, k) && r.Success? ::
      && OnlyRowChanged(rows, r.value, k, ValueFields)
      && r.value[k].id == k
      && AgreeOutside(r.value[k], movie, {IdField})
  {
    var r := Modify(rows, imdbId, ReplaceValues(movie));
    forall k: nat | SoleHolder(rows, imdbId, k) && r.Success?
      ensures OnlyRowChanged(rows, r.value, k, ValueFields)
    {
      ModifyFrame(rows, imdbId, ReplaceValues(movie), k);
    }
    r
  }

  /** updateRating: the rating of the record found by IMDB id, and nothing else, becomes `rating`. */
  function UpdateRating(rows: Rows, imdbId: JavaString, rating: Int32): (r: Result<Rows, Error>)
    ensures Absent(rows, imdbId) ==> r == Failure(MovieNotFound)
    ensures forall k: nat | SoleHolder(rows, imdbId, k) && r.Success? ::
      OnlyRowChanged(rows, r.value, k, {RatingField}) && r.value[k].rating == rating
  {
    var r := Modify(rows, imdbId, NewRating(rating));
    forall k: nat | SoleHolder(rows, imdbId, k) && r.Success?
      ensures OnlyRowChanged(rows, r.value, k, {RatingField})
    {
      ModifyFrame(rows, imdbId, NewRating(rating), k);
    }
    r
  }

  /** updateName: the name of the record found by IMDB id, and nothing else, becomes `name`. */
  function UpdateName(rows: Rows, imdbId: JavaString, name: JavaString): (r: Result<Rows, Error>)
    ensures Absent(rows, imdbId) ==> r == Failure(MovieNotFound)
    ensures forall k: nat | SoleHolder(rows, imdbId, k) && r.Success? ::
      OnlyRowChanged(rows, r.value, k, {NameField}) && r.value[k].name == name
  {
    var r := Modify(rows, imdbId, NewName(name));
    forall k: nat | SoleHolder(rows, imdbId, k) && r.Success?
      ensures OnlyRowChanged(rows, r.value, k, {NameField})
    {
      ModifyFrame(rows, imdbId, NewName(name), k);
    }
    r
  }

  /**
   * updateImdbId: the IMDB id of the record found by `imdbId`, and nothing
   * else, becomes `imdbIdNew`. Nothing checks whether another record
   * already holds `imdbIdNew`.
   */
  function UpdateImdbId(rows: Rows, imdbId: JavaString, imdbIdNew: JavaString): (r: Result<Rows, Error>)
    ensures Absent(rows, imdbId) ==> r == Failure(MovieNotFound)
    ensures forall k: nat | SoleHolder(rows, imdbId, k) && r.Success? ::
      OnlyRowChanged(rows, r.value, k, {ImdbIdField}) && r.value[k].imdbId == imdbIdNew
  {
    var r := Modify(rows, imdbId, NewImdbId(imdbIdNew));
    forall k: nat | SoleHolder(rows, imdbId, k) && r.Success?
      ensures OnlyRowChanged(rows, r.value, k, {ImdbIdField})
    {
      ModifyFrame(rows, imdbId, NewImdbId(imdbIdNew), k);
    }
    r
  }

  /** setMovieSeen: the record found by IMDB id becomes seen with rating `rating`. */
  function SetMovieSeen(rows: Rows, imdbId: JavaString, rating: Int32): (r: Result<Rows, Error>)
    ensures Absent(rows, imdbId) ==> r == Failure(MovieNotFound)
    ensures forall k: nat | SoleHolder(rows, imdbId, k) && r.Success? ::
      && OnlyRowChanged(rows, r.value, k, {SeenField, RatingField})
      && r.value[k].seen
      && r.value[k].rating == rating
  {
    var r := Modify(rows, imdbId, MarkSeen(rating));
    forall k: nat | SoleHolder(rows, imdbId, k) && r.Success?
      ensures OnlyRowChanged(rows, r.value, k, {SeenField, RatingField})
    {
      ModifyFrame(rows, imdbId, MarkSeen(rating), k);
    }
    r
  }

  /** setMovieUnseen: the record found by IMDB id becomes unseen, with its rating reset to 0. */
  function SetMovieUnseen(rows: Rows, imdbId: JavaString): (r: Result<Rows, Error>)
    ensures Absent(rows, imdbId) ==> r == Failure(MovieNotFound)
    ensures forall k: nat | SoleHolder(rows, imdbId, k) && r.Success? ::
      && OnlyRowChanged(rows, r.value, k, {SeenField, RatingField})
      && !r.value[k].seen
      && r.value[k].rating == 0
  {
    var r := Modify(rows, imdbId, MarkUnseen);
    forall k: nat | SoleHolder(rows, imdbId, k) && r.Success?
      ensures OnlyRowChanged(rows, r.value, k, {SeenField, RatingField})
    {
      ModifyFrame(rows, imdbId, MarkUnseen, k);
    }
    r
  }

  /** deleteMovie: remove the record found by IMDB id, by its internal id; every other row stays. */
  function DeleteMovie(rows: Rows, imdbId: JavaString): (r: Result<Rows, Error>)
    ensures r == Failure(MovieNotFound) <==> Absent(rows, imdbId)
    ensures r == Failure(IncorrectResultSize) <==> |Holders(rows, imdbId)| > 1
    ensures forall k: nat | SoleHolder(rows, imdbId, k) ::
      && r.Success?
      && r.value.Keys == rows.Keys - {k}
      && forall j | j in r.value :: r.value[j] == rows[j]
  {
    HoldersMeaning(rows, imdbId);
    match FindOneByImdbId(rows, imdbId)
    case Failure(err) => Failure(err)
    case Success(None) => Failure(MovieNotFound)
    case Success(Some(found)) => Success(DeleteById(rows, found.id))
  }
}
