/**
 * The movie record: a store-assigned internal id and four value fields, the
 * constructor, the per-field setters and the copy of every value field from
 * another record.
 */
module Movies {
  import opened Text

  /** Java's 32-bit signed int, the type of the rating. */
  type Int32 = x: int | -0x8000_0000 <= x < 0x8000_0000

  /** The id a record carries before the store has assigned one (the default of a Java long field). */
  const UnsetId: nat := 0

  datatype Movie = Movie(id: nat, imdbId: JavaString, name: JavaString, seen: bool, rating: Int32)

  /** The fields of a record, used to say which of them an operation may change. */
  datatype Field = IdField | ImdbIdField | NameField | SeenField | RatingField

  /** The value fields: everything a caller may set, that is, every field but the id. */
  const ValueFields: set<Field> := {ImdbIdField, NameField, SeenField, RatingField}

  predicate Agree(a: Movie, b: Movie, f: Field) {
    match f
    case IdField => a.id == b.id
    case ImdbIdField => a.imdbId == b.imdbId
    case NameField => a.name == b.name
    case SeenField => a.seen == b.seen
    case RatingField => a.rating == b.rating
  }

  /** `a` and `b` hold the same value in every field outside `changed`. */
  ghost predicate AgreeOutside(a: Movie, b: Movie, changed: set<Field>) {
    forall f: Field | f !in changed :: Agree(a, b, f)
  }

  /** Records that agree on every field are the same record. */
  lemma AgreeEverywhere(a: Movie, b: Movie)
    requires AgreeOutside(a, b, {})
    ensures a == b
  {
    assert Agree(a, b, IdField);
    assert Agree(a, b, ImdbIdField);
    assert Agree(a, b, NameField);
    assert Agree(a, b, SeenField);
    assert Agree(a, b, RatingField);
  }

  /** The four-argument constructor: the id is left for the store to assign. */
  function NewMovie(imdbId: JavaString, name: JavaString, seen: bool, rating: Int32): (m: Movie)
    ensures m.id == UnsetId
    ensures m.imdbId == imdbId && m.name == name && m.seen == seen && m.rating == rating
  {
    Movie(UnsetId, imdbId, name, seen, rating)
  }

  function SetImdbId(m: Movie, imdbId: JavaString): (r: Movie)
    ensures r.imdbId == imdbId
    ensures AgreeOutside(r, m, {ImdbIdField})
  {
    m.(imdbId := imdbId)
  }

  function SetName(m: Movie, name: JavaString): (r: Movie)
    ensures r.name == name
    ensures AgreeOutside(r, m, {NameField})
  {
    m.(name := name)
  }

  function SetSeen(m: Movie, seen: bool): (r: Movie)
    ensures r.seen == seen
    ensures AgreeOutside(r, m, {SeenField})
  {
    m.(seen := seen)
  }

  function SetRating(m: Movie, rating: Int32): (r: Movie)
    ensures r.rating == rating
    ensures AgreeOutside(r, m, {RatingField})
  {
    m.(rating := rating)
  }

  /** Copies every value field of `source` into `m`; the id stays that of `m`. */
  function UpdateMovie(m: Movie, source: Movie): (r: Movie)
    ensures AgreeOutside(r, source, {IdField})
    ensures AgreeOutside(r, m, ValueFields)
  {
    Movie(m.id, source.imdbId, source.name, source.seen, source.rating)
  }
}
