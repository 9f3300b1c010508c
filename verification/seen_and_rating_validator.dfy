/**
 * The class-level constraint coupling the seen flag and the rating: a seen
 * movie carries a rating from 1 to 10, an unseen one carries 0.
 */
module SeenAndRatingValidator {
  import opened Wrappers
  import opened Movies

  /** The exception isValid throws when handed a null record. */
  datatype IllegalArgumentException = IllegalArgumentException(message: string)

  const NullObjectMessage: string := "@SeenAndRatingAnnotation only applies to Movie objects"

  const MinRating: int := 1
  const MaxRating: int := 10
  const UnratedRating: int := 0

  predicate SeenAndRatingOk(seen: bool, rating: int) {
    (seen && MinRating <= rating <= MaxRating) || (!seen && rating == UnratedRating)
  }

  /** isValid: a null record is an error, not a `false` verdict; otherwise only seen and rating decide. */
  function IsValid(movie: Option<Movie>): (r: Result<bool, IllegalArgumentException>)
    ensures movie.None? <==> r.Failure?
    ensures r.Failure? ==> r.error.message == NullObjectMessage
    ensures movie.Some? && movie.value.seen ==> r == Success(1 <= movie.value.rating <= 10)
    ensures movie.Some? && !movie.value.seen ==> r == Success(movie.value.rating == 0)
  {
    match movie
    case None => Failure(IllegalArgumentException(NullObjectMessage))
    case Some(m) => Success(SeenAndRatingOk(m.seen, m.rating))
  }

  /** The verdict ignores the id, the IMDB id and the name: records that differ only there get the same verdict. */
  lemma IsValidIgnoresOtherFields(a: Movie, b: Movie)
    requires AgreeOutside(a, b, {IdField, ImdbIdField, NameField})
    ensures IsValid(Some(a)) == IsValid(Some(b))
  {
    assert Agree(a, b, SeenField) && Agree(a, b, RatingField);
  }

  /** The 32-bit ratings the rule accepts for a given seen flag. */
  ghost function ValidRatings(seen: bool): set<int> {
    set rating: int | -0x8000_0000 <= rating < 0x8000_0000 && SeenAndRatingOk(seen, rating)
  }

  /** An unseen movie has exactly one acceptable rating, 0; a seen one has exactly ten, 1 to 10. */
  lemma ValidRatingCounts()
    ensures ValidRatings(false) == {0}
    ensures ValidRatings(true) == {1, 2, 3, 4, 5, 6, 7, 8, 9, 10}
    ensures |ValidRatings(false)| == 1 && |ValidRatings(true)| == 10
  {
    var ten: set<int> := {1, 2, 3, 4, 5, 6, 7, 8, 9, 10};
    forall rating: int | rating in ValidRatings(true)
      ensures rating in ten
    {
      assert 1 <= rating <= 10;
    }
    assert ValidRatings(true) == ten;
  }
}
