/**
 * Properties of the catalog that relate several calls: the invariant that
 * keeps IMDB ids unique and every stored record valid, which operations keep
 * it and under what condition, the round trips between writes and lookups,
 * and the rename that breaks uniqueness because nothing checks for it.
 */
module CatalogProperties {
  import opened Wrappers
  import opened Text
  import opened Movies
  import opened SeenAndRatingValidator
  import opened Validation
  import opened Errors
  import opened MovieRepository
  import opened MovieService

  /** No two rows share an IMDB id. */
  ghost predicate UniqueImdbIds(rows: Rows) {
    forall a, b | a in rows && b in rows && rows[a].imdbId == rows[b].imdbId :: a == b
  }

  /** Every stored record passes validation. */
  ghost predicate AllValid(rows: Rows) {
    forall k | k in rows :: ConstraintViolations(rows[k]) == {}
  }

  ghost predicate Consistent(rows: Rows) {
    UniqueImdbIds(rows) && AllValid(rows)
  }

  /** With unique IMDB ids a lookup never throws: it finds nothing or the one holder. */
  lemma LookupUnambiguous(rows: Rows, key: JavaString)
    requires UniqueImdbIds(rows)
    ensures FindOneByImdbId(rows, key).Success?
    ensures forall k | Holds(rows, k, key) :: SoleHolder(rows, key, k)
  {
    HoldersMeaning(rows, key);
  }

  /** Whatever row a valid record is written to, the stored records stay valid. */
  lemma PutKeepsValid(rows: Rows, m: Movie)
    requires AllValid(rows) && m.id != UnsetId && ConstraintViolations(m) == {}
    ensures AllValid(Put(rows, m))
  {
  }

  /** addMovie keeps the store consistent, whether it inserts or overwrites. */
  lemma AddMovieKeepsConsistent(rows: Rows, movie: Movie, freshId: nat)
    requires Consistent(rows) && IsFresh(rows, freshId)
    requires AddMovie(rows, movie, freshId).Success?
    ensures Consistent(AddMovie(rows, movie, freshId).value)
  {
    var after := AddMovie(rows, movie, freshId).value;
    var k := if movie.id in rows then movie.id else freshId;
    ViolationsIgnoreId(movie, k);
    assert after == rows[k := movie.(id := k)];
    forall a, b | a in after && b in after && after[a].imdbId == after[b].imdbId
      ensures a == b
    {
      if a != k && b != k {
        assert rows[a].imdbId == rows[b].imdbId;
      }
    }
  }

  /** After adding a record without a stored id, looking its IMDB id up finds it under the fresh id. */
  lemma AddThenGet(rows: Rows, movie: Movie, freshId: nat)
    requires IsFresh(rows, freshId) && movie.id == UnsetId
    requires AddMovie(rows, movie, freshId).Success?
    ensures GetMovieByImdbId(AddMovie(rows, movie, freshId).value, movie.imdbId)
      == Success(Some(movie.(id := freshId)))
  {
    var after := AddMovie(rows, movie, freshId).value;
    assert after == rows[freshId := movie.(id := freshId)];
    assert SoleHolder(after, movie.imdbId, freshId);
  }

  /** Adding a second record under a stored IMDB id fails, whatever its other fields. */
  lemma AddDuplicateRefused(rows: Rows, movie: Movie, freshId: nat, k: nat)
    requires IsFresh(rows, freshId) && UniqueImdbIds(rows) && Holds(rows, k, movie.imdbId)
    ensures AddMovie(rows, movie, freshId) == Failure(MovieAlreadyExists)
  {
    LookupUnambiguous(rows, movie.imdbId);
    HoldersMeaning(rows, movie.imdbId);
  }

  /** Every update writes a valid record or nothing, so it keeps every stored record valid. */
  lemma ModifyKeepsValid(rows: Rows, key: JavaString, e: Edit)
    requires AllValid(rows)
    ensures Modify(rows, key, e).Success? ==> AllValid(Modify(rows, key, e).value)
  {
    if Modify(rows, key, e).Success? {
      HoldersMeaning(rows, key);
      var k := TheElement(Holders(rows, key));
      assert Modify(rows, key, e).value == rows[k := ApplyEdit(rows[k], e)];
    }
  }

  /**
   * An update keeps IMDB ids unique when the edited record ends with its
   * own IMDB id or with one no other row holds; the edits that do not touch
   * the IMDB id always qualify.
   */
  lemma ModifyKeepsUnique(rows: Rows, key: JavaString, e: Edit)
    requires UniqueImdbIds(rows)
    requires Modify(rows, key, e).Success?
    requires forall k | Holds(rows, k, key) ::
      ApplyEdit(rows[k], e).imdbId == key || Absent(rows, ApplyEdit(rows[k], e).imdbId)
    ensures UniqueImdbIds(Modify(rows, key, e).value)
  {
    HoldersMeaning(rows, key);
    var k := TheElement(Holders(rows, key));
    var edited := ApplyEdit(rows[k], e);
    var after := Modify(rows, key, e).value;
    assert after == rows[k := edited];
    forall a, b | a in after && b in after && after[a].imdbId == after[b].imdbId
      ensures a == b
    {
      if a != k && b != k {
        assert rows[a].imdbId == rows[b].imdbId;
      }
    }
  }

  /** The edits that leave the IMDB id alone satisfy the condition of ModifyKeepsUnique. */
  lemma KeyPreservingEdit(m: Movie, e: Edit)
    requires !e.ReplaceValues? && !e.NewImdbId?
    ensures ApplyEdit(m, e).imdbId == m.imdbId
  {
    assert ImdbIdField !in Touches(e);
  }

  /** Rating, name, seen and unseen updates keep a consistent store consistent. */
  lemma FieldUpdateKeepsConsistent(rows: Rows, key: JavaString, e: Edit)
    requires Consistent(rows) && !e.ReplaceValues? && !e.NewImdbId?
    ensures Modify(rows, key, e).Success? ==> Consistent(Modify(rows, key, e).value)
  {
    if Modify(rows, key, e).Success? {
      forall k | Holds(rows, k, key)
        ensures ApplyEdit(rows[k], e).imdbId == key
      {
        KeyPreservingEdit(rows[k], e);
      }
      ModifyKeepsValid(rows, key, e);
      ModifyKeepsUnique(rows, key, e);
    }
  }

  /** updateImdbId onto an IMDB id nobody holds keeps the store consistent. */
  lemma RenameToFreeKeyKeepsConsistent(rows: Rows, key: JavaString, newKey: JavaString)
    requires Consistent(rows) && Absent(rows, newKey)
    ensures UpdateImdbId(rows, key, newKey).Success? ==> Consistent(UpdateImdbId(rows, key, newKey).value)
  {
    ModifyKeepsValid(rows, key, NewImdbId(newKey));
    if UpdateImdbId(rows, key, newKey).Success? {
      ModifyKeepsUnique(rows, key, NewImdbId(newKey));
    }
  }

  /**
   * updateImdbId onto an IMDB id another row holds goes through when the
   * record stays valid: afterwards two rows share the id, and looking it up
   * throws instead of finding either.
   */
  lemma RenameOntoTakenKeyDuplicates(rows: Rows, key: JavaString, newKey: JavaString, a: nat, b: nat)
    requires UniqueImdbIds(rows)
    requires Holds(rows, a, key) && Holds(rows, b, newKey) && a != b
    requires ConstraintViolations(rows[a].(imdbId := newKey)) == {}
    ensures UpdateImdbId(rows, key, newKey).Success?
    ensures !UniqueImdbIds(UpdateImdbId(rows, key, newKey).value)
    ensures GetMovieByImdbId(UpdateImdbId(rows, key, newKey).value, newKey) == Failure(IncorrectResultSize)
  {
    LookupUnambiguous(rows, key);
    var r := UpdateImdbId(rows, key, newKey);
    assert r.value == rows[a := rows[a].(imdbId := newKey)];
    var after := r.value;
    assert Holds(after, a, newKey) && Holds(after, b, newKey);
    HoldersMeaning(after, newKey);
  }

  /** updateMovie with values holding a free IMDB id, or the record's own, keeps the store consistent. */
  lemma ReplaceValuesKeepsConsistent(rows: Rows, key: JavaString, movie: Movie)
    requires Consistent(rows) && (movie.imdbId == key || Absent(rows, movie.imdbId))
    requires UpdateMovieByImdbId(rows, key, movie).Success?
    ensures Consistent(UpdateMovieByImdbId(rows, key, movie).value)
  {
    ModifyKeepsValid(rows, key, ReplaceValues(movie));
    ModifyKeepsUnique(rows, key, ReplaceValues(movie));
  }

  /**
   * After updateImdbId(key, newKey) a lookup of newKey finds the same row,
   * when newKey was free before; the old id then finds nothing.
   */
  lemma RenameThenGet(rows: Rows, key: JavaString, newKey: JavaString, k: nat)
    requires SoleHolder(rows, key, k) && Absent(rows, newKey)
    requires UpdateImdbId(rows, key, newKey).Success?
    ensures GetMovieByImdbId(UpdateImdbId(rows, key, newKey).value, newKey)
      == Success(Some(rows[k].(imdbId := newKey)))
    ensures GetMovieByImdbId(UpdateImdbId(rows, key, newKey).value, key) == Success(None)
  {
    var after := UpdateImdbId(rows, key, newKey).value;
    assert after == rows[k := rows[k].(imdbId := newKey)];
    assert SoleHolder(after, newKey, k);
    assert newKey != key by {
      assert Holds(rows, k, key);
    }
    forall j | j in after
      ensures after[j].imdbId != key
    {
      if j != k {
        assert after[j] == rows[j];
        assert !Holds(rows, j, key);
      }
    }
  }

  /** After deleteMovie the IMDB id finds nothing, when it was unique before. */
  lemma DeleteThenGet(rows: Rows, key: JavaString, k: nat)
    requires SoleHolder(rows, key, k)
    ensures DeleteMovie(rows, key).Success?
    ensures GetMovieByImdbId(DeleteMovie(rows, key).value, key) == Success(None)
  {
    var after := DeleteMovie(rows, key).value;
    assert Absent(after, key);
  }

  /** setMovieUnseen on a valid record always goes through, since unseen with rating 0 obeys the rule. */
  lemma SetUnseenSucceeds(rows: Rows, key: JavaString, k: nat)
    requires AllValid(rows) && SoleHolder(rows, key, k)
    ensures SetMovieUnseen(rows, key).Success?
    ensures SeenAndRatingOk(SetMovieUnseen(rows, key).value[k].seen, SetMovieUnseen(rows, key).value[k].rating)
  {
    var edited := ApplyEdit(rows[k], MarkUnseen);
    NoViolationsIff(rows[k]);
    NoViolationsIff(edited);
  }

  /** On a valid record, setMovieSeen goes through exactly when the rating lies in 1..10. */
  lemma SetSeenSucceedsIff(rows: Rows, key: JavaString, k: nat, rating: Int32)
    requires AllValid(rows) && SoleHolder(rows, key, k)
    ensures SetMovieSeen(rows, key, rating).Success? <==> MinRating <= rating <= MaxRating
  {
    NoViolationsIff(rows[k]);
    NoViolationsIff(ApplyEdit(rows[k], MarkSeen(rating)));
  }

  /** On a valid record, updateRating goes through exactly when the new rating suits its seen flag. */
  lemma UpdateRatingSucceedsIff(rows: Rows, key: JavaString, k: nat, rating: Int32)
    requires AllValid(rows) && SoleHolder(rows, key, k)
    ensures UpdateRating(rows, key, rating).Success? <==> SeenAndRatingOk(rows[k].seen, rating)
  {
    NoViolationsIff(rows[k]);
    NoViolationsIff(ApplyEdit(rows[k], NewRating(rating)));
  }
}
