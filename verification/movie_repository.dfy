/**
 * The movie table behind the repository interface, as a map from internal id
 * to record. Lookup by IMDB id, name search and save are stated here; save
 * validating before it writes is an assumption about the persistence layer.
 */
module MovieRepository {
  import opened Wrappers
  import opened Text
  import opened Movies
  import opened Validation
  import opened Errors

  /** Every row is stored under its own id, and ids the store assigns are positive. */
  predicate WellKeyed(rows: map<nat, Movie>) {
    forall k | k in rows :: k > 0 && rows[k].id == k
  }

  type Rows = rows: map<nat, Movie> | WellKeyed(rows) witness map[]

  /** Row `k` holds the IMDB id `key`. */
  predicate Holds(rows: Rows, k: nat, key: JavaString) {
    k in rows && rows[k].imdbId == key
  }

  ghost predicate Absent(rows: Rows, key: JavaString) {
    forall k | k in rows :: rows[k].imdbId != key
  }

  /** Row `k` is the one and only row holding `key`. */
  ghost predicate SoleHolder(rows: Rows, key: JavaString, k: nat) {
    Holds(rows, k, key) && forall j | Holds(rows, j, key) :: j == k
  }

  /** An id the store may hand out for a new row. */
  predicate IsFresh(rows: Rows, id: nat) {
    id > 0 && id !in rows
  }

  /** A record whose name contains `needle`; a null name contains nothing. */
  predicate NameContains(m: Movie, needle: string) {
    m.name.Str? && Contains(m.name.chars, needle)
  }

  /** The ids of the rows holding `key`. */
  function Holders(rows: Rows, key: JavaString): set<nat> {
    set k | k in rows && rows[k].imdbId == key
  }

  lemma SingletonElement(s: set<nat>)
    requires |s| == 1
    ensures exists x :: s == {x}
  {
    var x :| x in s;
    assert |s - {x}| == 0;
    assert s == {x};
  }

  function TheElement(s: set<nat>): (x: nat)
    requires |s| == 1
    ensures s == {x}
  {
    SingletonElement(s);
    var x :| s == {x};
    x
  }

  /** No holder means absent, a single holder means sole holder, two or more means ambiguous. */
  lemma HoldersMeaning(rows: Rows, key: JavaString)
    ensures Holders(rows, key) == {} <==> Absent(rows, key)
    ensures forall k: nat | SoleHolder(rows, key, k) :: Holders(rows, key) == {k}
    ensures |Holders(rows, key)| == 1 ==> SoleHolder(rows, key, TheElement(Holders(rows, key)))
    ensures |Holders(rows, key)| > 1 <==> exists a: nat, b: nat | Holds(rows, a, key) && Holds(rows, b, key) :: a != b
  {
    var h := Holders(rows, key);
    if Absent(rows, key) {
      assert forall k | k in h :: Holds(rows, k, key);
    } else {
      var k :| k in rows && rows[k].imdbId == key;
      assert k in h;
    }
    forall k: nat | SoleHolder(rows, key, k)
      ensures h == {k}
    {
      assert forall j | j in h :: Holds(rows, j, key);
    }
    if |h| == 1 {
      var k := TheElement(h);
      assert k in h;
      forall j | Holds(rows, j, key)
        ensures j == k
      {
        assert j in h;
      }
    }
    if |h| > 1 {
      var a :| a in h;
      assert |h - {a}| > 0;
      var b :| b in h - {a};
      assert Holds(rows, a, key) && Holds(rows, b, key);
    }
    if exists a: nat, b: nat | Holds(rows, a, key) && Holds(rows, b, key) :: a != b {
      var a, b :| Holds(rows, a, key) && Holds(rows, b, key) && a != b;
      assert {a, b} <= h;
      assert |{a, b}| == 2;
      SubsetSize({a, b}, h);
    }
  }

  lemma SubsetSize(a: set<nat>, b: set<nat>)
    requires a <= b
    ensures |a| <= |b|
  {
    assert b == a + (b - a);
  }

  /** findByNameContaining: exactly the rows whose name contains `needle`. */
  function FindByNameContaining(rows: Rows, needle: string): (r: Rows)
    ensures forall k | k in r :: k in rows && r[k] == rows[k]
    ensures forall k | k in rows :: k in r <==> NameContains(rows[k], needle)
  {
    map k | k in rows && NameContains(rows[k], needle) :: rows[k]
  }

  /**
   * findOneByImdbId: null when no row holds `key`, the row when exactly one
   * does; a single-result query that matches several rows throws instead.
   */
  function FindOneByImdbId(rows: Rows, key: JavaString): (r: Result<Option<Movie>, Error>)
    ensures r == Success(None) <==> Absent(rows, key)
    ensures forall k: nat | SoleHolder(rows, key, k) :: r == Success(Some(rows[k]))
    ensures r.Success? && r.value.Some? ==> SoleHolder(rows, key, r.value.value.id)
    ensures r.Failure? <==> exists a: nat, b: nat | Holds(rows, a, key) && Holds(rows, b, key) :: a != b
    ensures r.Failure? ==> r.error == IncorrectResultSize
  {
    var holders := Holders(rows, key);
    HoldersMeaning(rows, key);
    if holders == {} then Success(None)
    else if |holders| == 1 then Success(Some(rows[TheElement(holders)]))
    else Failure(IncorrectResultSize)
  }

  /**
   * save, as the persistence layer is assumed to behave: validate first and
   * refuse an invalid record with every violated message; a record whose id is
   * stored overwrites that row, any other record becomes a new row under a
   * fresh id.
   */
  function Save(rows: Rows, m: Movie, freshId: nat): (r: Result<Rows, Error>)
    requires IsFresh(rows, freshId)
    ensures r.Failure? <==> ConstraintViolations(m) != {}
    ensures r.Failure? ==> r.error == ConstraintViolation(ConstraintViolations(m))
    ensures r.Success? && m.id in rows ==> r.value == rows[m.id := m]
    ensures r.Success? && m.id !in rows ==> r.value == rows[freshId := m.(id := freshId)]
  {
    var violations := ConstraintViolations(m);
    if violations != {} then Failure(ConstraintViolation(violations))
    else if m.id in rows then SaveExisting(rows, m)
    else Success(Put(rows, m.(id := freshId)))
  }

  /** save of a record fetched from the store: validate, then overwrite its row. */
  function SaveExisting(rows: Rows, m: Movie): (r: Result<Rows, Error>)
    requires m.id in rows
    ensures r.Failure? <==> ConstraintViolations(m) != {}
    ensures r.Failure? ==> r.error == ConstraintViolation(ConstraintViolations(m))
    ensures r.Success? ==> r.value == rows[m.id := m]
  {
    var violations := ConstraintViolations(m);
    if violations != {} then Failure(ConstraintViolation(violations)) else Success(Put(rows, m))
  }

  /** Writes a record under its own id, which must be a real one. */
  function Put(rows: Rows, m: Movie): (r: Rows)
    requires m.id != UnsetId
    ensures r.Keys == rows.Keys + {m.id} && r[m.id] == m
    ensures forall k | k in rows && k != m.id :: r[k] == rows[k]
  {
    var updated := rows[m.id := m];
    assert WellKeyed(updated) by {
      forall k | k in updated
        ensures k > 0 && updated[k].id == k
      {
        if k != m.id {
          assert k in rows;
        }
      }
    }
    updated
  }

  /** deleteById: the row with that id is gone and every other row is untouched. */
  function DeleteById(rows: Rows, id: nat): (r: Rows)
    requires id in rows
    ensures r.Keys == rows.Keys - {id}
    ensures forall k | k in r :: r[k] == rows[k]
  {
    rows - {id}
  }
}
