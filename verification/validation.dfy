/**
 * Bean validation of a movie record: the not-blank and size constraints on
 * the IMDB id and the name, and the class-level seen/rating constraint. The
 * result is the set of violated constraints, each reported by its message.
 */
module Validation {
  import opened Wrappers
  import opened Text
  import opened Movies
  import opened SeenAndRatingValidator

  /** The constraints declared on a movie record. */
  datatype Constraint = ImdbIdNotBlank | ImdbIdSize | NameNotBlank | NameSize | SeenAndRating

  const ImdbIdMaxLength: nat := 20
  const NameMaxLength: nat := 255

  /** The message a violation of each constraint reports; the five lengths all differ. */
  function Message(c: Constraint): (r: string)
    ensures |r| == match c
      case ImdbIdNotBlank => 31
      case ImdbIdSize => 43
      case NameNotBlank => 28
      case NameSize => 41
      case SeenAndRating => 104
  {
    match c
    case ImdbIdNotBlank => "IMDB id cannot be null or blank"
    case ImdbIdSize => "IMDB id must be between 1 and 20 characters"
    case NameNotBlank => "Name cannot be null or blank"
    case NameSize => "Name must be between 1 and 255 characters"
    case SeenAndRating =>
      "If movie is not seen then rating cannot be set and if movie is seen then rating must be between 1 and 10"
  }

  /** Different constraints report different messages, so a set of messages counts its constraints. */
  lemma MessagesDistinct(a: Constraint, b: Constraint)
    requires Message(a) == Message(b)
    ensures a == b
  {
    assert |Message(a)| == |Message(b)|;
  }

  /**
   * @NotBlank: not null, and something is left after trim(); that is, a
   * non-null string holding a character above U+0020.
   */
  function NotBlank(s: JavaString): (b: bool)
    ensures b <==> s.Str? && exists i | 0 <= i < |s.chars| :: !IsTrimmable(s.chars[i])
  {
    s.Str? && (TrimEmptyIffAllTrimmable(s.chars); |Trim(s.chars)| > 0)
  }

  /**
   * @Size(min, max): null passes; otherwise Java's length(), in UTF-16 code
   * units, must lie in min..max. A string within the bound has between half
   * of `min` and `max` characters, and a string too short in characters or
   * too long in code units is out of bounds.
   */
  function SizeBetween(s: JavaString, min: nat, max: nat): (b: bool)
    ensures s.Str? && b ==> min <= 2 * |s.chars| && |s.chars| <= max
    ensures s.Str? && (2 * |s.chars| < min || |s.chars| > max) ==> !b
    ensures s.Null? ==> b
  {
    s.Null? || min <= Utf16Length(s.chars) <= max
  }

  /** For text without characters above U+FFFF the size bound is exactly one on the number of characters. */
  lemma NarrowTextSize(s: JavaString, min: nat, max: nat)
    requires s.Str? && forall i | 0 <= i < |s.chars| :: s.chars[i] <= MaxSingleUnit
    ensures SizeBetween(s, min, max) <==> min <= |s.chars| <= max
  {
    Utf16LengthUniform(s.chars);
  }

  /** A string the two field constraints of a text field with length bound `max` both accept. */
  predicate FieldAcceptable(s: JavaString, max: nat) {
    && s.Str?
    && 1 <= Utf16Length(s.chars) <= max
    && exists i | 0 <= i < |s.chars| :: !IsTrimmable(s.chars[i])
  }

  const AllConstraints: set<Constraint> := {ImdbIdNotBlank, ImdbIdSize, NameNotBlank, NameSize, SeenAndRating}

  /** The record breaks constraint `c`. */
  predicate Breaks(m: Movie, c: Constraint) {
    match c
    case ImdbIdNotBlank => !NotBlank(m.imdbId)
    case ImdbIdSize => !SizeBetween(m.imdbId, 1, ImdbIdMaxLength)
    case NameNotBlank => !NotBlank(m.name)
    case NameSize => !SizeBetween(m.name, 1, NameMaxLength)
    case SeenAndRating => IsValid(Some(m)) != Success(true)
  }

  /**
   * Validator.validate on a movie: every violated constraint, all at once. A
   * null string never breaks a size constraint, and the class-level one is
   * broken exactly when the seen/rating pair breaks the rule.
   */
  function ConstraintViolations(m: Movie): (v: set<Constraint>)
    ensures ImdbIdSize in v ==> m.imdbId.Str?
    ensures NameSize in v ==> m.name.Str?
    ensures SeenAndRating in v <==> !SeenAndRatingOk(m.seen, m.rating)
  {
    set c | c in AllConstraints && Breaks(m, c)
  }

  /** `blank`, `size`, `s` and `max` are the two constraints, the value and the bound of one text field of `m`. */
  predicate FieldOf(m: Movie, blank: Constraint, size: Constraint, s: JavaString, max: nat) {
    || (blank == ImdbIdNotBlank && size == ImdbIdSize && s == m.imdbId && max == ImdbIdMaxLength)
    || (blank == NameNotBlank && size == NameSize && s == m.name && max == NameMaxLength)
  }

  /** The not-blank constraint on a field fails on null or on nothing but trimmable characters. */
  lemma NotBlankBroken(m: Movie, c: Constraint, s: JavaString)
    requires (c == ImdbIdNotBlank && s == m.imdbId) || (c == NameNotBlank && s == m.name)
    ensures c in ConstraintViolations(m) <==> s.Null? || forall i | 0 <= i < |s.chars| :: IsTrimmable(s.chars[i])
  {
  }

  /** The size constraint on a field fails on an empty or over-long string, never on null. */
  lemma SizeBroken(m: Movie, c: Constraint, s: JavaString, max: nat)
    requires (c == ImdbIdSize && s == m.imdbId && max == ImdbIdMaxLength) || (c == NameSize && s == m.name && max == NameMaxLength)
    ensures c in ConstraintViolations(m) <==> s.Str? && (|s.chars| == 0 || Utf16Length(s.chars) > max)
  {
  }

  /**
   * What each violation means: the not-blank constraint fails on null or on a
   * string of nothing but trimmable characters, the size constraint on an
   * empty or over-long (never a null) string, and the class-level constraint
   * exactly when its validator answers false.
   */
  lemma ViolationsMeaning(m: Movie)
    ensures ImdbIdNotBlank in ConstraintViolations(m) <==>
      m.imdbId.Null? || forall i | 0 <= i < |m.imdbId.chars| :: IsTrimmable(m.imdbId.chars[i])
    ensures ImdbIdSize in ConstraintViolations(m) <==>
      m.imdbId.Str? && (|m.imdbId.chars| == 0 || Utf16Length(m.imdbId.chars) > ImdbIdMaxLength)
    ensures NameNotBlank in ConstraintViolations(m) <==>
      m.name.Null? || forall i | 0 <= i < |m.name.chars| :: IsTrimmable(m.name.chars[i])
    ensures NameSize in ConstraintViolations(m) <==>
      m.name.Str? && (|m.name.chars| == 0 || Utf16Length(m.name.chars) > NameMaxLength)
    ensures SeenAndRating in ConstraintViolations(m) <==> IsValid(Some(m)) == Success(false)
  {
    NotBlankBroken(m, ImdbIdNotBlank, m.imdbId);
    SizeBroken(m, ImdbIdSize, m.imdbId, ImdbIdMaxLength);
    NotBlankBroken(m, NameNotBlank, m.name);
    SizeBroken(m, NameSize, m.name, NameMaxLength);
  }

  /** The messages of a set of violations, as ConstraintViolation.getMessage() reports them. */
  function Messages(v: set<Constraint>): set<string> {
    Image(v, Message)
  }

  /** No two violations share a message, so there are as many messages as violations. */
  lemma MessageCount(v: set<Constraint>)
    ensures |Messages(v)| == |v|
  {
    forall a, b | a in v && b in v && Message(a) == Message(b)
      ensures a == b
    {
      MessagesDistinct(a, b);
    }
    InjectiveImageSize(v, Message);
  }

  /** The image of a set under a function. */
  function Image<T, U>(v: set<T>, f: T -> U): set<U> {
    set c | c in v :: f(c)
  }

  /** An injective map keeps the size of a finite set. */
  lemma {:induction false} InjectiveImageSize<T, U>(v: set<T>, f: T -> U)
    requires forall a, b | a in v && b in v && f(a) == f(b) :: a == b
    ensures |Image(v, f)| == |v|
    decreases |v|
  {
    if v != {} {
      var c :| c in v;
      var rest := v - {c};
      InjectiveImageSize(rest, f);
      var image := Image(v, f);
      var restImage := Image(rest, f);
      assert image == restImage + {f(c)};
      assert f(c) !in restImage;
    }
  }

  /** A field is acceptable exactly when neither of its two constraints is violated. */
  lemma FieldAcceptableIff(m: Movie, blank: Constraint, size: Constraint, s: JavaString, max: nat)
    requires FieldOf(m, blank, size, s, max)
    ensures FieldAcceptable(s, max) <==> blank !in ConstraintViolations(m) && size !in ConstraintViolations(m)
  {
    NotBlankBroken(m, blank, s);
    SizeBroken(m, size, s, max);
  }

  /** A record with acceptable fields and a consistent seen/rating pair has no violations, and only such a record. */
  lemma NoViolationsIff(m: Movie)
    ensures ConstraintViolations(m) == {} <==>
      && FieldAcceptable(m.imdbId, ImdbIdMaxLength)
      && FieldAcceptable(m.name, NameMaxLength)
      && SeenAndRatingOk(m.seen, m.rating)
  {
    var v := ConstraintViolations(m);
    FieldAcceptableIff(m, ImdbIdNotBlank, ImdbIdSize, m.imdbId, ImdbIdMaxLength);
    FieldAcceptableIff(m, NameNotBlank, NameSize, m.name, NameMaxLength);
    if v != {} {
      var c :| c in v;
    }
  }

  /** Validation looks at the value fields only: the id never produces or removes a violation. */
  lemma ViolationsIgnoreId(m: Movie, id: nat)
    ensures ConstraintViolations(m.(id := id)) == ConstraintViolations(m)
  {
  }

  /** Everything but the text field whose not-blank constraint is `blank` passes validation. */
  lemma RestAcceptable(m: Movie, blank: Constraint)
    requires blank == ImdbIdNotBlank ==> FieldAcceptable(m.name, NameMaxLength)
    requires blank == NameNotBlank ==> FieldAcceptable(m.imdbId, ImdbIdMaxLength)
    requires SeenAndRatingOk(m.seen, m.rating)
    ensures blank == ImdbIdNotBlank ==> NameNotBlank !in ConstraintViolations(m) && NameSize !in ConstraintViolations(m)
    ensures blank == NameNotBlank ==> ImdbIdNotBlank !in ConstraintViolations(m) && ImdbIdSize !in ConstraintViolations(m)
    ensures SeenAndRating !in ConstraintViolations(m)
  {
    FieldAcceptableIff(m, NameNotBlank, NameSize, m.name, NameMaxLength);
    FieldAcceptableIff(m, ImdbIdNotBlank, ImdbIdSize, m.imdbId, ImdbIdMaxLength);
  }

  /** A null text field, all else acceptable: only its not-blank constraint fails. */
  lemma NullFieldViolation(m: Movie, blank: Constraint, size: Constraint, s: JavaString, max: nat)
    requires FieldOf(m, blank, size, s, max) && s.Null?
    requires blank == ImdbIdNotBlank ==> FieldAcceptable(m.name, NameMaxLength)
    requires blank == NameNotBlank ==> FieldAcceptable(m.imdbId, ImdbIdMaxLength)
    requires SeenAndRatingOk(m.seen, m.rating)
    ensures ConstraintViolations(m) == {blank}
  {
    var v := ConstraintViolations(m);
    RestAcceptable(m, blank);
    NotBlankBroken(m, blank, s);
    SizeBroken(m, size, s, max);
    assert blank in v && size !in v;
  }

  /** An empty text field, all else acceptable: both of its constraints fail. */
  lemma EmptyFieldViolations(m: Movie, blank: Constraint, size: Constraint, s: JavaString, max: nat)
    requires FieldOf(m, blank, size, s, max) && s == Str("")
    requires blank == ImdbIdNotBlank ==> FieldAcceptable(m.name, NameMaxLength)
    requires blank == NameNotBlank ==> FieldAcceptable(m.imdbId, ImdbIdMaxLength)
    requires SeenAndRatingOk(m.seen, m.rating)
    ensures ConstraintViolations(m) == {blank, size} && |ConstraintViolations(m)| == 2
  {
    RestAcceptable(m, blank);
    NotBlankBroken(m, blank, s);
    SizeBroken(m, size, s, max);
  }

  /** An over-long text field that is not blank, all else acceptable: only its size constraint fails. */
  lemma LongFieldViolation(m: Movie, blank: Constraint, size: Constraint, s: JavaString, max: nat)
    requires FieldOf(m, blank, size, s, max) && s.Str? && Utf16Length(s.chars) > max && NotBlank(s)
    requires blank == ImdbIdNotBlank ==> FieldAcceptable(m.name, NameMaxLength)
    requires blank == NameNotBlank ==> FieldAcceptable(m.imdbId, ImdbIdMaxLength)
    requires SeenAndRatingOk(m.seen, m.rating)
    ensures ConstraintViolations(m) == {size}
  {
    RestAcceptable(m, blank);
    NotBlankBroken(m, blank, s);
    SizeBroken(m, size, s, max);
  }

  /**
   * With the name and the seen/rating pair acceptable: a null IMDB id breaks
   * the not-blank constraint alone, an empty one breaks both, and a non-blank
   * one longer than 20 code units breaks the size constraint alone.
   */
  lemma ImdbIdViolationCounts(m: Movie)
    requires FieldAcceptable(m.name, NameMaxLength) && SeenAndRatingOk(m.seen, m.rating)
    ensures m.imdbId.Null? ==> ConstraintViolations(m) == {ImdbIdNotBlank}
    ensures m.imdbId == Str("") ==>
      ConstraintViolations(m) == {ImdbIdNotBlank, ImdbIdSize} && |ConstraintViolations(m)| == 2
    ensures m.imdbId.Str? && Utf16Length(m.imdbId.chars) > ImdbIdMaxLength && NotBlank(m.imdbId) ==>
      ConstraintViolations(m) == {ImdbIdSize}
  {
    if m.imdbId.Null? {
      NullFieldViolation(m, ImdbIdNotBlank, ImdbIdSize, m.imdbId, ImdbIdMaxLength);
    } else if m.imdbId == Str("") {
      EmptyFieldViolations(m, ImdbIdNotBlank, ImdbIdSize, m.imdbId, ImdbIdMaxLength);
    } else if Utf16Length(m.imdbId.chars) > ImdbIdMaxLength && NotBlank(m.imdbId) {
      LongFieldViolation(m, ImdbIdNotBlank, ImdbIdSize, m.imdbId, ImdbIdMaxLength);
    }
  }

  /** The same pattern for the name, whose length bound is 255 code units. */
  lemma NameViolationCounts(m: Movie)
    requires FieldAcceptable(m.imdbId, ImdbIdMaxLength) && SeenAndRatingOk(m.seen, m.rating)
    ensures m.name.Null? ==> ConstraintViolations(m) == {NameNotBlank}
    ensures m.name == Str("") ==>
      ConstraintViolations(m) == {NameNotBlank, NameSize} && |ConstraintViolations(m)| == 2
    ensures m.name.Str? && Utf16Length(m.name.chars) > NameMaxLength && NotBlank(m.name) ==>
      ConstraintViolations(m) == {NameSize}
  {
    if m.name.Null? {
      NullFieldViolation(m, NameNotBlank, NameSize, m.name, NameMaxLength);
    } else if m.name == Str("") {
      EmptyFieldViolations(m, NameNotBlank, NameSize, m.name, NameMaxLength);
    } else if Utf16Length(m.name.chars) > NameMaxLength && NotBlank(m.name) {
      LongFieldViolation(m, NameNotBlank, NameSize, m.name, NameMaxLength);
    }
  }

  /**
   * A name of 128 characters above U+FFFF is 256 code units long, so it
   * breaks the size constraint although it has fewer than 256 characters.
   */
  lemma WideCharactersCountTwice(m: Movie)
    requires m.name.Str? && |m.name.chars| == 128
    requires forall i | 0 <= i < |m.name.chars| :: m.name.chars[i] > MaxSingleUnit
    ensures NameSize in ConstraintViolations(m)
  {
    Utf16LengthUniform(m.name.chars);
  }
}
