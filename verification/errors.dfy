/** The exceptions the catalog raises, named after the Java exception types. */
module Errors {
  import opened Validation

  datatype Error =
    | MovieNotFound
      /** No record holds the IMDB id an operation addressed. */
    | MovieAlreadyExists
      /** addMovie found a record that already holds the candidate's IMDB id. */
    | ConstraintViolation(violations: set<Constraint>)
      /** save refused a record; `violations` are all the constraints it breaks. */
    | DataIntegrityViolation
      /** The database refused a write for a constraint of its own. */
    | IncorrectResultSize
      /** A single-record lookup by IMDB id matched more than one record. */
}
