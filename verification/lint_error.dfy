/** The lint error record shared by the store, the job and the API. The
    `LintError` class itself (its constructor and `id()`) is not part of this
    model: its identity is a parameter `id` of every operation that needs it. */
module LintErrors {
  import opened PhpValues

  /** One lint error: its category name, where it is in the page (the `dsr`
      prefix), its category-specific parameters, and the id of its row in the
      `linter` table, 0 when it has not been read from the table. */
  datatype LintError = LintError(category: string, location: Value, params: Value, lintId: int)

  /** One element of a job's `errors` parameter: the `type`, `location` and
      `params` fields the job reads from each submitted entry. */
  datatype ErrorInfo = ErrorInfo(typeName: string, location: Value, params: Value)

  /** `new LintError( $type, $location, $params )`: an error not yet stored. */
  function FromInfo(info: ErrorInfo): LintError {
    LintError(info.typeName, info.location, info.params, 0)
  }

  /** `id()` is an identity of the error's content: two errors with equal
      category, location and params have equal identities, whatever their
      row ids. */
  ghost predicate IdentityOf<K(!new)>(id: LintError -> K) {
    forall a: LintError, b: LintError {:trigger id(a), id(b)} ::
      a.category == b.category && a.location == b.location && a.params == b.params ==> id(a) == id(b)
  }

  /** The identity includes the category: errors of different categories
      never share an identity. */
  ghost predicate IdDeterminesCategory<K(!new)>(id: LintError -> K) {
    forall a: LintError, b: LintError {:trigger id(a), id(b)} :: id(a) == id(b) ==> a.category == b.category
  }
}
