/** Optional values, error tags and success/failure results shared by the catalog model. */
module Results {

  /** A value that may be absent (Go's nil). */
  datatype Option<+T> = None | Some(value: T)

  /** The error conditions the catalog reports; the formatted message text is not modelled. */
  datatype CatalogError =
    | MetricNotFound    // no entry at the namespace, or none for the requested version
    | NegativeSubCount  // unsubscribing an entry whose count is already zero

  /** A value or an error, as Go's `(T, error)` pair. */
  datatype Result<+T> = Ok(value: T) | Err(error: CatalogError)

  /** An error-only return, as Go's plain `error`. */
  datatype Outcome = Pass | Fail(error: CatalogError)
}
