/** The optional-value wrapper used where the recommender returns Python's `None`. */
module Options {

  /** Either nothing (`None` in the source) or a value. */
  datatype Option<+T> = None | Some(value: T)
}
