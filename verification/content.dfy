/** What a single grid cell can hold (src/grid/content.rs). */
module Content {

  /** The direction a `Trace` mark points to. */
  datatype Direction = Left | Up | Right | Down

  /** The content of a cell. `Trace` and `Explored` are marks written by the search. */
  datatype Content = Car | Goal | Wall | Empty | Trace(dir: Direction) | Explored

  /** The marks that clearing a path removes in the sparse engine. */
  predicate IsSearchMark(c: Content)
  {
    c.Trace? || c.Explored?
  }
}
