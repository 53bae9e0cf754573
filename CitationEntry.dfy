/** The parts of MibTeX's `CitationEntry` the other classes use: the sentinel citation
    counts and a row of `citations.csv`. That class itself is not part of this model; the
    sentinels are given distinct negative values so that they can never be mistaken for a
    real, non-negative count. */
module CitationEntry {
  const NOT_IN_CITATION_SERVICE: int := -1
  const NOT_FOUND: int := -2
  const ROBOT: int := -3

  /** A row of `citations.csv` as `CitationEntry.getFromCSV` returns it. */
  datatype Citation = Citation(key: string, citations: int, lastUpdate: int)
}
