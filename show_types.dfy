/** The records the TVmaze catalogue returns, reduced to what the composables use. */
module ShowTypes {

  /** A catalogue entry. The composables only move shows around, so the id and name stand for all its fields. */
  datatype Show = Show(id: int, name: string)

  /** One element of the search endpoint's answer: a relevance score and the show it is about. */
  datatype SearchResultItem = SearchResultItem(score: real, show: Show)
}
