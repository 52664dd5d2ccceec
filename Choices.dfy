/** The tags and effort levels recipes are labelled with. */
module Choices {
  /** A tag or an effort level, as the filters and the checklists offer it. */
  datatype Choice = Choice(id: string, name: string)
}
