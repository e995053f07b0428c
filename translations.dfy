/** The shape of a translation file, shared by the page and the server. */
module Translations {

  /** A translation table: item or label key to display text. */
  type Table = map<string, string>
}
