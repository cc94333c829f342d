/**
 * A vCard as the vCard library hands it over once parsed: the three
 * properties the helpers and their callers touch. Serialising and parsing
 * the text format belong to that library and are not part of this model.
 */
module Vcard {
  import opened Options

  datatype Card = Card(fn: Option<string>, email: Option<string>, note: Option<string>)
}
