/** The records shared by the translator, the recent-translations buffer and the routers (types.js). */
module Types {
  import opened Wrappers

  /** One step of a translation chain: the language the text is in, and the text at that step. */
  datatype Entry = Entry(langName: string, text: string)

  /** A finished chain together with the identifier it was saved under, if any. */
  datatype Translation = Translation(results: seq<Entry>, translationId: Option<string>)
}
