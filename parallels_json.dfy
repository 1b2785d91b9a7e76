/**
  The parallels mapping that process_data.py writes and script.js reads:
  chapter-number string, then verse-number string, then an array of
  `{ "ref": ..., "text": ... }` objects.
 */
module ParallelsJson {

  /** One parallel passage: its display label and its body text. */
  datatype Entry = Entry(ref: string, text: string)

  /** chapter string -> verse string -> entries, as parsed from the JSON file. */
  type Mapping = map<string, map<string, seq<Entry>>>
}
