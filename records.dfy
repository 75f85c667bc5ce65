/** The flat key/value records that travel between stages: one JSON object in the
    scrapers' output files, one document in the staging store, one CSV row. */
module Records {
  import opened Wrappers

  /** Every value in these records is text: scraped cell text, CSV cell text, a year string. */
  type Document = map<string, string>

  /** `d.get(key)`: the field when the record has it. */
  function Get(d: Document, key: string): (r: Option<string>)
    ensures r.Some? <==> key in d
    ensures r.Some? ==> r.value == d[key]
  {
    if key in d then Some(d[key]) else None
  }

  /** A pandas frame built from a list of records has a column `key` exactly when some
      record carries that key (so an empty list yields a frame with no columns). */
  predicate HasColumn(docs: seq<Document>, key: string) {
    exists i :: 0 <= i < |docs| && key in docs[i]
  }

  /** No key occurs twice in `keys`. */
  predicate Distinct(keys: seq<string>) {
    forall i, j :: 0 <= i < j < |keys| ==> keys[i] != keys[j]
  }
}
