/** A news item as the pipeline passes it around: a Python dict from field
    names to strings, read with `item.get(key, '')`. */
module Records {

  type Record = map<string, string>

  /** `item.get(key, '')`: a missing field reads as the empty string. */
  function Get(item: Record, key: string): (v: string)
    ensures key in item ==> v == item[key]
    ensures key !in item ==> v == ""
  {
    if key in item then item[key] else ""
  }
}
