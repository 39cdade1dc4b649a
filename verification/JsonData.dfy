/** Decoded JSON as the record-keeping code holds it. */
module JsonData {
  /** `Number` is any number that is not an integer, by its token. */
  datatype Json =
    | Null | Bool(b: bool) | Int(n: int) | Number(token: string) | Text(text: string)
    | Array(items: seq<Json>) | Object(members: map<string, Json>)
}
