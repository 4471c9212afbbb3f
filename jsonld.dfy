/**
 * The JSON values the scrapers read from a page's `application/ld+json` scripts, and the
 * lookups they make on a parsed object.
 */
module JsonLd {
  import opened Wrappers

  /** A JSON value as `json.loads` returns it (numbers are integers here). */
  datatype Json =
    | JStr(s: string)
    | JNum(n: int)
    | JBool(b: bool)
    | JNull
    | JArray(items: seq<Json>)
    | JObject(fields: map<string, Json>)

  /** `d.get('@type') == 'NewsArticle'`. */
  function IsNews(fields: map<string, Json>): (r: bool)
    ensures r <==> Field(fields, "@type") == Some(JStr("NewsArticle"))
  {
    "@type" in fields && fields["@type"] == JStr("NewsArticle")
  }

  /** `d.get(key)`. */
  function Field(fields: map<string, Json>, key: string): (r: Option<Json>)
    ensures r.Some? <==> key in fields
    ensures r.Some? ==> r.value == fields[key]
  {
    if key in fields then Some(fields[key]) else None
  }

  /** The JSON values Python takes as false: `""`, `0`, `False`, `null`, `[]` and `{}`. */
  const Falsy: set<Json> := {JStr(""), JNum(0), JBool(false), JNull, JArray([]), JObject(map[])}

  /** Python's truth value of `d.get(key)`: a missing key and the false values are false. */
  function Truthy(v: Option<Json>): (r: bool)
    ensures r <==> v.Some? && v.value !in Falsy
  {
    v.Some? &&
    match v.value
    case JStr(s) => s != ""
    case JNum(n) => n != 0
    case JBool(b) => b
    case JNull => false
    case JArray(items) => |items| > 0
    case JObject(fields) => |fields| > 0
  }
}
