/**
 * One manifest entry, `{path, createdAt}`, and its JSON-object form.
 * A JSON object is a map from keys to values; only the value kinds the
 * `optString`/`optLong` accessors distinguish are modelled.
 */
module SegmentEntry {
  import opened Text

  /**
   * A JSON value inside an object. `JNested` stands for a nested object or
   * array, carried with the text it renders to.
   */
  datatype JsonValue = JString(s: string) | JLong(n: int) | JBool(b: bool) | JNull | JNested(text: string)

  type JsonObject = map<string, JsonValue>

  /** A recorded segment: its file's absolute path and its creation time (epoch ms). */
  datatype Entry = Entry(filePath: string, createdAtMillis: int)

  const KeyPath: string := "path"
  const KeyCreatedAt: string := "createdAt"

  /** `Long.toString()`: decimal, with a minus sign when negative. */
  function LongText(n: int): string {
    if n >= 0 then Decimal(n) else "-" + Decimal(-n)
  }

  /**
   * `JSONObject.optString(key)`: "" when the key is absent, the string itself
   * for a string, and the value's text otherwise (`null` renders as "null").
   */
  function OptString(o: JsonObject, key: string): string {
    if key !in o then ""
    else match o[key]
      case JString(s) => s
      case JLong(n) => LongText(n)
      case JBool(b) => if b then "true" else "false"
      case JNull => "null"
      case JNested(t) => t
  }

  /**
   * `JSONObject.optLong(key, fallback)`: a number as is, a string holding an
   * integer as that integer, the fallback for anything else or an absent key.
   */
  function OptLong(o: JsonObject, key: string, fallback: int): int {
    if key !in o then fallback
    else match o[key]
      case JLong(n) => n
      case JString(s) => (match ParseInt(s) case Some(v) => v case None => fallback)
      case _ => fallback
  }

  /** The entries `fromJson` accepts: a non-blank path and a positive time. */
  predicate IsValid(e: Entry) {
    !IsBlank(e.filePath) && e.createdAtMillis > 0
  }

  /** `toJson`: the path under "path" and the creation time under "createdAt". */
  function ToJson(e: Entry): (o: JsonObject)
    ensures o.Keys == {KeyPath, KeyCreatedAt}
  {
    map[KeyPath := JString(e.filePath), KeyCreatedAt := JLong(e.createdAtMillis)]
  }

  /**
   * `fromJson`: null (None) when the path is missing or blank or the time is
   * missing (read as -1) or not positive; otherwise the entry holding the
   * stored path and time.
   */
  function FromJson(o: JsonObject): (r: Option<Entry>)
    ensures r.Some? <==> !IsBlank(OptString(o, KeyPath)) && OptLong(o, KeyCreatedAt, -1) > 0
    ensures r.Some? ==> IsValid(r.value)
    ensures r.Some? ==> r.value.filePath == OptString(o, KeyPath) && r.value.createdAtMillis == OptLong(o, KeyCreatedAt, -1)
  {
    var path := OptString(o, KeyPath);
    var createdAt := OptLong(o, KeyCreatedAt, -1);
    if IsBlank(path) || createdAt <= 0 then None else Some(Entry(path, createdAt))
  }

  /** An object without the two keys is rejected. */
  lemma FromJsonEmpty()
    ensures FromJson(map[]) == None
  {
  }

  /** Round trip: a valid entry survives `toJson` then `fromJson` unchanged. */
  lemma RoundTrip(e: Entry)
    requires IsValid(e)
    ensures FromJson(ToJson(e)) == Some(e)
  {
    assert KeyPath != KeyCreatedAt;
  }

  /** ... and an invalid one is dropped: the round trip succeeds exactly for valid entries. */
  lemma RoundTripRejects(e: Entry)
    requires !IsValid(e)
    ensures FromJson(ToJson(e)) == None
  {
    assert KeyPath != KeyCreatedAt;
  }

  /** A creation time stored as a decimal string is read like a number. */
  lemma CreatedAtAsString(path: string, t: nat)
    requires !IsBlank(path) && t > 0
    ensures FromJson(map[KeyPath := JString(path), KeyCreatedAt := JString(Decimal(t))]) == Some(Entry(path, t))
  {
    assert KeyPath != KeyCreatedAt;
    DecimalParses(t);
  }
}
