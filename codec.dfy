/** The share token (script.js:69-102): `encodeState` builds the payload
    `{v: 1, rows: [{text, isOn}]}`, serialises it as JSON, encodes that
    text as UTF-8, encodes the bytes as base64 and makes the result
    URL-safe; `decodeState` reverses those steps, validates the version,
    keeps at most MAX_ROWS entries, rejects fewer than MIN_ROWS and coerces
    each entry. JSON, UTF-8 and base64 are library calls; the model takes
    them as the function values of a `Foreign` record, and `Faithful` states
    what the round trip assumes of them. */
module StateCodec {
  import opened Wrappers
  import opened RowModel
  import opened UrlSafe

  newtype byte = x: int | 0 <= x < 256

  /** A parsed JSON value. Numbers are JavaScript numbers, taken here as reals. */
  datatype Json =
    | JNull
    | JBool(b: bool)
    | JNumber(n: real)
    | JString(s: string)
    | JArray(items: seq<Json>)
    | JObject(fields: map<string, Json>)

  /** One entry of the wire format: a row without its id. */
  datatype Entry = Entry(text: string, isOn: bool)

  /** The library calls of the encode/decode chain. A `None` result stands for the
      exception the call throws (malformed JSON, bytes that are not UTF-8,
      text that is not base64). */
  datatype Foreign = Foreign(
    stringify: Json -> string,                  // JSON.stringify
    parse: string -> Option<Json>,              // JSON.parse
    utf8Encode: string -> seq<byte>,            // unescape(encodeURIComponent(_))
    utf8Decode: seq<byte> -> Option<string>,    // decodeURIComponent(escape(_))
    base64Encode: seq<byte> -> string,          // btoa
    base64Decode: string -> Option<seq<byte>>)  // atob

  const FORMAT_VERSION: real := 1.0

  /** `{text: row.text, isOn: row.isOn}`: an entry coercion reads back as
      the row's (text, isOn) pair. */
  function WireItem(row: Row): (item: Json)
    ensures CoerceItem(item) == Some(Entry(row.text, row.isOn))
  {
    JObject(map["text" := JString(row.text), "isOn" := JBool(row.isOn)])
  }

  /** `{v: 1, rows: rows.map(...)}`: a version-1 payload with one entry per
      row, each coercing back to that row's (text, isOn) pair. */
  function Payload(rows: seq<Row>): (p: Json)
    ensures IsVersion1(p) && |p.fields["rows"].items| == |rows|
    ensures forall i :: 0 <= i < |rows| ==>
      CoerceItem(p.fields["rows"].items[i]) == Some(Entry(rows[i].text, rows[i].isOn))
  {
    JObject(map[
      "v" := JNumber(FORMAT_VERSION),
      "rows" := JArray(seq(|rows|, i requires 0 <= i < |rows| => WireItem(rows[i])))])
  }

  /** What the round trip assumes of the library calls: each decoder undoes
      its encoder (JSON only on the payloads `encodeState` builds), and
      `btoa` produces padded standard base64. */
  ghost predicate Faithful(f: Foreign) {
    (forall rows: seq<Row> :: f.parse(f.stringify(Payload(rows))) == Some(Payload(rows))) &&
    (forall s: string :: f.utf8Decode(f.utf8Encode(s)) == Some(s)) &&
    (forall bs: seq<byte> :: f.base64Decode(f.base64Encode(bs)) == Some(bs)) &&
    (forall bs: seq<byte> :: IsStdBase64(f.base64Encode(bs)))
  }

  /** The (text, isOn) pairs of the rows, in order. */
  function Entries(rows: seq<Row>): (es: seq<Entry>)
    ensures |es| == |rows|
  {
    seq(|rows|, i requires 0 <= i < |rows| => Entry(rows[i].text, rows[i].isOn))
  }

  /** Rows with the same (text, isOn) pairs have the same number of ON rows. */
  lemma SameEntriesSameCount(a: seq<Row>, b: seq<Row>)
    requires Entries(a) == Entries(b)
    ensures |a| == |b| && ActiveCount(a) == ActiveCount(b)
  {
    assert forall i :: 0 <= i < |a| ==> a[i].isOn == Entries(a)[i].isOn == b[i].isOn;
    SameStatesSameCount(a, b);
  }

  /** `encodeState`: a URL-safe token with no `+`, `/` or trailing `=`. */
  function EncodeState(f: Foreign, rows: seq<Row>): (token: string)
    ensures forall i :: 0 <= i < |token| ==> token[i] != '+' && token[i] != '/'
    ensures token == [] || token[|token| - 1] != '='
  {
    ToUrlSafe(f.base64Encode(f.utf8Encode(f.stringify(Payload(rows)))))
  }

  /** script.js:84-86 of `decodeState`: undo the URL-safe form, then `atob`,
      UTF-8 decoding and `JSON.parse`; `None` when any of them throws. */
  function Unwrap(f: Foreign, token: string): (parsed: Option<Json>)
    ensures f.base64Decode(FromUrlSafe(token)).None? ==> parsed.None?
    ensures parsed.Some? ==>
      var bytes := f.base64Decode(FromUrlSafe(token));
      bytes.Some? && f.utf8Decode(bytes.value).Some? &&
      f.parse(f.utf8Decode(bytes.value).value) == parsed
  {
    match f.base64Decode(FromUrlSafe(token))
    case None => None
    case Some(bytes) =>
      match f.utf8Decode(bytes)
      case None => None
      case Some(text) => f.parse(text)
  }

  /** JavaScript truthiness of a parsed value: the falsy JSON values are
      exactly `null`, `false`, `0` and `""`. */
  function Truthy(j: Json): (t: bool)
    ensures !t <==> j == JNull || j == JBool(false) || j == JNumber(0.0) || j == JString("")
  {
    match j
    case JNull => false
    case JBool(b) => b
    case JNumber(n) => n != 0.0
    case JString(s) => s != ""
    case JArray(_) => true
    case JObject(_) => true
  }

  /** Property access `j.key` on a value that is not null; `None` is
      `undefined`. Only objects own the keys read here ("v", "rows",
      "text", "isOn"). */
  function Get(j: Json, key: string): Option<Json> {
    if j.JObject? && key in j.fields then Some(j.fields[key]) else None
  }

  /** `Array.isArray(x)` */
  predicate IsArray(x: Option<Json>) {
    x.Some? && x.value.JArray?
  }

  /** A version-1 payload: an object whose `v` is 1 and whose `rows` is an array. */
  predicate IsVersion1(parsed: Json) {
    parsed.JObject? && "v" in parsed.fields && parsed.fields["v"] == JNumber(FORMAT_VERSION) &&
    "rows" in parsed.fields && parsed.fields["rows"].JArray?
  }

  /** script.js:88-95 of `decodeState`: the version check, the truncation to
      MAX_ROWS and the rejection of fewer than MIN_ROWS entries. */
  function Validate(parsed: Json): (slice: Option<seq<Json>>)
    ensures slice.Some? <==>
      IsVersion1(parsed) && |parsed.fields["rows"].items| >= MIN_ROWS
    ensures slice.Some? ==>
      var items := parsed.fields["rows"].items;
      slice.value == items[..Min(|items|, MAX_ROWS)]
    ensures slice.Some? ==> MIN_ROWS <= |slice.value| <= MAX_ROWS
  {
    if !Truthy(parsed) || Get(parsed, "v") != Some(JNumber(FORMAT_VERSION)) || !IsArray(Get(parsed, "rows")) then
      None
    else
      var items := Get(parsed, "rows").value.items;
      var slice := items[..Min(|items|, MAX_ROWS)];
      if |slice| < MIN_ROWS then None else Some(slice)
  }

  /** `typeof item.text === "string" ? item.text : ""`: a string `text` of
      an object is kept, anything else reads as the empty text. */
  function TextOf(item: Json): (text: string)
    ensures item.JObject? && "text" in item.fields && item.fields["text"].JString? ==>
      text == item.fields["text"].s
    ensures text != "" ==>
      item.JObject? && "text" in item.fields && item.fields["text"] == JString(text)
  {
    match Get(item, "text")
    case Some(JString(s)) => s
    case _ => ""
  }

  /** `Boolean(item.isOn)`: ON exactly when the object has a truthy `isOn`. */
  function IsOnOf(item: Json): (on: bool)
    ensures on <==> item.JObject? && "isOn" in item.fields && Truthy(item.fields["isOn"])
  {
    match Get(item, "isOn")
    case Some(v) => Truthy(v)
    case None => false
  }

  /** The coercion of one entry. Reading a property of a `null` entry throws,
      so a `null` entry yields `None`; any other entry is coerced, and only a
      string `text` or a truthy `isOn` of an object survive. */
  function CoerceItem(item: Json): (e: Option<Entry>)
    ensures e.None? <==> item.JNull?
    ensures e.Some? && e.value.text != "" ==>
      item.JObject? && "text" in item.fields && item.fields["text"] == JString(e.value.text)
    ensures e.Some? && item.JObject? && "text" in item.fields && item.fields["text"].JString? ==>
      e.value.text == item.fields["text"].s
    ensures e.Some? ==>
      (e.value.isOn <==> item.JObject? && "isOn" in item.fields && Truthy(item.fields["isOn"]))
  {
    if item.JNull? then None else Some(Entry(TextOf(item), IsOnOf(item)))
  }

  /** The `map` of script.js:97-101 over the kept entries: `None` as soon as an
      entry throws, otherwise one coerced entry per item, in order. */
  function CoerceAll(items: seq<Json>): (r: Option<seq<Entry>>)
    ensures r.Some? <==> forall i :: 0 <= i < |items| ==> !items[i].JNull?
    ensures r.Some? ==> |r.value| == |items|
    ensures r.Some? ==> forall i :: 0 <= i < |items| ==> CoerceItem(items[i]) == Some(r.value[i])
  {
    if items == [] then Some([])
    else
      match CoerceAll(items[..|items| - 1])
      case None => None
      case Some(init) =>
        match CoerceItem(items[|items| - 1])
        case None => None
        case Some(e) => Some(init + [e])
  }

  /** `decodeState` without the ids it mints: the entries it restores, or
      `None` for a token it rejects (by returning null or by throwing). */
  function DecodeEntries(f: Foreign, token: string): (r: Option<seq<Entry>>)
    ensures r.Some? ==> MIN_ROWS <= |r.value| <= MAX_ROWS
    ensures r.Some? <==>
      var parsed := Unwrap(f, token);
      parsed.Some? && IsVersion1(parsed.value) &&
      var items := parsed.value.fields["rows"].items;
      |items| >= MIN_ROWS && forall i :: 0 <= i < Min(|items|, MAX_ROWS) ==> !items[i].JNull?
    ensures r.Some? ==>
      var items := Unwrap(f, token).value.fields["rows"].items;
      |r.value| == Min(|items|, MAX_ROWS) &&
      forall i :: 0 <= i < |r.value| ==> CoerceItem(items[i]) == Some(r.value[i])
  {
    match Unwrap(f, token)
    case None => None
    case Some(parsed) =>
      match Validate(parsed)
      case None => None
      case Some(slice) => CoerceAll(slice)
  }

  /** The rows `decodeState` builds from restored entries: ids minted in
      order after `base`, the counter's value before decoding. */
  function Restore(es: seq<Entry>, base: nat): (rows: seq<Row>)
    ensures Entries(rows) == es
  {
    seq(|es|, i requires 0 <= i < |es| => Row(base + 1 + i, es[i].text, es[i].isOn))
  }

  /** Restored rows carry distinct ids, all minted after `base`. */
  lemma RestoredIdsFresh(es: seq<Entry>, base: nat)
    ensures DistinctIds(Restore(es, base))
    ensures forall i :: 0 <= i < |es| ==> base < Restore(es, base)[i].id <= base + |es|
  {
  }

  /** Coercion gives back what `encodeState` wrote for each row. */
  lemma CoerceWireItems(rows: seq<Row>)
    ensures CoerceAll(seq(|rows|, i requires 0 <= i < |rows| => WireItem(rows[i]))) == Some(Entries(rows))
  {
    var items := seq(|rows|, i requires 0 <= i < |rows| => WireItem(rows[i]));
    forall i | 0 <= i < |rows| ensures CoerceItem(items[i]) == Some(Entries(rows)[i]) {
      assert items[i] == WireItem(rows[i]);
    }
    var r := CoerceAll(items);
    assert r.value == Entries(rows);
  }

  /** The share round trip: decoding the token of any rows restores their
      (text, isOn) pairs in order, cut to the first MAX_ROWS, and rejects
      fewer than MIN_ROWS. */
  lemma ShareRoundTrip(f: Foreign, rows: seq<Row>)
    requires Faithful(f)
    ensures DecodeEntries(f, EncodeState(f, rows)) ==
      if |rows| < MIN_ROWS then None else Some(Entries(rows[..Min(|rows|, MAX_ROWS)]))
  {
    var text := f.stringify(Payload(rows));
    var bytes := f.utf8Encode(text);
    var b := f.base64Encode(bytes);
    UrlSafeRoundTrip(b);
    assert Unwrap(f, EncodeState(f, rows)) == Some(Payload(rows));
    var kept := rows[..Min(|rows|, MAX_ROWS)];
    var items := seq(|rows|, i requires 0 <= i < |rows| => WireItem(rows[i]));
    assert items[..Min(|rows|, MAX_ROWS)] == seq(|kept|, i requires 0 <= i < |kept| => WireItem(kept[i]));
    CoerceWireItems(kept);
  }

  /** The round trip for every collection the store can hold. */
  lemma ShareRoundTripInBounds(f: Foreign, rows: seq<Row>)
    requires Faithful(f)
    requires MIN_ROWS <= |rows| <= MAX_ROWS
    ensures DecodeEntries(f, EncodeState(f, rows)) == Some(Entries(rows))
  {
    ShareRoundTrip(f, rows);
    assert rows[..Min(|rows|, MAX_ROWS)] == rows;
  }
}
