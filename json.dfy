/** A stored JSON value, as the database hands back the loosely typed
    `skills`, `projects`, `homepageTexts` and `tags` columns. */
module Json {
  import opened Wrappers
  import opened Collections

  datatype Json =
    | JNull
    | JBool(b: bool)
    | JNum(n: int)
    | JStr(s: string)
    | JArr(items: seq<Json>)
    | JObj(fields: map<string, Json>)

  /** JavaScript truthiness of a JSON value (`!value` is its negation). */
  predicate Truthy(v: Json) {
    match v
    case JNull => false
    case JBool(b) => b
    case JNum(n) => n != 0
    case JStr(s) => s != ""
    case _ => true
  }

  /** `typeof value === "object"`: true for null, arrays and objects. */
  predicate IsObjectType(v: Json) {
    v.JNull? || v.JArr? || v.JObj?
  }

  /** Property read `value[key]` on a parsed JSON value: an object's own
      field, or undefined (`None`) for anything else. */
  function Get(v: Json, key: string): (r: Option<Json>)
    ensures r.Some? <==> v.JObj? && key in v.fields
    ensures r.Some? ==> r.value == v.fields[key]
  {
    if v.JObj? && key in v.fields then Some(v.fields[key]) else None
  }

  /** `items.filter((item): item is string => typeof item === "string")` */
  function StringItems(items: seq<Json>): (r: seq<string>)
    ensures |r| <= |items|
    ensures forall k :: 0 <= k < |r| ==> JStr(r[k]) in items
  {
    if items == [] then []
    else (if items[0].JStr? then [items[0].s] else []) + StringItems(items[1..])
  }

  /** The filter distributes over concatenation, so it keeps the string
      elements in their original order. */
  lemma {:induction false} StringItemsAppend(a: seq<Json>, b: seq<Json>)
    ensures StringItems(a + b) == StringItems(a) + StringItems(b)
  {
    if a == [] {
      assert a + b == b;
    } else {
      var h := if a[0].JStr? then [a[0].s] else [];
      assert StringItems(a) == h + StringItems(a[1..]);
      assert (a + b)[0] == a[0] && (a + b)[1..] == a[1..] + b;
      assert StringItems(a + b) == h + StringItems(a[1..] + b);
      StringItemsAppend(a[1..], b);
      AppendAssoc(h, StringItems(a[1..]), StringItems(b));
    }
  }

  /** Elements that are not strings contribute nothing. */
  lemma {:induction false} StringItemsNone(items: seq<Json>)
    requires forall k :: 0 <= k < |items| ==> !items[k].JStr?
    ensures StringItems(items) == []
  {
    if items != [] {
      StringItemsNone(items[1..]);
    }
  }

  /** The JSON array of strings that a `string[]` is stored as. */
  function StringsToJson(ss: seq<string>): (r: seq<Json>)
    ensures |r| == |ss|
    ensures forall k :: 0 <= k < |ss| ==> r[k] == JStr(ss[k])
  {
    seq(|ss|, k requires 0 <= k < |ss| => JStr(ss[k]))
  }

  /** Reading back a stored string array gives the same strings. */
  lemma {:induction false} StringItemsOfStrings(ss: seq<string>)
    ensures StringItems(StringsToJson(ss)) == ss
  {
    if ss != [] {
      assert StringsToJson(ss)[1..] == StringsToJson(ss[1..]);
      StringItemsOfStrings(ss[1..]);
    }
  }
}
