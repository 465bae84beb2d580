/** The browser's `localStorage` as the application uses it, and the three
    defensive readers the state provider hydrates from. */
module Storage {
  import opened Wrappers
  import opened Json

  /** What `localStorage` holds: text under text keys. */
  type Items = map<string, string>

  /** The store itself; every component of the application shares the one object. */
  class LocalStorage {
    var items: Items

    constructor (initial: Items)
      ensures items == initial
    {
      items := initial;
    }

    /** `localStorage.setItem(key, value)`. */
    method SetItem(key: string, value: string)
      modifies this
      ensures items == old(items)[key := value]
    {
      items := items[key := value];
    }

    /** `localStorage.removeItem(key)`. */
    method RemoveItem(key: string)
      modifies this
      ensures items == old(items) - {key}
    {
      items := items - {key};
    }
  }

  /** `localStorage.getItem(key)`: `None` stands for `null`. */
  function GetItem(items: Items, key: string): (r: Option<string>)
    ensures r.Some? <==> key in items
    ensures r.Some? ==> r.value == items[key]
  {
    if key in items then Some(items[key]) else None
  }

  /** The three ways `readStoredList` gives up: nothing (or `""`) stored, text
      that does not parse, or a parsed value that is not an array. */
  predicate ListFallsBack(items: Items, key: string) {
    || key !in items
    || items[key] == ""
    || Decode(items[key]).None?
    || !Decode(items[key]).value.JArr?
  }

  /** `readStoredList(key, fallback)`. */
  function ReadStoredList(items: Items, key: string, fallback: seq<Json>): (r: seq<Json>)
    ensures ListFallsBack(items, key) ==> r == fallback
    ensures !ListFallsBack(items, key) ==> Decode(items[key]) == Some(JArr(r))
    ensures AllWellFormed(fallback) ==> AllWellFormed(r)
  {
    var raw := GetItem(items, key);
    if raw.None? || raw.value == "" then fallback
    else
      match Decode(raw.value)
      case Some(JArr(xs)) => assert WellFormed(JArr(xs)); xs
      case _ => fallback
  }

  /** `readStoredBoolean(key, fallback)`. */
  function ReadStoredBoolean(items: Items, key: string, fallback: bool): (r: bool)
    ensures key !in items ==> r == fallback
    ensures key in items ==> (r <==> items[key] == "true")
  {
    match GetItem(items, key)
    case None => fallback
    case Some(raw) => raw == "true"
  }

  /** `readStoredString(key, fallback)`: `raw || fallback`. */
  function ReadStoredString(items: Items, key: string, fallback: string): (r: string)
    ensures r == fallback || (key in items && r == items[key] != "")
    ensures key in items && items[key] != "" ==> r == items[key]
  {
    var raw := GetItem(items, key);
    if raw.Some? && raw.value != "" then raw.value else fallback
  }

  /** `localStorage.setItem(key, JSON.stringify(xs))` on the items. */
  function WriteList(items: Items, key: string, xs: seq<Json>): Items {
    items[key := Encode(JArr(xs))]
  }

  /** A list written through the store reads back as itself, whatever the fallback. */
  lemma ListWriteThrough(items: Items, key: string, xs: seq<Json>, fallback: seq<Json>)
    requires AllWellFormed(xs)
    ensures ReadStoredList(WriteList(items, key, xs), key, fallback) == xs
  {
    var w := WriteList(items, key, xs);
    DecodeEncode(JArr(xs));
    assert w[key] != "" by {
      assert w[key][0] == '[';
    }
  }

  /** Writing one key leaves the list stored under any other key as it was read. */
  lemma ListWriteElsewhere(items: Items, key: string, xs: seq<Json>, other: string, fallback: seq<Json>)
    requires other != key
    ensures ReadStoredList(WriteList(items, key, xs), other, fallback) == ReadStoredList(items, other, fallback)
  {
  }
}
