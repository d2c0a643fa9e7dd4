/** A JSON document as the JSON libraries of the modelled code hand it over (serde_json `Value`,
    nlohmann `json`). Numbers are integers; an object is its entries in the library's iteration
    order, which for both libraries' ordered maps is increasing key order, keys unique. */
module Json {
  import opened Wrappers
  import opened Ordering

  datatype Json =
    | JNull
    | JBool(b: bool)
    | JNumber(n: int)
    | JString(s: string)
    | JArray(items: seq<Json>)
    | JObject(entries: seq<(string, Json)>)

  /** The keys of an object's entries, in order. */
  function Keys(entries: seq<(string, Json)>): (ks: seq<string>)
    ensures |ks| == |entries| && forall i :: 0 <= i < |entries| ==> ks[i] == entries[i].0
  {
    seq(|entries|, i requires 0 <= i < |entries| => entries[i].0)
  }

  /** A value as a parser of either library hands it over: at every depth an object's keys are
      strictly increasing, so the later of two equal keys in the text has replaced the first. */
  predicate Canonical(j: Json) {
    match j
    case JArray(items) => forall i :: 0 <= i < |items| ==> Canonical(items[i])
    case JObject(es) => StrictlySorted(Keys(es)) && forall i :: 0 <= i < |es| ==> Canonical(es[i].1)
    case _ => true
  }

  /** What reading and parsing a file gives: it is not there, it is not JSON, or it is. */
  datatype Document = Missing | Unparsable | Parsed(doc: Json)

  predicate CanonicalDoc(d: Document) {
    d.Parsed? ==> Canonical(d.doc)
  }

  /** The value of the first entry named `key`. */
  function Lookup(entries: seq<(string, Json)>, key: string): (r: Option<Json>)
    ensures r.Some? <==> exists i :: 0 <= i < |entries| && entries[i].0 == key
    ensures r.Some? ==> exists i :: 0 <= i < |entries| && entries[i] == (key, r.value)
  {
    if entries == [] then None
    else if entries[0].0 == key then Some(entries[0].1)
    else
      var r := Lookup(entries[1..], key);
      assert forall i :: 1 <= i < |entries| ==> entries[i] == entries[1..][i - 1];
      r
  }

  /** serde_json `Value::get` / nlohmann `contains` + `[]`: a member of an object, nothing otherwise. */
  function Get(j: Json, key: string): (r: Option<Json>)
    ensures !j.JObject? ==> r == None
    ensures j.JObject? ==> r == Lookup(j.entries, key)
  {
    if j.JObject? then Lookup(j.entries, key) else None
  }

  /** `Get` along an optional value, so that lookups chain like `.and_then(|v| v.get(k))`. */
  function GetIn(j: Option<Json>, key: string): (r: Option<Json>)
    ensures j.None? ==> r.None?
  {
    if j.Some? then Get(j.value, key) else None
  }

  /** serde_json indexing `v[key]`: the member, or `null` when there is none. */
  function Index(j: Json, key: string): Json {
    Get(j, key).GetOr(JNull)
  }

  /** `.and_then(|v| v.as_str())`: the text of a string value. */
  function AsStr(j: Option<Json>): (r: Option<string>)
    ensures r.Some? <==> j.Some? && j.value.JString?
    ensures r.Some? ==> j.value == JString(r.value)
  {
    if j.Some? && j.value.JString? then Some(j.value.s) else None
  }

  /** The members of an object as a map, the last of duplicate keys winning. */
  function EntryMap(entries: seq<(string, Json)>): (m: map<string, Json>)
    ensures forall k :: k in m <==> exists i :: 0 <= i < |entries| && entries[i].0 == k
  {
    if entries == [] then map[]
    else
      var rest := EntryMap(entries[1..]);
      assert forall i :: 1 <= i < |entries| ==> entries[i] == entries[1..][i - 1];
      if entries[0].0 in rest then rest else rest[entries[0].0 := entries[0].1]
  }

  /** Of duplicate keys the last one wins, as when the object is read into a map. */
  lemma {:induction false} EntryMapLast(entries: seq<(string, Json)>, i: nat)
    requires i < |entries|
    requires forall j :: i < j < |entries| ==> entries[j].0 != entries[i].0
    ensures EntryMap(entries)[entries[i].0] == entries[i].1
    decreases |entries|
  {
    var rest := entries[1..];
    if i > 0 {
      assert forall j :: i - 1 < j < |rest| ==> rest[j] == entries[j + 1];
      EntryMapLast(rest, i - 1);
    } else if |entries| > 1 {
      assert forall j :: 0 <= j < |rest| ==> rest[j] == entries[j + 1];
      assert entries[0].0 !in EntryMap(rest);
    }
  }

  /** The first entry named `key` is found when no earlier entry has that key. */
  lemma {:induction false} LookupFirst(entries: seq<(string, Json)>, i: nat)
    requires i < |entries|
    requires forall j :: 0 <= j < i ==> entries[j].0 != entries[i].0
    ensures Lookup(entries, entries[i].0) == Some(entries[i].1)
    decreases i
  {
    if i > 0 {
      var rest := entries[1..];
      assert forall j :: 0 <= j < i - 1 ==> rest[j] == entries[j + 1];
      LookupFirst(rest, i - 1);
    }
  }

  /** In an object as the libraries hand it over, a key has one value: the first entry `Lookup`
      finds is also the one the map keeps. */
  lemma LookupCanonical(entries: seq<(string, Json)>, i: nat)
    requires Canonical(JObject(entries)) && i < |entries|
    ensures Lookup(entries, entries[i].0) == Some(entries[i].1)
    ensures EntryMap(entries)[entries[i].0] == entries[i].1
  {
    var ks := Keys(entries);
    forall j | 0 <= j < |entries| && j != i ensures entries[j].0 != entries[i].0 {
      if j < i {
        assert Less(ks[j], ks[i]);
      } else {
        assert Less(ks[i], ks[j]);
      }
      if entries[j].0 == entries[i].0 {
        LessIrreflexive(entries[i].0);
      }
    }
    LookupFirst(entries, i);
    EntryMapLast(entries, i);
  }
}
