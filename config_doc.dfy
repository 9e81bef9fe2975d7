/**
 * The Claude Desktop configuration document: a JSON object whose `mcpServers` member maps a
 * server identifier to its launch definition, next to any number of other top-level members
 * that the installer must carry through unchanged.
 */
module ConfigDoc {

  import opened Wrappers

  /**
   * A JSON value. Objects are maps, so two objects are equal when they have the same members,
   * whatever their order, as Python's `dict.__eq__` decides; arrays keep their order. Numbers,
   * booleans and null are not told apart by anything the installer does and stand as `Atom`s.
   */
  datatype Value = Str(s: string) | List(items: seq<Value>) | Object(fields: map<string, Value>) | Atom(id: int)

  /** The `mcpServers` object, in insertion order (a Python dict iterates in that order). */
  type Servers = seq<(string, Value)>

  /** The document: `mcpServers` if present, and every other top-level member. */
  datatype Doc = Doc(servers: Option<Servers>, rest: map<string, Value>)

  /** What the config file holds: whitespace only, a JSON object, or text that is not valid JSON. */
  datatype FileContent = Blank | Json(doc: Doc) | Malformed

  datatype LoadError = MalformedJson

  const SERVERS_KEY := "mcpServers"

  /** `{}`: what an empty config file loads as. */
  const EMPTY_DOC := Doc(None, map[])

  /** `{"mcpServers": {}}`: the file written for a sandbox path that does not exist yet. */
  const SKELETON := Doc(Some([]), map[])

  /** A Python dict never holds a key twice. */
  predicate DistinctKeys(d: Servers) {
    forall i, j :: 0 <= i < j < |d| ==> d[i].0 != d[j].0
  }

  /** The document shape the installer relies on. */
  predicate WellFormed(doc: Doc) {
    SERVERS_KEY !in doc.rest && (doc.servers.Some? ==> DistinctKeys(doc.servers.value))
  }

  /** `config.get("mcpServers", {})`. */
  function ServersOf(doc: Doc): Servers {
    doc.servers.GetOr([])
  }

  function KeySet(d: Servers): set<string> {
    set i | 0 <= i < |d| :: d[i].0
  }

  lemma KeySetCons(d: Servers)
    requires d != []
    ensures KeySet(d) == {d[0].0} + KeySet(d[1..])
  {
    forall k | k in KeySet(d) ensures k in {d[0].0} + KeySet(d[1..]) {
      var i :| 0 <= i < |d| && d[i].0 == k;
      if i > 0 { assert d[1..][i - 1].0 == k; }
    }
    forall k | k in KeySet(d[1..]) ensures k in KeySet(d) {
      var i :| 0 <= i < |d[1..]| && d[1..][i].0 == k;
      assert d[i + 1].0 == k;
    }
  }

  /** `servers.get(key)`: the value stored under `key`, if any. */
  function Get(d: Servers, key: string): (r: Option<Value>)
    ensures r.Some? <==> key in KeySet(d)
    ensures r.Some? ==> (key, r.value) in d
    decreases |d|
  {
    if d == [] then None
    else if d[0].0 == key then Some(d[0].1)
    else KeySetCons(d); Get(d[1..], key)
  }

  /** With distinct keys, the value `Get` finds is the one stored at the key's position. */
  lemma {:induction false} GetAt(d: Servers, i: nat)
    requires DistinctKeys(d) && i < |d|
    ensures Get(d, d[i].0) == Some(d[i].1)
    decreases |d|
  {
    if i > 0 {
      assert d[0].0 != d[i].0;
      assert DistinctKeys(d[1..]);
      GetAt(d[1..], i - 1);
    }
  }

  /**
   * `servers[key] = value`: an existing key keeps its position and takes the new value; a new
   * key is added at the end. No key is ever removed or moved.
   */
  function Put(d: Servers, key: string, value: Value): (r: Servers)
    ensures |r| == |d| || (|r| == |d| + 1 && r[|d|] == (key, value))
    ensures forall i :: 0 <= i < |d| ==> r[i].0 == d[i].0
    decreases |d|
  {
    if d == [] then [(key, value)]
    else if d[0].0 == key then [(key, value)] + d[1..]
    else [d[0]] + Put(d[1..], key, value)
  }

  /** After `servers[key] = value`, `key` holds `value` and every other key what it held. */
  lemma {:induction false} PutGet(d: Servers, key: string, value: Value, k: string)
    ensures Get(Put(d, key, value), k) == if k == key then Some(value) else Get(d, k)
    decreases |d|
  {
    if d != [] && d[0].0 != key {
      PutGet(d[1..], key, value, k);
    }
  }

  /** The keys after `servers[key] = value` are the keys before plus `key`. */
  lemma PutKeys(d: Servers, key: string, value: Value)
    ensures KeySet(Put(d, key, value)) == KeySet(d) + {key}
    ensures |Put(d, key, value)| == if key in KeySet(d) then |d| else |d| + 1
  {
    forall k ensures k in KeySet(Put(d, key, value)) <==> k in KeySet(d) + {key} {
      PutGet(d, key, value, k);
    }
    var r := Put(d, key, value);
    if |r| == |d| + 1 && key in KeySet(d) {
      var i :| 0 <= i < |d| && d[i].0 == key;
      PutDistinctAppend(d, key, value);
    }
  }

  /** `Put` appends only a key that was missing. */
  lemma {:induction false} PutDistinctAppend(d: Servers, key: string, value: Value)
    ensures |Put(d, key, value)| == |d| + 1 ==> key !in KeySet(d)
    decreases |d|
  {
    if d != [] && d[0].0 != key {
      PutDistinctAppend(d[1..], key, value);
      KeySetCons(d);
    }
  }

  /** A missing key is appended. */
  lemma {:induction false} PutNew(d: Servers, key: string, value: Value)
    requires key !in KeySet(d)
    ensures Put(d, key, value) == d + [(key, value)]
    decreases |d|
  {
    if d != [] {
      KeySetCons(d);
      PutNew(d[1..], key, value);
      assert d == [d[0]] + d[1..];
    }
  }

  /** A present key is overwritten in place, at its first position. */
  lemma {:induction false} PutExisting(d: Servers, key: string, value: Value, i: nat)
    requires i < |d| && d[i].0 == key
    requires forall j :: 0 <= j < i ==> d[j].0 != key
    ensures Put(d, key, value) == d[i := (key, value)]
    decreases |d|
  {
    if i > 0 {
      PutExisting(d[1..], key, value, i - 1);
      assert [d[0]] + d[1..][i - 1 := (key, value)] == d[i := (key, value)];
    }
  }

  /** `servers[key] = value` keeps the keys distinct. */
  lemma PutDistinct(d: Servers, key: string, value: Value)
    requires DistinctKeys(d)
    ensures DistinctKeys(Put(d, key, value))
  {
    var r := Put(d, key, value);
    PutKeys(d, key, value);
    if |r| == |d| + 1 {
      forall i | 0 <= i < |d| ensures r[i].0 != key {
        assert d[i].0 in KeySet(d);
      }
    }
  }

  /** `config.setdefault("mcpServers", {})[key] = value`. */
  function SetServer(doc: Doc, key: string, value: Value): Doc {
    Doc(Some(Put(ServersOf(doc), key, value)), doc.rest)
  }

  /** `get_installed_keys`: the identifiers already present under `mcpServers`. */
  function InstalledKeys(doc: Doc): (r: set<string>)
    ensures forall k :: k in r <==> Get(ServersOf(doc), k).Some?
  {
    KeySet(ServersOf(doc))
  }

  /** `load_config` once the JSON is parsed: an empty file is `{}`, invalid JSON is an error. */
  function LoadConfig(content: FileContent): (r: Result<Doc, LoadError>)
    ensures r.Err? <==> content.Malformed?
    ensures content.Blank? ==> r == Ok(EMPTY_DOC) && InstalledKeys(r.value) == {}
    ensures content.Json? ==> r == Ok(content.doc)
  {
    match content
    case Blank => Ok(EMPTY_DOC)
    case Json(doc) => Ok(doc)
    case Malformed => Err(MalformedJson)
  }

  /**
   * `before` and `after` agree on every top-level member and on every server outside `keys`:
   * nothing but the servers in `keys` was touched.
   */
  ghost predicate AgreesOutside(before: Doc, after: Doc, keys: set<string>) {
    && before.rest == after.rest
    && forall k :: k !in keys ==> Get(ServersOf(before), k) == Get(ServersOf(after), k)
  }

  /** Setting one server changes that server and nothing else, and adds rather than removes. */
  lemma SetServerEffect(doc: Doc, key: string, value: Value)
    ensures Get(ServersOf(SetServer(doc, key, value)), key) == Some(value)
    ensures AgreesOutside(doc, SetServer(doc, key, value), {key})
    ensures InstalledKeys(SetServer(doc, key, value)) == InstalledKeys(doc) + {key}
    ensures WellFormed(doc) ==> WellFormed(SetServer(doc, key, value))
  {
    var d := ServersOf(doc);
    PutGet(d, key, value, key);
    forall k | k != key ensures Get(d, k) == Get(Put(d, key, value), k) {
      PutGet(d, key, value, k);
    }
    PutKeys(d, key, value);
    if WellFormed(doc) {
      PutDistinct(d, key, value);
    }
  }

  /** Installing the same entry twice leaves the document as installing it once (idempotence). */
  lemma {:induction false} PutIdempotent(d: Servers, key: string, value: Value)
    ensures Put(Put(d, key, value), key, value) == Put(d, key, value)
    decreases |d|
  {
    if d != [] && d[0].0 != key {
      PutIdempotent(d[1..], key, value);
    }
  }

  lemma SetServerIdempotent(doc: Doc, key: string, value: Value)
    ensures SetServer(SetServer(doc, key, value), key, value) == SetServer(doc, key, value)
  {
    PutIdempotent(ServersOf(doc), key, value);
  }

  lemma AgreesOutsideTrans(a: Doc, b: Doc, c: Doc, k1: set<string>, k2: set<string>)
    requires AgreesOutside(a, b, k1) && AgreesOutside(b, c, k2)
    ensures AgreesOutside(a, c, k1 + k2)
  {
  }
}
