/** The worker registry of StreamElementsWorkerManager: a map from worker id to the
    record the manager keeps for it, the operations that add, remove and query
    workers, and the (de)serialisers that turn the registry into a CEF dictionary
    value and back.

    The Qt widget and the CEF browser a worker owns are created by a task posted
    to the CEF UI thread; the model keeps only the record stored synchronously. */
module WorkerManager {
  import opened Common

  /** What the manager remembers about one worker. */
  datatype Worker = Worker(content: string, url: string, onLoad: string)

  type Registry = map<string, Worker>

  /** Every registry the operations build: no worker is stored under the empty id. */
  predicate Valid(reg: Registry)
  {
    "" !in reg
  }

  // ---------------------------------------------------------------------------
  // Identifiers

  /** `Add` draws a new id exactly when the requested one is empty or taken. */
  predicate NeedsUuid(reg: Registry, requestedId: string)
  {
    requestedId == "" || requestedId in reg
  }

  /** Stand-in for QUuid::createUuid(): a non-empty id that no worker has yet.
      The model relies on nothing else about it. */
  method NewUuid(reg: Registry) returns (id: string)
    ensures id != "" && id !in reg
  {
    var longest: nat := 0;
    var rest := reg.Keys;
    while rest != {}
      invariant forall k :: k in reg && k !in rest ==> |k| <= longest
      decreases rest
    {
      var k :| k in rest;
      if |k| > longest {
        longest := |k|;
      }
      rest := rest - {k};
    }
    id := seq(longest + 1, _ => '{');
  }

  // ---------------------------------------------------------------------------
  // Registry operations

  /** Add: stores a worker under the requested id, or under `uuid` when the
      requested id is empty or already in use, and returns the id it used.
      `uuid` is the value QUuid would have produced. */
  function Add(reg: Registry, requestedId: string, content: string, url: string, onLoad: string,
               uuid: string): (r: (string, Registry))
    requires NeedsUuid(reg, requestedId) ==> uuid != "" && uuid !in reg
    ensures r.0 != "" && r.0 !in reg
    ensures !NeedsUuid(reg, requestedId) ==> r.0 == requestedId
    ensures NeedsUuid(reg, requestedId) ==> r.0 == uuid
    ensures r.1.Keys == reg.Keys + {r.0}
    ensures r.1[r.0] == Worker(content, url, onLoad)
    ensures forall k :: k in reg ==> r.1[k] == reg[k]
    ensures Valid(reg) ==> Valid(r.1)
  {
    var id := if NeedsUuid(reg, requestedId) then uuid else requestedId;
    (id, reg[id := Worker(content, url, onLoad)])
  }

  /** Remove: erases the worker stored under `id`; nothing happens when there is none. */
  function Remove(reg: Registry, id: string): (r: Registry)
    ensures r.Keys == reg.Keys - {id}
    ensures forall k :: k in r ==> r[k] == reg[k]
    ensures id !in reg ==> r == reg
  {
    if id in reg then reg - {id} else reg
  }

  /** A second Remove of the same id changes nothing. */
  lemma RemoveIdempotent(reg: Registry, id: string)
    ensures Remove(Remove(reg, id), id) == Remove(reg, id)
  {
  }

  /** Removing the id an Add just used restores the registry as it was. */
  lemma RemoveUndoesAdd(reg: Registry, requestedId: string, content: string, url: string,
                        onLoad: string, uuid: string)
    requires NeedsUuid(reg, requestedId) ==> uuid != "" && uuid !in reg
    ensures var (id, reg') := Add(reg, requestedId, content, url, onLoad, uuid);
            Remove(reg', id) == reg
  {
    var (id, reg') := Add(reg, requestedId, content, url, onLoad, uuid);
    assert Remove(reg', id).Keys == reg.Keys;
  }

  /** RemoveAll: removes the first worker of the map until none is left. */
  method RemoveAll(reg: Registry) returns (reg': Registry)
    ensures reg' == map[]
  {
    reg' := reg;
    while reg' != map[]
      invariant reg'.Keys <= reg.Keys
      decreases |reg'|
    {
      ghost var least := LeastKeyExists(reg'.Keys);
      var first :| first in reg' && forall k :: k in reg' ==> LexLe(first, k);
      reg' := Remove(reg', first);
    }
  }

  /** GetContent: the content of the worker stored under `id`, or "" when there is none. */
  function GetContent(reg: Registry, id: string): (r: string)
    ensures id in reg ==> r == reg[id].content
    ensures id !in reg ==> r == ""
  {
    if id in reg then reg[id].content else ""
  }

  /** The content given to Add is what GetContent reports for the returned id,
      and other ids keep reporting what they did. */
  lemma GetContentAfterAdd(reg: Registry, requestedId: string, content: string, url: string,
                           onLoad: string, uuid: string, other: string)
    requires NeedsUuid(reg, requestedId) ==> uuid != "" && uuid !in reg
    ensures var (id, reg') := Add(reg, requestedId, content, url, onLoad, uuid);
            GetContent(reg', id) == content &&
            (other != id ==> GetContent(reg', other) == GetContent(reg, other))
  {
  }

  /** After Remove, GetContent of the removed id is "". */
  lemma GetContentAfterRemove(reg: Registry, id: string)
    ensures GetContent(Remove(reg, id), id) == ""
  {
  }

  /** Strictly ascending in the order std::map keeps its std::string keys. */
  predicate Ascending(ids: seq<string>)
  {
    forall i, j :: 0 <= i < j < |ids| ==> LexLe(ids[i], ids[j]) && ids[i] != ids[j]
  }

  /** GetIdentifiers: appends every worker id, in map order, to what `result` already holds. */
  method GetIdentifiers(reg: Registry, result: seq<string>) returns (result': seq<string>)
    ensures |result'| == |result| + |reg|
    ensures result'[..|result|] == result
    ensures forall id :: id in reg <==> id in result'[|result|..]
    ensures Ascending(result'[|result|..])
  {
    var rest := reg.Keys;
    var ids: seq<string> := [];
    while rest != {}
      invariant rest <= reg.Keys
      invariant |ids| + |rest| == |reg.Keys|
      invariant forall id :: id in reg <==> id in ids || id in rest
      invariant forall id :: id in ids ==> id !in rest
      invariant Ascending(ids)
      invariant forall i, k :: 0 <= i < |ids| && k in rest ==> LexLe(ids[i], k)
      decreases |rest|
    {
      ghost var least := LeastKeyExists(rest);
      var first :| first in rest && forall k :: k in rest ==> LexLe(first, k);
      forall i | 0 <= i < |ids|
        ensures LexLe(ids[i], first) && ids[i] != first
      {
      }
      ids := ids + [first];
      forall i, k | 0 <= i < |ids| && k in rest - {first}
        ensures LexLe(ids[i], k)
      {
        if i < |ids| - 1 {
        } else {
          assert ids[i] == first;
        }
      }
      rest := rest - {first};
    }
    assert |reg.Keys| == |reg|;
    result' := result + ids;
    assert result'[|result|..] == ids;
  }

  // ---------------------------------------------------------------------------
  // Serialisation to and from CEF values

  /** The CEF values the (de)serialisers read and write: a string, a dictionary,
      or a value of any other type (null, bool, int, double, binary, list). */
  datatype Value = Str(s: string) | Dict(d: map<string, Value>) | OtherValue

  /** CefDictionaryValue::GetString: the string under `key`, or "" when the key
      is absent or holds another type. */
  function GetString(d: map<string, Value>, key: string): (r: string)
    ensures key in d && d[key].Str? ==> r == d[key].s
    ensures !(key in d && d[key].Str?) ==> r == ""
  {
    if key in d && d[key].Str? then d[key].s else ""
  }

  /** The dictionary Serialize and SerializeOne write for one worker. */
  function ItemValue(id: string, w: Worker): Value
  {
    Dict(map["id" := Str(id), "content" := Str(w.content), "url" := Str(w.url),
             "executeJavaScriptOnLoad" := Str(w.onLoad)])
  }

  /** Serialize: one dictionary entry per worker, keyed by its id. */
  function Serialize(reg: Registry): (v: Value)
    ensures v.Dict? && v.d.Keys == reg.Keys
    ensures forall id :: id in reg ==> v.d[id] == ItemValue(id, reg[id])
  {
    Dict(map id | id in reg :: ItemValue(id, reg[id]))
  }

  /** SerializeOne: the dictionary of the worker stored under `id`.
      The source indexes the map without checking the id is present. */
  function SerializeOne(reg: Registry, id: string): (v: Value)
    requires id in reg
    ensures v == ItemValue(id, reg[id])
    ensures v.Dict? && v.d["id"] == Str(id) && ParseItem(v) == Some(reg[id])
  {
    ParseItemValue(id, reg[id]);
    Dict(map["id" := Str(id), "content" := Str(reg[id].content), "url" := Str(reg[id].url),
             "executeJavaScriptOnLoad" := Str(reg[id].onLoad)])
  }

  /** The worker an item value describes: it must be a dictionary holding both
      "content" and "url"; the on-load script defaults to "" unless it is present
      as a string. */
  function ParseItem(v: Value): (r: Option<Worker>)
    ensures r.Some? <==> v.Dict? && "content" in v.d && "url" in v.d
    ensures r.Some? ==> r.value.content == GetString(v.d, "content")
    ensures r.Some? ==> r.value.url == GetString(v.d, "url")
    ensures r.Some? && !("executeJavaScriptOnLoad" in v.d && v.d["executeJavaScriptOnLoad"].Str?)
            ==> r.value.onLoad == ""
    ensures r.Some? && "executeJavaScriptOnLoad" in v.d && v.d["executeJavaScriptOnLoad"].Str?
            ==> r.value.onLoad == v.d["executeJavaScriptOnLoad"].s
  {
    if v.Dict? && "content" in v.d && "url" in v.d then
      var onLoad :=
        if "executeJavaScriptOnLoad" in v.d && v.d["executeJavaScriptOnLoad"].Str?
        then GetString(v.d, "executeJavaScriptOnLoad") else "";
      Some(Worker(GetString(v.d, "content"), GetString(v.d, "url"), onLoad))
    else None
  }

  /** The keys of a root dictionary whose entries Deserialize accepts. */
  function Accepted(d: map<string, Value>): set<string>
  {
    set k | k in d && ParseItem(d[k]).Some?
  }

  /** The entries of a root dictionary Deserialize accepts, keyed as in the dictionary. */
  function AcceptedWorkers(d: map<string, Value>): Registry
  {
    map k | k in Accepted(d) :: ParseItem(d[k]).value
  }

  /** No accepted key is empty or already used, so Add keeps every key. */
  predicate KeysKept(reg: Registry, d: map<string, Value>)
  {
    forall k :: k in d && ParseItem(d[k]).Some? ==> k != "" && k !in reg
  }

  /** One pass of Deserialize's loop: the entry stored under `key` is added
      through Add when ParseItem accepts it; `id` is the id Add chose, or "". */
  method DeserializeEntry(reg: Registry, key: string, v: Value) returns (id: string, reg': Registry)
    ensures ParseItem(v).None? ==> id == "" && reg' == reg
    ensures ParseItem(v).Some? ==> id != "" && id !in reg && reg' == reg[id := ParseItem(v).value]
    ensures ParseItem(v).Some? && key != "" && key !in reg ==> id == key
  {
    var item := ParseItem(v);
    if item.None? {
      return "", reg;
    }
    var uuid := NewUuid(reg);
    var (chosen, next) := Add(reg, key, item.value.content, item.value.url, item.value.onLoad, uuid);
    id, reg' := chosen, next;
  }

  /** No two keys were given the same id. */
  predicate Injective(placed: map<string, string>)
  {
    forall k1, k2 :: k1 in placed && k2 in placed && k1 != k2 ==> placed[k1] != placed[k2]
  }

  /** `placed` has an entry for exactly the accepted keys among `done`. */
  ghost predicate PlacedKeys(d: map<string, Value>, done: set<string>, placed: map<string, string>)
  {
    forall k :: k in placed <==> k in done && k in d && ParseItem(d[k]).Some?
  }

  /** Every placed key's worker sits in `cur` under a fresh id. */
  predicate Stored(reg: Registry, d: map<string, Value>, placed: map<string, string>, cur: Registry)
  {
    forall k :: k in placed ==> k in d && placed[k] !in reg && placed[k] in cur
                                && ParseItem(d[k]) == Some(cur[placed[k]])
  }

  /** Every id in `cur` was there before or was given to a placed key. */
  predicate Covered(reg: Registry, placed: map<string, string>, cur: Registry)
  {
    forall id :: id in cur ==> id in reg || exists k :: k in placed && placed[k] == id
  }

  /** The entries of `reg` are still in `cur`, unchanged. */
  predicate Preserved(reg: Registry, cur: Registry)
  {
    forall k :: k in reg ==> k in cur && cur[k] == reg[k]
  }

  /** When every accepted key is usable, every key was placed under itself. */
  predicate SelfPlaced(reg: Registry, d: map<string, Value>, placed: map<string, string>)
  {
    KeysKept(reg, d) ==> forall k :: k in placed ==> placed[k] == k
  }

  /** What Deserialize's loop keeps true about the keys in `done`. */
  ghost predicate Placement(reg: Registry, d: map<string, Value>, done: set<string>,
                      placed: map<string, string>, cur: Registry)
  {
    && PlacedKeys(d, done, placed)
    && Injective(placed)
    && Stored(reg, d, placed, cur)
    && Covered(reg, placed, cur)
    && Preserved(reg, cur)
    && SelfPlaced(reg, d, placed)
  }

  /** Handling a key whose entry is rejected keeps the placement invariant. */
  lemma SkipStep(reg: Registry, d: map<string, Value>, done: set<string>,
                 placed: map<string, string>, cur: Registry, key: string)
    requires Placement(reg, d, done, placed, cur)
    requires key in d && ParseItem(d[key]).None?
    ensures Placement(reg, d, done + {key}, placed, cur)
  {
  }

  /** A key that Add keeps when nothing else claimed it. */
  lemma KeyIsFresh(reg: Registry, d: map<string, Value>, done: set<string>,
                   placed: map<string, string>, cur: Registry, key: string)
    requires PlacedKeys(d, done, placed) && Covered(reg, placed, cur) && SelfPlaced(reg, d, placed)
    requires key in d && key !in done && ParseItem(d[key]).Some? && KeysKept(reg, d)
    ensures key != "" && key !in cur
  {
  }

  lemma AddStepCovered(reg: Registry, placed: map<string, string>, cur: Registry,
                       key: string, id: string, w: Worker)
    requires Covered(reg, placed, cur) && key !in placed
    ensures Covered(reg, placed[key := id], cur[id := w])
  {
    var placed' := placed[key := id];
    forall i | i in cur[id := w]
      ensures i in reg || exists k :: k in placed' && placed'[k] == i
    {
      if i == id {
        assert placed'[key] == id;
      } else if i !in reg {
        var k :| k in placed && placed[k] == i;
        assert placed'[k] == i;
      }
    }
  }

  lemma AddStepStored(reg: Registry, d: map<string, Value>, placed: map<string, string>, cur: Registry,
                      key: string, id: string)
    requires Stored(reg, d, placed, cur) && Preserved(reg, cur)
    requires key in d && key !in placed && ParseItem(d[key]).Some? && id !in cur
    ensures Stored(reg, d, placed[key := id], cur[id := ParseItem(d[key]).value])
    ensures Injective(placed) ==> Injective(placed[key := id])
  {
  }

  /** Handling a key whose entry Add stored under `id` keeps the placement invariant. */
  lemma AddStep(reg: Registry, d: map<string, Value>, done: set<string>,
                placed: map<string, string>, cur: Registry, key: string, id: string)
    requires Placement(reg, d, done, placed, cur)
    requires key in d && key !in done && ParseItem(d[key]).Some?
    requires id != "" && id !in cur
    requires key != "" && key !in cur ==> id == key
    ensures Placement(reg, d, done + {key}, placed[key := id], cur[id := ParseItem(d[key]).value])
  {
    if KeysKept(reg, d) {
      KeyIsFresh(reg, d, done, placed, cur, key);
    }
    AddStepCovered(reg, placed, cur, key, id, ParseItem(d[key]).value);
    AddStepStored(reg, d, placed, cur, key, id);
  }

  /** Deserialize: re-adds, through Add, every entry of a root dictionary that
      ParseItem accepts, under its key; entries it rejects are skipped, and a
      value that is not a dictionary changes nothing. The dictionary's keys are
      taken in an order the model leaves open. `placed` reports, for every
      accepted key, the id Add chose for it. */
  method Deserialize(reg: Registry, input: Value) returns (reg': Registry, placed: map<string, string>)
    requires Valid(reg)
    ensures Valid(reg')
    ensures !input.Dict? ==> reg' == reg && placed == map[]
    ensures input.Dict? ==> placed.Keys == Accepted(input.d)
    ensures Injective(placed)
    ensures forall k :: k in reg ==> k in reg' && reg'[k] == reg[k]
    ensures input.Dict? ==>
              forall k :: k in placed ==> placed[k] !in reg && placed[k] in reg'
                                          && reg'[placed[k]] == AcceptedWorkers(input.d)[k]
    ensures forall id :: id in reg' ==> id in reg || exists k :: k in placed && placed[k] == id
    ensures input.Dict? && KeysKept(reg, input.d) ==> reg' == reg + AcceptedWorkers(input.d)
  {
    placed := map[];
    if !input.Dict? {
      return reg, placed;
    }
    var d := input.d;
    reg' := reg;
    var keys := d.Keys;
    while keys != {}
      invariant keys <= d.Keys
      invariant Valid(reg')
      invariant Placement(reg, d, d.Keys - keys, placed, reg')
      decreases |keys|
    {
      var key :| key in keys;
      ghost var done := d.Keys - keys;
      assert done + {key} == d.Keys - (keys - {key});
      var id, next := DeserializeEntry(reg', key, d[key]);
      if id != "" {
        AddStep(reg, d, done, placed, reg', key, id);
        placed := placed[key := id];
      } else {
        SkipStep(reg, d, done, placed, reg', key);
      }
      reg' := next;
      keys := keys - {key};
    }
    PlacementComplete(reg, d, placed, reg');
  }

  /** Once every key is handled, the placement invariant gives Deserialize's contract. */
  lemma PlacementComplete(reg: Registry, d: map<string, Value>, placed: map<string, string>, cur: Registry)
    requires Placement(reg, d, d.Keys - {}, placed, cur)
    ensures placed.Keys == Accepted(d)
    ensures forall k :: k in placed ==> placed[k] !in reg && placed[k] in cur
                                        && cur[placed[k]] == AcceptedWorkers(d)[k]
    ensures KeysKept(reg, d) ==> cur == reg + AcceptedWorkers(d)
  {
    assert d.Keys - {} == d.Keys;
    assert placed.Keys == Accepted(d);
    if KeysKept(reg, d) {
      KeysKeptResult(reg, d, placed, cur);
    }
  }

  /** When no accepted key is empty or taken, every worker lands under its own key. */
  lemma KeysKeptResult(reg: Registry, d: map<string, Value>, placed: map<string, string>, cur: Registry)
    requires Placement(reg, d, d.Keys, placed, cur)
    requires KeysKept(reg, d)
    ensures cur == reg + AcceptedWorkers(d)
  {
    forall id | id in cur
      ensures id in reg || id in Accepted(d)
    {
      if id !in reg {
        var k :| k in placed && placed[k] == id;
      }
    }
    assert cur.Keys == (reg + AcceptedWorkers(d)).Keys;
  }

  /** DeserializeOne: adds the single worker an item value describes, under its
      "id" entry when that is usable, and returns the id Add chose; returns ""
      and changes nothing when the value is rejected. */
  method DeserializeOne(reg: Registry, input: Value) returns (id: string, reg': Registry)
    ensures ParseItem(input).None? ==> id == "" && reg' == reg
    ensures ParseItem(input).Some? ==>
              id != "" && id !in reg && reg' == reg[id := ParseItem(input).value]
    ensures (ParseItem(input).Some? && GetString(input.d, "id") != "" && GetString(input.d, "id") !in reg)
            ==> id == GetString(input.d, "id")
  {
    var item := ParseItem(input);
    if item.None? {
      return "", reg;
    }
    var requestedId := if "id" in input.d then GetString(input.d, "id") else "";
    var uuid := NewUuid(reg);
    var (chosen, next) := Add(reg, requestedId, item.value.content, item.value.url, item.value.onLoad, uuid);
    id, reg' := chosen, next;
  }

  /** ParseItem reads back the worker ItemValue wrote. */
  lemma ParseItemValue(id: string, w: Worker)
    ensures ParseItem(ItemValue(id, w)) == Some(w)
  {
    var m := ItemValue(id, w).d;
    assert "content" in m && "url" in m && "executeJavaScriptOnLoad" in m;
    assert m["content"] == Str(w.content) && m["url"] == Str(w.url);
    assert m["executeJavaScriptOnLoad"] == Str(w.onLoad);
  }

  /** Every entry Serialize writes is accepted, and reads back as the worker it came from. */
  lemma SerializeAccepted(reg: Registry)
    ensures Accepted(Serialize(reg).d) == reg.Keys
    ensures AcceptedWorkers(Serialize(reg).d) == reg
    ensures Valid(reg) ==> KeysKept(map[], Serialize(reg).d)
    ensures map[] + AcceptedWorkers(Serialize(reg).d) == reg
  {
    var d := Serialize(reg).d;
    forall k | k in reg
      ensures ParseItem(d[k]) == Some(reg[k])
    {
      ParseItemValue(k, reg[k]);
    }
    assert map[] + reg == reg;
  }

  /** Serialize followed by Deserialize into an empty registry reproduces the registry. */
  method SerializeRoundTrip(reg: Registry) returns (back: Registry)
    requires Valid(reg)
    ensures back == reg
  {
    var v := Serialize(reg);
    SerializeAccepted(reg);
    var placed;
    back, placed := Deserialize(map[], v);
  }

  /** SerializeOne followed by DeserializeOne into an empty registry restores
      the worker under the same id. */
  method SerializeOneRoundTrip(reg: Registry, id: string) returns (id': string, back: Registry)
    requires Valid(reg) && id in reg
    ensures id' == id && back == map[id := reg[id]]
  {
    var v := SerializeOne(reg, id);
    id', back := DeserializeOne(map[], v);
  }
}
