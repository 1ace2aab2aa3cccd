/**
What a gate run leaves on disk: per shard, an obligation published before an
invocation's tests start and a receipt of what they reported, and per run the
snapshot of what it inherited.
*/
module Receipts {
  import opened Catalog

  type Name = string
  type Suite = string
  type RunId = string
  type Tree = string
  type Inputs = string

  /** One occurrence of one command of a shard's runner. */
  datatype Key = Key(invocation: string, occurrence: nat)

  datatype Status = Passed | Failed

  /** A pass recorded earlier, and the run that recorded it. */
  datatype Proof = Proof(run: RunId)

  datatype Obligation = Obligation(
    args: seq<string>,
    identity: string,
    listed: seq<Name>,
    groups: seq<seq<Name>>,
    share: seq<Name>,
    pinned: bool,
    tree: Option<Tree>,
    inputs: Option<Inputs>,
    carried: map<Name, Proof>)

  datatype Row = Row(what: Obligation, reported: map<Name, Status>, valid: bool, interrupted: bool, pending: bool)

  /** An obligation nothing answered. */
  function Pending(what: Obligation): Row {
    Row(what, map[], false, true, true)
  }

  /** A shard's directory. Files are replaced in one step, so a killed writer leaves the old one or the new. */
  datatype ShardDir = ShardDir(receipts: map<Key, Row>, expected: map<Key, Obligation>)
  {
    function Keys(): set<Key> { receipts.Keys + expected.Keys }
  }

  const EMPTY_DIR := ShardDir(map[], map[])

  /** No receipt contradicts the obligation it answers. */
  predicate Agrees(d: ShardDir) {
    forall k :: k in d.expected && k in d.receipts ==> d.receipts[k].what == d.expected[k]
  }

  /** Each key's receipt, or its obligation as a lost invocation. */
  function Rows(d: ShardDir): map<Key, Row> {
    map k | k in d.Keys() :: if k in d.receipts then d.receipts[k] else Pending(d.expected[k])
  }

  /** Reads a shard back, refusing it as a whole if a receipt disagrees with its obligation. */
  method ReadShard(d: ShardDir) returns (rows: Option<map<Key, Row>>)
    ensures rows.Some? <==> Agrees(d)
    ensures rows.Some? ==> rows.value == Rows(d)
  {
    var found := d.receipts;
    var todo := d.expected.Keys;
    while todo != {}
      invariant todo <= d.expected.Keys
      invariant found.Keys == d.receipts.Keys + (d.expected.Keys - todo)
      invariant forall k :: k in found ==> found[k] == Rows(d)[k]
      invariant forall k :: k in d.expected && k in d.receipts && k !in todo ==> d.receipts[k].what == d.expected[k]
      decreases todo
    {
      var key :| key in todo;
      if key in d.receipts {
        if d.receipts[key].what != d.expected[key] { return None; }
      } else {
        found := found[key := Pending(d.expected[key])];
      }
      todo := todo - {key};
    }
    assert found == Rows(d);
    rows := Some(found);
  }

  /** What a run inherited for one invocation. A list kept sorted is its elements and how often each occurs. */
  datatype Entry = Entry(listed: multiset<Name>, ok: map<Name, Proof>)

  type Place = (Suite, Key)

  datatype Snapshot = Snapshot(run: RunId, tree: Option<Tree>, inputs: Option<Inputs>, keys: map<Place, Entry>)

  /**
  The names an earlier run of this head proved for this invocation; refused
  if the test list changed since.
  */
  function Resumed(snapshot: Option<Snapshot>, place: Place, names: seq<Name>): Option<map<Name, Proof>> {
    if snapshot.None? || place !in snapshot.value.keys then Some(map[])
    else
      var entry := snapshot.value.keys[place];
      if multiset(names) != entry.listed then None
      else Some(map n | n in names && n in entry.ok :: entry.ok[n])
  }
}
