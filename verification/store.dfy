/**
 * The `box` table of the card box database: one record per page, under the
 * compound primary key `[graph+name]`, with `graph` and `time` as secondary
 * indexes. The table is a finite map from key to record; the functions below
 * are the table operations the plugin uses (put, update, delete, get and the
 * per-graph count and delete), and the class CardBoxDb holds the table and
 * performs them in place.
 */
module CardStore {
  import opened Wrappers

  /** The compound primary key `[graph+name]`. */
  datatype Key = Key(graph: string, name: string)

  /** A stored card: graph name, page original name, page uuid, file time
      (Unix milliseconds), excerpt lines and image file name. */
  datatype Box = Box(graph: string, name: string, uuid: string, time: int,
                     summary: seq<string>, image: string)

  /** The fields a partial `update` writes; `time` is written only when given. */
  datatype Patch = Patch(time: Option<int>, summary: seq<string>, image: string)

  type Table = map<Key, Box>

  /** The key a record is stored under. */
  function KeyOf(b: Box): Key
  {
    Key(b.graph, b.name)
  }

  /** Every record sits under its own `[graph+name]`. */
  predicate Valid(t: Table)
  {
    forall k :: k in t ==> KeyOf(t[k]) == k
  }

  /** `put`: inserts the record, or replaces the one under the same key. */
  function WithPut(t: Table, b: Box): (r: Table)
    ensures KeyOf(b) in r && r[KeyOf(b)] == b
    ensures r.Keys == t.Keys + {KeyOf(b)}
    ensures forall k :: k in t && k != KeyOf(b) ==> r[k] == t[k]
  {
    t[KeyOf(b) := b]
  }

  /** The record with a patch applied: only `time` (when given), `summary`
      and `image` change. */
  function Apply(b: Box, p: Patch): (r: Box)
    ensures r.graph == b.graph && r.name == b.name && r.uuid == b.uuid
    ensures r.time == (if p.time.Some? then p.time.value else b.time)
    ensures r.summary == p.summary && r.image == p.image
  {
    Box(b.graph, b.name, b.uuid, if p.time.Some? then p.time.value else b.time, p.summary, p.image)
  }

  /** `update`: patches the record under the key; a missing key is left
      missing (the table's update reports 0 records changed). */
  function WithUpdate(t: Table, key: Key, p: Patch): (r: Table)
    ensures r.Keys == t.Keys
    ensures key in t ==> r[key] == Apply(t[key], p)
    ensures forall k :: k in t && k != key ==> r[k] == t[k]
  {
    if key in t then t[key := Apply(t[key], p)] else t
  }

  /** `delete`: removes the record under the key, if any. */
  function WithDelete(t: Table, key: Key): (r: Table)
    ensures r.Keys == t.Keys - {key}
    ensures forall k :: k in r ==> r[k] == t[k]
  {
    t - {key}
  }

  /** `where('graph').equals(graph).delete()`: removes every record of the graph. */
  function WithoutGraph(t: Table, graph: string): (r: Table)
    ensures forall k :: k in r <==> k in t && k.graph != graph
    ensures forall k :: k in r ==> r[k] == t[k]
  {
    map k | k in t && k.graph != graph :: t[k]
  }

  /** The keys of one graph's records. */
  function GraphKeys(t: Table, graph: string): set<Key>
  {
    set k | k in t && k.graph == graph
  }

  /** `where('graph').equals(graph).count()`. */
  function GraphCount(t: Table, graph: string): nat
  {
    |GraphKeys(t, graph)|
  }

  // ---------------------------------------------------------------------------
  // Properties of the table operations.

  /** Each operation keeps every record under its own key. */
  lemma PutKeepsValid(t: Table, b: Box)
    requires Valid(t)
    ensures Valid(WithPut(t, b))
  {
  }

  lemma UpdateKeepsValid(t: Table, key: Key, p: Patch)
    requires Valid(t)
    ensures Valid(WithUpdate(t, key, p))
  {
    if key in t {
      assert KeyOf(Apply(t[key], p)) == KeyOf(t[key]);
    }
  }

  lemma DeleteKeepsValid(t: Table, key: Key, graph: string)
    requires Valid(t)
    ensures Valid(WithDelete(t, key))
    ensures Valid(WithoutGraph(t, graph))
  {
  }

  /** At most one record per key: a second put under the same key replaces
      the first one entirely. */
  lemma PutReplaces(t: Table, b1: Box, b2: Box)
    requires KeyOf(b1) == KeyOf(b2)
    ensures WithPut(WithPut(t, b1), b2) == WithPut(t, b2)
  {
  }

  /** Records with the same name in different graphs are distinct entries:
      putting one leaves the other in place. */
  lemma SameNameOtherGraph(t: Table, b1: Box, b2: Box)
    requires b1.name == b2.name && b1.graph != b2.graph
    ensures var r := WithPut(WithPut(t, b1), b2);
      KeyOf(b1) in r && r[KeyOf(b1)] == b1 && KeyOf(b2) in r && r[KeyOf(b2)] == b2
  {
  }

  /** Deleting the key just put restores the table without that key. */
  lemma DeleteUndoesPut(t: Table, b: Box)
    ensures WithDelete(WithPut(t, b), KeyOf(b)) == WithDelete(t, KeyOf(b))
    ensures KeyOf(b) !in t ==> WithDelete(WithPut(t, b), KeyOf(b)) == t
  {
  }

  /** An update never moves a record: key set, graph, name and uuid of every
      record stay as they were. */
  lemma UpdateKeepsIdentity(t: Table, key: Key, p: Patch)
    ensures var r := WithUpdate(t, key, p);
      forall k :: k in r ==>
        r[k].graph == t[k].graph && r[k].name == t[k].name && r[k].uuid == t[k].uuid
  {
  }

  /** Deleting a graph empties that graph's count and leaves every other
      graph's records, and so their count, unchanged. */
  lemma {:induction false} DeleteGraphCounts(t: Table, graph: string, other: string)
    requires other != graph
    ensures GraphCount(WithoutGraph(t, graph), graph) == 0
    ensures GraphKeys(WithoutGraph(t, graph), other) == GraphKeys(t, other)
    ensures GraphCount(WithoutGraph(t, graph), other) == GraphCount(t, other)
  {
    assert GraphKeys(WithoutGraph(t, graph), graph) == {};
  }

  /** A graph with no records counts 0, and one with a record counts more. */
  lemma GraphCountZero(t: Table, graph: string)
    ensures GraphCount(t, graph) == 0 <==> forall k :: k in t ==> k.graph != graph
  {
    if k :| k in t && k.graph == graph {
      assert k in GraphKeys(t, graph);
    } else {
      assert GraphKeys(t, graph) == {};
    }
  }

  /** Deleting a graph twice is deleting it once, and a put or update of a
      record of that graph is erased by deleting the graph. */
  lemma DeleteGraphAbsorbs(t: Table, graph: string, b: Box, key: Key, p: Patch)
    requires b.graph == graph && key.graph == graph
    ensures WithoutGraph(WithoutGraph(t, graph), graph) == WithoutGraph(t, graph)
    ensures WithoutGraph(WithPut(t, b), graph) == WithoutGraph(t, graph)
    ensures WithoutGraph(WithUpdate(t, key, p), graph) == WithoutGraph(t, graph)
  {
  }

  // ---------------------------------------------------------------------------

  /** The Dexie database object with its `box` table, updated in place. */
  class CardBoxDb {
    var box: Table

    /** Opening the persistent database: its `box` table holds what earlier
        sessions stored there (the empty table on a first install). */
    constructor(stored: Table)
      requires Valid(stored)
      ensures box == stored
    {
      box := stored;
    }

    method Put(b: Box)
      modifies this
      ensures box == WithPut(old(box), b)
    {
      box := box[KeyOf(b) := b];
    }

    method Update(key: Key, p: Patch)
      modifies this
      ensures box == WithUpdate(old(box), key, p)
    {
      if key in box {
        var b := box[key];
        box := box[key := Box(b.graph, b.name, b.uuid,
                              if p.time.Some? then p.time.value else b.time,
                              p.summary, p.image)];
      }
    }

    method Delete(key: Key)
      modifies this
      ensures box == WithDelete(old(box), key)
    {
      box := box - {key};
    }

    method DeleteGraph(graph: string)
      modifies this
      ensures box == WithoutGraph(old(box), graph)
    {
      box := map k | k in box && k.graph != graph :: box[k];
    }

    /** `get`: the record under the key, if any. */
    method Get(key: Key) returns (r: Option<Box>)
      ensures r.Some? <==> key in box
      ensures r.Some? ==> r.value == box[key]
      ensures Valid(box) && r.Some? ==> KeyOf(r.value) == key
    {
      r := if key in box then Some(box[key]) else None;
    }

    method Count(graph: string) returns (n: nat)
      ensures n == 0 <==> forall k :: k in box ==> k.graph != graph
      ensures n == GraphCount(box, graph)
    {
      n := |set k | k in box && k.graph == graph|;
      GraphCountZero(box, graph);
    }
  }
}
