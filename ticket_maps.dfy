/**
 * The `id -> ticket` map that `handleQuerySnapshot`
 * (actions/firebase-action.ts) rebuilds from every pushed query snapshot.
 * A JavaScript `Map` is modelled by its entries in iteration order, which
 * is insertion order.
 */
module TicketMaps {
  import opened Wrappers
  import opened Db

  /** One document of a query snapshot: `doc.id` and `doc.data()`. */
  datatype TicketDoc = TicketDoc(id: string, data: Ticket)

  /** A `Map<string, Ticket>`: its entries in iteration order. */
  type TicketMap = seq<(string, Ticket)>

  function KeySet(m: TicketMap): set<string> {
    set i | 0 <= i < |m| :: m[i].0
  }

  /** The keys in the Map's iteration order: insertion order of first `set`. */
  function Keys(m: TicketMap): (ks: seq<string>)
    ensures |ks| == |m| && forall i :: 0 <= i < |m| ==> ks[i] == m[i].0
  {
    seq(|m|, i requires 0 <= i < |m| => m[i].0)
  }

  /** `[...m.values()]` */
  function Values(m: TicketMap): (vs: seq<Ticket>)
    ensures |vs| == |m| && forall i :: 0 <= i < |m| ==> vs[i] == m[i].1
  {
    seq(|m|, i requires 0 <= i < |m| => m[i].1)
  }

  /** A map has each key at most once. */
  predicate DistinctKeys(m: TicketMap) {
    forall i, j :: 0 <= i < j < |m| ==> m[i].0 != m[j].0
  }

  /** Every stored ticket carries its own key as its `id`. */
  predicate Stamped(m: TicketMap) {
    forall i :: 0 <= i < |m| ==> m[i].1.id == m[i].0
  }

  /** Position of key `k` in the iteration order, if present. */
  function Find(m: TicketMap, k: string): (r: Option<nat>)
    ensures r.Some? ==> r.value < |m| && m[r.value].0 == k
    ensures r.Some? ==> forall j :: 0 <= j < r.value ==> m[j].0 != k
    ensures r.None? ==> forall j :: 0 <= j < |m| ==> m[j].0 != k
  {
    if m == [] then None
    else if m[0].0 == k then Some(0)
    else match Find(m[1..], k)
      case None => None
      case Some(i) => Some(i + 1)
  }

  /** `m.get(k)`, `None` for a missing key. */
  function Get(m: TicketMap, k: string): (r: Option<Ticket>)
    ensures r.Some? <==> k in KeySet(m)
    ensures r.Some? ==> (k, r.value) in m
  {
    match Find(m, k)
    case None => None
    case Some(i) => Some(m[i].1)
  }

  /**
   * `m.set(k, v)`: an existing key keeps its position and takes the new
   * value; a new key is appended.
   */
  function Set(m: TicketMap, k: string, v: Ticket): (r: TicketMap)
    ensures KeySet(r) == KeySet(m) + {k}
    ensures k !in KeySet(m) ==> r == m + [(k, v)]
    ensures k in KeySet(m) ==> |r| == |m| && Keys(r) == Keys(m)
    ensures (k, v) in r
    ensures forall e :: e in r ==> e == (k, v) || e in m
  {
    match Find(m, k)
    case None =>
      KeySetSnoc(m, (k, v));
      m + [(k, v)]
    case Some(i) =>
      var r := m[i := (k, v)];
      assert Keys(r) == Keys(m);
      assert forall e :: e in r ==> e == (k, v) || e in m by {
        forall e | e in r ensures e == (k, v) || e in m {
          var j :| 0 <= j < |r| && r[j] == e;
          if j != i { assert m[j] == e; }
        }
      }
      r
  }

  lemma KeySetSnoc(m: TicketMap, e: (string, Ticket))
    ensures KeySet(m + [e]) == KeySet(m) + {e.0}
  {
    var r := m + [e];
    assert r[|m|] == e;
    forall k | k in KeySet(r) ensures k in KeySet(m) + {e.0} {
      var i :| 0 <= i < |r| && r[i].0 == k;
      if i < |m| { assert r[i] == m[i]; }
    }
    forall k | k in KeySet(m) ensures k in KeySet(r) {
      var i :| 0 <= i < |m| && m[i].0 == k;
      assert r[i] == m[i];
    }
  }

  /** `set` preserves "each key at most once". */
  lemma SetDistinct(m: TicketMap, k: string, v: Ticket)
    requires DistinctKeys(m)
    ensures DistinctKeys(Set(m, k, v))
  {
    var r := Set(m, k, v);
    if k in KeySet(m) {
      forall i, j | 0 <= i < j < |r| ensures r[i].0 != r[j].0 {
        assert r[i].0 == Keys(r)[i] == Keys(m)[i];
        assert r[j].0 == Keys(r)[j] == Keys(m)[j];
      }
    }
  }

  /** In a map with distinct keys, `get` returns the value of the one entry with that key. */
  lemma DistinctFind(m: TicketMap, k: string, e: (string, Ticket))
    requires DistinctKeys(m) && e in m && e.0 == k
    ensures Get(m, k) == Some(e.1)
  {
    var i :| 0 <= i < |m| && m[i] == e;
    var f := Find(m, k);
    assert f.Some?;
    assert f.value == i;
  }

  /** `get` after `set`: the new value under `k`, old values elsewhere. */
  lemma SetGet(m: TicketMap, k: string, v: Ticket, k': string)
    requires DistinctKeys(m)
    ensures Get(Set(m, k, v), k') == if k' == k then Some(v) else Get(m, k')
  {
    var r := Set(m, k, v);
    SetDistinct(m, k, v);
    if k' == k {
      DistinctFind(r, k, (k, v));
    } else if Get(m, k').Some? {
      var e := (k', Get(m, k').value);
      assert e in r;
      DistinctFind(r, k', e);
    } else {
      assert k' !in KeySet(r);
    }
  }

  /** The value stored for a document: its data with `id` set to the document id. */
  function Stamp(d: TicketDoc): (t: Ticket)
    ensures t.id == d.id
    ensures t.(id := d.data.id) == d.data
  {
    d.data.(id := d.id)
  }

  function DocIds(docs: seq<TicketDoc>): set<string> {
    set i | 0 <= i < |docs| :: docs[i].id
  }

  /**
   * The map built from a snapshot's documents: start from an empty map and
   * `set` every document in order.
   */
  function SnapshotMap(docs: seq<TicketDoc>): (m: TicketMap)
    ensures |m| <= |docs|
    decreases |docs|
  {
    if docs == [] then []
    else
      var last := docs[|docs| - 1];
      Set(SnapshotMap(docs[..|docs| - 1]), last.id, Stamp(last))
  }

  /** Reference definition: the stamped data of the LAST document with id `k`. */
  function LastWithId(docs: seq<TicketDoc>, k: string): Option<Ticket>
    decreases |docs|
  {
    if docs == [] then None
    else if docs[|docs| - 1].id == k then Some(Stamp(docs[|docs| - 1]))
    else LastWithId(docs[..|docs| - 1], k)
  }

  lemma DocIdsSnoc(docs: seq<TicketDoc>)
    requires docs != []
    ensures DocIds(docs) == DocIds(docs[..|docs| - 1]) + {docs[|docs| - 1].id}
  {
    var init := docs[..|docs| - 1];
    forall k | k in DocIds(docs) ensures k in DocIds(init) + {docs[|docs| - 1].id} {
      var i :| 0 <= i < |docs| && docs[i].id == k;
      if i < |docs| - 1 { assert init[i] == docs[i]; }
    }
    forall k | k in DocIds(init) ensures k in DocIds(docs) {
      var i :| 0 <= i < |init| && init[i].id == k;
      assert docs[i] == init[i];
    }
  }

  /** Storing a ticket under its own id keeps every value stamped with its key. */
  lemma SetStamped(m: TicketMap, k: string, v: Ticket)
    requires Stamped(m) && v.id == k
    ensures Stamped(Set(m, k, v))
  {
    var r := Set(m, k, v);
    forall i | 0 <= i < |r| ensures r[i].1.id == r[i].0 {
      assert r[i] in r;
      if r[i] != (k, v) {
        var j :| 0 <= j < |m| && m[j] == r[i];
      }
    }
  }

  /**
   * After a push the map holds exactly the pushed documents' ids, each at
   * most once, and every value's `id` is its key.
   */
  lemma {:induction false} SnapshotMapShape(docs: seq<TicketDoc>)
    ensures KeySet(SnapshotMap(docs)) == DocIds(docs)
    ensures DistinctKeys(SnapshotMap(docs))
    ensures Stamped(SnapshotMap(docs))
    decreases |docs|
  {
    if docs != [] {
      var init := docs[..|docs| - 1];
      var last := docs[|docs| - 1];
      var m := SnapshotMap(init);
      SnapshotMapShape(init);
      DocIdsSnoc(docs);
      SetDistinct(m, last.id, Stamp(last));
      SetStamped(m, last.id, Stamp(last));
    }
  }

  /** Each key's value is the stamped data of the last document pushed with that id. */
  lemma {:induction false} SnapshotMapGet(docs: seq<TicketDoc>, k: string)
    ensures Get(SnapshotMap(docs), k) == LastWithId(docs, k)
    decreases |docs|
  {
    if docs != [] {
      var init := docs[..|docs| - 1];
      var last := docs[|docs| - 1];
      SnapshotMapShape(init);
      SetGet(SnapshotMap(init), last.id, Stamp(last), k);
      SnapshotMapGet(init, k);
    }
  }

  predicate DistinctIds(docs: seq<TicketDoc>) {
    forall i, j :: 0 <= i < j < |docs| ==> docs[i].id != docs[j].id
  }

  /** The entries `(id, stamped data)` of the documents, in snapshot order. */
  function DocEntries(docs: seq<TicketDoc>): (m: TicketMap)
    ensures |m| == |docs|
    ensures forall i :: 0 <= i < |docs| ==> m[i] == (docs[i].id, Stamp(docs[i]))
  {
    seq(|docs|, i requires 0 <= i < |docs| => (docs[i].id, Stamp(docs[i])))
  }

  lemma DocEntriesSnoc(docs: seq<TicketDoc>)
    requires docs != []
    ensures DocEntries(docs) == DocEntries(docs[..|docs| - 1]) + [(docs[|docs| - 1].id, Stamp(docs[|docs| - 1]))]
  {
  }

  lemma DistinctIdsInit(docs: seq<TicketDoc>)
    requires docs != [] && DistinctIds(docs)
    ensures DistinctIds(docs[..|docs| - 1])
    ensures docs[|docs| - 1].id !in DocIds(docs[..|docs| - 1])
  {
    var init := docs[..|docs| - 1];
    assert forall i :: 0 <= i < |init| ==> init[i] == docs[i];
  }

  /**
   * With distinct document ids (as in one query snapshot) the map lists
   * every document once, in snapshot order, as (id, stamped data).
   */
  lemma {:induction false} SnapshotMapInOrder(docs: seq<TicketDoc>)
    requires DistinctIds(docs)
    ensures SnapshotMap(docs) == DocEntries(docs)
    decreases |docs|
  {
    if docs != [] {
      var init := docs[..|docs| - 1];
      DistinctIdsInit(docs);
      SnapshotMapInOrder(init);
      SnapshotMapShape(init);
      DocEntriesSnoc(docs);
    }
  }

  /**
   * `handleQuerySnapshot`'s success callback: a fresh `Map` filled by a
   * `for` loop over `snap.docs`.
   */
  method BuildSnapshotMap(docs: seq<TicketDoc>) returns (data: TicketMap)
    ensures data == SnapshotMap(docs)
    ensures KeySet(data) == DocIds(docs)
    ensures DistinctKeys(data) && Stamped(data)
    ensures forall k :: Get(data, k) == LastWithId(docs, k)
  {
    data := [];
    for i := 0 to |docs|
      invariant data == SnapshotMap(docs[..i])
    {
      assert docs[..i + 1][..i] == docs[..i];
      data := Set(data, docs[i].id, Stamp(docs[i]));
    }
    assert docs[..|docs|] == docs;
    SnapshotMapShape(docs);
    forall k ensures Get(data, k) == LastWithId(docs, k) {
      SnapshotMapGet(docs, k);
    }
  }
}
