/**
 * The live stores of actions/firebase-action.ts: the selection-scoped
 * ticket store (`selectedEventId` -> `ticketValue`, fed by
 * `handleQuerySnapshot`), its `cancelledTickets` / `activeTickets` views,
 * and the single-document store of `getStoreFromDocRef` /
 * `handleDocSnapshot`. Firestore's `onSnapshot` is replaced by explicit
 * `Push` / `Fail` calls, one per callback the transport would make;
 * `browser` stands for `typeof window !== 'undefined'`.
 */
module FirebaseStores {
  import opened Wrappers
  import opened Db
  import opened TicketMaps
  import opened TicketFilters

  datatype Direction = Asc | Desc

  /** `query(collection(db, c), where(f, op, v), orderBy(o, dir))` */
  datatype Query = Query(
    collection: string,
    whereField: string,
    whereOp: string,
    whereValue: string,
    orderField: string,
    direction: Direction)

  /** JavaScript truthiness of the selection: neither `undefined` nor `""`. */
  predicate Truthy(selected: Option<string>) {
    selected.Some? && selected.value != []
  }

  /**
   * What a ticket query means: `docs` can be its snapshot when every
   * document matches the `where` equality on `eventId`, they come in
   * `createdAt` order, and each document appears once. Only the query
   * shape this file builds is interpreted.
   */
  predicate Admits(q: Query, docs: seq<TicketDoc>) {
    && q.collection == "Tickets" && q.whereField == "eventId" && q.whereOp == "==" && q.orderField == "createdAt"
    && (forall i :: 0 <= i < |docs| ==> docs[i].data.eventId == q.whereValue)
    && (forall i, j :: 0 <= i < j < |docs| ==>
          if q.direction == Desc then docs[i].data.createdAt >= docs[j].data.createdAt
          else docs[i].data.createdAt <= docs[j].data.createdAt)
    && DistinctIds(docs)
  }

  /** The `getQuery` of `ticketValue`: no query for a falsy selection. */
  function TicketQuery(selected: Option<string>): (q: Option<Query>)
    ensures q.None? <==> !Truthy(selected)
    ensures q.Some? ==> forall docs: seq<TicketDoc> :: Admits(q.value, docs) <==>
      && (forall i :: 0 <= i < |docs| ==> docs[i].data.eventId == selected.value)
      && (forall i, j :: 0 <= i < j < |docs| ==> docs[i].data.createdAt >= docs[j].data.createdAt)
      && DistinctIds(docs)
  {
    if Truthy(selected) then Some(Query("Tickets", "eventId", "==", selected.value, "createdAt", Desc))
    else None
  }

  /**
   * A snapshot of the selected event's query gives a map whose tickets all
   * belong to that event and whose values, and both views, are newest first.
   */
  lemma SelectedTicketsView(selected: string, docs: seq<TicketDoc>)
    requires Truthy(Some(selected)) && Admits(TicketQuery(Some(selected)).value, docs)
    ensures forall t :: t in Values(SnapshotMap(docs)) ==> t.eventId == selected
    ensures NewestFirst(Values(SnapshotMap(docs)))
    ensures forall t :: t in ActiveTickets(SnapshotMap(docs)) ==> t.eventId == selected
    ensures forall t :: t in CancelledTickets(SnapshotMap(docs)) ==> t.eventId == selected
    ensures NewestFirst(ActiveTickets(SnapshotMap(docs))) && NewestFirst(CancelledTickets(SnapshotMap(docs)))
  {
    var m := SnapshotMap(docs);
    SnapshotMapInOrder(docs);
    var vs := Values(m);
    assert forall i :: 0 <= i < |vs| ==> vs[i] == Stamp(docs[i]);
    assert NewestFirst(vs);
    FiltersNewestFirst(m);
  }

  /** The value of a store that starts `undefined`. */
  datatype StoreValue = Undefined | Loaded(tickets: TicketMap)

  /** What `onSnapshot` returns, or the inert `() => {}` outside the browser. */
  datatype Unsubscribe = NoOp | Detach(listener: nat)

  /**
   * `cancelledTickets` over the store's value; `None` while the store is
   * still `undefined`, where `$ticketValue.values()` throws.
   */
  function CancelledView(v: StoreValue): (r: Option<seq<Ticket>>)
    ensures r.Some? <==> v.Loaded?
    ensures r.Some? ==> forall t :: t in r.value <==> t in Values(v.tickets) && IsCancelled(t)
  {
    if v.Loaded? then Some(CancelledTickets(v.tickets)) else None
  }

  /** `activeTickets` over the store's value; `None` while it is `undefined`. */
  function ActiveView(v: StoreValue): (r: Option<seq<Ticket>>)
    ensures r.Some? <==> v.Loaded?
    ensures r.Some? ==> forall t :: t in r.value <==> t in Values(v.tickets) && !IsCancelled(t)
  {
    if v.Loaded? then Some(ActiveTickets(v.tickets)) else None
  }

  /**
   * Both views exist exactly when the store holds a map, and then they
   * split its values between them.
   */
  lemma StoreViewsPartition(v: StoreValue)
    ensures CancelledView(v).Some? <==> v.Loaded?
    ensures ActiveView(v).Some? <==> v.Loaded?
    ensures v.Loaded? ==>
      && multiset(CancelledView(v).value) + multiset(ActiveView(v).value) == multiset(Values(v.tickets))
      && multiset(CancelledView(v).value) !! multiset(ActiveView(v).value)
      && |CancelledView(v).value| + |ActiveView(v).value| == |v.tickets|
  {
    if v.Loaded? {
      ViewsPartitionMap(v.tickets);
    }
  }

  /**
   * `selectedEventId` and the `ticketValue` store derived from it.
   * `listeners` are the snapshot listeners attached so far, by index: the
   * derived callback drops the unsubscribe `handleQuerySnapshot` returns,
   * so none is ever detached and each keeps calling `set`.
   */
  class TicketValueStore {
    const browser: bool
    var selectedEventId: Option<string>
    var listeners: seq<Query>
    var value: StoreValue

    ghost predicate Valid()
      reads this
    {
      && (!browser ==> listeners == [] && value == Undefined)
      && (value.Loaded? ==> DistinctKeys(value.tickets) && Stamped(value.tickets))
    }

    constructor (browser: bool)
      ensures Valid() && this.browser == browser
      ensures selectedEventId == None && listeners == [] && value == Undefined
    {
      this.browser := browser;
      selectedEventId := None;
      listeners := [];
      value := Undefined;
    }

    /** Attach a snapshot listener for `q` in the browser; do nothing elsewhere. */
    method HandleQuerySnapshot(q: Query) returns (unsubscribe: Unsubscribe)
      requires Valid()
      modifies this`listeners
      ensures Valid()
      ensures browser ==> listeners == old(listeners) + [q] && unsubscribe == Detach(|old(listeners)|)
      ensures !browser ==> listeners == old(listeners) && unsubscribe == NoOp
    {
      if browser {
        unsubscribe := Detach(|listeners|);
        listeners := listeners + [q];
      } else {
        unsubscribe := NoOp;
      }
    }

    /**
     * `selectedEventId.set(id)`: a changed value reruns the derived
     * callback, which opens a listener for a truthy id and otherwise does
     * nothing. The published map is not cleared.
     */
    method Select(id: Option<string>)
      requires Valid()
      modifies this
      ensures Valid()
      ensures selectedEventId == id && value == old(value)
      ensures listeners ==
        if id != old(selectedEventId) && browser && Truthy(id) then old(listeners) + [TicketQuery(id).value]
        else old(listeners)
    {
      if id != selectedEventId {
        selectedEventId := id;
        var q := TicketQuery(id);
        if q.Some? {
          var _ := HandleQuerySnapshot(q.value);
        }
      }
    }

    /** Listener `k` delivers a snapshot: the map is rebuilt from a fresh empty one. */
    method Push(k: nat, docs: seq<TicketDoc>)
      requires Valid()
      modifies this`value
      ensures Valid()
      ensures k < |listeners| ==> value == Loaded(SnapshotMap(docs)) && KeySet(value.tickets) == DocIds(docs)
      ensures k >= |listeners| ==> value == old(value)
    {
      if k < |listeners| {
        var data := BuildSnapshotMap(docs);
        value := Loaded(data);
      }
    }

    /** Listener `k` reports an error: an empty map is published. */
    method Fail(k: nat)
      requires Valid()
      modifies this`value
      ensures Valid()
      ensures k < |listeners| ==> value == Loaded([])
      ensures k >= |listeners| ==> value == old(value)
    {
      if k < |listeners| {
        value := Loaded([]);
      }
    }
  }

  /** A single-document store: `undefined` before any push, then `null` or the data. */
  datatype DocValue = Unset | Null | Present(data: EventAnalytics)

  /** `snap.data() ?? null`: a missing document reads `null`. */
  function DocSnapshotValue(data: Option<EventAnalytics>): (v: DocValue)
    ensures v != Unset
    ensures v == Null <==> data.None?
    ensures data.Some? ==> v == Present(data.value)
  {
    if data.Some? then Present(data.value) else Null
  }

  /**
   * `getStoreFromDocRef` applied to an analytics document, as created by
   * `createEventAnalyticsStore`.
   */
  class AnalyticsStore {
    const browser: bool
    var attached: bool
    var value: DocValue

    ghost predicate Valid()
      reads this
    {
      !browser ==> !attached && value == Unset
    }

    constructor (browser: bool)
      ensures Valid() && this.browser == browser && !attached && value == Unset
    {
      this.browser := browser;
      attached := false;
      value := Unset;
    }

    /** The readable's start callback, `handleDocSnapshot(ref, set)`. */
    method Start() returns (unsubscribe: Unsubscribe)
      requires Valid()
      modifies this`attached
      ensures Valid()
      ensures attached == browser
      ensures unsubscribe == if browser then Detach(0) else NoOp
    {
      if browser {
        attached := true;
        unsubscribe := Detach(0);
      } else {
        unsubscribe := NoOp;
      }
    }

    /** The stop callback: calls the unsubscribe the start callback returned. */
    method Stop()
      requires Valid()
      modifies this`attached
      ensures Valid() && !attached
    {
      attached := false;
    }

    /** The document listener delivers a snapshot; `data` is `None` for a missing document. */
    method Push(data: Option<EventAnalytics>)
      requires Valid()
      modifies this`value
      ensures Valid()
      ensures value == if attached then DocSnapshotValue(data) else old(value)
    {
      if attached {
        value := DocSnapshotValue(data);
      }
    }

    /** The document listener reports an error: `null` is published. */
    method Fail()
      requires Valid()
      modifies this`value
      ensures Valid()
      ensures value == if attached then Null else old(value)
    {
      if attached {
        value := Null;
      }
    }
  }
}
