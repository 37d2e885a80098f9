/**
 * The `cancelledTickets` and `activeTickets` views of
 * actions/firebase-action.ts: `[...map.values()].filter(...)` by status.
 */
module TicketFilters {
  import opened Wrappers
  import opened Db
  import opened TicketMaps

  /** `ticket.status === 'cancelled'`; an absent status is not cancelled. */
  predicate IsCancelled(t: Ticket) {
    t.status == Some(Cancelled)
  }

  /** `ts.filter(t => t.status === 'cancelled')` */
  function CancelledOf(ts: seq<Ticket>): (r: seq<Ticket>)
    ensures |r| <= |ts|
    ensures forall t :: t in r <==> t in ts && IsCancelled(t)
  {
    if ts == [] then []
    else if IsCancelled(ts[0]) then [ts[0]] + CancelledOf(ts[1..])
    else CancelledOf(ts[1..])
  }

  /** `ts.filter(t => t.status !== 'cancelled')` */
  function ActiveOf(ts: seq<Ticket>): (r: seq<Ticket>)
    ensures |r| <= |ts|
    ensures forall t :: t in r <==> t in ts && !IsCancelled(t)
  {
    if ts == [] then []
    else if !IsCancelled(ts[0]) then [ts[0]] + ActiveOf(ts[1..])
    else ActiveOf(ts[1..])
  }

  /** `cancelledTickets`: the cancelled values of the ticket map, in iteration order. */
  function CancelledTickets(m: TicketMap): (r: seq<Ticket>)
    ensures |r| <= |m|
    ensures forall t :: t in r <==> t in Values(m) && IsCancelled(t)
  {
    CancelledOf(Values(m))
  }

  /** `activeTickets`: every other value, absent status included. */
  function ActiveTickets(m: TicketMap): (r: seq<Ticket>)
    ensures |r| <= |m|
    ensures forall t :: t in r <==> t in Values(m) && !IsCancelled(t)
  {
    ActiveOf(Values(m))
  }

  /** `a` is `b` with some elements dropped and the rest in their original order. */
  predicate IsSubsequence(a: seq<Ticket>, b: seq<Ticket>)
    decreases |b|
  {
    if a == [] then true
    else if b == [] then false
    else (a[0] == b[0] && IsSubsequence(a[1..], b[1..])) || IsSubsequence(a, b[1..])
  }

  /** Tickets ordered by `createdAt`, newest first. */
  predicate NewestFirst(ts: seq<Ticket>) {
    forall i, j :: 0 <= i < j < |ts| ==> ts[i].createdAt >= ts[j].createdAt
  }

  /** Every ticket is in exactly one of the two views, as often as it is among the values. */
  lemma {:induction false} FiltersPartition(ts: seq<Ticket>)
    ensures multiset(CancelledOf(ts)) + multiset(ActiveOf(ts)) == multiset(ts)
    ensures |CancelledOf(ts)| + |ActiveOf(ts)| == |ts|
  {
    if ts != [] {
      FiltersPartition(ts[1..]);
      assert ts == [ts[0]] + ts[1..];
    }
  }

  /** No ticket is both cancelled and active. */
  lemma FiltersDisjoint(ts: seq<Ticket>)
    ensures multiset(CancelledOf(ts)) !! multiset(ActiveOf(ts))
  {
    forall t | t in multiset(CancelledOf(ts)) ensures t !in multiset(ActiveOf(ts)) {
      assert t in CancelledOf(ts);
    }
  }

  /** Both views keep the map's iteration order. */
  lemma {:induction false} FiltersKeepOrder(ts: seq<Ticket>)
    ensures IsSubsequence(CancelledOf(ts), ts)
    ensures IsSubsequence(ActiveOf(ts), ts)
  {
    if ts != [] {
      FiltersKeepOrder(ts[1..]);
      SubsequenceOfTail(CancelledOf(ts[1..]), ts);
      SubsequenceOfTail(ActiveOf(ts[1..]), ts);
      if IsCancelled(ts[0]) {
        assert CancelledOf(ts)[1..] == CancelledOf(ts[1..]);
      } else {
        assert ActiveOf(ts)[1..] == ActiveOf(ts[1..]);
      }
    }
  }

  lemma SubsequenceOfTail(a: seq<Ticket>, b: seq<Ticket>)
    requires b != [] && IsSubsequence(a, b[1..])
    ensures IsSubsequence(a, b)
  {
  }

  /** A subsequence of a newest-first list is newest first. */
  lemma {:induction false} SubsequenceNewestFirst(a: seq<Ticket>, b: seq<Ticket>)
    requires IsSubsequence(a, b) && NewestFirst(b)
    ensures NewestFirst(a)
    ensures forall t :: t in a ==> t in b
    decreases |b|
  {
    if a != [] {
      assert NewestFirst(b[1..]) by {
        forall i, j | 0 <= i < j < |b[1..]| ensures b[1..][i].createdAt >= b[1..][j].createdAt {
          assert b[1..][i] == b[i + 1] && b[1..][j] == b[j + 1];
        }
      }
      if a[0] == b[0] && IsSubsequence(a[1..], b[1..]) {
        SubsequenceNewestFirst(a[1..], b[1..]);
        forall t | t in a ensures t in b {
          if t != a[0] { assert t in a[1..]; }
        }
        forall i, j | 0 <= i < j < |a| ensures a[i].createdAt >= a[j].createdAt {
          if i == 0 {
            assert a[j] == a[1..][j - 1] && a[j] in a[1..];
            var k :| 0 <= k < |b[1..]| && b[1..][k] == a[j];
            assert b[k + 1] == a[j];
          } else {
            assert a[i] == a[1..][i - 1] && a[j] == a[1..][j - 1];
          }
        }
      } else {
        SubsequenceNewestFirst(a, b[1..]);
      }
    }
  }

  /** Over a newest-first map both views are newest first. */
  lemma FiltersNewestFirst(m: TicketMap)
    requires NewestFirst(Values(m))
    ensures NewestFirst(CancelledTickets(m)) && NewestFirst(ActiveTickets(m))
  {
    FiltersKeepOrder(Values(m));
    SubsequenceNewestFirst(CancelledTickets(m), Values(m));
    SubsequenceNewestFirst(ActiveTickets(m), Values(m));
  }

  /**
   * The two views of a ticket map: disjoint, together exactly its values
   * (with multiplicity), sizes summing to the map's size, in map order.
   */
  lemma ViewsPartitionMap(m: TicketMap)
    ensures multiset(CancelledTickets(m)) + multiset(ActiveTickets(m)) == multiset(Values(m))
    ensures multiset(CancelledTickets(m)) !! multiset(ActiveTickets(m))
    ensures |CancelledTickets(m)| + |ActiveTickets(m)| == |m|
    ensures IsSubsequence(CancelledTickets(m), Values(m)) && IsSubsequence(ActiveTickets(m), Values(m))
  {
    FiltersPartition(Values(m));
    FiltersDisjoint(Values(m));
    FiltersKeepOrder(Values(m));
  }
}
