/**
 * The availability and call-to-action decision of the event card
 * (components/EventCard.tsx): remaining capacity, the past-event test and
 * the RSVP button's label, `disabled` flag and link.
 */
module EventCard {
  import opened Wrappers
  import opened Db

  /** The four labels the button can show. */
  datatype Label = Closed | Loading | SoldOut | Rsvp

  /** The text the card renders for each label. */
  function LabelText(l: Label): (s: string)
    ensures s != [] && (s == "RSVP" <==> l == Rsvp)
  {
    match l
    case Closed => "CLOSED"
    case Loading => "loading..."
    case SoldOut => "SOLD OUT"
    case Rsvp => "RSVP"
  }

  /** The rendered `<Button>`. */
  datatype ButtonView = ButtonView(disabled: bool, caption: Label, href: string)

  /** What the card exposes: the capacity figure and, when rendered, the button. */
  datatype Card = Card(ticketsLeft: int, button: Option<ButtonView>)

  /** `analytics?.ticketsConfirmedCount ?? 0` */
  function Confirmed(analytics: Option<EventAnalytics>): int {
    if analytics.Some? then analytics.value.ticketsConfirmedCount else 0
  }

  /** `analytics?.ticketsOnHoldCount ?? 0` */
  function OnHold(analytics: Option<EventAnalytics>): int {
    if analytics.Some? then analytics.value.ticketsOnHoldCount else 0
  }

  /** Remaining capacity: quantity minus confirmed and on-hold tickets. */
  function TicketsLeft(quantity: int, analytics: Option<EventAnalytics>): (left: int)
    ensures analytics.None? ==> left == quantity
    ensures analytics.Some? ==>
      left + analytics.value.ticketsConfirmedCount + analytics.value.ticketsOnHoldCount == quantity
  {
    quantity - (Confirmed(analytics) + OnHold(analytics))
  }

  /**
   * The event lies in the past when its time minus now is negative
   * (`diffNow().toMillis() < 0`).
   */
  predicate IsPastEvent(eventTimeMs: int, nowMs: int) {
    eventTimeMs - nowMs < 0
  }

  /** Sold out: no capacity left and no external join link to bypass it. */
  predicate SoldOutCondition(ticketsLeft: int, joinLink: string) {
    ticketsLeft < 0 && joinLink == []
  }

  /** The `disabled` expression of the button, a disjunction of three tests. */
  predicate IsDisabled(past: bool, analytics: Option<EventAnalytics>, ticketsLeft: int, joinLink: string) {
    past || analytics.None? || SoldOutCondition(ticketsLeft, joinLink)
  }

  /** The nested conditional that chooses the label. */
  function ButtonLabel(past: bool, analytics: Option<EventAnalytics>, ticketsLeft: int, joinLink: string): Label {
    if past then Closed
    else if analytics.None? then Loading
    else if SoldOutCondition(ticketsLeft, joinLink) then SoldOut
    else Rsvp
  }

  /** The button's link: the join link when set, else the checkout page. */
  function Href(ev: Event): string {
    if ev.joinLink != [] then ev.joinLink else "/checkout/" + ev.id
  }

  /**
   * The card for `ev`, given the analytics record as fetched and the
   * current time. The fetch is awaited before rendering, so `None` means
   * the `EventsAnalytics` document does not exist: the card then keeps a
   * disabled "loading..." button.
   */
  function RenderCard(ev: Event, analytics: Option<EventAnalytics>, nowMs: int): (c: Card)
    // capacity, with each missing counter read as 0
    ensures analytics.None? ==> c.ticketsLeft == ev.quantity
    ensures analytics.Some? ==>
      c.ticketsLeft == ev.quantity - analytics.value.ticketsConfirmedCount - analytics.value.ticketsOnHoldCount
    // the button is rendered exactly when the event has an id
    ensures c.button.Some? <==> ev.id != []
    ensures c.button.Some? ==> c.button.value.href == (if ev.joinLink != [] then ev.joinLink else "/checkout/" + ev.id)
    // disabled exactly when the label is not RSVP
    ensures c.button.Some? ==> (c.button.value.disabled <==> c.button.value.caption != Rsvp)
    // a past event is closed whatever its capacity
    ensures c.button.Some? && ev.dateMs < nowMs ==> c.button.value.caption == Closed
    // a current event without analytics is loading
    ensures c.button.Some? && ev.dateMs >= nowMs && analytics.None? ==> c.button.value.caption == Loading
    // a current event with analytics is sold out iff over capacity without a join link, else RSVP
    ensures c.button.Some? && ev.dateMs >= nowMs && analytics.Some? ==>
      (c.button.value.caption == SoldOut <==> c.ticketsLeft < 0 && ev.joinLink == []) &&
      (c.button.value.caption == Rsvp <==> !(c.ticketsLeft < 0 && ev.joinLink == []))
  {
    var past := IsPastEvent(ev.dateMs, nowMs);
    var left := TicketsLeft(ev.quantity, analytics);
    var button :=
      if ev.id != [] then
        Some(ButtonView(IsDisabled(past, analytics, left, ev.joinLink),
                        ButtonLabel(past, analytics, left, ev.joinLink),
                        Href(ev)))
      else None;
    Card(left, button)
  }

  /** With analytics present, exactly zero tickets left still offers RSVP (the test is `< 0`). */
  lemma ZeroLeftIsRsvp(ev: Event, a: EventAnalytics, nowMs: int)
    requires ev.id != [] && ev.dateMs >= nowMs
    requires ev.quantity == a.ticketsConfirmedCount + a.ticketsOnHoldCount
    ensures RenderCard(ev, Some(a), nowMs).ticketsLeft == 0
    ensures RenderCard(ev, Some(a), nowMs).button == Some(ButtonView(false, Rsvp, Href(ev)))
  {
  }

  /**
   * The join link never changes the capacity figure; it can only turn a
   * SOLD OUT button into an enabled RSVP one (and change the link).
   */
  lemma JoinLinkOnlyAffectsButton(ev: Event, link: string, analytics: Option<EventAnalytics>, nowMs: int)
    ensures RenderCard(ev.(joinLink := link), analytics, nowMs).ticketsLeft == RenderCard(ev, analytics, nowMs).ticketsLeft
    ensures var b, b' := RenderCard(ev, analytics, nowMs).button, RenderCard(ev.(joinLink := link), analytics, nowMs).button;
      b.Some? && b'.Some? && b.value.caption != b'.value.caption ==>
        {b.value.caption, b'.value.caption} == {SoldOut, Rsvp}
  {
  }

  /** Over capacity, the card reads SOLD OUT without a join link and RSVP with one; the count is the same. */
  lemma OverbookedScenario(ev: Event, nowMs: int)
    requires ev.id != [] && ev.dateMs >= nowMs && ev.quantity == 50
    ensures var a := Some(EventAnalytics(ev.id, 48, 3));
      && RenderCard(ev.(joinLink := ""), a, nowMs) == Card(-1, Some(ButtonView(true, SoldOut, "/checkout/" + ev.id)))
      && RenderCard(ev.(joinLink := "https://example.org/join"), a, nowMs)
         == Card(-1, Some(ButtonView(false, Rsvp, "https://example.org/join")))
  {
  }
}
