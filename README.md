# Ticket availability path of the KDD community site

This project is a verified Dafny model of the part of the site that tracks ticket
availability. It covers two source files.

- **components/EventCard.tsx**
  - remaining capacity: `ticketsLeft = quantity - (confirmed + onHold)`, with a missing
    analytics record read as 0;
  - the past-event test;
  - the four-way call-to-action button (CLOSED / loading... / SOLD OUT / RSVP) with its
    `disabled` flag and link;
  - the `convertAutolinksToLinks` rewrite of `<http(s)://…>` autolinks into Markdown links.
- **actions/firebase-action.ts**
  - the `id → ticket` map that `handleQuerySnapshot` rebuilds on every pushed snapshot;
  - the error fallbacks (an empty map, or `null`);
  - the non-browser no-op;
  - the selection-to-query builder of `ticketValue`;
  - the `cancelledTickets` / `activeTickets` views;
  - the single-document store of `getStoreFromDocRef` / `handleDocSnapshot`.

Modules:

- `Wrappers`: `Option`, which models `undefined` and absent fields.
- `Db`: the record shapes `DB.Ticket`, `DB.EventAnalytics` and `DB.Event` from `app.d.ts`.
- `EventCard`: pure functions for capacity and the button. `RenderCard` returns the capacity
  figure and the button, or no button when the event id is empty.
- `Autolinks`: the regular expression `<https?:\/\/[^\s]+>` with the `g` flag, modelled
  exactly. The greedy `[^\s]+` takes the whole whitespace-free run after the scheme, then
  gives characters back until a `>` follows. `IsAutolink` is an independent reference
  definition of the pattern, and `MatchLengthIsLongestAutolink` proves the matcher agrees
  with it.
- `TicketMaps`: a JavaScript `Map` as its entries in iteration order, with the semantics of
  `set`: an existing key keeps its place and a new key is appended. `BuildSnapshotMap` is the
  loop of `handleQuerySnapshot` and is proved equal to the fold `SnapshotMap`.
- `TicketFilters`: the two status filters and their partition and order lemmas.
- `FirebaseStores`: the query builder and two classes.
  - `TicketValueStore` holds `selectedEventId`, the attached listeners and the `ticketValue`
    value.
  - `AnalyticsStore` holds the document store's three states: undefined (`Unset`), `null`,
    or a value.
  - Firestore callbacks appear as `Push` / `Fail` method calls.
  - `browser` stands for `typeof window !== 'undefined'`.

Inputs supplied instead of computed:

- The clock and Luxon's date parsing: the event time and "now" are integers in milliseconds.
  The past test is `eventTimeMs - nowMs < 0`.
- Firestore server timestamps (`createdAt`): integers.
- JavaScript `number` fields (`quantity`, the counters): unbounded integers.

Behaviour of the code that the model keeps:

- **Listener teardown.** The derived callback of `ticketValue` (actions/firebase-action.ts:109-112)
  never returns the unsubscribe of `handleQuerySnapshot`. A new selection therefore adds a
  listener and never detaches the old one. Old listeners keep publishing into the same store,
  and the map is not reset on reselection. `TicketValueStore.Select` states exactly this:
  the value is unchanged and the listener list only grows.
- **Falsy selection.** A falsy selection opens no query and calls no `set`. So the store is
  never reset to an empty map; it keeps its previous value, or stays `undefined` when nothing
  has been pushed yet.
- **Filters on `undefined`.** While `ticketValue` is `undefined`, `$ticketValue.values()`
  throws. `CancelledView` / `ActiveView` return `None` in that state.
- **Sold-out boundary.** The live button uses `ticketsLeft < 0`, so exactly zero tickets left
  still shows RSVP. The `<= 0` variant appears only in the commented-out dialog at
  components/EventCard.tsx:79-114, which is not modelled.
- **One-shot analytics.** The card awaits the analytics record once (`getEventAnalytics`,
  components/EventCard.tsx:26), not through the live document store. `RenderCard` takes the
  record as an `Option` argument. `getEventAnalytics` returns `snapshot.data()`
  (actions/firebase-action.ts:162-165), which is `undefined` exactly when the `EventsAnalytics`
  document is missing. So `None` means a missing document, and the card then shows a disabled
  "loading..." button for good.

## Model

| member | source | states |
|---|---|---|
| EventCard.TicketsLeft | components/EventCard.tsx:27-29 | missing analytics leaves the full quantity; otherwise left plus confirmed plus on-hold equals the quantity |
| EventCard.LabelText | components/EventCard.tsx:66-72 | every label renders non-empty text, and only RSVP renders "RSVP" |
| EventCard.RenderCard | components/EventCard.tsx:25-72 | capacity from the counters with 0 defaults; button present iff the id is non-empty; disabled iff the label is not RSVP; a past event is CLOSED; a current event without analytics is loading...; with analytics, SOLD OUT iff ticketsLeft < 0 and no join link, else RSVP |
| EventCard.ZeroLeftIsRsvp | components/EventCard.tsx:62-72 | exactly zero tickets left, with analytics present, gives an enabled RSVP button |
| EventCard.JoinLinkOnlyAffectsButton | components/EventCard.tsx:27-72 | changing the join link never changes ticketsLeft; it can only swap SOLD OUT and RSVP |
| EventCard.OverbookedScenario | components/EventCard.tsx:27-72 | quantity 50 with 48 confirmed and 3 on hold reports -1 left: SOLD OUT and disabled without a join link, enabled RSVP with one |
| Autolinks.SchemeLength | components/EventCard.tsx:16 | recognises exactly the `<https://` and `<http://` openings of the pattern |
| Autolinks.RunLength | components/EventCard.tsx:16 | the greedy `[^\s]+` run is whitespace-free and is stopped only by whitespace or the end |
| Autolinks.LastClose | components/EventCard.tsx:16 | backtracking stops at the last `>` of the run, after at least one character |
| Autolinks.MatchLength | components/EventCard.tsx:16 | a match is at least 10 characters long, starts with `<` and ends with `>` |
| Autolinks.MatchLengthIsLongestAutolink | components/EventCard.tsx:16 | the match is the longest prefix that is an autolink by the reference definition, and there is none when no prefix is |
| Autolinks.ConvertAutolinksToLinks | components/EventCard.tsx:15-22 | no contract of its own: the global `replace`, each match rewritten and the scan resumed after it; its meaning is given by NoAutolinkUnchanged, PlainPrefix, SingleAutolink and GreedyMergesAdjacentAutolinks |
| Autolinks.NoAutolinkUnchanged | components/EventCard.tsx:15-22 | text with no `<http://` or `<https://` anywhere is returned unchanged |
| Autolinks.PlainPrefix | components/EventCard.tsx:15-22 | text before the first `<` is copied through and the rest is converted on its own |
| Autolinks.SingleAutolink | components/EventCard.tsx:15-22 | `<U>` becomes `[U](U)` with the brackets removed whenever no `>` follows before the next whitespace, e.g. before `.` or at the end |
| Autolinks.AutolinkInText | components/EventCard.tsx:15-22 | the same holds for `<U>` after text that contains no `<` |
| Autolinks.WholeTextAutolink | components/EventCard.tsx:15-22 | a text that is exactly `<U>` becomes `[U](U)` |
| Autolinks.GreedyMergesAdjacentAutolinks | components/EventCard.tsx:16-20 | as written, `<U><V>` becomes a single link to `U><V`, which differs from the two links `[U](U)[V](V)` |
| Autolinks.StrictRunLength | components/EventCard.tsx:16 | the corrected run contains neither whitespace nor `>`, and is stopped only by one of them or the end |
| Autolinks.StrictMatchLength | components/EventCard.tsx:16 | a corrected match is at least ten characters long, starts with `<` and ends with `>` |
| Autolinks.StrictAutolinkSelfDelimiting | components/EventCard.tsx:16-20 | with `[^\s>]+`, `<U>` becomes `[U](U)` whatever text follows it |
| Autolinks.StrictSeparatesAdjacentAutolinks | components/EventCard.tsx:16-20 | with `[^\s>]+`, `<U><V>` becomes `[U](U)[V](V)` |
| TicketMaps.Keys | actions/firebase-action.ts:90 | the key list has one key per entry, in the Map's iteration order |
| TicketMaps.Values | actions/firebase-action.ts:152 | `[...map.values()]` has one value per entry, in iteration order |
| TicketMaps.Find | actions/firebase-action.ts:90 | returns the first position holding the key, and none exactly when the key is absent |
| TicketMaps.Get | actions/firebase-action.ts:90 | finds a value exactly for the keys in the map, and that key–value pair is an entry |
| TicketMaps.Set | actions/firebase-action.ts:90 | the key set gains k and (k, v) is an entry; a new key is appended at the end; an existing key keeps its position; no entry except (k, v) is new |
| TicketMaps.SetDistinct | actions/firebase-action.ts:90 | `set` keeps every key at most once |
| TicketMaps.SetGet | actions/firebase-action.ts:90 | after `set(k, v)`, `get(k)` is v and every other key's value is unchanged |
| TicketMaps.Stamp | actions/firebase-action.ts:90 | the stored value's `id` is the document id, overriding the data's own `id`; every other field is the document's |
| TicketMaps.SnapshotMap | actions/firebase-action.ts:88-92 | the map holds at most one entry per document; its keys, values and order are given by SnapshotMapShape, SnapshotMapGet and SnapshotMapInOrder |
| TicketMaps.SnapshotMapShape | actions/firebase-action.ts:88-92 | the pushed map's key set is exactly the pushed document ids, each key at most once, and each value's `id` equals its key |
| TicketMaps.SnapshotMapGet | actions/firebase-action.ts:88-92 | each key's value is the stamped data of the last document pushed with that id (reference definition `LastWithId`) |
| TicketMaps.SnapshotMapInOrder | actions/firebase-action.ts:88-92 | with distinct ids the map lists every document once, in snapshot order, as (id, stamped data) |
| TicketMaps.BuildSnapshotMap | actions/firebase-action.ts:87-93 | the fresh-map `for` loop computes the fold `SnapshotMap`: keys are exactly the document ids, values stamped, last document per id wins |
| TicketFilters.CancelledOf | actions/firebase-action.ts:151-153 | contains exactly the tickets whose status is cancelled |
| TicketFilters.ActiveOf | actions/firebase-action.ts:154-156 | contains exactly the tickets whose status is not cancelled, absent status included |
| TicketFilters.CancelledTickets | actions/firebase-action.ts:151-153 | holds at most as many tickets as the map, and exactly its cancelled values; ViewsPartitionMap gives the split and the order |
| TicketFilters.ActiveTickets | actions/firebase-action.ts:154-156 | holds at most as many tickets as the map, and exactly its values that are not cancelled; ViewsPartitionMap gives the split and the order |
| TicketFilters.FiltersPartition | actions/firebase-action.ts:151-156 | the two views together are the values with multiplicity, and their sizes sum to the number of values |
| TicketFilters.FiltersDisjoint | actions/firebase-action.ts:151-156 | no ticket is in both views |
| TicketFilters.FiltersKeepOrder | actions/firebase-action.ts:151-156 | each view is a subsequence of the values, keeping their order |
| TicketFilters.SubsequenceNewestFirst | actions/firebase-action.ts:142 | dropping elements from a newest-first list leaves it newest first |
| TicketFilters.FiltersNewestFirst | actions/firebase-action.ts:142-156 | over a newest-first map both views are newest first |
| TicketFilters.ViewsPartitionMap | actions/firebase-action.ts:151-156 | over a ticket map the views are disjoint, cover all values, have sizes summing to the map size, and keep map order |
| FirebaseStores.TicketQuery | actions/firebase-action.ts:137-144 | no query exactly for a falsy selection; otherwise a snapshot fits the query iff every ticket has that eventId, tickets are by createdAt descending, and ids are distinct |
| FirebaseStores.SelectedTicketsView | actions/firebase-action.ts:137-156 | a snapshot of the selected event's query yields a map, and both views, holding only that event's tickets, newest first |
| FirebaseStores.CancelledView | actions/firebase-action.ts:151-153 | a view exists exactly when the store holds a map, and then holds exactly its cancelled values |
| FirebaseStores.ActiveView | actions/firebase-action.ts:154-156 | a view exists exactly when the store holds a map, and then holds exactly its values that are not cancelled |
| FirebaseStores.StoreViewsPartition | actions/firebase-action.ts:151-156 | the views exist exactly when the store holds a map, and then they partition its values |
| FirebaseStores.TicketValueStore.constructor | actions/firebase-action.ts:134-135 | starts with no selection, no listener, value undefined |
| FirebaseStores.TicketValueStore.HandleQuerySnapshot | actions/firebase-action.ts:80-100 | in the browser it attaches one listener and returns its unsubscribe; elsewhere it attaches nothing and returns a no-op |
| FirebaseStores.TicketValueStore.Select | actions/firebase-action.ts:109-112 | records the selection; a changed truthy selection attaches one listener in the browser; the value is never cleared and no listener is detached |
| FirebaseStores.TicketValueStore.Push | actions/firebase-action.ts:87-93 | a push from an attached listener replaces the value with a map rebuilt from that push alone |
| FirebaseStores.TicketValueStore.Fail | actions/firebase-action.ts:94-97 | an error from an attached listener publishes the empty map |
| FirebaseStores.DocSnapshotValue | actions/firebase-action.ts:122 | a missing document gives `null`, an existing one its data, never undefined |
| FirebaseStores.AnalyticsStore.constructor | actions/firebase-action.ts:131 | the document store starts undefined |
| FirebaseStores.AnalyticsStore.Start | actions/firebase-action.ts:115-129 | a listener is attached only in the browser; elsewhere the unsubscribe is a no-op |
| FirebaseStores.AnalyticsStore.Stop | actions/firebase-action.ts:119-128 | calling the unsubscribe leaves no listener attached |
| FirebaseStores.AnalyticsStore.Push | actions/firebase-action.ts:122 | a push publishes the data, or `null` for a missing document; with no listener attached nothing changes |
| FirebaseStores.AnalyticsStore.Fail | actions/firebase-action.ts:123-126 | an error publishes `null` |

## Left out

- `createUser`, `fetchTickets` and `fetchTicket` (actions/firebase-action.ts:17-73): Firebase Auth and Firestore I/O wrapped in try/catch that logs the error and rethrows or returns a default (`[]`, `null`).
- `getEventAnalytics` (actions/firebase-action.ts:162-165): a single `getDoc` with no try/catch, so a Firestore error rejects the promise and the card does not render. The card receives the record's `snapshot.data()` as an `Option` argument instead.
- The Firestore `onSnapshot` transport and the Svelte `writable` / `derived` / `readable` runtime. The model keeps only the effect of every callback: the value passed to `set`. It assumes the derived stores are subscribed. Svelte starts a derived store only while something subscribes to it.
- `createEventAnalyticsStore`'s document path `EventsAnalytics/<id>`, and the `Query` objects of the Firestore SDK. A query is a plain descriptor. Only the shape the file builds is given a meaning (`Admits`).
- The `console.error` logging on the error paths.
- The generic `T` of the snapshot handlers: the model instantiates it with `DB.Ticket` for queries and `DB.EventAnalytics` for documents.
- `selectedTicket` (actions/firebase-action.ts:146-150): an object literal that only re-exports `ticketValue`.
- Luxon: `DateTime.fromISO`, `diffNow` and `toFormat`. An unparsable date gives NaN in the source, so such an event is never past. The model takes the event time as an integer and does not capture this case.
- JavaScript `number` semantics: fractional or non-finite quantities and counters are not captured; all are integers.
- A present analytics record with a missing or `null` counter: the source reads that counter as 0 (`?? 0`, components/EventCard.tsx:27-29), but `Db.EventAnalytics` always carries both counters.
- Rendering: `MDXRemote`, `Image` and the rest of the JSX, the commented-out dialog and style blocks (components/EventCard.tsx:79-139), and app/layout.tsx.
- The KoFi webhook shape and the other declarations of app.d.ts, which the availability path does not read.
- Listener teardown and reset on reselection: the code does neither, so the model has none. `TicketValueStore.Select` states their absence.

## Findings

| source | as written | input that shows it | evidently intended | confidence | as-written member | corrected member |
|---|---|---|---|---|---|---|
| components/EventCard.tsx:16 | `[^\s]+` also matches `>`, so the greedy match runs on to the last `>` before whitespace | `<https://a.org><https://b.org>` becomes one link to `https://a.org><https://b.org` | each autolink `<U>` becomes its own link `[U](U)`, as with `[^\s>]+` | low (not executed; by Autolinks.SingleAutolink only a `>` later in the same word, as with back-to-back autolinks, changes the result) | Autolinks.GreedyMergesAdjacentAutolinks | Autolinks.StrictAutolinkSelfDelimiting |
