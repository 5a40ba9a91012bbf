# Live dashboard view reconciler

A model of the client-side view reconciler of the `public.measurements`
live dashboard, `app/page.tsx`. The page holds a local view of rows, fed by
two independent effects. One effect runs a one-shot load of the newest 50
rows and assigns its result to the view. The other merges every INSERT and
UPDATE notification from the change channel into the view. Changes may
arrive before or after the load. The merge drops any row with the incoming
id, puts the incoming row at position 0 and cuts the view to 200 rows, so
every change leaves at most 200 rows. A separate status
machine follows the channel's status notifications, and each status has a
German label on the status card.

Modules, one per concern of the page:

- `Measurements` (measurements.dfy): the row type `Measurement`. Its reading
  is the opaque type `Reading`, because the merge never looks at it. The
  file also holds `View`, `MaxRows = 200` and the vocabulary the contracts
  use: `IdCount`, `DistinctIds` and `IsSubsequence`.
- `ViewMerge` (view_merge.dfy): the filter `WithoutId` and the updater
  `ApplyChange`. One function stands for both textually identical
  handlers. `HandleChange` dispatches on the INSERT or UPDATE kind. The
  module also holds the `latest` selector, `Replay` (a stream of changes
  applied in arrival order) and the lemmas about all of these.
- `Snapshot` (snapshot.dfy): the end of the initial load. The result is a
  missing client, a failed query, or data that may be null. `ApplySnapshot`
  gives the page's new rows, loading flag and error message.
- `RealtimeStatus` (realtime_status.dfy): the four connection states, the
  `subscribe` callback as `NextStatus`, its fold over a stream of
  notifications, and the status label.
- `Dashboard` (dashboard.dfy): the page's React state as the class `Page`.
  Its methods are the effect callbacks, and they update the fields in
  place.
- `Scenarios` (scenarios.dfy): worked examples. Three changes on an empty
  view; 201 new rows that evict the oldest; a load that replaces streamed
  rows. The method `PageWalkthrough` drives one `Page` through a load, a
  change, ignored and recognized notifications and an unmount, asserting
  the state after each step; it has no contract of its own.

In three places the code promises less than it may appear to; the model
follows the code:

- The loaded data is assigned unchecked (`data ?? []`). The bound and the
  distinct-ids invariant therefore hold after a load only when the loaded
  rows have them (`Page.OnSnapshot`); see "## Left out".
- A successful load does not clear an earlier error message. The code never
  resets `errorMessage`.
- The missing-client branches of both effects are part of the code, so they
  are modelled. For the load effect this is `SnapshotResult.ClientMissing`,
  with its own message. For the channel effect this is
  `Page.OnChannelClientMissing`, which sets status `error`.

## Model

| member | source | states |
|---|---|---|
| `ViewMerge.WithoutId` | app/page.tsx:71 | the filtered view has no row with the id and has exactly as many rows as the view had other-id rows; it is an order-preserving subsequence of the old view |
| `ViewMerge.WithoutIdMembers` | app/page.tsx:71 | a row is in the filtered view if and only if it was in the old view and carries another id |
| `ViewMerge.WithoutIdKeepsDistinct` | app/page.tsx:71 | filtering keeps ids pairwise distinct |
| `ViewMerge.WithoutAbsentId` | app/page.tsx:71 | filtering out an id no row carries returns the view unchanged |
| `ViewMerge.WithoutIdIsUnique` | app/page.tsx:71 | any order-preserving subsequence that avoids the id and keeps all other rows is the filtered view, so the filter is pinned down exactly |
| `ViewMerge.ApplyChange` | app/page.tsx:70-74 | the incoming row is at position 0 whatever its ts; length is min(200, 1 + number of old rows with another id), so never above 200; no later row carries the incoming id; the rows after position 0 are a prefix of the filtered old view |
| `ViewMerge.ApplyChangeKeepsOrder` | app/page.tsx:71-73 | the rows after position 0 keep their old relative order: they form a subsequence of the old view |
| `ViewMerge.ApplyChangeKeepsNewestOthers` | app/page.tsx:71-73 | the rows after position 0 are exactly the first rows of the old view that carry another id, as many as fit; below the cap, all of them |
| `ViewMerge.ApplyChangeAddsNothing` | app/page.tsx:71-73 | every row of the new view is the incoming row or an unmodified row of the old view |
| `ViewMerge.ApplyChangeKeepsDistinct` | app/page.tsx:71-73 | if the old view had pairwise-distinct ids, so does the new one |
| `ViewMerge.HandleChange` | app/page.tsx:68-87 | both change handlers run the shared updater on the post-change row |
| `ViewMerge.InsertAndUpdateCoincide` | app/page.tsx:70-86 | the INSERT and UPDATE handlers produce the same view from the same payload |
| `ViewMerge.ChangeOfAbsentIdPrepends` | app/page.tsx:82-86 | an UPDATE (or INSERT) for an id absent from the view just prepends the row, cut at 200 |
| `ViewMerge.LaterChangeSupersedes` | app/page.tsx:70-74 | two changes for the same id in a row leave the view the second change alone would give: only the second row image, at position 0 |
| `ViewMerge.ApplyChangeIdempotent` | app/page.tsx:70-74 | applying the same change twice in a row gives the same view as applying it once |
| `ViewMerge.Latest` | app/page.tsx:100 | latest is null exactly for an empty view and otherwise the row at position 0 |
| `ViewMerge.LatestIsIncoming` | app/page.tsx:100 | after any change, latest is the incoming row |
| `ViewMerge.Replay` | app/page.tsx:68-87 | after a non-empty stream of changes applied in arrival order, latest is the last change received |
| `ViewMerge.ReplayKeepsInvariant` | app/page.tsx:68-87 | over any stream of changes the view stays within 200 rows with distinct ids, given a start that was |
| `ViewMerge.ReplayDistinctStream` | app/page.tsx:70-74 | from an empty view, changes with distinct ids leave the newest 200 of them, newest first |
| `Snapshot.ApplySnapshot` | app/page.tsx:25-47 | loading ends on every path; data replaces the view wholesale and null data empties it, leaving the message alone; a failed query or a missing client keeps the view and sets its fixed message |
| `Snapshot.SnapshotForgetsPriorRows` | app/page.tsx:44 | the outcome of a successful load does not depend on the rows held before: replace, not merge |
| `Snapshot.SnapshotRowsChangeOnlyWhenLoaded` | app/page.tsx:41-45 | only a successful load can change the view |
| `Snapshot.SnapshotErrorIffFailed` | app/page.tsx:27-45 | starting without a message, the load sets one if and only if it failed |
| `RealtimeStatus.NextStatus` | app/page.tsx:89-93 | SUBSCRIBED gives active, CHANNEL_ERROR gives error, CLOSED gives closed, any other notification keeps the status; nothing leads back to initializing |
| `RealtimeStatus.UnrecognizedKeepStatus` | app/page.tsx:89-93 | a stream of notifications the callback ignores leaves the status unchanged |
| `RealtimeStatus.StatusIsLastRecognized` | app/page.tsx:89-93 | after a stream of notifications, the status is the one the last recognized notification sets |
| `RealtimeStatus.NeverBackToInitializing` | app/page.tsx:89-93 | once the status has left initializing, no notification stream brings it back |
| `RealtimeStatus.StatusLabel` | app/page.tsx:149-155 | active is shown as "aktiv", error as "Fehler", closed as "geschlossen", initializing as "verbinden…", each in both directions |
| `RealtimeStatus.StatusLabelInjective` | app/page.tsx:149-155 | distinct states get distinct labels |
| `Dashboard.Page.constructor` | app/page.tsx:16-19 | the page starts with no rows, loading, no error message and status initializing, mounted |
| `Dashboard.Page.OnSnapshot` | app/page.tsx:21-48 | while mounted, the load state becomes ApplySnapshot of the old one; once unmounted, nothing is applied; a well-formed view stays well-formed when the loaded rows are well-formed |
| `Dashboard.Page.OnChange` | app/page.tsx:68-87 | the rows become the shared updater's result; latest is the incoming row, at most 200 rows, and a well-formed view stays well-formed |
| `Dashboard.Page.OnStatus` | app/page.tsx:89-93 | the status becomes NextStatus of the old status and the notification |
| `Dashboard.Page.OnChannelClientMissing` | app/page.tsx:57-61 | without a backend client the channel status is error |
| `Dashboard.Page.Unmount` | app/page.tsx:50-52 | the cleanup clears isMounted, and repeating it is harmless |
| `Scenarios.ChangeSequence` | app/page.tsx:70-74 | rows 1 and 2 arrive, then row 1 with new fields: the views are [1], [2, 1] and [1 (new fields), 2] |
| `Scenarios.EvictionOfTheOldest` | app/page.tsx:70-74 | 201 rows with ids 1..201 leave 200 rows with ids 201 down to 2 |
| `Scenarios.SnapshotAfterChanges` | app/page.tsx:44 | a load arriving after streamed changes leaves exactly its own rows (or none for null data), discarding the streamed ones |

## Left out

- Dashboard.Page.OnSnapshot: keeps the view within 200 rows with distinct ids only for loaded rows that already are so. The code assigns the result unchecked. At most 50 rows come only from the query's `.limit(50)` (app/page.tsx:37), and distinct ids only from the table's primary key; neither is visible to the page.

- Rendering: the JSX, CSS classes, the status dot colours and layout (app/page.tsx:106-203, app/layout.tsx). These are presentation with no state change to model.
- `formatPercent` (app/page.tsx:102), because it uses floating-point `toFixed`. `formatTs` (app/page.tsx:103-104), because it uses `Date` and locale formatting.
- The backend query and the channel calls (app/page.tsx:33-37, 63-67, 96) are I/O through the vendor SDK. Their outcomes enter the model as parameters: a `SnapshotResult`, a change row with its kind, and a status notification string.
- Releasing the channel in the cleanup (app/page.tsx:95-97). That no change callback runs after release is a promise of the vendor SDK. The handlers themselves do not check it, so `Page.OnChange` and `Page.OnStatus` stay unguarded.
- Concurrency: the race between the asynchronous load and the change stream. Each callback is modelled as one atomic step, in any order the caller chooses. `Scenarios.SnapshotAfterChanges` shows the accepted outcome of a load that lands after some changes.
- lib/supabase.ts: a memoising wrapper around the vendor client factory. Its only logic is a null check on a cached global. Its failure enters the model as `SnapshotResult.ClientMissing` and `Page.OnChannelClientMissing`.
- lib/env.ts: schema validation of the process environment through a library, plus a throw at module load (lib/env.ts:10-12). Because lib/supabase.ts:2-5 imports it, a missing or invalid environment throws before either effect runs. The catch branches at app/page.tsx:27-31 and 59-61 are then reached only when the vendor's `createClient` (lib/supabase.ts:12) throws, although their message speaks of missing environment variables. The model keeps these branches as the code has them.
- The `as Measurement` casts: payloads are taken to be well-typed rows, as the code assumes.
