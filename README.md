# Secret Santa draw and match storage of the event planner

This project models the storage layer of an event RSVP and potluck web
application: the `DatabaseStorage` object in `server/storage.ts`. The
object keeps three tables. Secret Santa participants have an id, a name,
gift preferences and an optional `matchedWithId`. Potluck items have an
id, a name and an optional assignee. The event configuration carries the
"draw completed" flag.

The centre of the model is the Secret Santa draw. It shuffles the
participants and matches each giver `shuffled[i]` with
`shuffled[(i + 1) % n]`. The model proves the result is a derangement:
everyone is matched and nobody is matched with themselves. It also
proves that every participant is the recipient of exactly one giver, and
that following the matches forms one single cycle through all
participants. The model also covers the reset, the two-step match lookup,
the lookup by name, and the item operations as frame-style updates.

Layout:

- `wrappers.dfy`: `Option`, for nullable columns and queries that can
  find no row.
- `schema.dfy`: the row types, and the id invariants that serial primary
  keys give (distinct ids, all at least 1).
- `tables.dfy`: the queries and bulk updates as functions of the rows,
  with their lemmas. The selects have no ORDER BY; the model fixes
  insertion order, so a `select ... where` destructured to its first row
  is a search for the first matching row in that order. An
  `update ... where` rewrites the matching rows.
- `draw.dfy`: the draw as a function `Drawn(rows, shuffled)`, and the
  lemmas about it.
- `storage.dfy`: `class DatabaseStorage`. Its tables are `seq` fields and
  its serial id counters are `int` fields. Its methods update them in
  place. The draw is a `for` loop with invariants, proved to leave the
  table equal to `Drawn(old(participants), shuffled)`.

Modelling choices:

- The shuffle `[...participants].sort(() => Math.random() - 0.5)` is the
  parameter `shuffled` of `PerformSecretSantaDraw`. The method requires
  that `shuffled` holds exactly the participant rows in some order
  (`multiset(shuffled) == multiset(participants)`). The draw is proved
  for every such order.
- `getSecretSantaMatch` tests `!participant?.matchedWithId`. That test is
  JavaScript truthiness, so a null reference and the id 0 both mean "no
  match". The model keeps both cases. Serial ids start at 1, so the
  second case never arises for stored rows.
- Only the client compares names case-insensitively
  (client/src/components/forms/SecretSantaSection.tsx:32); the storage
  lookup at server/storage.ts:121 compares exactly, and so does the model.
- Reading or writing the configuration always goes through
  `getEventConfig`, which inserts a default row when there is none. The
  model takes the default flag to be false. So `updateEventConfig`'s
  "no existing row" branch (`server/storage.ts:48-54`) cannot be reached,
  and the model has no such branch.
- Each database call is one sequential step on in-memory state. The
  `getAll*` readers are the `participants` and `items` fields themselves.

## Model

| member | source | states |
|---|---|---|
| `Tables.IndexOfId` | server/storage.ts:126-129 | the lookup by id finds the first row carrying that id, or nothing exactly when no row carries it |
| `Tables.IndexOfRow` | server/storage.ts:126-129 | with serial (distinct) ids, looking up a row's own id finds that row |
| `Tables.ParticipantByName` | server/storage.ts:117-123 | the result has exactly the requested name and is the first such row in insertion order; nothing is returned exactly when no participant has that name |
| `Tables.Match` | server/storage.ts:125-139 | a returned recipient is a row of the table with a non-zero id, and some row with the giver's id names it in `matchedWithId`; an unknown giver id gives nothing |
| `Tables.MatchIff` | server/storage.ts:125-139 | with distinct ids, the lookup returns q exactly when the giver's row holds q's non-zero id in `matchedWithId` and q is a row of the table (both directions) |
| `Tables.ClearedKeepsRows` | server/storage.ts:170-172 | clearing the matches keeps every row with its id, name and preferences, leaves every `matchedWithId` null, and clearing twice is clearing once |
| `Tables.ClearedHasNoMatch` | server/storage.ts:131 | after the matches are cleared, the match lookup returns nothing for every id |
| `Tables.NewRowUnmatched` | server/storage.ts:109-115 | a participant added with no match (for example after a draw) has no match to reveal, whatever the rest of the table holds |
| `Tables.IndexOfNewRow` | server/storage.ts:109-115 | a row appended under a fresh id is the one the lookup by id finds |
| `Tables.IndexOfNameAppended` | server/storage.ts:117-123 | a row appended under a name no earlier row has is the one the name lookup finds |
| `Tables.ItemById` | server/storage.ts:83-88 | a returned item is a row of the table with that id; nothing exactly when no row has it |
| `Tables.ItemByIdAppended` | server/storage.ts:70-76 | an item appended under a fresh id is found by its id |
| `Tables.WithoutItem` | server/storage.ts:78-80 | deleting keeps exactly the rows whose id differs; afterwards that id is absent, and the lookup of every other id is unchanged |
| `Tables.WithoutItemKeepsDistinct` | server/storage.ts:78-80 | deleting item rows keeps item ids distinct |
| `Tables.WithAssignee` | server/storage.ts:82-89 | setting the assignee keeps the length; only rows with that id get the new assignee; the lookup of that id sees the new assignee; lookups of other ids are unchanged |
| `Draw.NextIndexIsMod` | server/storage.ts:154 | the wrap-round successor index equals `(k + 1) % n`, and for n >= 2 it differs from k |
| `Draw.ShuffleFacts` | server/storage.ts:149 | a shuffle of a table with distinct ids has the same length and distinct ids, and each row of either sequence is found by id in the other |
| `Draw.DistinctRowsCountOnce` | server/storage.ts:149 | rows with distinct ids each occur at most once, so a shuffle cannot repeat a participant |
| `Draw.RepeatCountsTwice` | server/storage.ts:149 | a value at two positions of a sequence occurs at least twice in its multiset |
| `Draw.DrawnKeepsRows` | server/storage.ts:156-159 | the draw changes only `matchedWithId`: same length and the same ids, names and preferences; ids stay distinct and positive |
| `Draw.DrawnFollowsShuffle` | server/storage.ts:152-160 | each giver `shuffled[k]`'s row becomes `shuffled[k]` matched with the id of `shuffled[(k + 1) % n]`, so the last giver wraps to the first |
| `Draw.DrawnIsDerangement` | server/storage.ts:152-155 | with n >= 2, every participant gets a match, never their own id, always the id of a participant in the table |
| `Draw.DrawnIsBijection` | server/storage.ts:149-160 | every participant is some row's match, and no two rows share a match: each id is exactly one giver's recipient |
| `Draw.DrawnMatchStep` | server/storage.ts:125-160 | after the draw, revealing the match of `shuffled[k]` returns the row of `shuffled[(k + 1) % n]`, with its name and preferences |
| `Draw.DrawnReveals` | server/storage.ts:125-160 | after the draw, the match lookup for every `shuffled[i]` finds a row, and its id is `shuffled[(i + 1) % n].id` |
| `Draw.WalkAlongCycle` | server/storage.ts:131-138 | in a table where each `shuffled[c]` reveals its circular successor, m <= n reveal steps from `shuffled[k]` reach `shuffled[(k + m) % n]` |
| `Draw.DrawnWalk` | server/storage.ts:152-160 | after the draw, m <= n reveal steps from `shuffled[k]` reach `shuffled[(k + m) % n]` |
| `Draw.DrawnCycleCloses` | server/storage.ts:152-160 | following the matches n times from any participant comes back to that participant |
| `Draw.DrawnCycleHasNoShortcut` | server/storage.ts:152-160 | following the matches between 1 and n - 1 times never comes back to the start, so the cycle has no shorter loop |
| `Draw.DrawnCycleReachesAll` | server/storage.ts:152-160 | from any participant, every participant is reached in fewer than n steps, exactly as many steps as separate them in the shuffled order |
| `Draw.DrawnSummary` | server/storage.ts:141-166 | what a successful draw promises about the new table: rows kept, ids still distinct, everyone matched with someone else, each `shuffled[i]` revealing `shuffled[(i + 1) % n]` |
| `Draw.TwoParticipantsSwap` | server/storage.ts:152-155 | with exactly two participants, each is matched with the other |
| `Storage.DatabaseStorage.constructor` | server/storage.ts:179 | a new storage has empty tables, no configuration row, and a valid id state |
| `Storage.DatabaseStorage.GetEventConfig` | server/storage.ts:31-43 | returns the stored configuration; when there is none, inserts and returns the default with the flag false |
| `Storage.DatabaseStorage.UpdateEventConfig` | server/storage.ts:45-63 | a given flag is stored and returned; an absent flag keeps the stored value (false if the row was just created) |
| `Storage.DatabaseStorage.CreateItem` | server/storage.ts:70-76 | appends a row with the next serial id and returns it; the lookup by its id finds it; ids stay valid |
| `Storage.DatabaseStorage.DeleteItem` | server/storage.ts:78-80 | the item table becomes `WithoutItem(old items, id)`: only that id's rows go; ids stay valid |
| `Storage.DatabaseStorage.UpdateItemAssignee` | server/storage.ts:82-89 | the item table becomes `WithAssignee(old items, id, assignee)`; returns the updated row, or nothing exactly when no row had that id |
| `Storage.DatabaseStorage.CreateSecretSantaParticipant` | server/storage.ts:109-115 | appends a row with the next serial id and returns it; a new name is then found by the name lookup; a new row without a match reveals nothing |
| `Storage.DatabaseStorage.PerformSecretSantaDraw` | server/storage.ts:141-166 | returns true exactly when there are at least 2 participants. Below 2, participants and flag are unchanged. Otherwise the table becomes `Drawn(old, shuffled)` and the flag is set. Names and preferences never change. Everyone is matched, never with themselves, and each `shuffled[i]` reveals `shuffled[(i + 1) % n]` |
| `Storage.DatabaseStorage.ResetSecretSantaDraw` | server/storage.ts:168-176 | every match is cleared, with no row added or removed; the flag is false; the match lookup then returns nothing for every id |

## Left out

- The statistical quality of the shuffle, which relies on randomness and floating point. The model proves the draw for every order of the participants.
- The database driver, asynchrony and atomicity. The draw issues one update per row, so a failure partway or a concurrent reader could see a half-updated table. The model runs the loop as one sequential in-memory update.
- The `updatedAt` timestamp that `updateEventConfig` writes, which needs a clock.
- Every configuration column except the draw-completed flag. The default of that flag is taken to be false, because the schema file does not declare the column.
- The RSVP table (`getAllRsvps`, `createRsvp`), which takes no part in the Secret Santa draw.
- The REST handlers and the PIN check. `server/routes.ts` has no Secret Santa route, and no server code rejects a duplicate name: `createSecretSantaParticipant` accepts any name. The only guard is in the client, which hides the join form when a participant with the same name (ignoring case) is already listed (client/src/components/forms/SecretSantaSection.tsx:32,85).
- `Tables.ParticipantByName`: the selects at server/storage.ts:118-121, 126-129 and 133-136 have no ORDER BY, so the database may return rows in any order, notably after the draw's or the reset's updates. The model fixes insertion order, so with two participants of the same name "the first such row" is the model's choice; the source may return either.
- `Tables.IndexOfId`, `Tables.ItemById`: serial ids are unbounded integers in the model, while the `serial` columns are 32-bit; id overflow after 2^31 - 1 rows is not modelled.
- The client-side case-insensitive name comparison, a user-interface concern. The storage lookup modelled here is exact.
- Columns of the participant table beyond id, name, preferences and `matchedWithId`. The schema declaring that table is not part of this model; the columns are those `server/storage.ts` reads and writes.
