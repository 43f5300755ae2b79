# A verified model of bestiario

bestiario reads the public Nostr events of Mostro instances, keeps every version of
them in a database, and reports figures over them. This project models the parts of it
whose correctness is hardest to see and proves, for all inputs and all runs, what they
promise.

- **The archive.** `Pipeline.Step` is one delivered event going through admission,
  vouching, parsing, the retention rule, deduplication, projection and the cursor;
  `Database.Store` is the same step rewriting the tables in place. `Admission` and
  `Answers` say of the event and the archive alone what is let in and what every delivery
  is answered. `Reachability` states
  what every reachable database satisfies, `Confluence` that arrival order does not
  matter, `Rebuild` and `Renaming` what comes back when the derived tables are thrown
  away and replayed, `Bestiary` what the publishers' rows say.
- **The walks over relays.** `Requests` is what a relay is asked for, `Backfill` pages
  backwards through one relay's history, `Harvest` is what a walk of an untagged kind
  brings home, `Discovery` follows relay lists in rounds, `Priming` orders the two
  subscriptions of a live run. A relay is whatever sequence of answers it may give.
- **Lossy and narrowed forms that must agree with the simple ones.** `Heartbeats` and
  `FeeHistory` (announcements dropped as unchanged), `Rates` (an indexed, searched,
  cut-off lookup against one look at everything), `Timing` (a report over the orders
  that can matter).
- **The calendar and the figures.** `Calendar`, `Tiling` and `Windows` cut a window into
  buckets; `Tallies`, `Activity`, `Cases`, `Disputes`, `DevFees`, `Volume`, `Market` and
  `Percentiles` are what is counted over them. `Counting` and `Quantiles` say each figure
  again as the size of a set of orders, disputes or fees picked by their own columns.
- **The csv columns.** `Csv` writes and reads them, `CsvFields` is a grammar of every text
  there is.

## How the model is built

Signature checking and the per-kind parsers are uninterpreted functions (`Schema.Parsers`),
so every result holds whatever they answer; the two announcement kinds are read through
the multiset of their tags, which is what their parsers depend on. Event ids and public
keys are the numbers their fixed-width hex spells, ordered as the strings are. Tables are
finite maps; `ORDER BY … LIMIT 1`, `MIN` and `MAX` are unique newest, oldest and least
elements (`Ranking`), the newest being the latest clock and then the lowest id, as the
"Kinds" section of NIP-01 has it. A transaction is one atomic step, and a run may abort
any of them. Ids name one event each where a result needs it (`Confluence.CollisionFree`),
as a hash does.

## Where the code and its documentation part

Following the code:

- **Arrival order and names.** `instances::upsert` says that replaying the same events in
  any order leaves the same row. It does exactly when the newest events that carry a name
  carry the same one (`Bestiary.OrderMattersOnlyInATie`).
- **Heartbeat retention.** Dropping unchanged announcements keeps every answer about the
  fee in force if and only if each one missing that names a fee, and that no other of its
  second to name one supersedes, has a stand-in: the newest one kept that names a fee, no
  later than it, names the same (`Heartbeats.RetentionIsExact`). That is so whenever nothing that
  belongs in between arrives after the drop with another fee
  (`Heartbeats.RetentionKeepsTheFee`), hence in forward order and in the order of a
  backwards walk; a late announcement in between can break it
  (`Heartbeats.LateNoticeMisleads`).
- **Backfill's "the walk always moves".** The filter clamps its upper bound at zero. With
  a floor in the century before the epoch and a relay that holds an event stamped zero,
  the walk asks for second zero for ever; otherwise it always ends
  (`Backfill.WalkEndsUnlessItStalls`).
- **What backfill can lose.** A walk that ends by itself hands over everything
  the relay holds in the window if and only if no second of it holds more events than one
  answer carries (`Backfill.CompleteExactlyWhen`).
- **Buckets cover a window.** They do exactly when the walk can start and the window ends
  by the last opening a date can represent: the walk asks for the opening after the one
  it stands at, so the last period of the calendar is never a bucket, and the first week
  has no Monday to start from (`Windows.BucketsCoverTheWindow`).
- **The period before.** Of two whole buckets of a window the first is the window before
  the second. Of a clipped one, the day or the week before is always a window of the same
  length; the month or the year before is one unless both bounds fold onto one day there,
  the later no later in it (`Windows.PrecedingKeepsOrder`). That happens at the end of a
  month longer than the one before it, and on 29 February
  (`Windows.PrecedingCanTurnAround`).
- **The push-down of the timing report** keeps every figure but `unknown_origin` and
  `regressed`, which fall short by exactly the orders left out (`Timing.PushDown`).
- **`rebuild`** gives back everything derived and the name history. A publisher's name
  comes back exactly when it was that of the newest archived event to say one, in a tie
  the one with the highest id (`Rebuild.RebuildRestoresTheName`): a replay takes one
  second in order of id, so a name whose event has the lower id and came last is lost
  (`Renaming.RebuildCanRename`). A first or last sighting comes back exactly when an
  archived event was published then (`Rebuild.RebuildRestoresSightings`); a redundant
  announcement moves the last sighting and is not archived (`Heartbeats.RebuildCanNarrow`).

## Model

| member | source | states |
|---|---|---|
| Ranking.Newest | src/db/repo/orders.rs:123-126 | the row picked is the one no other supersedes: latest clock, then lowest id |
| Ranking.Oldest | src/db/repo/dev_fees.rs:80-98 | the row picked is the earliest, in a tie the one with the lowest id |
| Ranking.Least | src/db/repo/orders.rs:127-136 | a minimum over no rows is missing, and over some rows is one of them that none is below |
| Events.SameTagsIsUpToOrder | src/db/repo/heartbeats.rs:101-116 | comparing sorted copies of the tags is comparing them as a multiset |
| Events.TagOrderDoesNotMatter | src/ingest/parse/mod.rs:106-133 | what a tag name reads as does not depend on the order of the tags |
| Events.TagValuesMeaning | src/ingest/parse/mod.rs:106-133 | a tag name reads as absent when no tag has it, and as the values of the one tag that has it when just one does |
| Events.TagsMeaning | src/ingest/parse/identity.rs:43-63 | an address is the first value of the one `d` tag; a publisher's name is the second value of the one `y` tag, without the space around it, unless that is all there is |
| Text.TrimMeaning | src/ingest/parse/identity.rs:59-63 | trimming takes a run of white space off either end, and what is left neither begins nor ends with any |
| Admission.AdmitMeaning | src/ingest/pipeline.rs:386-430 | let in is exactly an event that is signed, of a publisher listed or of anybody when unknown ones are accepted, of Mostro by its one `y` tag where the kind is tagged, and on no network or a wanted one where the kind has one |
| Admission.RejectionMeaning | src/ingest/pipeline.rs:386-430 | and each rejection names the first of these to fail |
| Projection.ProjectionMeaning | src/db/repo/orders.rs:109-162 | the order row dates its order by the first version, each outcome by the first version to reach it and its creation by the first tag, every date being that of some version and missing only when there is none; every other column is the latest version's |
| Projection.DisputeMeaning | src/db/repo/disputes.rs:74-113 | the opening and the initiator are those of the latest version to publish one and missing only when none did; the status, the publisher and the date of the last change are the latest version's |
| Projection.DeriveNew | src/ingest/pipeline.rs:476-528 | inserting one parsed event's rows and refreshing what they feed yields what recomputing everything from the larger archive yields |
| Grouping.NewRow | src/db/repo/orders.rs:109-162 | refreshing the one group a new version joins refreshes the whole projection |
| Grouping.RefreshRestores | src/db/repo/disputes.rs:74-113 | when every row but one group's is current, refreshing that group leaves the whole projection current, and adds no row for a group without versions |
| Grouping.NewFlaggedRow | src/db/repo/dev_fees.rs:49-98 | refreshing the flags of the one order a new fee pays for gives the flags of the whole table |
| Grouping.FlagsRestored | src/db/repo/dev_fees.rs:75-98 | when every flag but one order's is current, refreshing that order leaves all of them current |
| Grouping.FlagMeaning | src/db/repo/dev_fees.rs:75-98 | a fee is flagged exactly when another of its order is earlier, or as early with a lower id |
| Grouping.Sweep | src/commands/rebuild.rs:98-108 | refreshing every group in turn, over whatever rows were there, gives the projection of the table and counts its rows |
| Grouping.SweepFlags | src/commands/rebuild.rs:109-111 | refreshing the flags order by order gives the flags of the whole table, whatever they were |
| Database.Store.InsertIfNew | src/db/repo/events.rs:57-79 | the first copy of an event is kept, and the answer says whether this was it |
| Database.Store.Insert | src/ingest/pipeline.rs:476-528 | a parsed event writes its version, ignoring one already there, and refreshes what it feeds |
| Database.Store.UpsertRelayList | src/db/repo/relays.rs:48-69 | every url a list names is known afterwards, one already known keeps its source, and a new one is stored under its own (see Reachability.RelaysAreNamed) |
| Database.Store.Persist | src/ingest/pipeline.rs:476-528 | the rows of one event, its publisher's sighting and name, and the relays it names are written together |
| Database.Store.Touch | src/ingest/pipeline.rs:305-313 | a redundant event moves the sighting without a name and the cursor, and nothing else |
| Database.Store.Keep | src/ingest/pipeline.rs:315-335 | an event worth keeping is archived and projected once, and its cursor moves every time |
| Database.Store.Apply | src/ingest/pipeline.rs:303-335 | the transaction of an admitted, parsed event is the step, and answers its outcome |
| Database.Store.Ingest | src/ingest/pipeline.rs:272-336 | one delivery rewrites all twelve tables as the step says and answers its outcome, which Answers.AnswerMeaning spells out; a rejected event that parses nothing is archived only |
| Answers.AnswerMeaning | src/ingest/pipeline.rs:272-336 | in every state that keeps the invariant each delivery has exactly one answer, decided by the event and the archive: rejected for the first condition of admission to fail, for want of an archived tagged event of its publisher, for an unknown kind, or for a parser that does not read it; redundant when the archive has its publisher's prices of the hour, or the newest version before it says the same; else duplicate or stored |
| Answers.AnswerAfterRun | src/ingest/pipeline.rs:272-336 | so it is after every run of a fresh database |
| Answers.ReadMeaning | src/ingest/pipeline.rs:457-475 | an event reads exactly when the parser of its kind reads it, and else is of an unknown kind or malformed |
| Answers.ProvenMeaning | src/db/repo/instances.rs:101-124 | a publisher is proven exactly when an archived event of a tagged kind and of its own reads |
| Database.StepRejected | src/ingest/pipeline.rs:278-301 | a rejected event leaves no trace, unless it was admitted and vouched for and only no parser reads it: then it is archived and nothing else changes |
| Reachability.Reachable | src/ingest/pipeline.rs:272-336 | in every state a fresh database reaches, ids match, everything archived is signed, listened to, of Mostro and on a wanted network where its kind says, every derived table equals its recomputation from the archive, the bestiary lists and spans who was archived, each row's name and the name history are what the archive says, every relay row says which archived list named it and every named relay has one, at most one rate row stands per publisher and hour, and every rate and relay-list row is of a listed or proven publisher |
| Reachability.StepKeeps | src/ingest/pipeline.rs:272-336 | each delivery keeps all of that, whatever is delivered by whichever relay |
| Reachability.ProvenStays | src/db/repo/instances.rs:101-124 | a publisher once proven stays proven |
| Reachability.OneFeeCounts | src/db/repo/dev_fees.rs:75-98 | in every reachable state each order paid for has exactly one unflagged fee, the earliest, and the flags say which |
| Reachability.RowsAreEvents | src/ingest/pipeline.rs:476-528 | in every reachable state a version row is its archived event as the parser of its kind reads it, stamped with the event's own id, publisher and clock, and every archived event its parser reads has its row |
| Reachability.RelaysAreNamed | src/ingest/pipeline.rs:510-524 | a run knows exactly the relays its archived lists name, each under the publisher and the clock of one that names it |
| Reachability.ArchivedAsBrought | src/db/repo/events.rs:57-79 | what is archived under an id is the event, the relay and the moment of the delivery that archived it |
| Reachability.FirstCopyStays | src/db/repo/events.rs:57-79 | no later delivery changes which relay brought an event first, or when |
| Reachability.CursorIsNewestAccepted | src/db/repo/sync_state.rs:40-65 | each cursor stands at the newest event its relay delivered of its kind that was not turned away and at the latest moment it did so, and there is none otherwise |
| Pipeline.TallyMeaning | src/ingest/pipeline.rs:108-123 | each figure of a tally is how many committed deliveries were answered so |
| Reachability.PredecessorParses | src/db/repo/heartbeats.rs:73-99 | what an announcement repeats is an archived event of its publisher and kind with the same tags, that parses |
| Confluence.ArrivalOrderDoesNotMatter | src/ingest/pipeline.rs:272-336 | two runs brought the same events, in any order, with any repeats, from any relays and with any transactions aborted, end with the same order, dispute and fee tables, flags included |
| Confluence.TradeArchive | src/ingest/pipeline.rs:315-325 | the archive of a run holds exactly the trade events it was brought that are signed, listened to, of Mostro and on a wanted network |
| Rebuild.RebuildFromRaw | src/commands/rebuild.rs:66-114 | whatever state the database was in, a rebuild from the raw events derives exactly what the archive says |
| Rebuild.PlainRebuild | src/commands/rebuild.rs:77-114 | a plain rebuild repairs projections and flags in any disorder, given the version tables |
| Rebuild.RebuildReproduces | src/commands/rebuild.rs:66-114 | from every reachable state either rebuild gives back the same versions, projections, flags, fee history, rates, relays and name history, and the same publishers, seen no earlier first and no later last |
| Rebuild.RebuildRestoresTheName | src/commands/rebuild.rs:66-114 | the time each publisher's name was said comes back, and the name if and only if it was that of the newest archived event to say one, in a tie the one with the highest id; a publisher without a name stays without |
| Renaming.RebuildCanRename | src/commands/rebuild.rs:77-96 | after any run that has archived nothing of a publisher, two events of one second under two names, the lower id delivered last, leave a name that either rebuild replaces |
| Rebuild.RebuildRestoresSightings | src/commands/rebuild.rs:66-114 | a first or last sighting comes back if and only if an archived event that parses was published then |
| Heartbeats.RebuildCanNarrow | src/ingest/pipeline.rs:305-313 | after any run that has archived nothing of a publisher, an announcement and its unchanged repetition leave a last sighting no rebuild gives back |
| Rebuild.RebuiltRowsSpanTheArchive | src/commands/rebuild.rs:77-96 | after a rebuild a publisher's row opens with its first archived event that parses and closes with its last |
| Rebuild.RebuildIsIdempotent | src/commands/rebuild.rs:60-114 | rebuilding from the raw events twice is doing it once, whatever the database held |
| Rebuild.RebuildAll | src/commands/rebuild.rs:66-114 | the command clears, replays and sweeps to that state; it reports as read exactly the archived events that parse, as unreadable the others, and as many orders and disputes as the projections hold |
| Rebuild.ReplayOne | src/ingest/pipeline.rs:355-384 | replaying one archived event writes its rows without asking admission, says whether it parsed, and leaves no projection row without a version |
| Rebuild.ReplayArchive | src/commands/rebuild.rs:85-96 | the archive is replayed in order; those that parse and those that do not are counted once each |
| Bestiary.OrderMattersOnlyInATie | src/db/repo/instances.rs:28-69 | replaying one publisher's sightings in any order, with any repeats, leaves the same row if and only if the newest of them to carry a name carry the same one |
| Bestiary.FoldDescribes | src/db/repo/instances.rs:34-69 | the row's first and last are the earliest and latest sighting, and its name is that of a newest naming sighting |
| Bestiary.TwoNamesInASecond | src/db/repo/instances.rs:49-60 | of two names in one second the row keeps whichever came last |
| Bestiary.RowIsFold | src/ingest/pipeline.rs:305-335 | in a run, a publisher's row is the fold of its stored sightings under their names and its redundant ones under none |
| Bestiary.NamesAreLastSightings | src/db/repo/instances.rs:77-99 | the name history holds exactly the names stored events carried, each with the last time |
| Heartbeats.RetentionIsExact | src/db/repo/heartbeats.rs:43-99 | after any run, the pruned table answers every question about the fee in force as the whole stream does if and only if each missing notice that names a fee, and that no other of its second to name one supersedes, has the newest kept fee no later than it equal to its own |
| Heartbeats.RetentionKeepsTheFee | src/db/repo/heartbeats.rs:43-99 | when nothing that belongs between a dropped announcement and the one it repeats arrives after the drop with another fee, the pruned table answers every question about the fee in force as the whole stream does |
| Heartbeats.ForwardOrderKeepsTheFee | src/db/repo/heartbeats.rs:43-99 | so it does when one publisher's announcements come in strictly increasing order of their clocks |
| Heartbeats.LosslessLookup | src/db/repo/instance_info.rs:62-80 | a history in which every dropped announcement is hidden or stood for answers every lookup like the full one |
| Heartbeats.DropCovers | src/db/repo/heartbeats.rs:73-99 | a drop leaves the history so, given that what was not yet offered in between names no other fee |
| Heartbeats.PagesLeaveNothingLate | src/db/repo/heartbeats.rs:43-99 | announcements in forward order, or page by page backwards, leave nothing late |
| Heartbeats.LateNoticeMisleads | src/db/repo/heartbeats.rs:43-99 | a fee announced in between and brought last is taken for the one in force after it was replaced |
| FeeHistory.BackfillKeepsTheFee | src/commands/backfill.rs:204-312 | a backfill of a fresh database, by pages cut in NIP-01 order, knows the fee in force at every instant as if nothing had been dropped |
| FeeHistory.WalkIsBackwards | src/commands/backfill.rs:204-312 | the walk hands events over page by page, each page oldest first and each reaching further back, save for repeats |
| FeeHistory.BackfillArchivesTrades | src/commands/backfill.rs:204-312 | whatever the database held, a finished walk leaves in the archive every acceptable order, dispute and dev fee the relay holds in the window, save some of a second that holds more than one answer carries |
| Priming.PrimingVouches | src/commands/sync.rs:347-419 | however relays interleave, once all have reported the end of their history every publisher of an acceptable tagged event one of them held is proven, then and later, and no untagged event of theirs is rejected as unvouched |
| Priming.AcceptedStaysProven | src/ingest/pipeline.rs:430-450 | a tagged event that was stored, duplicate or redundant leaves its publisher proven in every later state |
| Priming.ProvenExactlyWhenLetIn | src/db/repo/instances.rs:101-124 | after any run a publisher is proven if and only if some tagged event of its was let in on the way |
| Priming.OneSubscriptionLoses | src/commands/sync.rs:330-346 | asked for together, an untagged event that comes first is turned away and leaves no trace, though it would have been let in after the tagged one |
| Priming.AskedIsVouched | src/commands/sync.rs:447-469 | an untagged kind is asked of exactly the authors admission would let in |
| Priming.Prime | src/commands/sync.rs:347-420 | reading stops at the first message at which every relay has ended or a clock has run out; what was read was ingested and tallied; the run was stopped exactly when an interrupt came first; and with discovery on the client is handed the connection set exactly when the archive now holds a relay list it did not, ending in changed relays exactly when that names one not in play |
| Priming.Listen | src/commands/sync.rs:366-406 | what was heard was ingested in order and tallied, who has not finished is known, and whether a relay list was stored |
| Priming.ReadsUntil | src/commands/sync.rs:366-401 | the loop reads to the first message at which every relay has said it has no more, or which is a deadline or an interrupt |
| Backfill.FilterIsHalfOpen | src/nostr/filters.rs:143-160 | the filter matches exactly the half-open window, and below the epoch second zero besides |
| Backfill.WalkIsComplete | src/commands/backfill.rs:204-285 | a walk that ended by itself handed over every event the relay holds in the window, unless its second holds more events than one answer carries |
| Backfill.CompleteExactlyWhen | src/commands/backfill.rs:204-285 | whatever the relay answers, a walk that ends by itself hands over everything held in the window, if and only if no second of the window holds more events than one answer carries |
| Backfill.SecondCanLose | src/commands/backfill.rs:257-282 | of any second that holds more, any one event can be lost, whatever else the relay holds |
| Backfill.HandedAreHeld | src/commands/backfill.rs:204-285 | nothing else is handed over, but second zero when the window lies below the epoch |
| Backfill.WalkEndsUnlessItStalls | src/commands/backfill.rs:208-282 | an always answered walk ends within as many answers as its window has seconds if and only if its floor is not in the century before the epoch or the relay holds nothing at second zero |
| Backfill.PagesAreFew | src/commands/backfill.rs:208-282 | a walk that cannot stall reads no more pages than its window has seconds, and as many answers end it |
| Backfill.Walk | src/commands/backfill.rs:204-312 | a tagged kind is always walked, an untagged one exactly when somebody is listed or proven; then the pages' events are ingested in order and each counted, every event an honest relay owes among them, and otherwise nothing happens |
| Requests.NobodyToAsk | src/nostr/filters.rs:78-93 | there is no request exactly for an untagged kind while nobody is listed and nobody proven |
| Requests.WelcomeIsAskedFor | src/nostr/filters.rs:78-123 | every acceptable event that reads and whose publisher is vouched for fits the request for its kind |
| Requests.AskedFor | src/nostr/filters.rs:78-123 | an untagged kind is asked of the listed and the proven, prices under their identifier; a tagged one of the listed, or of everybody |
| Harvest.WalkBringsHome | src/commands/backfill.rs:204-312 | whatever came before, a finished walk of an untagged kind over an honest relay leaves known every relay, and every hour's price, that the relay held in the window from publishers vouched for when it began, save of an overfull second |
| Backfill.IngestAll | src/commands/backfill.rs:298-312 | a page is ingested from its last event to its first, each counted by its outcome |
| Backfill.Earliest | src/commands/backfill.rs:314-325 | the oldest second of a page is that of an event in it, and none is older |
| Backfill.EverythingIsCounted | src/ingest/pipeline.rs:100-123 | every event delivered is counted once, under its outcome |
| Discovery.WalkWithDiscovery | src/commands/backfill.rs:421-484 | each relay is walked once, in at most three rounds after the first, and those walked are those in play, all still named; each round walks, and leaves in the table what walking does, exactly relays that were named by then and answered in it; when discovery ends before the last round, every relay then named was walked or did not answer |
| Discovery.Invoke | src/commands/backfill.rs:368-398 | when nobody named answers nothing is walked and the table only has the configured relays recorded; else the relays that answer are walked, and so on as above |
| Discovery.Rediscover | src/commands/sync.rs:296-325 | the client is handed the set as the table has it now, and the answer says whether it names a relay not in play |
| Discovery.AttachedMeaning | src/nostr/client.rs:176-218 | reattaching keeps every relay still named, adds only named ones that answer, and repeats none |
| Discovery.RelayClient.Reattach | src/nostr/client.rs:188-218 | the relays in play become those, in configured order |
| Discovery.RelayClient.Unattached | src/nostr/client.rs:236-253 | the answer lists each named relay that is not in play once |
| Discovery.MissingMeaning | src/nostr/client.rs:236-253 | it is empty exactly when everything named is in play |
| Discovery.ConnectionSetMeaning | src/commands/relays.rs:1-39 | the configured relays come first and are never dropped, behind them exactly those a relay list named, when discovery is on |
| Discovery.ConnectionSetGrows | src/commands/relays.rs:20-39 | while the table grows the set only grows |
| Discovery.ReadConnectionSet | src/commands/relays.rs:20-39 | the configured relays are recorded, and the set is read back |
| Discovery.StepGrows | src/db/repo/relays.rs:48-69 | a delivery only adds relays, and keeps who named them first |
| Discovery.NamedIsDialled | src/commands/relays.rs:20-40 | with discovery on, every relay an archived list names is in the connection set |
| Discovery.AttachedInOrder | src/nostr/client.rs:188-218 | the relays in play stand in the order in which they are first named |
| Discovery.DiscoveredInOrder | src/commands/relays.rs:31-37 | the discovered relays stand behind the configured ones in the order they are listed, none where one stands already |
| Discovery.ConfiguredMeaning | src/commands/relays.rs:25-29 | recording the configured relays adds a row for each that had none, under the operator and the moment, and changes no other |
| Rates.RateAtIsTheScan | crates/stats/src/rates.rs:113-149 | the indexed, searched, cut-off lookup answers what looking at every snapshot in loading order answers, ties included |
| Rates.AnswerMeaning | crates/stats/src/rates.rs:100-150 | a quote is the instance's own best of the five minutes up to the instant where it has one, and else the best anybody has, under its key; best is the latest, in a tie of the highest key, in a tie the last loaded; there is none exactly when nobody has any |
| Rates.NarrowedBookAgrees | src/db/load/rates.rs:13-36 | the book loaded for a window prices every instant in it as the book of the whole history does |
| Rates.PublishedMeaning | src/db/load/rates.rs:20-37 | the narrowed book is of exactly the snapshots published in its stretch, in the order of the table |
| Rates.New | crates/stats/src/rates.rs:77-95 | the snapshots are sorted stably by time and publisher, and the index holds each publisher's positions in order |
| Rates.Index | crates/stats/src/rates.rs:83-94 | filling the index position by position lists every publisher's positions and everyone's |
| Rates.PartitionSplits | crates/stats/src/rates.rs:142-142 | the binary search splits the positions at the instant |
| Views.UntouchedIsElsewhere | src/db/load/activity.rs:140-151 | an order the push-down leaves out has no dated step in the window and is not live on the book |
| Views.OutcomesAreFirstAt | src/db/load/activity.rs:97-128 | the outcomes of the projection are the first versions that reached them |
| Views.DatesMeaning | src/db/load/activity.rs:97-117 | each step of an order is dated by the first version to reach it, and the order by its earliest tag or its first version, whichever is earlier |
| Views.ViewMeaning | src/db/load/activity.rs:97-126 | an order stands as its latest version says; its origin, its being at market price and its range are what its first version said |
| Views.TouchedMeaning | src/db/load/activity.rs:127-152 | the narrowed read keeps exactly the orders with a version in the window and those whose latest version is pending and has not expired |
| Timing.PushDown | src/db/load/activity.rs:140-151 | the report over the orders read equals the report over all in every duration, sample count, percentile, book and funnel figure; the two counts of odd histories fall short by exactly the odd orders left out |
| Timing.OriginCanBeMissed | crates/stats/src/timing.rs:238-241 | an order first seen taken after the window and dated inside by its tag is missed by the first count |
| Timing.RegressionCanBeMissed | crates/stats/src/timing.rs:242-245 | one that ended both ways outside the window is missed by the second |
| Timing.FunnelAddsUp | crates/stats/src/timing.rs:93-110 | everybody who enters the book is in exactly one of its five ends, and none completes without being taken |
| Timing.Summarise | crates/stats/src/timing.rs:159-250 | every figure of the report is said of the orders' own dates: each duration samples exactly the orders whose stage ends in the window after it began, success and cancellation whichever comes first, and its percentiles are nearest ranks of what they took; the book, its mean age, the seven figures of the funnel and the two odd counts likewise |
| Timing.ReportMeaning | crates/stats/src/timing.rs:159-250 | that is what the report comes to |
| Timing.DurationsArePositive | crates/stats/src/timing.rs:164-194 | each duration has percentiles exactly when it has samples, all of them positive, the ninetieth no shorter than the median |
| Timing.CountFunnel | crates/stats/src/timing.rs:199-220 | the loop tallies each figure of the funnel |
| Calendar.YearsFollow | crates/stats/src/window.rs:87-89 | each year starts where the one before it ends, leap years included |
| Calendar.MonthsFillTheYear | crates/stats/src/window.rs:230-238 | the twelve months fill the year |
| Calendar.DatesAreUnique | crates/stats/src/window.rs:157-176 | every day has exactly one date |
| Calendar.DaysInClosedForm | crates/stats/src/window.rs:154-176 | the day of a date is what the rule for the proleptic Gregorian calendar gives in closed form |
| Calendar.BoundsInDays | crates/stats/src/window.rs:178-216 | and what a date can represent is from day -96 465 292 to day 95 026 236 |
| Calendar.WeekdayMeaning | crates/stats/src/activity.rs:335-347 | weekdays repeat every seven days, Monday first, and 2000-01-01 was a Saturday |
| Calendar.SubMonthsMeaning | crates/stats/src/window.rs:47-55 | going back by months goes to the same day of the month that many before, or the last day there is, at the same time of day, and fails exactly before the first year a date can represent |
| Tiling.BucketsTile | crates/stats/src/window.rs:187-216 | whatever the calendar, the walk's buckets are non-empty, adjacent, keyed by their periods, and run to the window's end or the last opening |
| Tiling.Walk | crates/stats/src/window.rs:187-216 | the loop builds those buckets, or refuses exactly when there are more than the limit |
| Tiling.TilesHold | crates/stats/src/window.rs:1-6 | a tiling holds every instant of its window and no other |
| Tiling.HeldOnce | crates/stats/src/window.rs:1-6 | and each of them once |
| Windows.BucketsUpto | crates/stats/src/window.rs:77-91 | days, ISO weeks, months or years: none exactly when there are more than the limit, else all of them |
| Windows.BucketsTileTheWindow | crates/stats/src/window.rs:57-68 | the buckets tile the window from its start, each at a calendar opening but the clipped first |
| Windows.BucketsCoverTheWindow | crates/stats/src/window.rs:178-216 | they cover the window if and only if the walk can start and the window ends by the last opening of the calendar |
| Windows.OpeningIsIndexed | crates/stats/src/window.rs:154-176 | a walk starts at the opening of the period its window starts in, missing only in the calendar's first week |
| Windows.StepIsNext | crates/stats/src/window.rs:77-91 | each step goes to the next midnight, Monday, first of the month or new year, while there is one |
| Windows.OpeningsOpen | crates/stats/src/window.rs:154-176 | every period opens at a midnight, a Monday's, that of a first of the month or of a new year |
| Windows.OpensIsAnOpening | crates/stats/src/window.rs:154-176 | and at every such instant one opens |
| Windows.PrecedingMeaning | crates/stats/src/window.rs:35-55 | the window before is both bounds shifted, each by itself, by a day, by seven, or to the date a month or a year earlier at the same time of day, where both are representable |
| Windows.PrecedingIsTheBucketBefore | crates/stats/src/window.rs:108-141 | of two whole buckets of a window next to each other, the first is the window before the second, across unequal months and years |
| Windows.PrecedingIsTheInnerBucketBefore | crates/stats/src/window.rs:108-141 | only the first and the last bucket of a window can be clipped, so that is so of every pair further in |
| Windows.PrecedingKeepsOrder | crates/stats/src/window.rs:108-141 | the window before is a window if and only if going back does not fold both bounds onto one day with the later no later in it; a day or a week earlier it always is, of the same length |
| Calendar.SubMonthsKeepsOrder | crates/stats/src/window.rs:134-141 | going back by months keeps two instants in order exactly then |
| Calendar.EarlierKeepsOrder | crates/stats/src/window.rs:47-55 | and never puts a later date before an earlier one |
| Windows.PrecedingCanTurnAround | crates/stats/src/window.rs:35-55 | between two dates of one month, neither before the last day of the month or year gone back to, there is a window whose window before ends no later than it begins |
| Tallies.BucketsAddUp | crates/stats/src/activity.rs:7-14 | a total dated by what defines it adds up over the buckets of any tiling |
| Tallies.GroupsAddUp | crates/stats/src/activity.rs:293-322 | group totals add up to the whole with each item taken once per key |
| Tallies.Slice | crates/stats/src/activity.rs:301-322 | the loop files each item under each of its keys |
| Tallies.FillSlots | crates/stats/src/activity.rs:349-380 | the loop counts each slot |
| Tallies.SlotsAddUp | crates/stats/src/activity.rs:349-380 | the slots add up to the items that have one |
| Tallies.TotalMeaning | crates/stats/src/activity.rs:253-277 | a total is what the items dated in the window weigh |
| Tallies.GroupMeaning | crates/stats/src/activity.rs:293-322 | a group holds each item as often as the item names its key |
| Tallies.SlotMeaning | crates/stats/src/activity.rs:349-380 | a slot counts the items that have it |
| Activity.CountsMeaning | crates/stats/src/activity.rs:253-277 | created, completed and canceled are how many orders were created in the window, stand as a success first reached in it, or as a cancellation |
| Activity.KeysMeaning | crates/stats/src/activity.rs:293-322 | two orders share a group exactly when they agree in what the slice is by |
| Activity.PeriodsAddUp | crates/stats/src/activity.rs:256-277 | created, completed and canceled add up over any tiling of a window |
| Activity.CalendarAddsUp | crates/stats/src/activity.rs:389-403 | so do the days, weeks, months or years of any window they cover |
| Activity.SlicesAddUp | crates/stats/src/activity.rs:301-322 | so do the groups of a slice by status, kind, currency or instance |
| Activity.MethodSlicesOvercount | crates/stats/src/activity.rs:295-297 | a slice by method counts an order once for each method it offers |
| Activity.Histogram | crates/stats/src/activity.rs:349-380 | created and completed orders per hour or weekday |
| Activity.HistogramAddsUp | crates/stats/src/activity.rs:324-380 | over a representable window the hours, or weekdays, add up to it |
| Activity.HistogramMeaning | crates/stats/src/activity.rs:324-380 | a slot counts the orders created, or completed, in that hour of the day or on that weekday |
| Disputes.Summarise | crates/stats/src/disputes.rs:170-252 | every figure is said of the disputes' own dates, statuses, initiators and outcomes, resolution times by nearest rank; openings and resolutions are the dated totals the periods add up, the statuses sum to the openings, the shares to one, and the open list holds each waiting dispute and nothing else, oldest first, no age negative |
| Cases.CaseMeaning | src/db/load/disputes.rs:38-55 | a dispute is resolved exactly when some version ended it, at the clock and under the status of the first to do so, the lowest id in a tie; it opened when the latest version to say so says, or else with its first version; its status is the latest version's and its initiator the latest to be named |
| Disputes.SharesAddUp | crates/stats/src/disputes.rs:198-215 | whenever something was resolved in a window, the shares of the outcomes add up to one |
| Disputes.OpenIsOldestFirst | crates/stats/src/disputes.rs:217-251 | the open list is oldest first, and no age on it is negative |
| Disputes.StatusesAddUp | crates/stats/src/disputes.rs:177-184 | every dispute opened in the window stands in exactly one status |
| Disputes.PeriodsAddUp | crates/stats/src/disputes.rs:170-252 | openings, resolutions and each status add up over any tiling of a window |
| Disputes.CalendarAddsUp | crates/stats/src/disputes.rs:282-300 | so they do over the days, weeks, months or years of any window they cover |
| Disputes.InstancesAddUp | crates/stats/src/disputes.rs:259-278 | and over instances |
| DevFees.SummaryMeaning | crates/stats/src/dev_fees.rs:115-160 | the figures are of the fees paid in the window that are not duplicates: what they come to, how many, and how many name an order never seen |
| DevFees.PeriodsAddUp | crates/stats/src/dev_fees.rs:115-160 | sats, fees and orphans add up over any tiling of a window |
| DevFees.CalendarAddsUp | crates/stats/src/dev_fees.rs:182-222 | so they do over the days, weeks, months or years of any window they cover |
| DevFees.InstancesAddUp | crates/stats/src/dev_fees.rs:162-181 | and over instances |
| DevFees.OnePaymentPerOrder | crates/stats/src/dev_fees.rs:152-160 | as many fees count as orders were paid for, however often |
| Volume.VolumeConserves | crates/stats/src/volume.rs:158-203 | when a window's sats fit an i64, so do those of each side and currency, and the sides, currencies and size buckets each divide the window exactly |
| Volume.MeanIsNearest | crates/stats/src/volume.rs:205-214 | the mean is the one whole number m with m - 1/2 <= sum/n < m + 1/2 |
| Volume.MeanIsBetween | crates/stats/src/volume.rs:205-214 | it lies between the smallest and the largest, and so is never missing over i64 amounts |
| Volume.Summarise | crates/stats/src/volume.rs:158-203 | every figure is said of the orders that stand as a success first reached in the window: their sats and those of each side and currency, given exactly when they fit an i64, the mean to the nearest, the median and the ninetieth percentile by nearest rank, the largest, the five sizes cut after 9 999, 50 000, 200 000 and 1 000 000 sats, and per currency the total, the average and the percentiles of the amounts named |
| Volume.FixedAreCompleted | crates/stats/src/volume.rs:87-106 | the orders a fiat figure is over are never more than were completed, and as many exactly when none is a range |
| Market.SightedWhereFirstSeen | crates/stats/src/market.rs:194-218 | a key is a first sighting of a window exactly when its earliest order was created there |
| Market.NewInExactlyOne | crates/stats/src/market.rs:194-218 | over a tiling that holds every order, each key is new in exactly one bucket |
| Market.NewInOneBucket | crates/stats/src/market.rs:194-218 | so it is over the days, weeks, months or years that cover such a window |
| Market.OnlyKeysAreSighted | crates/stats/src/market.rs:199-218 | and nothing else is new in any |
| Percentiles.PercentileOf | crates/stats/src/percentile.rs:16-37 | the copy is sorted in place and read at the rank, none over no samples |
| Percentiles.SortInPlace | crates/stats/src/percentile.rs:29-30 | the array ends as the stable sort of what it held |
| Percentiles.PercentileMeaning | crates/stats/src/percentile.rs:16-37 | a value is the percentile if and only if it is a sample with at least that share of the samples at or below it and fewer, if any, below |
| Percentiles.ClampMeaning | crates/stats/src/percentile.rs:16-37 | outside of zero to one it is the percentile at the nearer end |
| Quantiles.QuantileMeaning | crates/stats/src/percentile.rs:16-37 | a percentile of what some picked items come to is said by counting items |
| Percentiles.NearestRank | crates/stats/src/percentile.rs:32-36 | the percentile is a sample, at least its rank of samples are at or below it and fewer are below |
| Percentiles.RankPinsDown | crates/stats/src/percentile.rs:32-36 | and it is the only such value |
| Percentiles.PermutationInvariant | crates/stats/src/percentile.rs:16-37 | the order of the samples does not matter |
| Percentiles.MonotoneInP | crates/stats/src/percentile.rs:16-37 | a higher percentile is no smaller |
| Percentiles.Extremes | crates/stats/src/percentile.rs:4-7 | the zeroth is the minimum and the hundredth the maximum |
| Csv.Split | src/db/repo/csv.rs:42-77 | the character loop reads what the reader's rules say, over any text |
| Csv.RoundTrip | src/db/repo/csv.rs:23-77 | reading back what was written gives every value that is not empty |
| Csv.RoundTripIsExact | src/db/repo/csv.rs:23-77 | and the list itself if and only if none is empty |
| Csv.EncodeMeaning | src/db/repo/csv.rs:23-35 | a value is written as it stands exactly when it has no comma, no quote and no white space at either end, and else quoted |
| Csv.JoinIsInjective | src/db/repo/csv.rs:17-35 | two lists without empty values are never written alike |
| Csv.ReadingNormalises | src/db/repo/csv.rs:42-98 | any text, malformed quoting included, is read to a list that writing and reading again does not change |
| CsvFields.ReadMeaning | src/db/repo/csv.rs:42-98 | any text at all is some fields, each bare, quoted with something behind its closing quote, or last and never closed, and what is read off it is what they say, less what says nothing |
| CsvFields.ReadingIsUnambiguous | src/db/repo/csv.rs:42-77 | however else a text is taken apart, the same is said |

## Left out

- Websockets, dialling, timeouts, signatures and SQLite itself: relays are sequences of answers, a transaction is one atomic step that commits or leaves nothing.
- The tag parsers of each kind and the csv columns they fill: uninterpreted, so what is proved holds for any of them.
- Raw event JSON is lossless: an archived row that is not readable JSON cannot occur.
- Clocks are unbounded: a `created_at` beyond an i64, which the code wraps, and a `until` of `i64::MAX` against an event stamped there, are not modelled.
- Ratios and amounts are reals: floating-point rounding, infinities and the NaN guards are not modelled.
- Confluence.ArrivalOrderDoesNotMatter: the rate snapshots, the announcements, the relay table, the bestiary and the cursors do depend on what came first, and the result does not speak of them.
- Backfill.Walk: the walk is of one relay and one kind; the loop over relays and kinds adds nothing but sums.
- Priming.Prime: a priming subscription no relay takes, the backoff and the reconnection loop of a live run; a rediscovery between two deliveries also records the configured relays, which no later outcome reads.
- Discovery.WalkWithDiscovery: walking is any function that only adds relay rows, and the order of first sighting in which the table lists them is any listing of it.
- Windows.BucketsUpto: a bucket is keyed by its opening instant, not by the label formatted from it.
- Timing.PushDown: the scope by instance and network, applied to both reads alike, and the `--by` slices.
- Volume.Summarise: fiat totals that are not finite, which withhold the fiat figures; conversion into a reference currency.
- DevFees.Summarise: coverage, latency and duplicates, each a ratio, a percentile or a count of the same fees.
- Activity: completion and abandonment rates and deltas, quotients of the counts that are modelled.
- Publication, configuration, secrets, logging, rendering, feeds, rankings and implied volume.
- `rebuild` running beside `sync`, and migrations.
