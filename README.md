# nostrss scheduler and comma-list splitter, modelled in Dafny

nostrss polls RSS feeds and republishes new items on nostr. Each feed is a cron
job. When the job is registered, a snapshot of the feed seeds the job's dedup
record, a newest-first list of entry ids kept in a store shared by all jobs.
On each tick the job reads its record, fetches the feed and walks the entries
in order. An entry whose id the record (as built so far in this tick) already
holds is skipped. A new entry is rendered and sent to the client of every
configured profile, and its id is prepended to the record. After the loop the
record is truncated to the feed's `cache_size` and written back. A failed
fetch or a failed render ends the tick without writing anything back.

The project also models the command-line helper `input_to_vec`. It splits a
string on `,` and trims each piece.

Files:

- `feeds.dfy` (module `Feeds`): the feed configuration, entries, fetch and
  render outcomes, tags and the log of sends. It also holds the profile-list
  default and the hashtags of a feed.
- `dedup.dfy` (module `Dedup`): the tick as functions of its inputs, and the
  lemmas stating what a tick guarantees. The functions say which entries are
  new, what record is built, where a render failure stops the tick, what is
  sent, and what the store holds afterwards.
- `scheduler.dfy` (module `Scheduler`): the imperative code. It has the
  hashtag loop, the per-profile publish loop, the loop over entries, the
  snapshot loop and the class `DedupMemory`. That class holds the shared
  store as a `map` and has `Register` and `Tick`. `BuildTags` and
  `FeedSnapshot` are proved equal to `Feeds.Hashtags` and `Feeds.Ids`;
  `Publish`, `VisitEntry`, `ScanEntries` and `Tick` to the functions of
  `Dedup`.
- `formatter.dfy` (module `Formatter`): `split(',')`, `trim` and
  `input_to_vec`, with the split/join round trips.

Inputs that are I/O in the program are parameters here:

- the fetch result (`Fetched(entries)` or `FetchFailed`);
- the renderer, a function from feed and entry to a message or a failure;
- the set of profile ids that have a registered client;
- the job id.

A send is logged as `Send(entry, profile, message, tags)`. The `entry` field
names the entry the message came from; it is not part of what is sent.

Two points where the model follows the code rather than a looser reading:

- `map_lock[uuid]` panics when the key is absent, so `DedupMemory.Tick`
  requires the key and does not read an absent record as empty.
- The comment before the truncation speaks of 200 elements. The code
  truncates to `feed.cache_size`, once, after the loop.

## Model

| member | source | states |
|---|---|---|
| Feeds.ProfileIds | src/scheduler/scheduler.rs:29-32 | a feed without a profile list publishes to the single profile "default"; otherwise to its own list |
| Feeds.Hashtags | src/scheduler/scheduler.rs:64-70 | one hashtag per configured tag, in configuration order; none when the feed has no tags |
| Scheduler.BuildTags | src/scheduler/scheduler.rs:64-70 | the tag-building loop yields exactly the feed's hashtags |
| Dedup.Registered | src/scheduler/scheduler.rs:82-92 | the profiles kept for sending all have a registered client, and there are no more of them than listed |
| Dedup.RegisteredCount | src/scheduler/scheduler.rs:82-95 | a profile with a client receives as many sends as it is listed; a profile without one receives none |
| Dedup.RegisteredAppend | src/scheduler/scheduler.rs:82-95 | the sending order follows the profile list: filtering a concatenation is concatenating the filtered parts |
| Dedup.FanOut | src/scheduler/scheduler.rs:82-95 | the sends of one message are one per kept profile, in order, each with the same entry, message and tags |
| Scheduler.Publish | src/scheduler/scheduler.rs:82-95 | the per-profile loop makes exactly the fan-out's sends, skipping profiles without a client |
| Feeds.Ids | src/scheduler/scheduler.rs:137-139 | the ids of a list of entries, one per entry, in the same order |
| Dedup.IsNew | src/scheduler/scheduler.rs:51 | an entry is new exactly when its id is neither in the record read at the start of the tick nor the id of an earlier entry of the same fetch |
| Dedup.NewEntries | src/scheduler/scheduler.rs:48-98 | the entries a tick publishes are at most one per walked entry, are fetched entries, and carry no id of the record read |
| Dedup.Prepended | src/scheduler/scheduler.rs:97 | the record a tick builds keeps the record read and grows by at most one id per walked entry |
| Dedup.Stop | src/scheduler/scheduler.rs:72-80 | the index where the tick returns: no new entry before it fails to render, and the new entry at it fails (or it is the end) |
| Dedup.EntrySends | src/scheduler/scheduler.rs:72-95 | every send made for an entry carries that entry's id |
| Dedup.SendsFor | src/scheduler/scheduler.rs:82-95 | every send made for a list of new entries is for one of them |
| Dedup.StoreAfterTick | src/scheduler/scheduler.rs:42-107 | after a tick the job's record is either the one read (a failed fetch or render) or at most `cache_size` long |
| Dedup.SendsOfTick | src/scheduler/scheduler.rs:44-97 | every send of a tick is for an id the fetch carries and the record read lacks; a failed fetch sends nothing |
| Dedup.NewIdsMembership | src/scheduler/scheduler.rs:48-98 | an id is among a tick's new ids exactly when it is not in the record read and some fetched entry carries it |
| Dedup.NewIdsDistinct | src/scheduler/scheduler.rs:51-97 | a tick never treats the same id as new twice, so a repeated id within one fetch is handled once |
| Dedup.PrependedMembership | src/scheduler/scheduler.rs:51 | the membership test on the in-progress record is true exactly for entries that are not new: ids from earlier ticks and ids added earlier in this tick |
| Dedup.PrependedMembers | src/scheduler/scheduler.rs:48-98 | the record a tick builds holds exactly the ids of the record it read and of the entries walked so far |
| Dedup.PrependedIsReversedNewIds | src/scheduler/scheduler.rs:97 | each new id goes to the front, so the built record is the new ids, most recent first, ahead of the record read |
| Dedup.SkipStep | src/scheduler/scheduler.rs:51-57 | an entry found in the in-progress record changes neither the record nor the sends, and cannot be where the tick stops |
| Dedup.PublishStep | src/scheduler/scheduler.rs:58-97 | an entry not found that renders adds one fan-out of its message to the sends and its id to the front of the record |
| Dedup.FailStep | src/scheduler/scheduler.rs:72-80 | an entry not found that fails to render is exactly where the tick stops |
| Dedup.StopUnique | src/scheduler/scheduler.rs:72-80 | the stop is the only index with no failing new entry before it and a failing new entry at it (or the end) |
| Dedup.SendsForEach | src/scheduler/scheduler.rs:82-97 | among a tick's sends, those for a new entry are exactly the fan-out of its own rendered message |
| Dedup.RenderStop | src/scheduler/scheduler.rs:72-80 | the tick stops at the first new entry that fails to render; no new entry before it fails |
| Scheduler.VisitEntry | src/scheduler/scheduler.rs:49-98 | one pass of the loop: a render failure is exactly the stop and changes nothing; otherwise the record and sends become those of one more walked entry |
| Scheduler.ScanEntries | src/scheduler/scheduler.rs:48-100 | the loop over entries completes exactly when no new entry fails to render; its record is the new ids up to the stop, prepended one at a time ahead of the old record, and its sends are the fan-outs of those new entries |
| Scheduler.FeedSnapshot | src/scheduler/scheduler.rs:133-150 | the snapshot is the fetched ids in fetch order, or empty when the fetch fails |
| Scheduler.DedupMemory.Register | src/scheduler/scheduler.rs:120-125 | registration stores the snapshot under the job's id and changes no other key |
| Scheduler.DedupMemory.Tick | src/scheduler/scheduler.rs:38-116 | one tick needs the job's record to exist; it leaves the store as the tick's store function gives it and returns the tick's sends |
| Dedup.Truncate | src/scheduler/scheduler.rs:106 | truncation keeps the first `n` ids, or all of them when there are no more than `n` |
| Dedup.TickBoundsRecord | src/scheduler/scheduler.rs:106-107 | after a completed tick the stored record has at most `cache_size` ids and is the prefix of length min(cache_size, length) of the built record |
| Dedup.TickLeavesOtherJobs | src/scheduler/scheduler.rs:107 | a tick changes no key but its own job id and adds no key |
| Dedup.FetchFailureChangesNothing | src/scheduler/scheduler.rs:109-114 | a failed fetch leaves the store unchanged and sends nothing |
| Dedup.RenderFailureAbortsTick | src/scheduler/scheduler.rs:72-80 | after a render failure the store is unchanged; every send is for a new entry before the failure; no send is for the failing entry or any new entry after it |
| Dedup.EachNewEntryPublishedOnce | src/scheduler/scheduler.rs:51-97 | each new entry before the stop is rendered successfully and its sends are exactly one fan-out of its message; ids already in the record get no send and are not inserted again; each new id is in the built record exactly once |
| Dedup.NewIdInsertedOnce | src/scheduler/scheduler.rs:51-97 | the id of a new entry occurs exactly once in the record the tick builds, even when the fetch repeats it |
| Dedup.PrependedCoversFetch | src/scheduler/scheduler.rs:48-98 | before truncation every fetched id is in the record the tick built |
| Dedup.AllNewPrependedReversed | src/scheduler/scheduler.rs:97 | when all fetched entries are new and distinct, the built record is their ids in reverse encounter order ahead of the old record |
| Dedup.RepeatedTickPublishesNothing | src/scheduler/scheduler.rs:42-107 | after a completed tick whose stored record still holds every fetched id, a second tick on the same fetch sends nothing and stores the same record; a full record that evicts only ids the fetch lacks qualifies |
| Dedup.RepeatedTickOnFullRecord | src/scheduler/scheduler.rs:97-106 | a record already at `cache_size` that takes in a new entry and evicts an id the fetch lacks meets the condition above |
| Dedup.EvictionRepublishes | src/scheduler/scheduler.rs:97-106 | truncation keeps the most recently inserted ids, so an id the feed still lists can be evicted (record ["C","A"], `cache_size` 2, fetch A then D stores ["D","C"]) and the next tick on the same fetch publishes A again |
| Dedup.SnapshotSuppressesRepublish | src/scheduler/scheduler.rs:123-125 | the first tick after registration sends no entry whose id the snapshot saw (later ticks may, once truncation has evicted the id) |
| Formatter.Split | nostrss-cli/src/input/formatter.rs:5 | splitting gives at least one piece and no piece contains the separator |
| Formatter.SplitCount | nostrss-cli/src/input/formatter.rs:5 | splitting gives one piece more than the input has separators |
| Formatter.JoinSplit | nostrss-cli/src/input/formatter.rs:5 | joining the pieces with the separator gives back the input |
| Formatter.SplitJoin | nostrss-cli/src/input/formatter.rs:5 | splitting the join of any separator-free pieces gives back those pieces, so the pieces are exactly the segments between separators, in order |
| Formatter.TrimStart | nostrss-cli/src/input/formatter.rs:5 | trim_start drops exactly a whitespace prefix and leaves no leading whitespace |
| Formatter.TrimEnd | nostrss-cli/src/input/formatter.rs:5 | trim_end drops exactly a whitespace suffix and leaves no trailing whitespace |
| Formatter.Trim | nostrss-cli/src/input/formatter.rs:5 | a trimmed string neither begins nor ends with whitespace |
| Formatter.TrimIsInfix | nostrss-cli/src/input/formatter.rs:5 | a trimmed string is the infix of the input between a whitespace-only prefix and a whitespace-only suffix |
| Formatter.TrimIdempotent | nostrss-cli/src/input/formatter.rs:5 | trimming twice is trimming once |
| Formatter.InputToVec | nostrss-cli/src/input/formatter.rs:4-6 | the result has one element more than the input has commas, no element contains a comma, and no element begins or ends with whitespace |
| Formatter.ElementsAreTrimmedSegments | nostrss-cli/src/input/formatter.rs:5 | element k is the trim of the k-th comma-delimited segment, and those segments joined with commas are the input |
| Formatter.NoCommaSingleElement | nostrss-cli/src/input/formatter.rs:5 | an input without a comma yields the single trimmed input |
| Formatter.EmptyInput | nostrss-cli/src/input/formatter.rs:5 | the empty input yields one empty element |
| Formatter.ThreeLetters | nostrss-cli/src/input/formatter.rs:15-19 | "a,b,c" yields three elements, the first being "a" |

## Left out

- Locking: the tokio `Mutex`/`Arc` handles around the store and the client registry. The lock is held across the fetch, render and send awaits. Each tick is modelled as one sequential, atomic step over the store.
- Cron scheduling through `Job::new_async` and job uuid generation. The job id is a given string. The guarantee that `Register` runs before the first tick is the caller's; `Tick` requires the key.
- `RssParser::get_items` (HTTP fetch and RSS parsing). Its result is an input of `Tick` and of `Register`.
- `TemplateProcessor::parse`. It is an oracle function from feed and entry to a message or a failure.
- `NostrInstance::send_message` and the nostr `Tag` type. A send is recorded in a returned log; a tag is `Hashtag(name)`. The result of a send is not awaited for errors in the program either.
- The `info!`/`error!` logging, including the error logged for a profile without a client.
- The Unicode tables behind Rust's `trim`. `Formatter.IsWhitespace` lists the White_Space code points that `char::is_whitespace` accepts; only the unit-test lemma `ThreeLetters` uses that table (to know that `a` is not whitespace), every other lemma holds for any whitespace predicate.
- The client registry's contents in the store function. The store after a tick takes no client set, because the stored record never depends on which profiles have a client: a missing client never keeps an id out of the record.
