/**
  The scheduled feed job: the snapshot taken when a feed is registered, and
  the tick that fetches the feed, publishes its new entries and updates the
  feed's dedup record. The shared dedup store is a `DedupMemory` object whose
  `records` map job ids to newest-first lists of seen entry ids. The fetch
  result, the renderer and the set of profile ids with a registered client
  are inputs; each tick returns the log of the sends it made.
 */
module Scheduler {
  import opened Feeds
  import opened Dedup

  /** The hashtags of a feed, built one configured tag at a time. */
  method BuildTags(feed: Feed) returns (tags: seq<Tag>)
    ensures tags == Hashtags(feed)
  {
    tags := [];
    if feed.tags.Some? {
      var names := feed.tags.value;
      for k := 0 to |names|
        invariant |tags| == k
        invariant forall j :: 0 <= j < k ==> tags[j] == Hashtag(names[j])
      {
        tags := tags + [Hashtag(names[k])];
      }
    }
  }

  /** Hands `message` to the client of every listed profile that has one,
      in list order; a profile without a client is skipped. */
  method Publish(entry: string, profiles: seq<string>, clients: set<string>,
                 message: string, tags: seq<Tag>) returns (sends: seq<Send>)
    ensures sends == FanOut(entry, profiles, clients, message, tags)
  {
    sends := [];
    for k := 0 to |profiles|
      invariant sends == FanOut(entry, profiles[..k], clients, message, tags)
    {
      assert profiles[..k + 1][..k] == profiles[..k];
      if profiles[k] in clients {
        sends := sends + [Send(entry, profiles[k], message, tags)];
      }
    }
    assert profiles[..|profiles|] == profiles;
  }

  /** One pass of the loop over entries, on entry `i` with the record
      built so far: an id the record holds is skipped; a new entry is
      rendered, then published and its id prepended; `failed` when the
      renderer rejects it, in which case nothing changes. */
  method VisitEntry(start: seq<string>, es: seq<Entry>, feed: Feed, render: Renderer,
                    clients: set<string>, i: nat, record: seq<string>, sends: seq<Send>)
    returns (record': seq<string>, sends': seq<Send>, failed: bool)
    requires i < |es| && i <= Stop(start, es, feed, render)
    requires record == Prepended(start, es, i)
    requires sends == SendsFor(feed, clients, render, NewEntries(start, es, i))
    ensures failed ==> Stop(start, es, feed, render) == i && record' == record && sends' == sends
    ensures !failed ==> i + 1 <= Stop(start, es, feed, render)
    ensures !failed ==> record' == Prepended(start, es, i + 1)
    ensures !failed ==> sends' == SendsFor(feed, clients, render, NewEntries(start, es, i + 1))
  {
    record', sends', failed := record, sends, false;
    var entry := es[i];
    if entry.id !in record {
      var tags := BuildTags(feed);
      match render(feed, entry)
      case RenderFailed =>
        FailStep(start, es, feed, render, i);
        failed := true;
      case Message(message) =>
        PublishStep(start, es, feed, render, clients, i, message);
        var published := Publish(entry.id, ProfileIds(feed), clients, message, tags);
        sends' := sends + published;
        record' := [entry.id] + record;
    } else {
      SkipStep(start, es, feed, render, clients, i);
    }
  }

  /** The loop of a tick over the fetched entries, working on a copy of the
      job's record. A render failure ends the loop at once with `complete`
      false and the record as built up to the failing entry, which the
      caller then drops. */
  method ScanEntries(start: seq<string>, es: seq<Entry>, feed: Feed, render: Renderer,
                     clients: set<string>)
    returns (record: seq<string>, sends: seq<Send>, complete: bool)
    ensures complete <==> Stop(start, es, feed, render) == |es|
    ensures record == Prepended(start, es, Stop(start, es, feed, render))
    ensures sends == SendsFor(feed, clients, render, NewEntries(start, es, Stop(start, es, feed, render)))
  {
    record, sends := start, [];
    var i := 0;
    while i < |es|
      invariant 0 <= i <= |es|
      invariant i <= Stop(start, es, feed, render)
      invariant record == Prepended(start, es, i)
      invariant sends == SendsFor(feed, clients, render, NewEntries(start, es, i))
    {
      var failed;
      record, sends, failed := VisitEntry(start, es, feed, render, clients, i, record, sends);
      if failed {
        complete := false;
        return;
      }
      i := i + 1;
    }
    complete := true;
  }

  /** The ids of a fetch, in fetch order; none when the fetch failed. */
  method FeedSnapshot(feed: Feed, fetched: Fetch) returns (ids: seq<string>)
    ensures fetched.Fetched? ==> ids == Ids(fetched.entries)
    ensures fetched.FetchFailed? ==> ids == []
  {
    ids := [];
    match fetched
    case FetchFailed =>
    case Fetched(es) =>
      for k := 0 to |es|
        invariant |ids| == k
        invariant forall j :: 0 <= j < k ==> ids[j] == es[j].id
      {
        ids := ids + [es[k].id];
      }
  }

  /** The dedup store shared by all feed jobs. */
  class DedupMemory {
    var records: map<string, seq<string>>

    constructor ()
      ensures records == map[]
    {
      records := map[];
    }

    /** Registers a job: seeds its record with the snapshot of the feed, so
        that entries present at registration are never published. */
    method Register(jobId: string, feed: Feed, fetched: Fetch)
      modifies this
      ensures records == old(records)[jobId := if fetched.Fetched? then Ids(fetched.entries) else []]
    {
      var snapshot := FeedSnapshot(feed, fetched);
      records := records[jobId := snapshot];
    }

    /** One tick of job `jobId`. The job's record must exist: reading an
        absent record aborts the tick. */
    method Tick(jobId: string, feed: Feed, fetched: Fetch, render: Renderer, clients: set<string>)
      returns (sends: seq<Send>)
      requires jobId in records
      modifies this
      ensures records == StoreAfterTick(old(records), jobId, feed, fetched, render)
      ensures sends == SendsOfTick(old(records), jobId, feed, fetched, render, clients)
    {
      var record := records[jobId];
      match fetched
      case FetchFailed =>
        sends := [];
      case Fetched(es) =>
        var complete;
        record, sends, complete := ScanEntries(record, es, feed, render, clients);
        if !complete {
          return;
        }
        record := Truncate(record, feed.cacheSize);
        records := records[jobId := record];
    }
  }
}
