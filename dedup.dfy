/**
  What one tick of a feed job does, stated as functions of its inputs: which
  fetched entries are new, what the dedup record becomes, which messages are
  handed to which clients, and when the tick stops early. The methods of
  module Scheduler are proved to compute exactly these; the lemmas here state
  what the tick guarantees.
 */
module Dedup {
  import opened Feeds

  /** `Vec::truncate`: keeps the first `n` elements, or all of them when
      there are no more than `n`. */
  function Truncate<T>(s: seq<T>, n: nat): (r: seq<T>)
    ensures |r| == if |s| <= n then |s| else n
    ensures r == s[..|r|]
  {
    if |s| <= n then s else s[..n]
  }

  /** The elements of `s`, last first. */
  function Reversed<T>(s: seq<T>): (r: seq<T>)
    ensures |r| == |s|
    ensures forall k :: 0 <= k < |s| ==> r[k] == s[|s| - 1 - k]
  {
    if s == [] then [] else [s[|s| - 1]] + Reversed(s[..|s| - 1])
  }

  lemma ReversedSnoc<T>(s: seq<T>, x: T)
    ensures Reversed(s + [x]) == [x] + Reversed(s)
  {
    assert (s + [x])[..|s|] == s;
  }

  lemma {:induction false} ReversedMultiset<T>(s: seq<T>)
    ensures multiset(Reversed(s)) == multiset(s)
  {
    if s != [] {
      var init := s[..|s| - 1];
      ReversedMultiset(init);
      assert s == init + [s[|s| - 1]];
    }
  }

  // ---------------------------------------------------------------------
  // Fan-out of one rendered message

  /** The profiles of `profiles` that have a registered client, in list
      order; a profile listed twice is kept twice. */
  function Registered(profiles: seq<string>, clients: set<string>): (r: seq<string>)
    ensures |r| <= |profiles|
    ensures forall k :: 0 <= k < |r| ==> r[k] in clients
  {
    if profiles == [] then []
    else
      var last := profiles[|profiles| - 1];
      Registered(profiles[..|profiles| - 1], clients) + (if last in clients then [last] else [])
  }

  /** A profile with a client is kept as often as it is listed; a profile
      without one is dropped. */
  lemma {:induction false} RegisteredCount(profiles: seq<string>, clients: set<string>, p: string)
    ensures multiset(Registered(profiles, clients))[p] == if p in clients then multiset(profiles)[p] else 0
  {
    if profiles != [] {
      var init := profiles[..|profiles| - 1];
      RegisteredCount(init, clients, p);
      assert profiles == init + [profiles[|profiles| - 1]];
    }
  }

  /** Keeping the registered profiles of a concatenation keeps those of
      each part, in order. */
  lemma {:induction false} RegisteredAppend(a: seq<string>, b: seq<string>, clients: set<string>)
    ensures Registered(a + b, clients) == Registered(a, clients) + Registered(b, clients)
  {
    if b == [] {
      assert a + b == a;
    } else {
      var init := b[..|b| - 1];
      RegisteredAppend(a, init, clients);
      assert (a + b)[..|a + b| - 1] == a + init;
    }
  }

  /** The sends of one message: one per listed profile that has a client,
      in profile-list order, each with the same message and tags. */
  function FanOut(entry: string, profiles: seq<string>, clients: set<string>,
                  message: string, tags: seq<Tag>): (r: seq<Send>)
    ensures |r| == |Registered(profiles, clients)|
    ensures forall k :: 0 <= k < |r| ==>
      r[k] == Send(entry, Registered(profiles, clients)[k], message, tags)
  {
    if profiles == [] then []
    else
      var init := profiles[..|profiles| - 1];
      var last := profiles[|profiles| - 1];
      FanOut(entry, init, clients, message, tags)
      + (if last in clients then [Send(entry, last, message, tags)] else [])
  }

  // ---------------------------------------------------------------------
  // Which entries are new

  /** Entry `i` is new when its id is neither in the record read at the
      start of the tick nor the id of an earlier entry of the same fetch. */
  predicate IsNew(record: seq<string>, es: seq<Entry>, i: nat)
    requires i < |es|
    ensures IsNew(record, es, i) <==> es[i].id !in record + Ids(es[..i])
  {
    assert forall j :: 0 <= j < i ==> Ids(es[..i])[j] == es[j].id;
    es[i].id !in record && forall j :: 0 <= j < i ==> es[j].id != es[i].id
  }

  /** The new entries among the first `n`, in fetch order. */
  function NewEntries(record: seq<string>, es: seq<Entry>, n: nat): (r: seq<Entry>)
    requires n <= |es|
    ensures |r| <= n
    ensures forall k :: 0 <= k < |r| ==> r[k] in es && r[k].id !in record
  {
    if n == 0 then []
    else
      NewEntries(record, es, n - 1) + (if IsNew(record, es, n - 1) then [es[n - 1]] else [])
  }

  /** An id is among the new ids of the first `n` entries exactly when it is
      not in the record and some entry among the first `n` carries it. */
  lemma {:induction false} NewIdsMembership(record: seq<string>, es: seq<Entry>, n: nat, x: string)
    requires n <= |es|
    ensures x in Ids(NewEntries(record, es, n)) <==>
      x !in record && exists j :: 0 <= j < n && es[j].id == x
  {
    if n > 0 {
      NewIdsMembership(record, es, n - 1, x);
      var prev := NewEntries(record, es, n - 1);
      var added := if IsNew(record, es, n - 1) then [es[n - 1]] else [];
      IdsAppend(prev, added);
      assert NewEntries(record, es, n) == prev + added;
      if IsNew(record, es, n - 1) {
        assert Ids(added) == [es[n - 1].id];
      } else {
        assert Ids(added) == [];
      }
      if x !in record && exists j :: 0 <= j < n && es[j].id == x {
        var j :| 0 <= j < n && es[j].id == x;
        if j == n - 1 && !IsNew(record, es, n - 1) {
          var j' :| 0 <= j' < n - 1 && es[j'].id == es[n - 1].id;
        }
      }
      if x in Ids(added) {
        assert 0 <= n - 1 < n && es[n - 1].id == x;
      }
    }
  }

  /** No value occurs twice in `s`. */
  predicate Distinct(s: seq<string>) {
    forall a, b :: 0 <= a < b < |s| ==> s[a] != s[b]
  }

  /** No id is new twice: the new ids of one tick are pairwise distinct. */
  lemma {:induction false} NewIdsDistinct(record: seq<string>, es: seq<Entry>, n: nat)
    requires n <= |es|
    ensures Distinct(Ids(NewEntries(record, es, n)))
  {
    if n > 0 {
      NewIdsDistinct(record, es, n - 1);
      var prev := NewEntries(record, es, n - 1);
      if IsNew(record, es, n - 1) {
        var x := es[n - 1].id;
        NewIdsMembership(record, es, n - 1, x);
        IdsAppend(prev, [es[n - 1]]);
        var oldIds := Ids(prev);
        var ids := Ids(NewEntries(record, es, n));
        assert x !in oldIds;
        assert ids == oldIds + [x];
        forall a, b | 0 <= a < b < |ids| ensures ids[a] != ids[b] {
          assert ids[a] == oldIds[a];
          if b == |oldIds| {
            assert oldIds[a] in oldIds;
          } else {
            assert ids[b] == oldIds[b];
          }
        }
      } else {
        assert NewEntries(record, es, n) == prev;
      }
    }
  }

  /** The record as the tick builds it from `record` over the first `n`
      entries: each new entry's id is put in front, in turn. */
  function Prepended(record: seq<string>, es: seq<Entry>, n: nat): (r: seq<string>)
    requires n <= |es|
    ensures |record| <= |r| <= |record| + n
  {
    if n == 0 then record
    else if IsNew(record, es, n - 1) then [es[n - 1].id] + Prepended(record, es, n - 1)
    else Prepended(record, es, n - 1)
  }

  /** The built record holds the ids of the record it started from and of
      the first `n` entries, and nothing else. */
  lemma {:induction false} PrependedMembers(record: seq<string>, es: seq<Entry>, n: nat, x: string)
    requires n <= |es|
    ensures x in Prepended(record, es, n) <==> x in record || exists j :: 0 <= j < n && es[j].id == x
  {
    if n > 0 {
      PrependedMembers(record, es, n - 1, x);
      if x == es[n - 1].id && !IsNew(record, es, n - 1) && x !in record {
        var j :| 0 <= j < n - 1 && es[j].id == es[n - 1].id;
      }
      if x in Prepended(record, es, n) && x !in Prepended(record, es, n - 1) {
        assert 0 <= n - 1 < n && es[n - 1].id == x;
      }
    }
  }

  /** The membership test the tick makes on its in-progress record decides
      newness: entry `i` is found exactly when it is not new. */
  lemma PrependedMembership(record: seq<string>, es: seq<Entry>, i: nat)
    requires i < |es|
    ensures es[i].id in Prepended(record, es, i) <==> !IsNew(record, es, i)
  {
    PrependedMembers(record, es, i, es[i].id);
  }

  /** The built record is the tick's new ids, the last one first, ahead of
      the record it started from. */
  lemma {:induction false} PrependedIsReversedNewIds(record: seq<string>, es: seq<Entry>, n: nat)
    requires n <= |es|
    ensures Prepended(record, es, n) == Reversed(Ids(NewEntries(record, es, n))) + record
  {
    if n > 0 {
      PrependedIsReversedNewIds(record, es, n - 1);
      var prev := NewEntries(record, es, n - 1);
      if IsNew(record, es, n - 1) {
        assert NewEntries(record, es, n) == prev + [es[n - 1]];
        ReversedIdsSnoc(prev, es[n - 1]);
        assert Prepended(record, es, n) == [es[n - 1].id] + (Reversed(Ids(prev)) + record);
      } else {
        assert NewEntries(record, es, n) == prev;
      }
    }
  }

  lemma ReversedIdsSnoc(ns: seq<Entry>, e: Entry)
    ensures Reversed(Ids(ns + [e])) == [e.id] + Reversed(Ids(ns))
  {
    IdsAppend(ns, [e]);
    assert Ids([e]) == [e.id];
    ReversedSnoc(Ids(ns), e.id);
  }

  // ---------------------------------------------------------------------
  // Where a render failure stops the tick

  /** Entry `i` is new and the renderer rejects it. */
  predicate FailsAt(record: seq<string>, es: seq<Entry>, feed: Feed, render: Renderer, i: nat)
    requires i < |es|
  {
    IsNew(record, es, i) && render(feed, es[i]).RenderFailed?
  }

  /** The first index at or after `from` whose entry is new and fails to
      render, or `|es|` when there is none. */
  function RenderStop(record: seq<string>, es: seq<Entry>, feed: Feed, render: Renderer, from: nat): (k: nat)
    requires from <= |es|
    ensures from <= k <= |es|
    ensures forall j :: from <= j < k ==> !FailsAt(record, es, feed, render, j)
    ensures k < |es| ==> FailsAt(record, es, feed, render, k)
    decreases |es| - from
  {
    if from == |es| then |es|
    else if FailsAt(record, es, feed, render, from) then from
    else RenderStop(record, es, feed, render, from + 1)
  }

  /** Where the tick stops: the first failing new entry, or the end. */
  function Stop(record: seq<string>, es: seq<Entry>, feed: Feed, render: Renderer): (k: nat)
    ensures k <= |es|
    ensures forall j :: 0 <= j < k ==> !FailsAt(record, es, feed, render, j)
    ensures k < |es| ==> FailsAt(record, es, feed, render, k)
  {
    RenderStop(record, es, feed, render, 0)
  }

  /** An index up to the stop whose entry does not fail lies before it. */
  lemma StopPasses(record: seq<string>, es: seq<Entry>, feed: Feed, render: Renderer, i: nat)
    requires i < |es| && i <= Stop(record, es, feed, render)
    requires !FailsAt(record, es, feed, render, i)
    ensures i + 1 <= Stop(record, es, feed, render)
  {
  }

  /** An index up to the stop whose entry fails is the stop. */
  lemma StopAt(record: seq<string>, es: seq<Entry>, feed: Feed, render: Renderer, i: nat)
    requires i < |es| && i <= Stop(record, es, feed, render)
    requires FailsAt(record, es, feed, render, i)
    ensures Stop(record, es, feed, render) == i
  {
  }

  /** The stop is the one index before which nothing fails and at which
      something fails (or the end, when nothing fails). */
  lemma StopUnique(record: seq<string>, es: seq<Entry>, feed: Feed, render: Renderer, i: nat)
    requires i <= |es|
    requires forall j :: 0 <= j < i ==> !FailsAt(record, es, feed, render, j)
    requires i < |es| ==> FailsAt(record, es, feed, render, i)
    ensures Stop(record, es, feed, render) == i
  {
  }

  // ---------------------------------------------------------------------
  // What the tick sends

  /** The sends for one new entry: its rendered message fanned out to the
      feed's profiles; nothing when rendering fails. */
  function EntrySends(feed: Feed, clients: set<string>, render: Renderer, e: Entry): (r: seq<Send>)
    ensures forall s :: s in r ==> s.entry == e.id
  {
    match render(feed, e)
    case RenderFailed => []
    case Message(m) => FanOut(e.id, ProfileIds(feed), clients, m, Hashtags(feed))
  }

  /** The sends for a list of new entries, entry by entry. */
  function SendsFor(feed: Feed, clients: set<string>, render: Renderer, ns: seq<Entry>): (r: seq<Send>)
    ensures forall s :: s in r ==> s.entry in Ids(ns)
  {
    if ns == [] then []
    else
      var init := ns[..|ns| - 1];
      IdsAppend(init, [ns[|ns| - 1]]);
      assert ns == init + [ns[|ns| - 1]];
      SendsFor(feed, clients, render, init) + EntrySends(feed, clients, render, ns[|ns| - 1])
  }

  lemma SendsForSnoc(feed: Feed, clients: set<string>, render: Renderer, ns: seq<Entry>, e: Entry)
    ensures SendsFor(feed, clients, render, ns + [e])
      == SendsFor(feed, clients, render, ns) + EntrySends(feed, clients, render, e)
  {
    assert (ns + [e])[..|ns|] == ns;
  }

  /** The sends of a log that were made for the entry with id `x`. */
  function SentFor(sends: seq<Send>, x: string): (r: seq<Send>)
    ensures |r| <= |sends|
    ensures forall k :: 0 <= k < |r| ==> r[k].entry == x
  {
    if sends == [] then []
    else
      var last := sends[|sends| - 1];
      SentFor(sends[..|sends| - 1], x) + (if last.entry == x then [last] else [])
  }

  lemma {:induction false} SentForAppend(a: seq<Send>, b: seq<Send>, x: string)
    ensures SentFor(a + b, x) == SentFor(a, x) + SentFor(b, x)
  {
    if b == [] {
      assert a + b == a;
    } else {
      SentForAppend(a, b[..|b| - 1], x);
      assert (a + b)[..|a + b| - 1] == a + b[..|b| - 1];
    }
  }

  lemma {:induction false} SentForAll(sends: seq<Send>, x: string)
    requires forall k :: 0 <= k < |sends| ==> sends[k].entry == x
    ensures SentFor(sends, x) == sends
  {
    if sends != [] {
      SentForAll(sends[..|sends| - 1], x);
    }
  }

  lemma {:induction false} SentForNone(sends: seq<Send>, x: string)
    requires forall k :: 0 <= k < |sends| ==> sends[k].entry != x
    ensures SentFor(sends, x) == []
  {
    if sends != [] {
      SentForNone(sends[..|sends| - 1], x);
    }
  }

  /** The sends for one entry are all for that entry. */
  lemma SentForOwn(feed: Feed, clients: set<string>, render: Renderer, e: Entry, x: string)
    ensures SentFor(EntrySends(feed, clients, render, e), x)
      == if e.id == x then EntrySends(feed, clients, render, e) else []
  {
    var mine := EntrySends(feed, clients, render, e);
    if e.id == x {
      forall k | 0 <= k < |mine| ensures mine[k].entry == x {
        assert mine[k] in mine;
      }
      SentForAll(mine, x);
    } else {
      forall k | 0 <= k < |mine| ensures mine[k].entry != x {
        assert mine[k] in mine;
      }
      SentForNone(mine, x);
    }
  }

  lemma SentForSnoc(feed: Feed, clients: set<string>, render: Renderer, ns: seq<Entry>, e: Entry, x: string)
    ensures SentFor(SendsFor(feed, clients, render, ns + [e]), x)
      == SentFor(SendsFor(feed, clients, render, ns), x)
         + (if e.id == x then EntrySends(feed, clients, render, e) else [])
  {
    SendsForSnoc(feed, clients, render, ns, e);
    SentForAppend(SendsFor(feed, clients, render, ns), EntrySends(feed, clients, render, e), x);
    SentForOwn(feed, clients, render, e, x);
  }

  /** No send is made for an id that is not among the entries sent. */
  lemma SentForAbsent(feed: Feed, clients: set<string>, render: Renderer, ns: seq<Entry>, x: string)
    requires x !in Ids(ns)
    ensures SentFor(SendsFor(feed, clients, render, ns), x) == []
  {
    var sends := SendsFor(feed, clients, render, ns);
    forall k | 0 <= k < |sends| ensures sends[k].entry != x {
      assert sends[k] in sends;
    }
    SentForNone(sends, x);
  }

  /** Among the sends for entries with pairwise distinct ids, those for
      the `k`-th entry are exactly its own. */
  lemma {:induction false} SentForDistinct(feed: Feed, clients: set<string>, render: Renderer,
                                           ns: seq<Entry>, k: nat)
    requires k < |ns|
    requires forall a, b :: 0 <= a < b < |ns| ==> ns[a].id != ns[b].id
    ensures SentFor(SendsFor(feed, clients, render, ns), ns[k].id) == EntrySends(feed, clients, render, ns[k])
  {
    var init := ns[..|ns| - 1];
    var last := ns[|ns| - 1];
    assert ns == init + [last];
    SentForSnoc(feed, clients, render, init, last, ns[k].id);
    if k == |ns| - 1 {
      assert last.id !in Ids(init);
      SentForAbsent(feed, clients, render, init, last.id);
    } else {
      SentForDistinct(feed, clients, render, init, k);
    }
  }

  /** A new entry among the first `n` is one of the tick's new entries. */
  lemma {:induction false} NewEntryListed(record: seq<string>, es: seq<Entry>, n: nat, i: nat)
    requires i < n <= |es|
    requires IsNew(record, es, i)
    ensures es[i] in NewEntries(record, es, n)
  {
    if i < n - 1 {
      NewEntryListed(record, es, n - 1, i);
    }
  }

  /** Among the tick's sends, those for new entry `i` are exactly its own. */
  lemma SendsForEach(feed: Feed, clients: set<string>, render: Renderer,
                     record: seq<string>, es: seq<Entry>, n: nat, i: nat)
    requires i < n <= |es|
    requires IsNew(record, es, i)
    ensures SentFor(SendsFor(feed, clients, render, NewEntries(record, es, n)), es[i].id)
      == EntrySends(feed, clients, render, es[i])
  {
    var ns := NewEntries(record, es, n);
    NewEntryListed(record, es, n, i);
    NewIdsDistinct(record, es, n);
    var k :| 0 <= k < |ns| && ns[k] == es[i];
    forall a, b | 0 <= a < b < |ns| ensures ns[a].id != ns[b].id {
      assert Ids(ns)[a] != Ids(ns)[b];
    }
    SentForDistinct(feed, clients, render, ns, k);
  }

  // ---------------------------------------------------------------------
  // One step of the tick's loop

  /** An entry the in-progress record already holds changes nothing. */
  lemma SkipStep(record: seq<string>, es: seq<Entry>, feed: Feed, render: Renderer,
                 clients: set<string>, i: nat)
    requires i < |es| && i <= Stop(record, es, feed, render)
    requires es[i].id in Prepended(record, es, i)
    ensures i + 1 <= Stop(record, es, feed, render)
    ensures Prepended(record, es, i + 1) == Prepended(record, es, i)
    ensures SendsFor(feed, clients, render, NewEntries(record, es, i + 1))
      == SendsFor(feed, clients, render, NewEntries(record, es, i))
  {
    PrependedMembership(record, es, i);
    StopPasses(record, es, feed, render, i);
    assert NewEntries(record, es, i + 1) == NewEntries(record, es, i);
  }

  /** A new entry that renders adds its fan-out to the sends and its id to
      the front of the record. */
  lemma PublishStep(record: seq<string>, es: seq<Entry>, feed: Feed, render: Renderer,
                    clients: set<string>, i: nat, message: string)
    requires i < |es| && i <= Stop(record, es, feed, render)
    requires es[i].id !in Prepended(record, es, i)
    requires render(feed, es[i]) == Message(message)
    ensures i + 1 <= Stop(record, es, feed, render)
    ensures Prepended(record, es, i + 1) == [es[i].id] + Prepended(record, es, i)
    ensures SendsFor(feed, clients, render, NewEntries(record, es, i + 1))
      == SendsFor(feed, clients, render, NewEntries(record, es, i))
         + FanOut(es[i].id, ProfileIds(feed), clients, message, Hashtags(feed))
  {
    assert IsNew(record, es, i) by {
      PrependedMembership(record, es, i);
    }
    assert i + 1 <= Stop(record, es, feed, render) by {
      StopPasses(record, es, feed, render, i);
    }
    var done := NewEntries(record, es, i);
    var mine := EntrySends(feed, clients, render, es[i]);
    assert NewEntries(record, es, i + 1) == done + [es[i]];
    assert mine == FanOut(es[i].id, ProfileIds(feed), clients, message, Hashtags(feed));
    assert SendsFor(feed, clients, render, done + [es[i]])
      == SendsFor(feed, clients, render, done) + mine by {
      SendsForSnoc(feed, clients, render, done, es[i]);
    }
  }

  /** A new entry that fails to render is where the tick stops. */
  lemma FailStep(record: seq<string>, es: seq<Entry>, feed: Feed, render: Renderer, i: nat)
    requires i < |es| && i <= Stop(record, es, feed, render)
    requires es[i].id !in Prepended(record, es, i)
    requires render(feed, es[i]).RenderFailed?
    ensures Stop(record, es, feed, render) == i
  {
    PrependedMembership(record, es, i);
    StopAt(record, es, feed, render, i);
  }

  // ---------------------------------------------------------------------
  // One tick over the whole store

  /** The dedup store after a tick of job `jobId`. The registered clients
      play no part: a profile without a client never keeps an id out. */
  function StoreAfterTick(records: map<string, seq<string>>, jobId: string, feed: Feed,
                          fetched: Fetch, render: Renderer): (r: map<string, seq<string>>)
    requires jobId in records
    ensures jobId in r
    ensures r[jobId] == records[jobId] || |r[jobId]| <= feed.cacheSize
  {
    match fetched
    case FetchFailed => records
    case Fetched(es) =>
      var record := records[jobId];
      if Stop(record, es, feed, render) < |es| then records
      else records[jobId := Truncate(Prepended(record, es, |es|), feed.cacheSize)]
  }

  /** The sends of a tick of job `jobId`, in the order they are made. */
  function SendsOfTick(records: map<string, seq<string>>, jobId: string, feed: Feed,
                       fetched: Fetch, render: Renderer, clients: set<string>): (r: seq<Send>)
    requires jobId in records
    ensures forall s :: s in r ==>
      fetched.Fetched? && s.entry in Ids(fetched.entries) && s.entry !in records[jobId]
  {
    match fetched
    case FetchFailed => []
    case Fetched(es) =>
      var record := records[jobId];
      var stop := Stop(record, es, feed, render);
      var sends := SendsFor(feed, clients, render, NewEntries(record, es, stop));
      assert forall s :: s in sends ==> s.entry in Ids(es) && s.entry !in record by {
        forall s | s in sends ensures s.entry in Ids(es) && s.entry !in record {
          NewIdsMembership(record, es, stop, s.entry);
          var j :| 0 <= j < stop && es[j].id == s.entry;
          assert Ids(es)[j] == s.entry;
        }
      }
      sends
  }

  /** A tick that fetches and renders every new entry stores, under its own
      job id, the new ids prepended to the old record, cut to `cacheSize`. */
  lemma TickBoundsRecord(records: map<string, seq<string>>, jobId: string, feed: Feed,
                         es: seq<Entry>, render: Renderer)
    requires jobId in records
    requires Stop(records[jobId], es, feed, render) == |es|
    ensures var stored := StoreAfterTick(records, jobId, feed, Fetched(es), render)[jobId];
      var built := Prepended(records[jobId], es, |es|);
      |stored| <= feed.cacheSize
      && |stored| == (if |built| <= feed.cacheSize then |built| else feed.cacheSize)
      && stored == built[..|stored|]
  {
  }

  /** A tick writes no key but its own job id. */
  lemma TickLeavesOtherJobs(records: map<string, seq<string>>, jobId: string, feed: Feed,
                            fetched: Fetch, render: Renderer)
    requires jobId in records
    ensures var after := StoreAfterTick(records, jobId, feed, fetched, render);
      after.Keys == records.Keys
      && forall k :: k in records && k != jobId ==> after[k] == records[k]
  {
  }

  /** A failed fetch leaves the store as it was and sends nothing. */
  lemma FetchFailureChangesNothing(records: map<string, seq<string>>, jobId: string, feed: Feed,
                                   render: Renderer, clients: set<string>)
    requires jobId in records
    ensures StoreAfterTick(records, jobId, feed, FetchFailed, render) == records
    ensures SendsOfTick(records, jobId, feed, FetchFailed, render, clients) == []
  {
  }

  /** When a new entry fails to render, the store is left as it was; the new
      entries before it have been sent, and neither it nor any new entry
      after it is sent. */
  lemma RenderFailureAbortsTick(records: map<string, seq<string>>, jobId: string, feed: Feed,
                                es: seq<Entry>, render: Renderer, clients: set<string>)
    requires jobId in records
    requires Stop(records[jobId], es, feed, render) < |es|
    ensures StoreAfterTick(records, jobId, feed, Fetched(es), render) == records
    ensures var record := records[jobId];
      var stop := Stop(record, es, feed, render);
      var sends := SendsOfTick(records, jobId, feed, Fetched(es), render, clients);
      render(feed, es[stop]).RenderFailed?
      && (forall s :: s in sends ==> exists j :: 0 <= j < stop && IsNew(record, es, j) && es[j].id == s.entry)
      && (forall j, s :: stop <= j < |es| && IsNew(record, es, j) && s in sends ==> s.entry != es[j].id)
  {
    var record := records[jobId];
    var stop := Stop(record, es, feed, render);
    var sends := SendsOfTick(records, jobId, feed, Fetched(es), render, clients);
    forall s | s in sends
      ensures exists j :: 0 <= j < stop && IsNew(record, es, j) && es[j].id == s.entry
    {
      NewIdsMembership(record, es, stop, s.entry);
      var j :| 0 <= j < stop && es[j].id == s.entry;
      var first := FirstWithId(es, j);
      assert IsNew(record, es, first);
    }
    forall j, s | stop <= j < |es| && IsNew(record, es, j) && s in sends
      ensures s.entry != es[j].id
    {
      NewIdsMembership(record, es, stop, s.entry);
    }
  }

  /** The first index whose entry has the same id as entry `j`. */
  function FirstWithId(es: seq<Entry>, j: nat): (f: nat)
    requires j < |es|
    ensures f <= j && es[f].id == es[j].id
    ensures forall k :: 0 <= k < f ==> es[k].id != es[j].id
  {
    if exists k :: 0 <= k < j && es[k].id == es[j].id then
      var k :| 0 <= k < j && es[k].id == es[j].id;
      FirstWithId(es, k)
    else j
  }

  /** Every new entry the tick gets to is rendered once and published once
      to each registered profile; an id already in the record is neither
      published nor inserted again, and each new id is inserted exactly once,
      a repeat of it later in the same fetch being skipped. */
  lemma EachNewEntryPublishedOnce(records: map<string, seq<string>>, jobId: string, feed: Feed,
                                  es: seq<Entry>, render: Renderer, clients: set<string>)
    requires jobId in records
    ensures var record := records[jobId];
      var stop := Stop(record, es, feed, render);
      var sends := SendsOfTick(records, jobId, feed, Fetched(es), render, clients);
      (forall i :: 0 <= i < stop && IsNew(record, es, i) ==>
        render(feed, es[i]).Message?
        && SentFor(sends, es[i].id)
           == FanOut(es[i].id, ProfileIds(feed), clients, render(feed, es[i]).text, Hashtags(feed)))
      && (forall x :: x in record ==> SentFor(sends, x) == [])
      && (forall x :: x in record ==> multiset(Prepended(record, es, stop))[x] == multiset(record)[x])
      && (forall i :: 0 <= i < stop && IsNew(record, es, i) ==>
            multiset(Prepended(record, es, stop))[es[i].id] == 1)
  {
    var record := records[jobId];
    var stop := Stop(record, es, feed, render);
    var ns := NewEntries(record, es, stop);
    var sends := SendsOfTick(records, jobId, feed, Fetched(es), render, clients);
    forall i | 0 <= i < stop && IsNew(record, es, i)
      ensures render(feed, es[i]).Message?
      ensures SentFor(sends, es[i].id)
           == FanOut(es[i].id, ProfileIds(feed), clients, render(feed, es[i]).text, Hashtags(feed))
    {
      assert !FailsAt(record, es, feed, render, i);
      SendsForEach(feed, clients, render, record, es, stop, i);
    }
    ReversedMultiset(Ids(ns));
    PrependedIsReversedNewIds(record, es, stop);
    forall x | x in record
      ensures SentFor(sends, x) == []
      ensures multiset(Prepended(record, es, stop))[x] == multiset(record)[x]
    {
      NewIdsMembership(record, es, stop, x);
      SentForNone(sends, x);
    }
    forall i | 0 <= i < stop && IsNew(record, es, i)
      ensures multiset(Prepended(record, es, stop))[es[i].id] == 1
    {
      NewIdInsertedOnce(record, es, stop, i);
    }
  }

  /** The record built over the first `n` entries holds the id of each new
      entry among them exactly once. */
  lemma NewIdInsertedOnce(record: seq<string>, es: seq<Entry>, n: nat, i: nat)
    requires i < n <= |es|
    requires IsNew(record, es, i)
    ensures multiset(Prepended(record, es, n))[es[i].id] == 1
  {
    var ns := NewEntries(record, es, n);
    PrependedIsReversedNewIds(record, es, n);
    ReversedMultiset(Ids(ns));
    assert multiset(Prepended(record, es, n)) == multiset(Ids(ns)) + multiset(record);
    NewEntryListed(record, es, n, i);
    var k :| 0 <= k < |ns| && ns[k] == es[i];
    assert Ids(ns)[k] == es[i].id;
    assert es[i].id in multiset(Ids(ns));
    NewIdsDistinct(record, es, n);
    DistinctCount(Ids(ns), es[i].id);
  }

  /** A sequence without repeats holds each value at most once. */
  lemma {:induction false} DistinctCount(s: seq<string>, x: string)
    requires Distinct(s)
    ensures multiset(s)[x] <= 1
  {
    if s != [] {
      var init := s[..|s| - 1];
      DistinctCount(init, x);
      assert s == init + [s[|s| - 1]];
      if s[|s| - 1] == x {
        assert x !in init;
      }
    }
  }

  /** Before truncation every fetched id is in the record the tick built. */
  lemma PrependedCoversFetch(record: seq<string>, es: seq<Entry>, n: nat)
    requires n <= |es|
    ensures forall i :: 0 <= i < n ==> es[i].id in Prepended(record, es, n)
  {
    forall i | 0 <= i < n ensures es[i].id in Prepended(record, es, n) {
      PrependedMembers(record, es, n, es[i].id);
    }
  }

  /** When every entry of a fetch is new, the tick's record begins with
      their ids, the last one first, ahead of the old record. */
  lemma {:induction false} AllNewPrependedReversed(record: seq<string>, es: seq<Entry>)
    requires forall i :: 0 <= i < |es| ==> es[i].id !in record
    requires forall a, b :: 0 <= a < b < |es| ==> es[a].id != es[b].id
    ensures Prepended(record, es, |es|) == Reversed(Ids(es)) + record
  {
    AllNew(record, es, |es|);
    assert es[..|es|] == es;
    PrependedIsReversedNewIds(record, es, |es|);
  }

  lemma {:induction false} AllNew(record: seq<string>, es: seq<Entry>, n: nat)
    requires n <= |es|
    requires forall i :: 0 <= i < |es| ==> es[i].id !in record
    requires forall a, b :: 0 <= a < b < |es| ==> es[a].id != es[b].id
    ensures NewEntries(record, es, n) == es[..n]
  {
    if n > 0 {
      AllNew(record, es, n - 1);
      assert IsNew(record, es, n - 1);
      assert es[..n] == es[..n - 1] + [es[n - 1]];
    }
  }

  /** A completed tick whose stored record still holds every fetched id
      makes the next tick on the same fetch a no-op: it sends nothing and
      stores what it read. A full record that takes in new entries
      qualifies as long as truncation evicts only ids the fetch lacks. */
  lemma RepeatedTickPublishesNothing(records: map<string, seq<string>>, jobId: string, feed: Feed,
                                     es: seq<Entry>, render: Renderer, clients: set<string>)
    requires jobId in records
    requires Stop(records[jobId], es, feed, render) == |es|
    requires forall i :: 0 <= i < |es| ==>
      es[i].id in StoreAfterTick(records, jobId, feed, Fetched(es), render)[jobId]
    ensures var after := StoreAfterTick(records, jobId, feed, Fetched(es), render);
      SendsOfTick(after, jobId, feed, Fetched(es), render, clients) == []
      && StoreAfterTick(after, jobId, feed, Fetched(es), render) == after
  {
    var after := StoreAfterTick(records, jobId, feed, Fetched(es), render);
    var stored := after[jobId];
    NothingNew(stored, es, |es|);
    NothingNew(stored, es, Stop(stored, es, feed, render));
    assert Stop(stored, es, feed, render) == |es|;
    assert |stored| <= feed.cacheSize;
  }

  // Two small examples, with a feed of `cacheSize` 2 publishing to the
  // default profile and a renderer that accepts every entry.

  function SmallFeed(): Feed {
    Feed("f", "n", "u", None, None, 2)
  }

  function RenderAll(feed: Feed, e: Entry): Rendered {
    Message("m")
  }

  /** The precondition above admits a full record: a record of `cacheSize`
      ids that takes in a new entry and evicts an id the fetch lacks. */
  lemma RepeatedTickOnFullRecord()
    ensures var es := [Entry("B", "b"), Entry("A", "a")];
      var records := map["job" := ["A", "Z"]];
      |records["job"]| == SmallFeed().cacheSize
      && Stop(records["job"], es, SmallFeed(), RenderAll) == |es|
      && StoreAfterTick(records, "job", SmallFeed(), Fetched(es), RenderAll)["job"] == ["B", "A"]
  {
    var record: seq<string> := ["A", "Z"];
    var es := [Entry("B", "b"), Entry("A", "a")];
    assert IsNew(record, es, 0);
    assert !IsNew(record, es, 1) by { assert es[1].id in record; }
    StopUnique(record, es, SmallFeed(), RenderAll, 2);
    assert Prepended(record, es, 2) == ["B", "A", "Z"];
  }

  /** Truncation keeps the most recently inserted ids, not the ids the feed
      still carries: an id that was already in the record when newer ids
      arrived can be evicted while the feed still lists it, and the next
      tick on the same fetch publishes it again. */
  lemma EvictionRepublishes()
    ensures var es := [Entry("A", "a"), Entry("D", "d")];
      var after := StoreAfterTick(map["job" := ["C", "A"]], "job", SmallFeed(), Fetched(es), RenderAll);
      after["job"] == ["D", "C"]
      && SendsOfTick(after, "job", SmallFeed(), Fetched(es), RenderAll, {"default"})
         == [Send("A", "default", "m", [])]
  {
    EvictingTick();
    TickAfterEviction();
  }

  lemma EvictingTick()
    ensures StoreAfterTick(map["job" := ["C", "A"]], "job", SmallFeed(),
                           Fetched([Entry("A", "a"), Entry("D", "d")]), RenderAll)
      == map["job" := ["D", "C"]]
  {
    var record: seq<string> := ["C", "A"];
    var es := [Entry("A", "a"), Entry("D", "d")];
    assert !IsNew(record, es, 0) by { assert es[0].id in record; }
    assert IsNew(record, es, 1);
    StopUnique(record, es, SmallFeed(), RenderAll, 2);
    assert Prepended(record, es, 2) == ["D", "C", "A"];
    assert Truncate(["D", "C", "A"], 2) == ["D", "C"];
  }

  lemma TickAfterEviction()
    ensures SendsOfTick(map["job" := ["D", "C"]], "job", SmallFeed(),
                        Fetched([Entry("A", "a"), Entry("D", "d")]), RenderAll, {"default"})
      == [Send("A", "default", "m", [])]
  {
    var stored: seq<string> := ["D", "C"];
    var es := [Entry("A", "a"), Entry("D", "d")];
    assert IsNew(stored, es, 0);
    assert !IsNew(stored, es, 1) by { assert es[1].id in stored; }
    StopUnique(stored, es, SmallFeed(), RenderAll, 2);
    assert NewEntries(stored, es, 2) == [es[0]];
    assert Registered(["default"], {"default"}) == ["default"];
    assert EntrySends(SmallFeed(), {"default"}, RenderAll, es[0]) == [Send("A", "default", "m", [])];
    assert SendsFor(SmallFeed(), {"default"}, RenderAll, [es[0]]) == [Send("A", "default", "m", [])];
  }

  lemma {:induction false} NothingNew(record: seq<string>, es: seq<Entry>, n: nat)
    requires n <= |es|
    requires forall i :: 0 <= i < |es| ==> es[i].id in record
    ensures NewEntries(record, es, n) == []
    ensures Prepended(record, es, n) == record
  {
    if n > 0 {
      NothingNew(record, es, n - 1);
    }
  }

  /** After registration stores the snapshot ids, a tick publishes none of
      the entries the snapshot saw. */
  lemma SnapshotSuppressesRepublish(records: map<string, seq<string>>, jobId: string, feed: Feed,
                                    snapshot: seq<Entry>, fetched: Fetch, render: Renderer,
                                    clients: set<string>)
    ensures var seeded := records[jobId := Ids(snapshot)];
      forall s :: s in SendsOfTick(seeded, jobId, feed, fetched, render, clients) ==>
        s.entry !in Ids(snapshot)
  {
    var seeded := records[jobId := Ids(snapshot)];
    if fetched.Fetched? {
      var es := fetched.entries;
      var stop := Stop(Ids(snapshot), es, feed, render);
      forall s | s in SendsOfTick(seeded, jobId, feed, fetched, render, clients)
        ensures s.entry !in Ids(snapshot)
      {
        NewIdsMembership(Ids(snapshot), es, stop, s.entry);
      }
    }
  }
}
