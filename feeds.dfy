/**
  The values the scheduled feed job works on: the feed configuration, the
  entries a fetch returns, the renderer's answer and the log of messages
  handed to publication clients.
 */
module Feeds {

  datatype Option<T> = None | Some(value: T)

  /** One item of a fetched feed. `id` is stable across fetches; `content`
      stands for every field the message renderer reads. */
  datatype Entry = Entry(id: string, content: string)

  /** A configured feed. `tags` and `profiles` are optional, as in the
      configuration file; `cacheSize` bounds the dedup record. */
  datatype Feed = Feed(
    id: string,
    name: string,
    url: string,
    tags: Option<seq<string>>,
    profiles: Option<seq<string>>,
    cacheSize: nat)

  /** The outcome of fetching and parsing the feed's RSS stream. */
  datatype Fetch = Fetched(entries: seq<Entry>) | FetchFailed

  /** The outcome of rendering one entry through the feed's template. */
  datatype Rendered = Message(text: string) | RenderFailed

  /** The message renderer, an oracle the scheduler calls. */
  type Renderer = (Feed, Entry) -> Rendered

  /** A nostr tag attached to a published message. */
  datatype Tag = Hashtag(name: string)

  /** One call to a publication client: `message` with `tags` to the client
      registered under `profile`. `entry` names the entry the message was
      rendered from; it is part of the log, not of what is sent. */
  datatype Send = Send(entry: string, profile: string, message: string, tags: seq<Tag>)

  /** The profile ids a feed publishes to; a feed without a list publishes
      to the one profile "default". */
  function ProfileIds(feed: Feed): (r: seq<string>)
    ensures feed.profiles.None? ==> r == ["default"]
    ensures feed.profiles.Some? ==> r == feed.profiles.value
  {
    match feed.profiles
    case None => ["default"]
    case Some(ps) => ps
  }

  /** The tags of every message of a feed: one hashtag per configured tag,
      in configuration order; none when the feed has no tags. */
  function Hashtags(feed: Feed): (r: seq<Tag>)
    ensures feed.tags.None? ==> r == []
    ensures feed.tags.Some? ==>
      |r| == |feed.tags.value| && forall k :: 0 <= k < |r| ==> r[k] == Hashtag(feed.tags.value[k])
  {
    match feed.tags
    case None => []
    case Some(ts) => seq(|ts|, k requires 0 <= k < |ts| => Hashtag(ts[k]))
  }

  /** The ids of a list of entries, in the same order. */
  function Ids(es: seq<Entry>): (r: seq<string>)
    ensures |r| == |es| && forall k :: 0 <= k < |es| ==> r[k] == es[k].id
  {
    seq(|es|, k requires 0 <= k < |es| => es[k].id)
  }

  lemma IdsAppend(a: seq<Entry>, b: seq<Entry>)
    ensures Ids(a + b) == Ids(a) + Ids(b)
  {
  }
}
