/**
 * Cache-aside image lookup behind the route `/monster/:name`. The path segment
 * is used verbatim, both as the cache key and in the generator request: it is
 * not hashed again here. A hit is a successful, non-empty read; anything else
 * fetches the image from the generator, stores it under the same key (a failed
 * store is ignored) and serves it. A failed connection checkout, generator
 * request or body read aborts the request through `unwrap`.
 */
module Identicon {
  import opened Wrappers
  import Identity

  /** Image bytes, never inspected. */
  type Image = seq<byte>

  /**
   * What the generator service gave back. Any HTTP status is an answer:
   * the status is not checked, so its body is served and stored as the image.
   */
  datatype Fetch = Answered(status: nat, body: Image) | RequestFailed | BodyReadFailed

  /**
   * How the cache write went. An error reply does not say whether Redis
   * applied the write: it may have been rejected, or applied with its reply
   * lost. The handler discards the result either way.
   */
  datatype WriteOutcome = WriteAcked | WriteRejected | WriteAppliedUnacked {
    /** Whether the store holds the new value afterwards. */
    predicate Applied() { !WriteRejected? }
  }

  /** The outcomes of the cache round trips of one request, which the model takes as inputs. */
  datatype Outcomes = Outcomes(poolFails: bool, readFails: bool, write: WriteOutcome)

  /** What the handler produces: the image, or a panic before any response. */
  datatype Reply = Served(image: Image) | Aborted

  /** Everything one request does: its reply, the cache afterwards, the generator request it issued. */
  datatype Effect = Effect(reply: Reply, entries: map<string, Image>, request: Option<string>)

  /** The generator service; it serves the same `/monster/` paths that the pages link. */
  const GENERATOR_HOST: string := "http://dnmonster:8080"
  const GENERATOR_PREFIX: string := GENERATOR_HOST + Identity.MONSTER_PREFIX
  const SIZE_QUERY: string := "?size=80"

  /** The generator request for a path segment. */
  function GeneratorUrl(name: string): (url: string)
    ensures |url| == |GENERATOR_PREFIX| + |name| + |SIZE_QUERY|
    ensures url[..|GENERATOR_PREFIX|] == GENERATOR_PREFIX
    ensures url[|GENERATOR_PREFIX|..|url| - |SIZE_QUERY|] == name
    ensures url[|url| - |SIZE_QUERY|..] == SIZE_QUERY
  {
    GENERATOR_PREFIX + name + SIZE_QUERY
  }

  /** What a successful GET of `key` returns: a missing key reads as no bytes. */
  function Stored(entries: map<string, Image>, key: string): Image {
    if key in entries then entries[key] else []
  }

  /** A hit: the read succeeded and gave at least one byte. */
  predicate IsHit(entries: map<string, Image>, key: string, readFails: bool) {
    !readFails && Stored(entries, key) != []
  }

  /** One request for `/monster/<name>` against the cache `entries`. */
  function Resolve(entries: map<string, Image>, name: string, out: Outcomes,
                   generator: string -> Fetch): Effect
  {
    if out.poolFails then Effect(Aborted, entries, None)
    else if IsHit(entries, name, out.readFails) then Effect(Served(entries[name]), entries, None)
    else
      var url := GeneratorUrl(name);
      match generator(url)
      case Answered(_, body) =>
        Effect(Served(body), if out.write.Applied() then entries[name := body] else entries, Some(url))
      case _ => Effect(Aborted, entries, Some(url))
  }

  /** The Redis store shared by all requests, as a map from keys to bytes. */
  class RedisCache {
    var entries: map<string, Image>

    constructor (initial: map<string, Image>)
      ensures entries == initial
    {
      entries := initial;
    }

    /** The handler `get_identicon` for the path segment `name`. */
    method GetIdenticon(name: string, out: Outcomes, generator: string -> Fetch)
      returns (reply: Reply, request: Option<string>)
      modifies this
      ensures Effect(reply, entries, request) == Resolve(old(entries), name, out, generator)
      // no connection: abort before any cache or generator traffic
      ensures out.poolFails ==> reply == Aborted && request == None && entries == old(entries)
      // hit: the cached bytes, no generator call, cache untouched
      ensures !out.poolFails && IsHit(old(entries), name, out.readFails) ==>
                reply == Served(old(entries)[name]) && request == None && entries == old(entries)
      // miss: one generator request, for the path segment verbatim
      ensures !out.poolFails && !IsHit(old(entries), name, out.readFails) ==>
                request == Some(GeneratorUrl(name))
      // miss, answered: the answer is served whatever the write gave back,
      // and the store holds it under the same key if the write took effect
      ensures !out.poolFails && !IsHit(old(entries), name, out.readFails) &&
              generator(GeneratorUrl(name)).Answered? ==>
                reply == Served(generator(GeneratorUrl(name)).body) &&
                entries == if out.write.Applied()
                           then old(entries)[name := generator(GeneratorUrl(name)).body]
                           else old(entries)
      // miss, generator failed: abort with the cache untouched
      ensures !out.poolFails && !IsHit(old(entries), name, out.readFails) &&
              !generator(GeneratorUrl(name)).Answered? ==>
                reply == Aborted && entries == old(entries)
    {
      request := None;
      if out.poolFails {
        reply := Aborted;
        return;
      }
      var read: Option<Image> := if out.readFails then None else Some(Stored(entries, name));
      if read.Some? && read.value != [] {
        reply := Served(read.value);
        return;
      }
      var url := GeneratorUrl(name);
      request := Some(url);
      var fetched := generator(url);
      if !fetched.Answered? {
        reply := Aborted;
        return;
      }
      var image := fetched.body;
      if out.write.Applied() {
        entries := entries[name := image];
      }
      reply := Served(image);
    }
  }

  /** The write's result is discarded: the reply and the generator request do not depend on it. */
  lemma WriteResultDiscarded(entries: map<string, Image>, name: string, out: Outcomes,
                             write: WriteOutcome, generator: string -> Fetch)
    ensures var r1 := Resolve(entries, name, out, generator);
      var r2 := Resolve(entries, name, out.(write := write), generator);
      r1.reply == r2.reply && r1.request == r2.request
  {
  }

  /** No request deletes an entry, and none touches a key other than its own. */
  lemma OnlyOwnKeyChanges(entries: map<string, Image>, name: string, out: Outcomes,
                          generator: string -> Fetch)
    ensures var after := Resolve(entries, name, out, generator).entries;
      && entries.Keys <= after.Keys
      && after.Keys <= entries.Keys + {name}
      && forall k :: k in entries && k != name ==> after[k] == entries[k]
  {
  }

  /** A stored empty value behaves exactly as a missing key, apart from that key's own entry. */
  lemma EmptyValueIsMiss(entries: map<string, Image>, name: string, out: Outcomes,
                         generator: string -> Fetch)
    ensures var r1 := Resolve(entries[name := []], name, out, generator);
      var r2 := Resolve(entries - {name}, name, out, generator);
      && r1.reply == r2.reply && r1.request == r2.request
      && r1.entries - {name} == r2.entries - {name}
      && (name in r2.entries ==> r1.entries[name] == r2.entries[name])
  {
  }

  /** A failed read behaves exactly as a successful read of a missing key, apart from that key's own entry. */
  lemma ReadErrorIsMiss(entries: map<string, Image>, name: string, out: Outcomes,
                        generator: string -> Fetch)
    requires out.readFails
    ensures var r1 := Resolve(entries, name, out, generator);
      var r2 := Resolve(entries - {name}, name, out.(readFails := false), generator);
      && r1.reply == r2.reply && r1.request == r2.request
      && r1.entries - {name} == r2.entries - {name}
      && (name in r2.entries ==> r1.entries[name] == r2.entries[name])
  {
  }

  /**
   * Once a request has been served and its bytes are in the cache, the next
   * request for the same segment, with a healthy cache, serves the same bytes;
   * it calls the generator again exactly when those bytes are empty.
   */
  lemma NextRequestHits(entries: map<string, Image>, name: string, out1: Outcomes,
                        generator1: string -> Fetch, out2: Outcomes, generator2: string -> Fetch)
    requires Resolve(entries, name, out1, generator1).reply.Served?
    requires out1.write.Applied()
    requires !out2.poolFails && !out2.readFails
    ensures var r1 := Resolve(entries, name, out1, generator1);
      var r2 := Resolve(r1.entries, name, out2, generator2);
      && (r1.reply.image != [] ==> r2 == Effect(r1.reply, r1.entries, None))
      && (r1.reply.image == [] ==> r2.request == Some(GeneratorUrl(name)))
  {
  }

  /**
   * Following the image link of the page for `name`: the cache key is the
   * derived identifier, the generator is asked for the same path the page
   * links, and no other cache entry changes.
   */
  lemma PageLinkResolves(sha256: Identity.Sha256, name: string, entries: map<string, Image>,
                         out: Outcomes, generator: string -> Fetch)
    ensures var page := Identity.CookResponse(sha256, name);
      var key := Identity.MatchMonsterRoute(page.imageSrc);
      && key == Some(Identity.Derive(sha256, name))
      && var r := Resolve(entries, key.value, out, generator);
      && (r.request.Some? ==> r.request.value == GENERATOR_HOST + page.imageSrc + SIZE_QUERY)
      && forall k :: k in r.entries && k != key.value ==> k in entries && r.entries[k] == entries[k]
  {
    Identity.ImageLinkCarriesIdentifier(sha256, name);
    var id := Identity.Derive(sha256, name);
    GeneratorUrlOfLink(id);
    OnlyOwnKeyChanges(entries, id, out, generator);
  }

  /** The generator is asked for the image path on the generator host. */
  lemma GeneratorUrlOfLink(name: string)
    ensures GeneratorUrl(name) == GENERATOR_HOST + (Identity.MONSTER_PREFIX + name) + SIZE_QUERY
  {
  }
}
