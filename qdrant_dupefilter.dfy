/**
 * The session filter of src/filters/qdrant_dupefilter.py: a set of URLs seen
 * in this crawl, in front of a lookup of the URL in the vector store. A
 * lookup that fails lets the request through and caches nothing, so the
 * next request for the URL asks the store again.
 */
module QdrantDupeFilter {
  import opened Wrappers
  import opened Fingerprint

  /** The stored points, reduced to their `metadata.url` values. `reachable`
      says whether a scroll succeeds; `lookups` records, for the proofs only,
      every URL a scroll was issued for. */
  class VectorStore {
    var urls: set<string>
    var reachable: bool
    ghost var lookups: seq<string>

    constructor(urls: set<string>, reachable: bool)
      ensures this.urls == urls && this.reachable == reachable && lookups == []
    {
      this.urls := urls;
      this.reachable := reachable;
      lookups := [];
    }

    /** A scroll filtered on `metadata.url == url` with limit 1: whether a
        matching point exists, or `None` when the call raises. */
    method ScrollByUrl(url: string) returns (found: Option<bool>)
      modifies this
      ensures urls == old(urls) && reachable == old(reachable)
      ensures lookups == old(lookups) + [url]
      ensures found == if reachable then Some(url in urls) else None
    {
      lookups := lookups + [url];
      if !reachable {
        return None;
      }
      return Some(url in urls);
    }
  }

  class QdrantDupeFilter {
    const client: VectorStore
    var fingerprints: set<string>

    constructor(client: VectorStore)
      ensures this.client == client && fingerprints == {}
    {
      this.client := client;
      fingerprints := {};
    }

    /** `request_seen`: a URL of this session is filtered at once; otherwise
        the store decides, and a failed lookup lets the request through
        without remembering it. */
    method RequestSeen(request: Request) returns (filtered: bool)
      modifies this, client
      ensures client.urls == old(client.urls) && client.reachable == old(client.reachable)
      ensures var url := request.url;
              if url in old(fingerprints) then
                filtered && fingerprints == old(fingerprints) && client.lookups == old(client.lookups)
              else if !old(client.reachable) then
                !filtered && fingerprints == old(fingerprints) && client.lookups == old(client.lookups) + [url]
              else
                filtered == (url in old(client.urls))
                && fingerprints == old(fingerprints) + {url}
                && client.lookups == old(client.lookups) + [url]
    {
      var url := request.url;
      if url in fingerprints {
        return true;
      }
      var existing := client.ScrollByUrl(url);
      if existing.None? {
        return false;
      }
      if existing.value {
        fingerprints := fingerprints + {url};
        return true;
      }
      fingerprints := fingerprints + {url};
      return false;
    }

    /** `close` forgets the session. */
    method Close()
      modifies this
      ensures fingerprints == {}
    {
      fingerprints := {};
    }
  }

  /** Once a lookup for a URL has succeeded, asking again is answered from
      the session, whatever the store says by then. */
  method AskTwice(filter: QdrantDupeFilter, request: Request)
      returns (first: bool, second: bool)
    requires filter.client.reachable
    modifies filter, filter.client
    ensures first == (request.url in old(filter.fingerprints) || request.url in old(filter.client.urls))
    ensures second
    ensures request.url in filter.fingerprints
  {
    first := filter.RequestSeen(request);
    second := filter.RequestSeen(request);
  }

  /** A lookup that fails lets the request through and remembers nothing, so
      the next request for the URL consults the store again. */
  method RetryAfterFailure(filter: QdrantDupeFilter, request: Request)
      returns (first: bool, second: bool)
    requires request.url !in filter.fingerprints && !filter.client.reachable
    modifies filter, filter.client
    ensures !first && !second
    ensures filter.fingerprints == old(filter.fingerprints)
    ensures filter.client.lookups == old(filter.client.lookups) + [request.url, request.url]
  {
    first := filter.RequestSeen(request);
    second := filter.RequestSeen(request);
  }
}
