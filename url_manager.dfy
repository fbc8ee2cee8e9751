/**
 * `URLManager` of the crawler package: the crawl frontier and the record of
 * crawled pages.
 *
 * The two Redis structures it uses become fields: the sorted set
 * `crawl_queue` is a map from URL to score, and the set `crawled_urls` is a
 * set of URL hashes. Both live in Redis and outlive one process, so the
 * constructor receives their current contents. The in-process cache
 * `crawled_urls` starts empty and only ever holds hashes that Redis has.
 * The hash (`hashlib.md5(url).hexdigest()`) is a function the constructor
 * receives; nothing is assumed about it, not even freedom from collisions.
 */
module Frontier {

  import opened Wrappers

  /** `u` has the largest score of `queue`. */
  predicate IsTop(queue: map<string, int>, u: string)
  {
    u in queue && forall v :: v in queue ==> queue[v] <= queue[u]
  }

  /** A non-empty queue has an entry of largest score. */
  lemma {:induction false} TopExists(queue: map<string, int>)
    requires queue != map[]
    ensures exists u :: IsTop(queue, u)
    decreases |queue.Keys|
  {
    var k :| k in queue;
    var rest := queue - {k};
    if rest == map[] {
      forall v | v in queue ensures v == k {
        assert v !in rest;
      }
      assert IsTop(queue, k);
    } else {
      assert |rest.Keys| < |queue.Keys| by {
        assert rest.Keys == queue.Keys - {k};
      }
      TopExists(rest);
      var t :| IsTop(rest, t);
      var best := if queue[k] <= queue[t] then t else k;
      forall v | v in queue ensures queue[v] <= queue[best] {
        if v != k {
          assert v in rest;
        }
      }
      assert IsTop(queue, best);
    }
  }

  /** The effect of offering the URLs of `urls` one by one to `add_url` with priority `priority`. */
  function Offered(queue: map<string, int>, crawled: set<string>, hash: string -> string,
                   urls: seq<string>, priority: int): map<string, int>
  {
    if urls == [] then queue
    else
      var before := Offered(queue, crawled, hash, urls[..|urls| - 1], priority);
      var u := urls[|urls| - 1];
      if hash(u) in crawled then before else before[u := priority]
  }

  /**
   * After the offers the queue holds exactly the old entries and the offered
   * URLs whose hash is not crawled; those carry `priority`, the others keep
   * their old score.
   */
  lemma {:induction false} OfferedSpec(queue: map<string, int>, crawled: set<string>, hash: string -> string,
                                       urls: seq<string>, priority: int)
    ensures var q := Offered(queue, crawled, hash, urls, priority);
            && (forall u :: u in q <==> u in queue || (u in urls && hash(u) !in crawled))
            && (forall u :: u in urls && hash(u) !in crawled ==> q[u] == priority)
            && (forall u :: u in queue && (u !in urls || hash(u) in crawled) ==> q[u] == queue[u])
  {
    if urls != [] {
      var init := urls[..|urls| - 1];
      OfferedSpec(queue, crawled, hash, init, priority);
      assert urls == init + [urls[|urls| - 1]];
    }
  }

  class UrlManager {
    /** `_hash_url`. */
    const hash: string -> string
    /** The Redis sorted set `crawl_queue`: each queued URL with its score. */
    var queue: map<string, int>
    /** The Redis set `crawled_urls`: hashes of the crawled URLs. */
    var remoteCrawled: set<string>
    /** `self.crawled_urls`: the hashes this process has seen crawled. */
    var crawledUrls: set<string>

    /** The local cache never claims more than Redis holds. */
    ghost predicate Valid()
      reads this
    {
      crawledUrls <= remoteCrawled
    }

    /** `URLManager()` connected to a Redis whose queue and crawled set hold `queue` and `crawled`. */
    constructor (hash: string -> string, queue: map<string, int>, crawled: set<string>)
      ensures Valid()
      ensures this.hash == hash && this.queue == queue && remoteCrawled == crawled && crawledUrls == {}
    {
      this.hash := hash;
      this.queue := queue;
      remoteCrawled := crawled;
      crawledUrls := {};
    }

    /** `is_crawled`: asks the cache, then Redis, and caches a hit. */
    method IsCrawled(url: string) returns (crawled: bool)
      requires Valid()
      modifies this
      ensures Valid()
      ensures crawled <==> hash(url) in old(remoteCrawled)
      ensures crawledUrls == if crawled then old(crawledUrls) + {hash(url)} else old(crawledUrls)
      ensures queue == old(queue) && remoteCrawled == old(remoteCrawled)
    {
      var urlHash := hash(url);
      if urlHash in crawledUrls {
        return true;
      }
      crawled := urlHash in remoteCrawled;
      if crawled {
        crawledUrls := crawledUrls + {urlHash};
      }
    }

    /** `add_url`: queues `url` with score `priority` (replacing an older score) unless it is crawled. */
    method AddUrl(url: string, priority: int := 1)
      requires Valid()
      modifies this
      ensures Valid()
      ensures queue == if hash(url) in old(remoteCrawled) then old(queue) else old(queue)[url := priority]
      ensures remoteCrawled == old(remoteCrawled)
      ensures crawledUrls == if hash(url) in old(remoteCrawled) then old(crawledUrls) + {hash(url)} else old(crawledUrls)
    {
      var crawled := IsCrawled(url);
      if crawled {
        return;
      }
      queue := queue[url := priority];
    }

    /** `get_next_url`: `ZPOPMAX`, which removes and returns an entry of largest score. */
    method GetNextUrl() returns (url: Option<string>)
      requires Valid()
      modifies this
      ensures Valid()
      ensures url.None? <==> old(queue) == map[]
      ensures url.Some? ==> IsTop(old(queue), url.value) && queue == old(queue) - {url.value}
      ensures url.None? ==> queue == old(queue)
      ensures remoteCrawled == old(remoteCrawled) && crawledUrls == old(crawledUrls)
    {
      if queue == map[] {
        return None;
      }
      TopExists(queue);
      var top :| IsTop(queue, top);
      queue := queue - {top};
      return Some(top);
    }

    /** `mark_crawled`: records the hash of `url` in Redis and in the cache. */
    method MarkCrawled(url: string)
      requires Valid()
      modifies this
      ensures Valid()
      ensures remoteCrawled == old(remoteCrawled) + {hash(url)}
      ensures crawledUrls == old(crawledUrls) + {hash(url)}
      ensures queue == old(queue)
    {
      var urlHash := hash(url);
      remoteCrawled := remoteCrawled + {urlHash};
      crawledUrls := crawledUrls + {urlHash};
    }
  }
}
