/**
 * The url rewriting and the in-flight request registry of the HTTP client
 * (src/api/request.js).
 *
 * `ParseQuery` moves the parameters of a GET request into its url. The
 * registry holds entries keyed by url: when it has one for the url of a
 * new request, the request interceptor removes it (and cancels that
 * earlier request) and does not record the new one; otherwise it records
 * the new one. Both response handlers remove the first entry for the url
 * of the request that settled, which need not be its own entry.
 *
 * `encodeURIComponent` is the parameter `enc`; the model does not
 * interpret it. A parameter object is the sequence of its key/value pairs
 * in the order `for...in` visits them.
 */
module Request {
  import opened Wrappers

  /** A query parameter: the key and its value as a string. */
  datatype Param = Param(key: string, value: string)

  /** The fields of an axios request config that the code reads or writes. */
  class Config {
    var httpMethod: string
    var url: string
    /** `None` when `params` is absent or falsy; `Some([])` is an empty object. */
    var params: Option<seq<Param>>

    constructor (httpMethod: string, url: string, params: Option<seq<Param>>)
      ensures this.httpMethod == httpMethod && this.url == url && this.params == params
    {
      this.httpMethod := httpMethod;
      this.url := url;
      this.params := params;
    }
  }

  /** One `key=value` pair, the value encoded. */
  function Pair(p: Param, enc: string -> string): string
  {
    p.key + "=" + enc(p.value)
  }

  /** What the loop appends: every pair followed by `&`. */
  function Encoded(ps: seq<Param>, enc: string -> string): string
  {
    if ps == [] then ""
    else Encoded(ps[..|ps| - 1], enc) + Pair(ps[|ps| - 1], enc) + "&"
  }

  /** The pairs joined by `&`, in order: the query string a reader expects. */
  function Join(ps: seq<Param>, enc: string -> string): string
  {
    if ps == [] then ""
    else if |ps| == 1 then Pair(ps[0], enc)
    else Join(ps[..|ps| - 1], enc) + "&" + Pair(ps[|ps| - 1], enc)
  }

  /** The url before the pairs: a `?` is added unless the url holds one already. */
  function Base(url: string): (r: string)
    ensures r != []
    ensures '?' in url ==> r == url
    ensures '?' !in url ==> r == url + "?"
  {
    if '?' in url then url else url + "?"
  }

  /** The url `parseQuery` writes back: base and pairs, less the last character. */
  function RewrittenUrl(url: string, ps: seq<Param>, enc: string -> string): string
  {
    var u := Base(url) + Encoded(ps, enc);
    u[..|u| - 1]
  }

  /** The trailing `&` that `parseQuery` removes follows the joined pairs. */
  lemma {:induction false} EncodedIsJoin(ps: seq<Param>, enc: string -> string)
    requires ps != []
    ensures Encoded(ps, enc) == Join(ps, enc) + "&"
  {
    var p := ps[..|ps| - 1];
    if |ps| == 1 {
      assert p == [];
    } else {
      EncodedIsJoin(p, enc);
    }
  }

  /**
   * On a url without `?`, the rewritten url is the url, `?` and the joined
   * pairs; with no pairs it is the url itself (the added `?` is the
   * character removed).
   */
  lemma RewrittenWithoutQuery(url: string, ps: seq<Param>, enc: string -> string)
    requires '?' !in url
    ensures ps != [] ==> RewrittenUrl(url, ps, enc) == url + "?" + Join(ps, enc)
    ensures ps == [] ==> RewrittenUrl(url, ps, enc) == url
  {
    if ps != [] {
      EncodedIsJoin(ps, enc);
      var j := Join(ps, enc);
      assert Base(url) + Encoded(ps, enc) == (url + "?" + j) + "&";
    } else {
      assert Base(url) + Encoded(ps, enc) == url + "?";
    }
  }

  /**
   * On a url that already holds a `?`, the pairs follow the url with no
   * `&` in between, and with no pairs the url's own last character is
   * removed.
   */
  lemma RewrittenWithQuery(url: string, ps: seq<Param>, enc: string -> string)
    requires '?' in url
    ensures ps != [] ==> RewrittenUrl(url, ps, enc) == url + Join(ps, enc)
    ensures ps == [] ==> RewrittenUrl(url, ps, enc) == url[..|url| - 1]
  {
    if ps != [] {
      EncodedIsJoin(ps, enc);
      var j := Join(ps, enc);
      assert Base(url) + Encoded(ps, enc) == (url + j) + "&";
    } else {
      assert Base(url) + Encoded(ps, enc) == url;
    }
  }

  /**
   * `parseQuery(config)`: a GET request with parameters gets them in its url
   * and an empty parameter object; any other config is left as it is.
   */
  method ParseQuery(config: Config, enc: string -> string)
    modifies config
    ensures config.httpMethod == old(config.httpMethod)
    ensures old(config.httpMethod) == "get" && old(config.params).Some? ==>
      config.url == RewrittenUrl(old(config.url), old(config.params).value, enc) &&
      config.params == Some([])
    ensures !(old(config.httpMethod) == "get" && old(config.params).Some?) ==>
      config.url == old(config.url) && config.params == old(config.params)
  {
    if config.httpMethod == "get" && config.params.Some? {
      var url := config.url;
      ghost var base := Base(url);
      if '?' !in url {
        url := url + "?";
      }
      var ps := config.params.value;
      var i := 0;
      while i < |ps|
        invariant 0 <= i <= |ps|
        invariant url == base + Encoded(ps[..i], enc)
      {
        assert ps[..i + 1][..i] == ps[..i];
        assert Encoded(ps[..i + 1], enc) == Encoded(ps[..i], enc) + Pair(ps[i], enc) + "&";
        url := url + Pair(ps[i], enc) + "&";
        i := i + 1;
      }
      assert ps[..i] == ps;
      url := url[..|url| - 1];
      config.params := Some([]);
      config.url := url;
    }
  }

  /** A registry entry; the cancel callback is not modelled. */
  datatype Pending = Pending(url: string)

  /** The position of the first entry for `url`, or -1 (`findIndex`). */
  function IndexOf(rs: seq<Pending>, url: string): (i: int)
    ensures -1 <= i < |rs|
  {
    if rs == [] then -1
    else if rs[0].url == url then 0
    else
      var j := IndexOf(rs[1..], url);
      if j == -1 then -1 else j + 1
  }

  /** How many entries are for `url`. */
  function Count(rs: seq<Pending>, url: string): nat
  {
    if rs == [] then 0
    else (if rs[0].url == url then 1 else 0) + Count(rs[1..], url)
  }

  /** No url has two entries. */
  predicate Unique(rs: seq<Pending>)
  {
    forall i, j :: 0 <= i < j < |rs| ==> rs[i].url != rs[j].url
  }

  /** The registry after `removeRequest` for `url`: the first entry for it is spliced out. */
  function Removed(rs: seq<Pending>, url: string): seq<Pending>
  {
    var i := IndexOf(rs, url);
    if i == -1 then rs else rs[..i] + rs[i + 1..]
  }

  /** The registry after the request interceptor sees `url`. */
  function Toggled(rs: seq<Pending>, url: string): seq<Pending>
  {
    if IndexOf(rs, url) == -1 then rs + [Pending(url)] else Removed(rs, url)
  }

  /** `IndexOf` finds the first entry for `url`, and -1 means there is none. */
  lemma {:induction false} IndexOfSpec(rs: seq<Pending>, url: string)
    ensures IndexOf(rs, url) == -1 <==> Count(rs, url) == 0
    ensures IndexOf(rs, url) == -1 ==> forall k :: 0 <= k < |rs| ==> rs[k].url != url
    ensures IndexOf(rs, url) != -1 ==>
      rs[IndexOf(rs, url)].url == url &&
      forall k :: 0 <= k < IndexOf(rs, url) ==> rs[k].url != url
  {
    if rs != [] {
      IndexOfSpec(rs[1..], url);
      if IndexOf(rs, url) == -1 {
        forall k | 0 <= k < |rs| ensures rs[k].url != url {
          if 0 < k {
            assert rs[k] == rs[1..][k - 1];
          }
        }
      } else if IndexOf(rs, url) > 0 {
        forall k | 1 <= k < IndexOf(rs, url) ensures rs[k].url != url {
          assert rs[k] == rs[1..][k - 1];
        }
      }
    }
  }

  lemma {:induction false} CountAppend(a: seq<Pending>, b: seq<Pending>, url: string)
    ensures Count(a + b, url) == Count(a, url) + Count(b, url)
  {
    if a != [] {
      assert (a + b)[1..] == a[1..] + b;
      CountAppend(a[1..], b, url);
    } else {
      assert a + b == b;
    }
  }

  /**
   * `removeRequest` on a match takes out exactly one entry for `url` and no
   * entry for any other url; on no match it changes nothing.
   */
  lemma RemovedCounts(rs: seq<Pending>, url: string, other: string)
    ensures Count(rs, url) == 0 ==> Removed(rs, url) == rs
    ensures Count(rs, url) > 0 ==> Count(Removed(rs, url), url) == Count(rs, url) - 1
    ensures other != url ==> Count(Removed(rs, url), other) == Count(rs, other)
    ensures Count(rs, url) > 0 ==> |Removed(rs, url)| == |rs| - 1
  {
    IndexOfSpec(rs, url);
    var i := IndexOf(rs, url);
    if i != -1 {
      assert rs == rs[..i] + ([rs[i]] + rs[i + 1..]);
      CountAppend(rs[..i], [rs[i]] + rs[i + 1..], url);
      CountAppend(rs[..i], rs[i + 1..], url);
      CountAppend(rs[..i], [rs[i]] + rs[i + 1..], other);
      CountAppend(rs[..i], rs[i + 1..], other);
    }
  }

  /** Removing keeps every url to at most one entry. */
  lemma RemovedUnique(rs: seq<Pending>, url: string)
    requires Unique(rs)
    ensures Unique(Removed(rs, url))
  {
    var i := IndexOf(rs, url);
    if i != -1 {
      var r := Removed(rs, url);
      forall a, b | 0 <= a < b < |r| ensures r[a].url != r[b].url {
        var a' := if a < i then a else a + 1;
        var b' := if b < i then b else b + 1;
        assert r[a] == rs[a'] && r[b] == rs[b'];
      }
    }
  }

  /**
   * With at most one entry per url, the interceptor keeps it so, and the
   * url of the request is in the registry afterwards exactly when it was
   * not before.
   */
  lemma ToggledUnique(rs: seq<Pending>, url: string)
    requires Unique(rs)
    ensures Unique(Toggled(rs, url))
    ensures (exists k :: 0 <= k < |Toggled(rs, url)| && Toggled(rs, url)[k].url == url) <==>
      !(exists k :: 0 <= k < |rs| && rs[k].url == url)
  {
    IndexOfSpec(rs, url);
    var i := IndexOf(rs, url);
    var t := Toggled(rs, url);
    if i == -1 {
      assert t[|rs|].url == url;
    } else {
      RemovedUnique(rs, url);
      assert rs[i].url == url;
      forall k | 0 <= k < |t| ensures t[k].url != url {
        var k' := if k < i then k else k + 1;
        assert t[k] == rs[k'];
      }
    }
  }

  /**
   * A request that was not in flight, and its response: the interceptor
   * records it and the response handler removes it again.
   */
  lemma RequestThenResponse(rs: seq<Pending>, url: string)
    requires IndexOf(rs, url) == -1
    ensures Removed(Toggled(rs, url), url) == rs
  {
    IndexOfSpec(rs, url);
    IndexOfAppend(rs, url);
  }

  /** A second request for a url in flight undoes the first one's entry. */
  lemma RequestTwice(rs: seq<Pending>, url: string)
    requires IndexOf(rs, url) == -1
    ensures Toggled(Toggled(rs, url), url) == rs
  {
    IndexOfSpec(rs, url);
    IndexOfAppend(rs, url);
  }

  lemma {:induction false} IndexOfAppend(rs: seq<Pending>, url: string)
    requires forall k :: 0 <= k < |rs| ==> rs[k].url != url
    ensures IndexOf(rs + [Pending(url)], url) == |rs|
  {
    if rs != [] {
      assert (rs + [Pending(url)])[1..] == rs[1..] + [Pending(url)];
      IndexOfAppend(rs[1..], url);
    }
  }

  /**
   * The first entry for a url need not be the settling request's own. A is
   * recorded; B, for the same url, cancels A and is not recorded; C is
   * recorded; B's response then removes C's entry while C is in flight.
   */
  lemma StaleResponse(url: string)
    ensures var afterC := Toggled(Toggled(Toggled([], url), url), url);
      afterC == [Pending(url)] && Removed(afterC, url) == []
  {
    assert Toggled([], url) == [Pending(url)];
    assert Toggled([Pending(url)], url) == [];
  }

  /** The module-level `requests` array. */
  class Registry {
    var requests: seq<Pending>

    constructor ()
      ensures requests == []
    {
      requests := [];
    }

    /** `requests.findIndex((request) => request.url === url)`. */
    method FindIndex(url: string) returns (index: int)
      ensures index == IndexOf(requests, url)
    {
      index := 0;
      while index < |requests| && requests[index].url != url
        invariant 0 <= index <= |requests|
        invariant IndexOf(requests, url) == -1 || index <= IndexOf(requests, url)
        invariant IndexOf(requests[index..], url) == -1 ==> IndexOf(requests, url) == -1
        invariant IndexOf(requests[index..], url) != -1 ==>
          IndexOf(requests, url) == index + IndexOf(requests[index..], url)
      {
        assert requests[index..][1..] == requests[index + 1..];
        index := index + 1;
      }
      if index == |requests| {
        index := -1;
      }
    }

    /** `removeRequest(config)` for a config whose url is `url`. */
    method RemoveRequest(url: string) returns (removed: Option<Pending>)
      modifies this
      ensures requests == Removed(old(requests), url)
      ensures removed == if IndexOf(old(requests), url) == -1 then None
        else Some(old(requests)[IndexOf(old(requests), url)])
    {
      var index := FindIndex(url);
      if index > -1 {
        removed := Some(requests[index]);
        requests := requests[..index] + requests[index + 1..];
      } else {
        removed := None;
      }
    }

    /**
     * The request interceptor: rewrites the url of `config`, then cancels
     * the request already in flight for that url (returned here) or records
     * this one.
     */
    method OnRequest(config: Config, enc: string -> string) returns (cancelled: Option<Pending>)
      modifies this, config
      ensures config.httpMethod == old(config.httpMethod)
      ensures old(config.httpMethod) == "get" && old(config.params).Some? ==>
        config.url == RewrittenUrl(old(config.url), old(config.params).value, enc) &&
        config.params == Some([])
      ensures !(old(config.httpMethod) == "get" && old(config.params).Some?) ==>
        config.url == old(config.url) && config.params == old(config.params)
      ensures requests == Toggled(old(requests), config.url)
      ensures cancelled.Some? <==> IndexOf(old(requests), config.url) != -1
    {
      ParseQuery(config, enc);
      cancelled := RemoveRequest(config.url);
      if cancelled == None {
        requests := requests + [Pending(config.url)];
      }
    }

    /** Both response handlers: the first entry for the settled request's url is removed. */
    method OnSettled(config: Config)
      modifies this
      ensures requests == Removed(old(requests), config.url)
    {
      var _ := RemoveRequest(config.url);
    }
  }
}
