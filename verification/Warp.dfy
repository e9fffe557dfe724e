/**
 * The endpoint allocator of internal/adapter/warp/proxy.go. Scanned endpoints
 * may share an address; at most one of them is ever in use.
 */
module Warp {
  import opened Basics

  /** A scanned endpoint: its address and port, and what else the scan found out. */
  datatype Endpoint = Endpoint(addrPort: string, details: string)

  datatype Proxy = Proxy(handle: int)

  datatype Books = Books(proxies: map<string, map<string, Proxy>>, endpoints: map<Endpoint, bool>)

  function Used(b: Books): set<Endpoint> {
    set e | e in b.endpoints && b.endpoints[e]
  }

  predicate Free(b: Books, e: Endpoint) {
    e in b.endpoints && !b.endpoints[e] && e.addrPort !in b.proxies
  }

  /** One proxy per occupied address, and the used endpoints stand one to one for those addresses. */
  ghost predicate Valid(b: Books) {
    && (forall a :: a in b.proxies ==> |b.proxies[a]| == 1)
    && (forall e :: e in Used(b) ==> e.addrPort in b.proxies)
    && (forall a :: a in b.proxies ==> exists e :: e in Used(b) && e.addrPort == a)
    && (forall e, f :: e in Used(b) && f in Used(b) && e.addrPort == f.addrPort ==> e == f)
  }

  /** The books after a proxy was started for `name` on a free endpoint. */
  function Registered(b: Books, e: Endpoint, name: string, proxy: Proxy): Books {
    Books(b.proxies[e.addrPort := (if e.addrPort in b.proxies then b.proxies[e.addrPort] else map[])[name := proxy]],
          b.endpoints[e := true])
  }

  lemma RegisteredUsed(b: Books, e: Endpoint, name: string, proxy: Proxy)
    requires Free(b, e)
    ensures Used(Registered(b, e, name, proxy)) == Used(b) + {e}
    ensures Registered(b, e, name, proxy).proxies == b.proxies[e.addrPort := map[name := proxy]]
  {
  }

  lemma RegisteredValid(b: Books, e: Endpoint, name: string, proxy: Proxy)
    requires Valid(b) && Free(b, e)
    ensures var b' := Registered(b, e, name, proxy);
      && Valid(b')
      && Used(b') == Used(b) + {e}
      && b'.proxies == b.proxies[e.addrPort := map[name := proxy]]
  {
    RegisteredUsed(b, e, name, proxy);
    hide Registered, Used;
    var b' := Registered(b, e, name, proxy);
    forall a | a in b'.proxies ensures exists f :: f in Used(b') && f.addrPort == a {
      if a == e.addrPort {
        assert e in Used(b');
      } else {
        var f :| f in Used(b) && f.addrPort == a;
        assert f in Used(b');
      }
    }
  }

  /** As many endpoints are in use as addresses are occupied. */
  lemma UsedEqualsOccupied(b: Books)
    requires Valid(b)
    ensures |Used(b)| == |b.proxies|
  {
    var addresses := set e | e in Used(b) :: e.addrPort;
    assert addresses == b.proxies.Keys;
    SameSize(Used(b), addresses);
  }

  lemma {:induction false} SameSize(es: set<Endpoint>, addresses: set<string>)
    requires addresses == set e | e in es :: e.addrPort
    requires forall e, f :: e in es && f in es && e.addrPort == f.addrPort ==> e == f
    ensures |es| == |addresses|
    decreases |es|
  {
    if es != {} {
      var e :| e in es;
      var fewer := es - {e};
      assert addresses - {e.addrPort} == set f | f in fewer :: f.addrPort;
      assert e.addrPort in addresses;
      SameSize(fewer, addresses - {e.addrPort});
    }
  }

  class Allocator {
    var books: Books

    constructor (scanned: set<Endpoint>)
      ensures Valid(books) && Used(books) == {} && books.endpoints.Keys == scanned
    {
      books := Books(map[], map e | e in scanned :: false);
    }

    /** The search loop: some free endpoint, as map iteration has no order, or None if there is none. */
    method FindFree() returns (found: Option<Endpoint>)
      ensures found.Some? ==> Free(books, found.value)
      ensures found.None? ==> forall e :: !Free(books, e)
    {
      var todo := books.endpoints.Keys;
      while todo != {}
        invariant todo <= books.endpoints.Keys
        invariant forall e :: e in books.endpoints.Keys - todo ==> !Free(books, e)
        decreases |todo|
      {
        var endpoint :| endpoint in todo;
        todo := todo - {endpoint};
        if books.endpoints[endpoint] {
          continue;
        }
        if endpoint.addrPort !in books.proxies {
          return Some(endpoint);
        }
      }
      return None;
    }

    /** CreateProxy; `started` is the outcome of creating and starting the proxy on the endpoint found. */
    method CreateProxy(name: string, proxy: Proxy, started: bool) returns (r: Option<Proxy>)
      requires Valid(books)
      modifies this
      ensures Valid(books)
      ensures r.None? ==> books == old(books)
      ensures r.None? <==> !started || forall e :: !Free(old(books), e)
      ensures r.Some? ==> r.value == proxy && exists e :: Free(old(books), e) && books == Registered(old(books), e, name, proxy)
    {
      hide Valid, Used, Free;
      var willUseEndpoint := FindFree();
      if willUseEndpoint.None? {
        return None;
      }
      if !started {
        return None;
      }
      var endpoint := willUseEndpoint.value;
      RegisteredValid(books, endpoint, name, proxy);
      ghost var before := books;
      var key := endpoint.addrPort;
      var proxies := books.proxies;
      if key !in proxies {
        proxies := proxies[key := map[]];
      }
      proxies := proxies[key := proxies[key][name := proxy]];
      books := Books(proxies, books.endpoints[endpoint := true]);
      assert books == Registered(before, endpoint, name, proxy);
      return Some(proxy);
    }
  }

  // ---------- runs ----------

  ghost predicate Next(b: Books, b': Books) {
    b' == b || exists e, name, proxy :: Free(b, e) && b' == Registered(b, e, name, proxy)
  }

  ghost predicate IsRun(bs: seq<Books>) {
    forall k :: 0 <= k < |bs| - 1 ==> Next(bs[k], bs[k + 1])
  }

  lemma RegisteredEndpoints(b: Books, e: Endpoint, name: string, proxy: Proxy)
    requires Free(b, e)
    ensures Registered(b, e, name, proxy).endpoints.Keys == b.endpoints.Keys
  {
  }

  /** In every run, with any choice of endpoints and any failures, a proxy once registered stays and the books balance. */
  lemma {:induction false} RunsBalance(bs: seq<Books>, k: nat)
    requires IsRun(bs) && k < |bs| && Valid(bs[0])
    ensures Valid(bs[k]) && |Used(bs[k])| == |bs[k].proxies|
    ensures bs[k].endpoints.Keys == bs[0].endpoints.Keys
    ensures forall a :: a in bs[0].proxies ==> a in bs[k].proxies && bs[k].proxies[a] == bs[0].proxies[a]
  {
    hide Valid, Used, Registered;
    if k > 0 {
      RunsBalance(bs, k - 1);
      var b, b' := bs[k - 1], bs[k];
      assert Next(b, b');
      if b' != b {
        var e, name, proxy :| Free(b, e) && b' == Registered(b, e, name, proxy);
        RegisteredValid(b, e, name, proxy);
        RegisteredEndpoints(b, e, name, proxy);
      }
    }
    UsedEqualsOccupied(bs[k]);
  }
}
