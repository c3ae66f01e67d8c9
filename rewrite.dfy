/**
 * The response rewrite of toxics/httptoxic.go: the toxic's configuration,
 * its advertised buffer size, and `ModifyResponse`, which overwrites the
 * headers, status, body and content length of a parsed HTTP response.
 */
module Rewrite {

  type byte = b: int | 0 <= b < 0x100
  type Bytes = seq<byte>

  /**
   * An `http.Header`: canonical header name to its list of values. The
   * canonicalisation that `Header.Set` applies to a name is a function
   * `canon` passed in by the caller.
   */
  type Header = map<string, seq<string>>

  /** The toxic's configuration, fixed for its lifetime. */
  datatype HttpToxic = HttpToxic(statusCode: int, responseHeaders: map<string, string>, responseBody: Bytes)

  /** The chunk size the toxic asks the proxy for: a fixed positive constant, whatever the configuration. */
  function GetBufferSize(t: HttpToxic): (n: nat)
    ensures n == 1024
  {
    1024
  }

  /** The fields of a parsed response that `ModifyResponse` touches, as a value. */
  datatype Message = Message(statusCode: int, header: Header, body: Bytes, contentLength: int)

  /** A parsed `http.Response`, updated in place. */
  class Response {
    var statusCode: int
    var header: Header
    var body: Bytes
    var contentLength: int

    constructor (m: Message)
      ensures Snapshot() == m
    {
      statusCode, header, body, contentLength := m.statusCode, m.header, m.body, m.contentLength;
    }

    function Snapshot(): Message
      reads this
    {
      Message(statusCode, header, body, contentLength)
    }
  }

  /** `Header.Set(key, value)`: the canonical name of `key` now holds exactly `[value]`. */
  function Set(h: Header, key: string, value: string, canon: string -> string): Header
  {
    h[canon(key) := [value]]
  }

  /** `order` lists every key of `keys` exactly once: the order in which `range` visits a Go map. */
  predicate Enumerates(order: seq<string>, keys: set<string>)
  {
    && (forall i :: 0 <= i < |order| ==> order[i] in keys)
    && (forall k :: k in keys ==> k in order)
    && (forall i, j :: 0 <= i < j < |order| ==> order[i] != order[j])
  }

  /** The canonical names the listed keys are stored under. */
  function Canonical(order: seq<string>, canon: string -> string): set<string>
  {
    set i | 0 <= i < |order| :: canon(order[i])
  }

  /** No two configured keys share a canonical name. */
  predicate CanonInjective(keys: set<string>, canon: string -> string)
  {
    forall k1, k2 :: k1 in keys && k2 in keys && canon(k1) == canon(k2) ==> k1 == k2
  }

  /** The header after `Header.Set` has been called for the listed keys, in order. */
  function SetHeaders(h: Header, config: map<string, string>, order: seq<string>, canon: string -> string): Header
    requires forall i :: 0 <= i < |order| ==> order[i] in config
  {
    if order == [] then h
    else
      var k := order[|order| - 1];
      Set(SetHeaders(h, config, order[..|order| - 1], canon), k, config[k], canon)
  }

  /** The response after `ModifyResponse`, with the configured headers set in the order `order`. */
  function Modify(m: Message, t: HttpToxic, order: seq<string>, canon: string -> string): Message
    requires Enumerates(order, t.responseHeaders.Keys)
  {
    Message(t.statusCode, SetHeaders(m.header, t.responseHeaders, order, canon), t.responseBody, |t.responseBody|)
  }

  /**
   * `ModifyResponse`: sets every configured header (visiting the keys in the
   * order `order`), then overwrites the status, the body and the content
   * length, which becomes the byte length of the configured body.
   */
  method ModifyResponse(t: HttpToxic, resp: Response, order: seq<string>, canon: string -> string)
    requires Enumerates(order, t.responseHeaders.Keys)
    modifies resp
    ensures resp.header == SetHeaders(old(resp.header), t.responseHeaders, order, canon)
    ensures resp.statusCode == t.statusCode
    ensures resp.body == t.responseBody
    ensures resp.contentLength == |t.responseBody|
    ensures resp.Snapshot() == Modify(old(resp.Snapshot()), t, order, canon)
  {
    for i := 0 to |order|
      invariant resp.header == SetHeaders(old(resp.header), t.responseHeaders, order[..i], canon)
    {
      SetHeadersExtend(old(resp.header), t.responseHeaders, order, canon, i);
      var key := order[i];
      resp.header := Set(resp.header, key, t.responseHeaders[key], canon);
    }
    assert order[..|order|] == order;
    resp.statusCode := t.statusCode;
    resp.body := t.responseBody;
    resp.contentLength := |t.responseBody|;
  }

  /** Setting the first `i + 1` listed keys is setting the first `i`, then key `i`. */
  lemma SetHeadersExtend(h: Header, config: map<string, string>, order: seq<string>, canon: string -> string, i: nat)
    requires forall j :: 0 <= j < |order| ==> order[j] in config
    requires i < |order|
    ensures SetHeaders(h, config, order[..i + 1], canon) == Set(SetHeaders(h, config, order[..i], canon), order[i], config[order[i]], canon)
  {
    assert order[..i + 1][..i] == order[..i];
  }

  /** Setting headers adds exactly the canonical names of the listed keys. */
  lemma {:induction false} SetHeadersKeys(h: Header, config: map<string, string>, order: seq<string>, canon: string -> string)
    requires forall i :: 0 <= i < |order| ==> order[i] in config
    ensures SetHeaders(h, config, order, canon).Keys == h.Keys + Canonical(order, canon)
  {
    if order != [] {
      var n := |order| - 1;
      SetHeadersKeys(h, config, order[..n], canon);
      assert Canonical(order, canon) == Canonical(order[..n], canon) + {canon(order[n])} by {
        forall x | x in Canonical(order, canon)
          ensures x in Canonical(order[..n], canon) + {canon(order[n])}
        {
          var i :| 0 <= i < |order| && x == canon(order[i]);
          if i < n {
            assert order[..n][i] == order[i];
          }
        }
        forall x | x in Canonical(order[..n], canon)
          ensures x in Canonical(order, canon)
        {
          var i :| 0 <= i < n && x == canon(order[..n][i]);
          assert order[..n][i] == order[i];
        }
      }
    }
  }

  /** A header whose name is not the canonical name of a listed key is left as it was. */
  lemma {:induction false} SetHeadersElsewhere(h: Header, config: map<string, string>, order: seq<string>, canon: string -> string, x: string)
    requires forall i :: 0 <= i < |order| ==> order[i] in config
    requires forall i :: 0 <= i < |order| ==> canon(order[i]) != x
    ensures x in SetHeaders(h, config, order, canon) <==> x in h
    ensures x in h ==> SetHeaders(h, config, order, canon)[x] == h[x]
  {
    if order != [] {
      var n := |order| - 1;
      SetHeadersElsewhere(h, config, order[..n], canon, x);
    }
  }

  /**
   * The canonical name of a listed key holds the value of the last listed
   * key with that canonical name.
   */
  lemma {:induction false} SetHeadersLastWins(h: Header, config: map<string, string>, order: seq<string>, canon: string -> string, i: nat)
    requires forall j :: 0 <= j < |order| ==> order[j] in config
    requires i < |order|
    requires forall j :: i < j < |order| ==> canon(order[j]) != canon(order[i])
    ensures canon(order[i]) in SetHeaders(h, config, order, canon)
    ensures SetHeaders(h, config, order, canon)[canon(order[i])] == [config[order[i]]]
  {
    var n := |order| - 1;
    if i < n {
      assert order[..n][i] == order[i];
      SetHeadersLastWins(h, config, order[..n], canon, i);
    }
  }

  /**
   * What is stored under a canonical name of a listed key does not depend
   * on the header the keys were set on.
   */
  lemma {:induction false} SetHeadersForget(h1: Header, h2: Header, config: map<string, string>, order: seq<string>, canon: string -> string, x: string)
    requires forall i :: 0 <= i < |order| ==> order[i] in config
    requires x in Canonical(order, canon)
    ensures x in SetHeaders(h1, config, order, canon) && x in SetHeaders(h2, config, order, canon)
    ensures SetHeaders(h1, config, order, canon)[x] == SetHeaders(h2, config, order, canon)[x]
  {
    SetHeadersKeys(h1, config, order, canon);
    SetHeadersKeys(h2, config, order, canon);
    var n := |order| - 1;
    if x != canon(order[n]) {
      var i :| 0 <= i < |order| && x == canon(order[i]);
      assert order[..n][i] == order[i];
      SetHeadersKeys(h1, config, order[..n], canon);
      SetHeadersKeys(h2, config, order[..n], canon);
      SetHeadersForget(h1, h2, config, order[..n], canon, x);
    }
  }

  /**
   * Setting the listed keys again overwrites everything an earlier round
   * over the same canonical names set: only the last round counts.
   */
  lemma SetHeadersOverwrite(h: Header, config: map<string, string>, first: seq<string>, second: seq<string>, canon: string -> string)
    requires forall i :: 0 <= i < |first| ==> first[i] in config
    requires forall i :: 0 <= i < |second| ==> second[i] in config
    requires Canonical(first, canon) <= Canonical(second, canon)
    ensures SetHeaders(SetHeaders(h, config, first, canon), config, second, canon) == SetHeaders(h, config, second, canon)
  {
    var once := SetHeaders(h, config, first, canon);
    var l, r := SetHeaders(once, config, second, canon), SetHeaders(h, config, second, canon);
    SetHeadersKeys(h, config, first, canon);
    SetHeadersKeys(once, config, second, canon);
    SetHeadersKeys(h, config, second, canon);
    forall x | x in l
      ensures l[x] == r[x]
    {
      if x in Canonical(second, canon) {
        SetHeadersForget(once, h, config, second, canon, x);
      } else {
        SetHeadersElsewhere(once, config, second, canon, x);
        SetHeadersElsewhere(h, config, second, canon, x);
        SetHeadersElsewhere(h, config, first, canon, x);
      }
    }
  }

  /**
   * When no two configured keys share a canonical name, every configured
   * header ends up holding exactly its configured value.
   */
  lemma SetHeadersConfigured(h: Header, config: map<string, string>, order: seq<string>, canon: string -> string, k: string)
    requires Enumerates(order, config.Keys) && CanonInjective(config.Keys, canon)
    requires k in config
    ensures canon(k) in SetHeaders(h, config, order, canon)
    ensures SetHeaders(h, config, order, canon)[canon(k)] == [config[k]]
  {
    var i :| 0 <= i < |order| && order[i] == k;
    SetHeadersLastWins(h, config, order, canon, i);
  }

  /**
   * Everything `ModifyResponse` promises about one response: the configured
   * status, body and length; every configured header present (holding its
   * configured value when canonical names do not collide); and every other
   * header left as it was.
   */
  lemma ModifyOutcome(m: Message, t: HttpToxic, order: seq<string>, canon: string -> string)
    requires Enumerates(order, t.responseHeaders.Keys)
    ensures var r := Modify(m, t, order, canon);
      && r.statusCode == t.statusCode && r.body == t.responseBody && r.contentLength == |t.responseBody|
      && r.header.Keys == m.header.Keys + Canonical(order, canon)
      && (forall x :: x in m.header && x !in Canonical(order, canon) ==> r.header[x] == m.header[x])
      && (CanonInjective(t.responseHeaders.Keys, canon) ==>
            forall k :: k in t.responseHeaders ==> r.header[canon(k)] == [t.responseHeaders[k]])
  {
    var config := t.responseHeaders;
    SetHeadersKeys(m.header, config, order, canon);
    forall x | x in m.header && x !in Canonical(order, canon)
      ensures SetHeaders(m.header, config, order, canon)[x] == m.header[x]
    {
      SetHeadersElsewhere(m.header, config, order, canon, x);
    }
    if CanonInjective(config.Keys, canon) {
      forall k | k in config
        ensures SetHeaders(m.header, config, order, canon)[canon(k)] == [config[k]]
      {
        SetHeadersConfigured(m.header, config, order, canon, k);
      }
    }
  }

  /**
   * A second `ModifyResponse` with the same configuration undoes nothing and
   * keeps nothing of the first: the result is what the second alone gives.
   */
  lemma ModifyLastWins(m: Message, t: HttpToxic, first: seq<string>, second: seq<string>, canon: string -> string)
    requires Enumerates(first, t.responseHeaders.Keys) && Enumerates(second, t.responseHeaders.Keys)
    ensures Modify(Modify(m, t, first, canon), t, second, canon) == Modify(m, t, second, canon)
  {
    forall x | x in Canonical(first, canon)
      ensures x in Canonical(second, canon)
    {
      var i :| 0 <= i < |first| && x == canon(first[i]);
      var j :| 0 <= j < |second| && second[j] == first[i];
    }
    SetHeadersOverwrite(m.header, t.responseHeaders, first, second, canon);
  }

  /** Rewriting an already rewritten response with the same configuration changes nothing. */
  lemma ModifyIdempotent(m: Message, t: HttpToxic, order: seq<string>, canon: string -> string)
    requires Enumerates(order, t.responseHeaders.Keys)
    ensures Modify(Modify(m, t, order, canon), t, order, canon) == Modify(m, t, order, canon)
  {
    ModifyLastWins(m, t, order, order, canon);
  }

  /** The canonical names stored by a full visit are those of the configured keys, whatever the order. */
  lemma CanonicalOfEnumerates(order: seq<string>, keys: set<string>, canon: string -> string)
    requires Enumerates(order, keys)
    ensures Canonical(order, canon) == set k | k in keys :: canon(k)
  {
    forall x | x in set k | k in keys :: canon(k)
      ensures x in Canonical(order, canon)
    {
      var k :| k in keys && x == canon(k);
      var i :| 0 <= i < |order| && order[i] == k;
    }
  }

  /**
   * When no two configured keys share a canonical name, the order in which
   * the configuration map is visited does not matter.
   */
  lemma ModifyOrderIrrelevant(m: Message, t: HttpToxic, first: seq<string>, second: seq<string>, canon: string -> string)
    requires Enumerates(first, t.responseHeaders.Keys) && Enumerates(second, t.responseHeaders.Keys)
    requires CanonInjective(t.responseHeaders.Keys, canon)
    ensures Modify(m, t, first, canon) == Modify(m, t, second, canon)
  {
    var config := t.responseHeaders;
    var a, b := SetHeaders(m.header, config, first, canon), SetHeaders(m.header, config, second, canon);
    CanonicalOfEnumerates(first, config.Keys, canon);
    CanonicalOfEnumerates(second, config.Keys, canon);
    SetHeadersKeys(m.header, config, first, canon);
    SetHeadersKeys(m.header, config, second, canon);
    forall x | x in a
      ensures a[x] == b[x]
    {
      if x in Canonical(first, canon) {
        var k :| k in config && x == canon(k);
        SetHeadersConfigured(m.header, config, first, canon, k);
        SetHeadersConfigured(m.header, config, second, canon, k);
      } else {
        SetHeadersElsewhere(m.header, config, first, canon, x);
        SetHeadersElsewhere(m.header, config, second, canon, x);
      }
    }
    assert a == b;
  }
}
