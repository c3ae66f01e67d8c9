/**
 * The header-list parser `parseHeaders` of toxics/httptoxic.go: it reads a
 * configuration string `"k1:v1;k2:v2;..."` into a header map.
 */
module HeaderList {
  import opened Wrappers
  import opened Text

  /**
   * What one `;`-separated piece contributes: nothing when it holds no `:`,
   * otherwise the trimmed text before its first `:` and the trimmed rest.
   */
  function Entry(piece: string): (e: Option<(string, string)>)
    ensures e.None? <==> ':' !in piece
    ensures e.Some? ==> NoEdgeSpace(e.value.0) && NoEdgeSpace(e.value.1) && ':' !in e.value.0
    ensures e.Some? && ';' !in piece ==> ';' !in e.value.0 && ';' !in e.value.1
  {
    match SplitFirst(piece, ':')
    case None => None
    case Some(kv) =>
      TrimSpaceKeepsAbsent(kv.0, ':');
      TrimSpaceKeepsAbsent(kv.0, ';');
      TrimSpaceKeepsAbsent(kv.1, ';');
      Some((TrimSpace(kv.0), TrimSpace(kv.1)))
  }

  /** The entries of the pieces, one per piece and in the same order. */
  function Entries(pieces: seq<string>): seq<Option<(string, string)>>
  {
    seq(|pieces|, i requires 0 <= i < |pieces| => Entry(pieces[i]))
  }

  /** The entry is present and has key `key`. */
  predicate HasKey<K(==), V>(e: Option<(K, V)>, key: K)
  {
    e.Some? && e.value.0 == key
  }

  /** The map built by inserting the present entries in order, later ones overwriting. */
  function Collect<K(==), V>(entries: seq<Option<(K, V)>>): map<K, V>
  {
    if entries == [] then map[]
    else
      var acc := Collect(entries[..|entries| - 1]);
      match entries[|entries| - 1]
      case None => acc
      case Some(kv) => acc[kv.0 := kv.1]
  }

  /** The result of `parseHeaders(headerString)`. */
  function HeaderMap(headerString: string): map<string, string>
  {
    if |headerString| == 0 then map[] else Collect(Entries(Split(headerString, ';')))
  }

  /**
   * The loop of `parseHeaders`: split on `;`, split each pair on its first
   * `:`, trim both halves and store them, skipping pairs without `:`.
   */
  method ParseHeaders(headerString: string) returns (headers: map<string, string>)
    ensures headers == HeaderMap(headerString)
    ensures forall k :: k in headers ==> NoEdgeSpace(k) && NoEdgeSpace(headers[k])
    ensures forall k :: k in headers ==> ':' !in k && ';' !in k && ';' !in headers[k]
  {
    headers := map[];
    if |headerString| == 0 {
      return;
    }
    var pairs := Split(headerString, ';');
    ghost var entries := Entries(pairs);
    for i := 0 to |pairs|
      invariant headers == Collect(entries[..i])
    {
      ghost var e := Entry(pairs[i]);
      assert entries[i] == e;
      CollectAppend(entries[..i], e);
      TakeOneMore(entries, i);
      var splitPair := SplitFirst(pairs[i], ':');
      if splitPair.Some? {
        var key := TrimSpace(splitPair.value.0);
        var value := TrimSpace(splitPair.value.1);
        headers := headers[key := value];
      }
    }
    assert entries[..|pairs|] == entries;
    HeaderMapBindings(headerString);
  }

  lemma TakeOneMore<T>(s: seq<T>, i: nat)
    requires i < |s|
    ensures s[..i + 1] == s[..i] + [s[i]]
  {
  }

  lemma CollectAppend<K, V>(entries: seq<Option<(K, V)>>, e: Option<(K, V)>)
    ensures e.None? ==> Collect(entries + [e]) == Collect(entries)
    ensures e.Some? ==> Collect(entries + [e]) == Collect(entries)[e.value.0 := e.value.1]
  {
    assert (entries + [e])[..|entries|] == entries;
  }

  /** Every present entry puts its key in the map. */
  lemma {:induction false} CollectHasEveryKey<K, V>(entries: seq<Option<(K, V)>>, i: nat)
    requires i < |entries| && entries[i].Some?
    ensures entries[i].value.0 in Collect(entries)
  {
    var n := |entries| - 1;
    if i < n {
      assert entries[..n][i] == entries[i];
      CollectHasEveryKey(entries[..n], i);
    }
  }

  /** Every key in the map comes from a present entry, with that entry's value. */
  lemma {:induction false} CollectKeysFromEntries<K, V>(entries: seq<Option<(K, V)>>, key: K)
    requires key in Collect(entries)
    ensures exists i :: 0 <= i < |entries| && entries[i] == Some((key, Collect(entries)[key]))
  {
    var n := |entries| - 1;
    var init := entries[..n];
    if HasKey(entries[n], key) {
      assert entries[n] == Some((key, Collect(entries)[key]));
    } else {
      assert Collect(entries)[key] == Collect(init)[key];
      CollectKeysFromEntries(init, key);
      var i :| 0 <= i < |init| && init[i] == Some((key, Collect(init)[key]));
      assert entries[i] == init[i];
    }
  }

  /** When a key repeats, the value of the last entry holding it wins. */
  lemma {:induction false} CollectLastWins<K, V>(entries: seq<Option<(K, V)>>, i: nat, key: K)
    requires i < |entries| && HasKey(entries[i], key)
    requires forall j :: i < j < |entries| ==> !HasKey(entries[j], key)
    ensures key in Collect(entries) && Collect(entries)[key] == entries[i].value.1
  {
    var n := |entries| - 1;
    if i < n {
      var init := entries[..n];
      forall j | i < j < |init|
        ensures !HasKey(init[j], key)
      {
        assert init[j] == entries[j];
      }
      assert init[i] == entries[i];
      CollectLastWins(init, i, key);
    }
  }

  /** An absent entry contributes nothing, wherever it stands. */
  lemma {:induction false} CollectSkipsAbsent<K, V>(before: seq<Option<(K, V)>>, after: seq<Option<(K, V)>>)
    ensures Collect(before + [None] + after) == Collect(before + after)
    decreases |after|
  {
    if after == [] {
      assert (before + [None])[..|before|] == before;
      assert before + [] == before && before + [None] + [] == before + [None];
    } else {
      var n := |after| - 1;
      var shorter := after[..n];
      CollectSkipsAbsent(before, shorter);
      assert (before + [None] + after)[..|before| + 1 + n] == before + [None] + shorter;
      assert (before + after)[..|before| + n] == before + shorter;
    }
  }

  /**
   * A pair without `:` is dropped: inserting it anywhere in a list of
   * pairs leaves the parsed map as it was.
   */
  lemma MalformedPairDropped(before: seq<string>, piece: string, after: seq<string>)
    requires ':' !in piece
    ensures Collect(Entries(before + [piece] + after)) == Collect(Entries(before + after))
  {
    EntriesAppend(before + [piece], after);
    EntriesAppend(before, [piece]);
    EntriesAppend(before, after);
    assert Entries([piece]) == [None];
    CollectSkipsAbsent(Entries(before), Entries(after));
  }

  lemma EntriesAppend(a: seq<string>, b: seq<string>)
    ensures Entries(a + b) == Entries(a) + Entries(b)
  {
    var l, r := Entries(a + b), Entries(a) + Entries(b);
    forall i | 0 <= i < |l|
      ensures l[i] == r[i]
    {
      if i < |a| {
        assert (a + b)[i] == a[i];
      } else {
        assert (a + b)[i] == b[i - |a|];
      }
    }
  }

  /** Everything `parseHeaders` stores is trimmed, and no key or value holds a `;`, nor a key a `:`. */
  lemma HeaderMapBindings(headerString: string)
    ensures forall k :: k in HeaderMap(headerString) ==> NoEdgeSpace(k) && NoEdgeSpace(HeaderMap(headerString)[k])
    ensures forall k :: k in HeaderMap(headerString) ==> ':' !in k && ';' !in k && ';' !in HeaderMap(headerString)[k]
  {
    if |headerString| != 0 {
      var pieces := Split(headerString, ';');
      var entries := Entries(pieces);
      forall k | k in Collect(entries)
        ensures NoEdgeSpace(k) && NoEdgeSpace(Collect(entries)[k])
        ensures ':' !in k && ';' !in k && ';' !in Collect(entries)[k]
      {
        CollectKeysFromEntries(entries, k);
        var i :| 0 <= i < |entries| && entries[i] == Some((k, Collect(entries)[k]));
        assert entries[i] == Entry(pieces[i]);
      }
    }
  }

  /** An empty configuration string gives an empty map. */
  lemma HeaderMapEmpty()
    ensures HeaderMap("") == map[]
  {
  }

  /**
   * The exact content of a collected map: its keys are the keys of the
   * present entries, and each holds the value of the last entry carrying it.
   */
  lemma CollectExact<K, V>(m: map<K, V>, entries: seq<Option<(K, V)>>, key: K)
    requires m == Collect(entries)
    ensures key in m <==> exists i :: 0 <= i < |entries| && HasKey(entries[i], key)
    ensures forall i :: 0 <= i < |entries| && HasKey(entries[i], key) && (forall j :: i < j < |entries| ==> !HasKey(entries[j], key)) ==>
        key in m && m[key] == entries[i].value.1
  {
    if key in Collect(entries) {
      CollectKeysFromEntries(entries, key);
      var i :| 0 <= i < |entries| && entries[i] == Some((key, Collect(entries)[key]));
      assert HasKey(entries[i], key);
    }
    forall i | 0 <= i < |entries| && HasKey(entries[i], key)
      ensures key in Collect(entries)
    {
      CollectHasEveryKey(entries, i);
    }
    forall i | 0 <= i < |entries| && HasKey(entries[i], key) && (forall j :: i < j < |entries| ==> !HasKey(entries[j], key))
      ensures Collect(entries)[key] == entries[i].value.1
    {
      CollectLastWins(entries, i, key);
    }
  }

  /**
   * The key set of `parseHeaders(s)` is exactly the trimmed keys of the
   * well-formed `;`-separated pieces of `s`, and each key holds the trimmed
   * value of the last piece carrying it.
   */
  lemma HeaderMapExact(headerString: string, key: string)
    ensures var entries := Entries(Split(headerString, ';'));
      key in HeaderMap(headerString) <==> exists i :: 0 <= i < |entries| && HasKey(entries[i], key)
    ensures var entries := Entries(Split(headerString, ';'));
      forall i :: 0 <= i < |entries| && HasKey(entries[i], key) && (forall j :: i < j < |entries| ==> !HasKey(entries[j], key)) ==>
        key in HeaderMap(headerString) && HeaderMap(headerString)[key] == entries[i].value.1
  {
    HeaderMapCollects(headerString);
    CollectExact(HeaderMap(headerString), Entries(Split(headerString, ';')), key);
  }

  /**
   * The early return for the empty string agrees with the loop: `""` splits
   * into one empty piece, which carries no `:`.
   */
  lemma HeaderMapCollects(headerString: string)
    ensures HeaderMap(headerString) == Collect(Entries(Split(headerString, ';')))
  {
    if |headerString| == 0 {
      OnlyEmptyPiece(Split(headerString, ';'));
    }
  }

  /** The entry of a pair written out as key, `:`, rest. */
  lemma EntryOfPair(key: string, rest: string, k: string, v: string)
    requires ':' !in key && TrimSpace(key) == k && TrimSpace(rest) == v
    ensures Entry(key + [':'] + rest) == Some((k, v))
  {
    SplitFirstAt(key, ':', rest);
  }

  /** A string without `;` is one piece. */
  lemma HeaderMapOnePiece(s: string)
    requires s != [] && ';' !in s
    ensures HeaderMap(s) == Collect([Entry(s)])
  {
    SplitJoin([s], ';');
    assert Entries([s]) == [Entry(s)];
  }

  /**
   * Only the first `:` of a pair splits it, so the value may itself hold
   * `:`: a string `key:value` with no `;` maps the trimmed key to the
   * trimmed value.
   */
  lemma SinglePair(key: string, value: string)
    requires ':' !in key && ';' !in key && ';' !in value
    ensures HeaderMap(key + [':'] + value) == map[TrimSpace(key) := TrimSpace(value)]
  {
    var s := key + [':'] + value;
    HeaderMapOnePiece(s);
    EntryOfPair(key, value, TrimSpace(key), TrimSpace(value));
    CollectAppend([], Entry(s));
  }

  /**
   * Joining separator-free pairs with `;` and parsing gives the map built
   * from those pairs in order.
   */
  lemma HeaderMapOfJoin(pieces: seq<string>)
    requires |pieces| >= 1 && forall i :: 0 <= i < |pieces| ==> ';' !in pieces[i]
    ensures HeaderMap(Join(pieces, ';')) == Collect(Entries(pieces))
  {
    SplitJoin(pieces, ';');
    HeaderMapCollects(Join(pieces, ';'));
  }

  lemma OnlyEmptyPiece(pieces: seq<string>)
    requires Split([], ';') == pieces
    ensures Collect(Entries(pieces)) == map[]
  {
    var none: Option<(string, string)> := None;
    assert Entries(pieces) == [] + [none];
    CollectAppend([], none);
  }

  /** For instance `a:1;b: 2 ;bad` parses to `a` = `1` and `b` = `2`; the colon-free `bad` is dropped. */
  lemma MixedExample(s: string)
    requires s == "a:1;b: 2 ;bad"
    ensures HeaderMap(s) == map["a" := "1", "b" := "2"]
  {
    var pieces := ["a:1", "b: 2 ", "bad"];
    ExampleJoin(s, pieces[0], pieces[1], pieces[2]);
    JoinOfThree(pieces[0], pieces[1], pieces[2], ';');
    assert pieces == [pieces[0], pieces[1], pieces[2]];
    HeaderMapOfJoin(pieces);
    ExampleEntries(pieces);
    CollectThree("a", "1", "b", "2");
  }

  lemma ExampleJoin(s: string, a: string, b: string, c: string)
    requires s == "a:1;b: 2 ;bad" && a == "a:1" && b == "b: 2 " && c == "bad"
    ensures s == a + [';'] + b + [';'] + c
    ensures ';' !in a && ';' !in b && ';' !in c
  {
    assert |s| == |a + [';'] + b + [';'] + c|;
    forall i | 0 <= i < |s|
      ensures s[i] == (a + [';'] + b + [';'] + c)[i]
    {
    }
  }

  lemma JoinOfThree(a: string, b: string, c: string, sep: char)
    ensures Join([a, b, c], sep) == a + [sep] + b + [sep] + c
  {
    assert [a, b, c][1..] == [b, c] && [b, c][1..] == [c];
    assert Join([b, c], sep) == b + [sep] + c;
    assert a + [sep] + (b + [sep] + c) == a + [sep] + b + [sep] + c;
  }

  lemma ExampleEntries(pieces: seq<string>)
    requires pieces == ["a:1", "b: 2 ", "bad"]
    ensures Entries(pieces) == [Some(("a", "1")), Some(("b", "2")), None]
  {
    EntriesOfThree(pieces);
    ExamplePair(pieces[0], "a", "1", "a", "1");
    ExamplePair(pieces[1], "b", " 2 ", "b", "2");
  }

  lemma EntriesOfThree(pieces: seq<string>)
    requires |pieces| == 3
    ensures Entries(pieces) == [Entry(pieces[0]), Entry(pieces[1]), Entry(pieces[2])]
  {
  }

  lemma ExamplePair(piece: string, key: string, rest: string, k: string, v: string)
    requires (piece, key, rest, k, v) in {("a:1", "a", "1", "a", "1"), ("b: 2 ", "b", " 2 ", "b", "2")}
    ensures Entry(piece) == Some((k, v))
  {
    if key == "a" {
      ExampleTrim(key, [], k, []);
      ExampleTrim(rest, [], v, []);
    } else {
      ExampleTrim(key, [], k, []);
      ExampleTrim(rest, " ", v, " ");
    }
    assert piece == key + [':'] + rest;
    EntryOfPair(key, rest, k, v);
  }

  lemma ExampleTrim(s: string, lead: string, mid: string, trail: string)
    requires (s, lead, mid, trail) in {("a", [], "a", []), ("1", [], "1", []), ("b", [], "b", []), (" 2 ", " ", "2", " ")}
    ensures TrimSpace(s) == mid
  {
    assert AllSpace(lead) && AllSpace(trail) && NoEdgeSpace(mid);
    TrimSpaceUnique(s, lead, mid, trail);
  }

  lemma CollectThree<K, V>(k1: K, v1: V, k2: K, v2: V)
    ensures Collect([Some((k1, v1)), Some((k2, v2)), None]) == map[k1 := v1, k2 := v2]
  {
    var e1, e2, e3 := Some((k1, v1)), Some((k2, v2)), None;
    CollectAppend([], e1);
    CollectAppend([e1], e2);
    CollectAppend([e1, e2], e3);
    assert [e1] == [] + [e1] && [e1, e2] == [e1] + [e2] && [e1, e2, e3] == [e1, e2] + [e3];
  }
}
