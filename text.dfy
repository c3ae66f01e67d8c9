/**
 * The string operations that the header-list parser uses from Go's `strings`
 * package, over `seq<char>`: `Split` with a one-character separator,
 * `SplitN(s, sep, 2)` (here `SplitFirst`) and `TrimSpace`.
 */
module Text {
  import opened Wrappers

  /** Go's `unicode.IsSpace`, the test `strings.TrimSpace` trims by. */
  predicate IsSpace(c: char)
  {
    || c == '\t' || c == '\n' || c == '\U{B}' || c == '\U{C}' || c == '\r' || c == ' '
    || c == '\U{85}' || c == '\U{A0}' || c == '\U{1680}'
    || ('\U{2000}' <= c <= '\U{200A}')
    || c == '\U{2028}' || c == '\U{2029}' || c == '\U{202F}' || c == '\U{205F}' || c == '\U{3000}'
  }

  predicate AllSpace(s: string)
  {
    forall i :: 0 <= i < |s| ==> IsSpace(s[i])
  }

  /** Neither the first nor the last character of `s` is white space. */
  predicate NoEdgeSpace(s: string)
  {
    s == [] || (!IsSpace(s[0]) && !IsSpace(s[|s| - 1]))
  }

  /** Joins pieces with `sep` between consecutive ones (Go's `strings.Join`). */
  function Join(pieces: seq<string>, sep: char): string
    requires |pieces| >= 1
  {
    if |pieces| == 1 then pieces[0] else pieces[0] + [sep] + Join(pieces[1..], sep)
  }

  /**
   * Go's `strings.Split(s, sep)` for a one-character separator: the maximal
   * runs between separators, so there is always one piece more than there are
   * separators, and the empty string gives one empty piece.
   */
  function Split(s: string, sep: char): (pieces: seq<string>)
    ensures |pieces| >= 1
    ensures forall i :: 0 <= i < |pieces| ==> sep !in pieces[i]
  {
    if s == [] then [[]]
    else
      var rest := Split(s[1..], sep);
      if s[0] == sep then [[]] + rest
      else
        assert rest == [rest[0]] + rest[1..];
        [[s[0]] + rest[0]] + rest[1..]
  }

  /** Joining the pieces of a split with the separator gives the string back. */
  lemma {:induction false} JoinSplit(s: string, sep: char)
    ensures Join(Split(s, sep), sep) == s
  {
    if s != [] {
      JoinSplit(s[1..], sep);
      var rest := Split(s[1..], sep);
      if s[0] != sep {
        assert rest == [rest[0]] + rest[1..];
        var pieces := Split(s, sep);
        if |rest| > 1 {
          assert pieces[1..] == rest[1..];
        }
      }
    }
  }

  /** Splitting the join of separator-free pieces gives those pieces back. */
  lemma {:induction false} SplitJoin(pieces: seq<string>, sep: char)
    requires |pieces| >= 1
    requires forall i :: 0 <= i < |pieces| ==> sep !in pieces[i]
    ensures Split(Join(pieces, sep), sep) == pieces
    decreases |pieces|, |pieces[0]|
  {
    var p := pieces[0];
    if |pieces| == 1 {
      if p != [] {
        SplitJoin([p[1..]], sep);
        assert Join([p[1..]], sep) == p[1..];
        assert [p[0]] + p[1..] == p;
      }
    } else if p == [] {
      SplitJoin(pieces[1..], sep);
      assert Join(pieces, sep) == [sep] + Join(pieces[1..], sep);
    } else {
      var shorter := [p[1..]] + pieces[1..];
      assert shorter[1..] == pieces[1..];
      SplitJoin(shorter, sep);
      var x := Join(shorter, sep);
      assert Join(pieces, sep) == [p[0]] + x;
      assert ([p[0]] + x)[1..] == x;
      assert [p[0]] + shorter[0] == p;
    }
  }

  /**
   * Go's `strings.SplitN(s, sep, 2)` read as the parser reads it: `None` when
   * the result has one element (no separator), otherwise the text before the
   * first separator and everything after it.
   */
  function SplitFirst(s: string, sep: char): (r: Option<(string, string)>)
    ensures r.None? <==> sep !in s
    ensures r.Some? ==> sep !in r.value.0 && s == r.value.0 + [sep] + r.value.1
  {
    if s == [] then None
    else if s[0] == sep then Some(([], s[1..]))
    else
      match SplitFirst(s[1..], sep)
      case None => None
      case Some(kv) => Some(([s[0]] + kv.0, kv.1))
  }

  /** Only the first separator splits: the part after it may hold more separators. */
  lemma {:induction false} SplitFirstAt(key: string, sep: char, rest: string)
    requires sep !in key
    ensures SplitFirst(key + [sep] + rest, sep) == Some((key, rest))
  {
    if key != [] {
      assert (key + [sep] + rest)[1..] == key[1..] + [sep] + rest;
      SplitFirstAt(key[1..], sep, rest);
      assert [key[0]] + key[1..] == key;
    }
  }

  /** Drops the white space at the front (Go's `strings.TrimLeftFunc(s, unicode.IsSpace)`). */
  function TrimLeft(s: string): string
  {
    if s != [] && IsSpace(s[0]) then TrimLeft(s[1..]) else s
  }

  /** `TrimLeft` removes a prefix made of white space, and stops at the first other character. */
  lemma {:induction false} TrimLeftSpec(s: string)
    ensures var r := TrimLeft(s);
      && |r| <= |s| && r == s[|s| - |r|..]
      && AllSpace(s[..|s| - |r|])
      && (r == [] || !IsSpace(r[0]))
  {
    if s != [] && IsSpace(s[0]) {
      TrimLeftSpec(s[1..]);
      var r := TrimLeft(s);
      assert s[..|s| - |r|] == [s[0]] + s[1..][..|s| - 1 - |r|];
    }
  }

  /** Drops the white space at the back (Go's `strings.TrimRightFunc(s, unicode.IsSpace)`). */
  function TrimRight(s: string): string
  {
    if s != [] && IsSpace(s[|s| - 1]) then TrimRight(s[..|s| - 1]) else s
  }

  /** `TrimRight` removes a suffix made of white space, and stops at the last other character. */
  lemma {:induction false} TrimRightSpec(s: string)
    ensures var r := TrimRight(s);
      && |r| <= |s| && r == s[..|r|]
      && AllSpace(s[|r|..])
      && (r == [] || !IsSpace(r[|r| - 1]))
  {
    if s != [] && IsSpace(s[|s| - 1]) {
      var t := s[..|s| - 1];
      TrimRightSpec(t);
      var r := TrimRight(s);
      assert s[|r|..] == t[|r|..] + [s[|s| - 1]];
    }
  }

  /**
   * Go's `strings.TrimSpace`: `s` with all leading and trailing white space
   * removed; what remains starts and ends with a non-space character.
   */
  function TrimSpace(s: string): (r: string)
    ensures NoEdgeSpace(r)
    ensures exists lead, trail :: AllSpace(lead) && AllSpace(trail) && s == lead + r + trail
  {
    var l := TrimLeft(s);
    var r := TrimRight(l);
    TrimLeftSpec(s);
    TrimRightSpec(l);
    TrimmedBetween(s, l, r);
    r
  }

  lemma TrimmedBetween(s: string, l: string, r: string)
    requires |l| <= |s| && l == s[|s| - |l|..] && AllSpace(s[..|s| - |l|]) && (l == [] || !IsSpace(l[0]))
    requires |r| <= |l| && r == l[..|r|] && AllSpace(l[|r|..]) && (r == [] || !IsSpace(r[|r| - 1]))
    ensures NoEdgeSpace(r)
    ensures AllSpace(s[..|s| - |l|]) && AllSpace(l[|r|..]) && s == s[..|s| - |l|] + r + l[|r|..]
  {
    var lead, trail := s[..|s| - |l|], l[|r|..];
    assert s == lead + l;
    assert l == r + trail;
    assert r != [] ==> r[0] == l[0];
  }

  /**
   * The trimmed string is determined by the two properties above: whenever
   * `s` is white space, then an edge-free middle, then white space, that
   * middle is `TrimSpace(s)`.
   */
  lemma TrimSpaceUnique(s: string, lead: string, mid: string, trail: string)
    requires AllSpace(lead) && AllSpace(trail) && NoEdgeSpace(mid)
    requires s == lead + mid + trail
    ensures TrimSpace(s) == mid
  {
    if mid == [] {
      assert s == lead + trail;
      AllSpaceConcat(lead, trail);
      TrimLeftAllSpace(s);
      assert TrimLeft(s) == [];
    } else {
      TrimLeftExact(lead, mid + trail);
      assert s == lead + (mid + trail);
      TrimRightExact(mid, trail);
      assert TrimLeft(s) == mid + trail;
    }
  }

  lemma AllSpaceConcat(a: string, b: string)
    requires AllSpace(a) && AllSpace(b)
    ensures AllSpace(a + b)
  {
    forall i | 0 <= i < |a + b|
      ensures IsSpace((a + b)[i])
    {
      if i >= |a| {
        assert (a + b)[i] == b[i - |a|];
      }
    }
  }

  lemma {:induction false} TrimLeftAllSpace(s: string)
    requires AllSpace(s)
    ensures TrimLeft(s) == []
  {
    if s != [] {
      TrimLeftAllSpace(s[1..]);
    }
  }

  lemma {:induction false} TrimLeftExact(lead: string, rest: string)
    requires AllSpace(lead) && rest != [] && !IsSpace(rest[0])
    ensures TrimLeft(lead + rest) == rest
  {
    if lead != [] {
      assert (lead + rest)[1..] == lead[1..] + rest;
      TrimLeftExact(lead[1..], rest);
    }
  }

  lemma {:induction false} TrimRightExact(mid: string, trail: string)
    requires AllSpace(trail) && mid != [] && !IsSpace(mid[|mid| - 1])
    ensures TrimRight(mid + trail) == mid
  {
    if trail != [] {
      var t := trail[..|trail| - 1];
      assert (mid + trail)[..|mid + trail| - 1] == mid + t;
      TrimRightExact(mid, t);
    }
  }

  /** Trimming twice is trimming once. */
  lemma TrimSpaceIdempotent(s: string)
    ensures TrimSpace(TrimSpace(s)) == TrimSpace(s)
  {
    var r := TrimSpace(s);
    assert r == [] + r + [];
    TrimSpaceUnique(r, [], r, []);
  }

  /** Trimming never introduces a character: what is absent from `s` is absent from the result. */
  lemma TrimSpaceKeepsAbsent(s: string, c: char)
    ensures c !in s ==> c !in TrimSpace(s)
  {
    var r := TrimSpace(s);
    var lead, trail :| AllSpace(lead) && AllSpace(trail) && s == lead + r + trail;
  }
}
