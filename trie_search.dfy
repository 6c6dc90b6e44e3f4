/**
 * The search phase of compactTrie.c (lines 395-478) and the whole program's pipeline.
 * A pattern P is stored like the text, 1-indexed with an unused P[0], so its length m
 * is |P| - 1. Its first l symbols are looked up in the trie; at the leaf reached, the
 * rest of the pattern is compared with the text after each stored window, and every
 * verified match is reported as (end position, pattern number) instead of printed.
 */
module TrieSearch {
  import opened Alphabet
  import opened TrieModel
  import opened TrieBuild

  /** One reported match: the text index of its last symbol and the pattern's number. */
  datatype Report = Report(end: int, pattern: int)

  /** P[1..m] occurs in the text starting at text index p. */
  ghost predicate Occurs(T: seq<Byte>, P: seq<Byte>, p: int)
    requires |P| >= 1
  {
    1 <= p && p + |P| - 1 <= |T| && T[p..p + |P| - 1] == P[1..]
  }

  /** P[1..m] occurs in the text ending at text index e. */
  ghost predicate EndsAt(T: seq<Byte>, P: seq<Byte>, e: int)
    requires |P| >= 1
  {
    Occurs(T, P, e - |P| + 2)
  }

  /** The pattern beyond its first l symbols follows the window that starts at p. */
  predicate TailMatches(T: seq<Byte>, P: seq<Byte>, l: int, p: int)
    requires 1 <= l < |P|
  {
    1 <= p && p + |P| - 1 <= |T| && T[p + l..p + |P| - 1] == P[l + 1..]
  }

  /** The reports of the positions ps, in order, that pass the tail comparison. */
  function Verified(T: seq<Byte>, P: seq<Byte>, l: int, ps: seq<int>, ordinal: int): seq<Report>
    requires 1 <= l < |P|
  {
    if ps == [] then []
    else
      var p := ps[|ps| - 1];
      Verified(T, P, l, ps[..|ps| - 1], ordinal) +
      (if TailMatches(T, P, l, p) then [Report(p + |P| - 2, ordinal)] else [])
  }

  /** A report in the list has strictly smaller end positions before it. */
  ghost predicate Ascending(out: seq<Report>)
  {
    forall a, b :: 0 <= a < b < |out| ==> out[a].end < out[b].end
  }

  /** Reports grouped by pattern number, ascending, and by end position within a pattern. */
  ghost predicate Ordered(out: seq<Report>)
  {
    forall a, b :: 0 <= a < b < |out| ==>
      out[a].pattern < out[b].pattern || (out[a].pattern == out[b].pattern && out[a].end < out[b].end)
  }

  /**
   * The trie after construction and flattening: every window of T is inserted and
   * every listed leaf's array holds its list.
   */
  ghost predicate Ready(T: seq<Byte>, l: int, alphabet: seq<int>, nodes: seq<Node>, leaves: seq<int>)
  {
    Valid(T, l, alphabet, nodes, leaves, WindowCount(T, l) + 1) &&
    forall k :: 0 <= k < |leaves| ==> nodes[leaves[k]].leafArray == nodes[leaves[k]].storedLeaf
  }

  // ---------------------------------------------------------------------------
  // Meaning of the reports
  // ---------------------------------------------------------------------------

  /** An occurrence is a window equal to the pattern's first l symbols, then its tail. */
  lemma OccursSplit(T: seq<Byte>, P: seq<Byte>, l: int, p: int)
    requires 1 <= l < |P|
    ensures Occurs(T, P, p) <==>
      1 <= p && p + l <= |T| && Window(T, p, l) == P[1..l + 1] && TailMatches(T, P, l, p)
  {
    if 1 <= p && p + |P| - 1 <= |T| {
      assert T[p..p + |P| - 1] == Window(T, p, l) + T[p + l..p + |P| - 1];
      assert P[1..] == P[1..l + 1] + P[l + 1..];
    }
  }

  /** The reports of ps are exactly the positions of ps whose tail matches. */
  lemma {:induction false} VerifiedMembers(T: seq<Byte>, P: seq<Byte>, l: int, ps: seq<int>, ordinal: int)
    requires 1 <= l < |P|
    ensures forall r :: r in Verified(T, P, l, ps, ordinal) <==>
      r.pattern == ordinal && r.end - |P| + 2 in ps && TailMatches(T, P, l, r.end - |P| + 2)
  {
    if ps != [] {
      var q := ps[..|ps| - 1];
      VerifiedMembers(T, P, l, q, ordinal);
      assert ps == q + [ps[|ps| - 1]];
    }
  }

  /** The reports of strictly ascending positions have strictly ascending ends. */
  lemma {:induction false} VerifiedAscending(T: seq<Byte>, P: seq<Byte>, l: int, ps: seq<int>, ordinal: int)
    requires 1 <= l < |P|
    requires forall a, b :: 0 <= a < b < |ps| ==> ps[a] < ps[b]
    ensures Ascending(Verified(T, P, l, ps, ordinal))
    ensures forall r :: r in Verified(T, P, l, ps, ordinal) ==> r.end - |P| + 2 in ps
  {
    VerifiedMembers(T, P, l, ps, ordinal);
    if ps != [] {
      var q := ps[..|ps| - 1];
      var p := ps[|ps| - 1];
      VerifiedAscending(T, P, l, q, ordinal);
      VerifiedMembers(T, P, l, q, ordinal);
      var head := Verified(T, P, l, q, ordinal);
      forall r | r in head
        ensures r.end < p + |P| - 2
      {
        var j :| 0 <= j < |q| && q[j] == r.end - |P| + 2;
      }
    }
  }

  /**
   * The lookup of a key finds the leaf that stores exactly the windows equal to it;
   * when it finds nothing, no window equals the key.
   */
  lemma LookupStores(T: seq<Byte>, l: int, alphabet: seq<int>, nodes: seq<Node>, leaves: seq<int>, K: seq<Byte>, p: int)
    requires Ready(T, l, alphabet, nodes, leaves) && |K| == l
    ensures var r := Lookup(T, l, alphabet, nodes, K);
      (1 <= p && p + l <= |T| && Window(T, p, l) == K) <==>
      (r.Some? && 0 <= r.value < |nodes| && p in nodes[r.value].storedLeaf)
  {
    var r := Lookup(T, l, alphabet, nodes, K);
    PathLength(T, l, nodes, 0);
    DescendFindsLeaf(T, l, alphabet, nodes, 0, K);
    if 1 <= p && p + l <= |T| && Window(T, p, l) == K {
      assert Located(T, l, alphabet, nodes, p);
    }
    if r.Some? && 0 <= r.value < |nodes| && p in nodes[r.value].storedLeaf {
      var v := r.value;
      assert v != 0;
      assert v in leaves;
      var k :| 0 <= k < |leaves| && leaves[k] == v;
      assert LeafOK(T, l, nodes, v, WindowCount(T, l) + 1);
      var a :| 0 <= a < |nodes[v].storedLeaf| && nodes[v].storedLeaf[a] == p;
    }
  }

  /** A leaf of the finished trie holds its list in its array, numberOfLeaf entries long, ascending. */
  lemma LeafArrayIsList(T: seq<Byte>, l: int, alphabet: seq<int>, nodes: seq<Node>, leaves: seq<int>, v: int)
    requires Ready(T, l, alphabet, nodes, leaves) && 0 <= v < |nodes| && nodes[v].isLeaf
    ensures nodes[v].leafArray == nodes[v].storedLeaf && nodes[v].numberOfLeaf == |nodes[v].storedLeaf|
    ensures forall a, b :: 0 <= a < b < |nodes[v].storedLeaf| ==> nodes[v].storedLeaf[a] < nodes[v].storedLeaf[b]
    ensures forall a :: 0 <= a < |nodes[v].storedLeaf| ==> 1 <= nodes[v].storedLeaf[a]
  {
    if v != 0 {
      assert v in leaves;
      var k :| 0 <= k < |leaves| && leaves[k] == v;
      assert LeafOK(T, l, nodes, v, WindowCount(T, l) + 1);
    }
  }

  /**
   * What the search of one pattern reports, given where its walk ends: nothing when the
   * lookup of its first l symbols fails, else the verified windows of the leaf found.
   * Those are exactly its occurrences, by ascending end position.
   */
  lemma SearchMeaning(T: seq<Byte>, l: int, alphabet: seq<int>, nodes: seq<Node>, leaves: seq<int>,
                      P: seq<Byte>, ordinal: int, out: seq<Report>)
    requires Ready(T, l, alphabet, nodes, leaves) && l + 1 <= |P|
    requires var r := Lookup(T, l, alphabet, nodes, P[1..l + 1]);
      (r.None? && out == []) ||
      (r.Some? && 0 <= r.value < |nodes| && out == Verified(T, P, l, nodes[r.value].storedLeaf, ordinal))
    ensures forall x :: x in out <==> x.pattern == ordinal && EndsAt(T, P, x.end)
    ensures Ascending(out)
  {
    var r := Lookup(T, l, alphabet, nodes, P[1..l + 1]);
    PathLength(T, l, nodes, 0);
    DescendFindsLeaf(T, l, alphabet, nodes, 0, P[1..l + 1]);
    if r.Some? {
      LeafArrayIsList(T, l, alphabet, nodes, leaves, r.value);
      VerifiedAscending(T, P, l, nodes[r.value].storedLeaf, ordinal);
    }
    forall x
      ensures x in out <==> x.pattern == ordinal && EndsAt(T, P, x.end)
    {
      ReportMeaning(T, l, alphabet, nodes, leaves, P, ordinal, out, x);
    }
  }

  /** One report of the search of a pattern: it is there exactly when it is an occurrence. */
  lemma ReportMeaning(T: seq<Byte>, l: int, alphabet: seq<int>, nodes: seq<Node>, leaves: seq<int>,
                      P: seq<Byte>, ordinal: int, out: seq<Report>, x: Report)
    requires Ready(T, l, alphabet, nodes, leaves) && l + 1 <= |P|
    requires var r := Lookup(T, l, alphabet, nodes, P[1..l + 1]);
      (r.None? && out == []) ||
      (r.Some? && 0 <= r.value < |nodes| && out == Verified(T, P, l, nodes[r.value].storedLeaf, ordinal))
    ensures x in out <==> x.pattern == ordinal && EndsAt(T, P, x.end)
  {
    var K := P[1..l + 1];
    var r := Lookup(T, l, alphabet, nodes, K);
    var p := x.end - |P| + 2;
    OccursSplit(T, P, l, p);
    LookupStores(T, l, alphabet, nodes, leaves, K, p);
    if r.Some? {
      VerifiedMembers(T, P, l, nodes[r.value].storedLeaf, ordinal);
    }
  }

  /**
   * The child w that the walk at internal node v enters for the next symbol of P lies
   * inside the text and ends no deeper than a window.
   */
  lemma WalkChild(T: seq<Byte>, l: int, alphabet: seq<int>, nodes: seq<Node>, P: seq<Byte>, v: int)
    requires Structure(T, l, alphabet, nodes) && l + 1 <= |P|
    requires 0 <= v < |nodes| && |Path(T, nodes[v])| < l
    requires alphabet[P[|Path(T, nodes[v])| + 1]] in nodes[v].child
    ensures var w := nodes[v].child[alphabet[P[|Path(T, nodes[v])| + 1]]];
      0 < w < |nodes| && 1 <= nodes[w].startPosition <= nodes[w].endPosition < |T| &&
      |Path(T, nodes[v])| + 1 + (nodes[w].endPosition + 1 - nodes[w].startPosition) <= l + 1
  {
    var c := alphabet[P[|Path(T, nodes[v])| + 1]];
    var w := nodes[v].child[c];
    assert EdgeOK(T, alphabet, nodes, v, c);
    ChildDeeper(T, l, alphabet, nodes, v, c);
    assert NodeOK(T, l, nodes, w);
    PathLength(T, l, nodes, w);
  }

  // ---------------------------------------------------------------------------
  // The walk of a pattern
  // ---------------------------------------------------------------------------

  /**
   * The walk of key K at internal node v enters the child w for the next key symbol,
   * and the rest of w's label, T[start+1..end], is compared with K: when it matches,
   * the walk goes on from w, whose path is K's first |path| symbols.
   */
  lemma WalkFollow(T: seq<Byte>, l: int, alphabet: seq<int>, nodes: seq<Node>, P: seq<Byte>, v: int, d: int)
    requires Structure(T, l, alphabet, nodes) && l + 1 <= |P|
    requires 0 <= v < |nodes| && Path(T, nodes[v]) <= P[1..l + 1] && |Path(T, nodes[v])| < l && !nodes[v].isLeaf
    requires alphabet[P[|Path(T, nodes[v])| + 1]] in nodes[v].child
    requires var w := nodes[v].child[alphabet[P[|Path(T, nodes[v])| + 1]]];
      0 <= w < |nodes| && 0 <= nodes[w].startPosition < nodes[w].endPosition + 1 <= |T| &&
      d == |Path(T, nodes[v])| + 1 + (nodes[w].endPosition + 1 - nodes[w].startPosition) && d <= |P| &&
      T[nodes[w].startPosition + 1..nodes[w].endPosition + 1] == P[|Path(T, nodes[v])| + 2..d]
    ensures var w := nodes[v].child[alphabet[P[|Path(T, nodes[v])| + 1]]];
      Path(T, nodes[w]) <= P[1..l + 1] && |Path(T, nodes[w])| == d - 1 &&
      Descend(T, l, alphabet, nodes, v, P[1..l + 1]) == Descend(T, l, alphabet, nodes, w, P[1..l + 1])
  {
    var K := P[1..l + 1];
    var ml := |Path(T, nodes[v])|;
    var c := alphabet[P[ml + 1]];
    var w := nodes[v].child[c];
    var nd := nodes[w];
    assert EdgeOK(T, alphabet, nodes, v, c);
    ChildDeeper(T, l, alphabet, nodes, v, c);
    PathLength(T, l, nodes, w);
    OccursAt(T, nd.startPosition);
    CodeDetermines(T, alphabet, T[nd.startPosition], P[ml + 1]);
    assert Label(T, nd) == P[ml + 1..d] by {
      assert Label(T, nd) == [T[nd.startPosition]] + T[nd.startPosition + 1..nd.endPosition + 1];
      assert P[ml + 1..d] == [P[ml + 1]] + P[ml + 2..d];
    }
    assert Path(T, nodes[v]) == P[1..ml + 1];
    assert Path(T, nd) == P[1..d] by {
      assert P[1..d] == P[1..ml + 1] + P[ml + 1..d];
    }
    assert P[1..d] == K[..d - 1];
    DescendStep(T, l, alphabet, nodes, v, K, w);
  }

  /** The walk of K fails at v when the label of the child for the next symbol differs from K. */
  lemma WalkMismatch(T: seq<Byte>, l: int, alphabet: seq<int>, nodes: seq<Node>, P: seq<Byte>, v: int, s: int, d: int)
    requires Structure(T, l, alphabet, nodes) && l + 1 <= |P|
    requires 0 <= v < |nodes| && Path(T, nodes[v]) <= P[1..l + 1] && |Path(T, nodes[v])| < l && !nodes[v].isLeaf
    requires alphabet[P[|Path(T, nodes[v])| + 1]] in nodes[v].child
    requires var w := nodes[v].child[alphabet[P[|Path(T, nodes[v])| + 1]]];
      0 <= w < |nodes| && 0 <= nodes[w].startPosition < s <= nodes[w].endPosition < |T| &&
      d == |Path(T, nodes[v])| + 1 + (s - nodes[w].startPosition) && d < |P| && T[s] != P[d]
    ensures Descend(T, l, alphabet, nodes, v, P[1..l + 1]) == None
  {
    var K := P[1..l + 1];
    var ml := |Path(T, nodes[v])|;
    var c := alphabet[P[ml + 1]];
    var w := nodes[v].child[c];
    var nd := nodes[w];
    assert EdgeOK(T, alphabet, nodes, v, c);
    ChildDeeper(T, l, alphabet, nodes, v, c);
    PathLength(T, l, nodes, w);
    assert Label(T, nd)[s - nd.startPosition] == T[s];
    assert K[d - 1] == P[d];
    if Path(T, nd) <= K {
      assert false;
    }
  }

  // ---------------------------------------------------------------------------
  // The search
  // ---------------------------------------------------------------------------

  /**
   * Compares the pattern's tail P[l+1..m] with the text after the window that starts
   * at p (the loop at compactTrie.c:454-473); found is the condition under which line
   * 471 reports s - 1. A text index past n counts as a mismatch: the C reads it and then
   * rejects the match by the bound s <= n + 1.
   */
  method VerifyTail(T: seq<Byte>, P: seq<Byte>, l: int, p: int) returns (found: bool, s: int)
    requires 1 <= l < |P| && 1 <= p
    ensures found <==> TailMatches(T, P, l, p)
    ensures found ==> s - 1 == p + |P| - 2
  {
    s := p + l;
    var d := l + 1;
    var e := |P|;
    var mismatch := false;
    while d < e
      invariant l + 1 <= d <= e && s == p + (d - 1)
      invariant d > l + 1 ==> s <= |T| && T[p + l..s] == P[l + 1..d]
      invariant !mismatch
    {
      if s >= |T| || T[s] != P[d] {
        mismatch := true;
        break;
      }
      assert T[p + l..s + 1] == T[p + l..s] + [T[s]];
      assert P[l + 1..d + 1] == P[l + 1..d] + [P[d]];
      s := s + 1;
      d := d + 1;
    }
    found := !mismatch && d == e && s <= |T|;
  }

  /**
   * Verifies every window stored in a leaf (its array of k entries) against the
   * pattern's tail, reporting the matches in array order (compactTrie.c:449-473).
   */
  method VerifyLeaf(T: seq<Byte>, P: seq<Byte>, l: int, verifiedLeaf: seq<int>, k: int, ordinal: int)
    returns (out: seq<Report>)
    requires 1 <= l < |P| && k == |verifiedLeaf|
    requires forall j :: 0 <= j < k ==> 1 <= verifiedLeaf[j]
    ensures out == Verified(T, P, l, verifiedLeaf, ordinal)
  {
    out := [];
    var j := 0;
    while j != k
      invariant 0 <= j <= k
      invariant out == Verified(T, P, l, verifiedLeaf[..j], ordinal)
    {
      var found, s := VerifyTail(T, P, l, verifiedLeaf[j]);
      assert verifiedLeaf[..j + 1][..j] == verifiedLeaf[..j];
      if found {
        out := out + [Report(s - 1, ordinal)];
      }
      j := j + 1;
    }
    assert verifiedLeaf[..j] == verifiedLeaf;
  }

  /**
   * Searches pattern number `ordinal` (compactTrie.c:395-478 for one i): the reports
   * are exactly the pattern's occurrences, by ascending end position.
   */
  method SearchPattern(T: seq<Byte>, l: int, alphabet: seq<int>, nodes: seq<Node>, ghost leaves: seq<int>,
                       P: seq<Byte>, ordinal: int) returns (out: seq<Report>)
    requires Ready(T, l, alphabet, nodes, leaves) && l + 1 <= |P|
    ensures forall x :: x in out <==> x.pattern == ordinal && EndsAt(T, P, x.end)
    ensures Ascending(out)
  {
    ghost var K := P[1..l + 1];
    var current := 0;
    var matchedLength := 0;
    var needToSearch := true;
    out := [];
    PathLength(T, l, nodes, 0);
    // the C's do-while runs its body at least once, as this loop does
    while needToSearch
      invariant 0 <= current < |nodes| && Path(T, nodes[current]) <= K && matchedLength == |Path(T, nodes[current])|
      invariant Descend(T, l, alphabet, nodes, current, K) == Lookup(T, l, alphabet, nodes, K)
      invariant needToSearch ==> out == []
      invariant !needToSearch ==>
        var r := Lookup(T, l, alphabet, nodes, K);
        (r.None? && out == []) ||
        (r.Some? && 0 <= r.value < |nodes| && out == Verified(T, P, l, nodes[r.value].storedLeaf, ordinal))
      decreases needToSearch, l - matchedLength
    {
      PathLength(T, l, nodes, current);
      if !nodes[current].isLeaf {
        // an internal node: its path is shorter than a window
        var tempChar := P[matchedLength + 1];
        if alphabet[tempChar] in nodes[current].child {
          var next := nodes[current].child[alphabet[tempChar]];
          WalkChild(T, l, alphabet, nodes, P, current);
          // compactTrie.c:419 compares T[s] with the index d, not with P[d]; this is the
          // intended comparison, and README "## Findings" records the one as written
          var s, d, tempMatchedLength, mismatch :=
            MatchLabel(T, nodes[next].startPosition + 1, nodes[next].endPosition + 1, P, matchedLength + 2);
          if mismatch {
            WalkMismatch(T, l, alphabet, nodes, P, current, s, d);
            needToSearch := false;
          } else {
            WalkFollow(T, l, alphabet, nodes, P, current, d);
            matchedLength := matchedLength + tempMatchedLength;
            current := next;
          }
        } else {
          needToSearch := false;
        }
      } else {
        // a leaf: verify the tail of the pattern after each of its windows
        LeafArrayIsList(T, l, alphabet, nodes, leaves, current);
        out := VerifyLeaf(T, P, l, nodes[current].leafArray, nodes[current].numberOfLeaf, ordinal);
        needToSearch := false;
      }
    }
    SearchMeaning(T, l, alphabet, nodes, leaves, P, ordinal, out);
  }

  /** Appending the ascending reports of the next pattern keeps the list ordered. */
  lemma AppendOrdered(out: seq<Report>, found: seq<Report>, ordinal: int)
    requires Ordered(out) && Ascending(found)
    requires forall x :: x in out ==> x.pattern < ordinal
    requires forall x :: x in found ==> x.pattern == ordinal
    ensures Ordered(out + found)
  {
    var all := out + found;
    forall a, b | 0 <= a < b < |all|
      ensures all[a].pattern < all[b].pattern || (all[a].pattern == all[b].pattern && all[a].end < all[b].end)
    {
      if b < |out| {
        assert all[a] == out[a] && all[b] == out[b];
      } else if a < |out| {
        assert all[a] in out && all[b] in found;
      } else {
        assert all[a] == found[a - |out|] && all[b] == found[b - |out|];
      }
    }
  }

  /**
   * Searches patterns 1..r in turn (compactTrie.c:394-478): the reports are exactly the
   * occurrences of every pattern, by pattern number and then by end position.
   */
  method SearchAll(T: seq<Byte>, l: int, alphabet: seq<int>, nodes: seq<Node>, ghost leaves: seq<int>,
                   Ps: seq<seq<Byte>>) returns (out: seq<Report>)
    requires Ready(T, l, alphabet, nodes, leaves)
    requires forall i :: 0 <= i < |Ps| ==> l + 1 <= |Ps[i]|
    ensures forall x :: x in out <==> 1 <= x.pattern <= |Ps| && EndsAt(T, Ps[x.pattern - 1], x.end)
    ensures Ordered(out)
  {
    out := [];
    var i := 0;
    while i != |Ps|
      invariant 0 <= i <= |Ps|
      invariant forall x :: x in out <==> 1 <= x.pattern <= i && EndsAt(T, Ps[x.pattern - 1], x.end)
      invariant Ordered(out)
    {
      var found := SearchPattern(T, l, alphabet, nodes, leaves, Ps[i], i + 1);
      AppendOrdered(out, found, i + 1);
      out := out + found;
      i := i + 1;
    }
  }

  /**
   * The whole program on a text T[1..n] (T[0] unused), window length l and patterns
   * Ps (each 1-indexed, at least l symbols long): the codec, the trie of all windows,
   * the flattened leaf lists, then the search (compactTrie.c:150-478). The reports are
   * exactly the occurrences of the patterns, ordered by pattern and end position.
   */
  method CompactTrie(T: seq<Byte>, l: int, Ps: seq<seq<Byte>>) returns (out: seq<Report>)
    requires |T| >= 1 && l >= 1
    requires forall i :: 0 <= i < |Ps| ==> l + 1 <= |Ps[i]|
    ensures forall x :: x in out <==> 1 <= x.pattern <= |Ps| && EndsAt(T, Ps[x.pattern - 1], x.end)
    ensures Ordered(out)
  {
    var alphabet, sizeAlphabet := BuildAlphabet(T);
    var nodes, leaves := BuildTrie(T, l, alphabet);
    var flat := FlattenLeaves(T, l, alphabet, nodes, leaves, WindowCount(T, l) + 1);
    assert Ready(T, l, alphabet, flat, leaves) by {
      forall k | 0 <= k < |leaves|
        ensures flat[leaves[k]].leafArray == flat[leaves[k]].storedLeaf
      {
        assert LeafOK(T, l, nodes, leaves[k], WindowCount(T, l) + 1);
      }
    }
    out := SearchAll(T, l, alphabet, flat, leaves, Ps);
  }

  // ---------------------------------------------------------------------------
  // The edge comparison of the search as written at compactTrie.c:419
  // ---------------------------------------------------------------------------

  /** The label T[s0..e-1] passes the comparison as written: each byte equals its pattern index. */
  ghost predicate AcceptsAsWritten(T: seq<Byte>, s0: int, e: int, d0: int)
    requires 0 <= s0 <= e <= |T|
  {
    forall k :: s0 <= k < e ==> T[k] == d0 + (k - s0)
  }

  /**
   * The search's edge comparison as line 419 has it: the text byte T[s] is compared
   * with the pattern index d itself rather than with the pattern symbol P[d]. Text
   * bytes are taken as unsigned char values 0..255; where `char` is signed, a byte of
   * 0x80 or above compares as negative and never equals d, which only adds mismatches.
   */
  method MatchLabelAsWritten(T: seq<Byte>, s0: int, e: int, d0: int)
    returns (s: int, d: int, tempMatchedLength: int, mismatch: bool)
    requires 0 <= s0 <= e <= |T|
    ensures s0 <= s <= e && d == d0 + (s - s0) && tempMatchedLength == 1 + (s - s0)
    ensures mismatch <==> s < e
    ensures !mismatch <==> AcceptsAsWritten(T, s0, e, d0)
  {
    tempMatchedLength := 1;
    s, d := s0, d0;
    mismatch := false;
    while s < e
      invariant s0 <= s <= e && d == d0 + (s - s0) && tempMatchedLength == 1 + (s - s0)
      invariant forall k :: s0 <= k < s ==> T[k] == d0 + (k - s0)
      invariant !mismatch
    {
      if T[s] != d {
        mismatch := true;
        break;
      }
      s := s + 1;
      d := d + 1;
      tempMatchedLength := tempMatchedLength + 1;
    }
  }

  /**
   * Text "ab", l = 2, pattern "ab": the trie is one leaf under the root with label
   * T[1..2], so the search compares T[2..2] with the pattern from index 2. As written it
   * compares the byte 98 with the index 2 and rejects the edge, so this occurrence is
   * never reported; compared with the pattern, the edge matches.
   */
  lemma AsWrittenMissesOccurrence(T: seq<Byte>, P: seq<Byte>)
    requires T == [0, 97, 98] && P == [0, 97, 98]
    ensures EndsAt(T, P, 2)
    ensures T[2..3] == P[2..3]
    ensures !AcceptsAsWritten(T, 2, 3, 2)
  {
    assert T[2] != 2 + (2 - 2);
  }

  /**
   * Text "a" followed by the byte 2, l = 2, pattern "a" followed by the byte 5: the same
   * one-leaf trie, and the byte 2 at text index 2 equals the index it is compared with,
   * so as written the edge is accepted and, with no tail to verify, (2, 1) would be
   * reported although the pattern does not occur.
   */
  lemma AsWrittenReportsNonOccurrence(T: seq<Byte>, P: seq<Byte>)
    requires T == [0, 97, 2] && P == [0, 97, 5]
    ensures !EndsAt(T, P, 2)
    ensures T[2..3] != P[2..3]
    ensures AcceptsAsWritten(T, 2, 3, 2)
  {
    assert T[1..3][1] != P[1..][1];
  }
}
