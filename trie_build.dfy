/**
 * Construction of the compact trie (compactTrie.c:171-389): every window T[i..i+l-1],
 * i = 1..n-l+1, is inserted into the path-compressed trie, and then each leaf's linked
 * list of window starts is flattened into an array.
 */
module TrieBuild {
  import opened Alphabet
  import opened TrieModel

  /** The number of windows of l symbols in T[1..n]. */
  function WindowCount(T: seq<Byte>, l: int): int
  {
    if |T| - 1 >= l then |T| - l else 0
  }

  /**
   * What one insertion does to the leaf list and the leaf lists: the old leaf list is
   * kept in order with at most one new leaf after it, every old leaf's list is kept or
   * gains i at its end, and a new leaf holds just i.
   */
  ghost predicate Extends(nodes0: seq<Node>, leaves0: seq<int>, nodes: seq<Node>, leaves: seq<int>, i: int)
  {
    |leaves0| <= |leaves| <= |leaves0| + 1 && leaves[..|leaves0|] == leaves0 &&
    (forall k :: 0 <= k < |leaves0| && 0 <= leaves0[k] < |nodes0| && leaves0[k] < |nodes| ==>
       nodes[leaves0[k]].storedLeaf == nodes0[leaves0[k]].storedLeaf ||
       nodes[leaves0[k]].storedLeaf == nodes0[leaves0[k]].storedLeaf + [i]) &&
    (|leaves| == |leaves0| + 1 ==> 0 <= leaves[|leaves0|] < |nodes| && nodes[leaves[|leaves0|]].storedLeaf == [i])
  }

  // ---------------------------------------------------------------------------
  // Insertion of one window (the body of the loop at compactTrie.c:190-367)
  // ---------------------------------------------------------------------------

  /**
   * Inserts window i. The walk follows the window from the root; a mismatch inside an
   * edge splits it, a full match of l symbols appends i to the leaf reached, and a
   * missing child slot gets a new leaf. Every text index compared lies in the window
   * or in an edge label.
   */
  method InsertWindow(T: seq<Byte>, l: int, alphabet: seq<int>, nodes0: seq<Node>, leaves0: seq<int>, i: int)
    returns (nodes: seq<Node>, leaves: seq<int>)
    requires Valid(T, l, alphabet, nodes0, leaves0, i)
    requires i + l <= |T|
    ensures Valid(T, l, alphabet, nodes, leaves, i + 1)
    ensures Extends(nodes0, leaves0, nodes, leaves, i)
  {
    nodes, leaves := nodes0, leaves0;
    ghost var W := Window(T, i, l);
    PathLength(T, l, nodes, 0);
    assert OnPath(T, l, alphabet, nodes, W, 0);
    var tempChar := T[i];
    if alphabet[tempChar] !in nodes[0].child {
      // no child for the first symbol: a new leaf under the root
      assert NodeOK(T, l, nodes, 0);
      nodes, leaves := AttachLeaf(T, l, alphabet, nodes, leaves, i, 0, 0);
      return;
    }
    var current := nodes[0].child[alphabet[tempChar]];
    var matchedLength := 0;
    var parent := 0;
    // The C clears continueFlag once the window is placed; here each of those three
    // branches returns.
    while true
      invariant nodes == nodes0 && leaves == leaves0
      invariant 0 <= parent < |nodes| && OnPath(T, l, alphabet, nodes, W, parent)
      invariant matchedLength == |Path(T, nodes[parent])| < l
      invariant alphabet[T[i + matchedLength]] in nodes[parent].child
      invariant current == nodes[parent].child[alphabet[T[i + matchedLength]]]
      decreases l - matchedLength
    {
      EdgeFacts(T, l, alphabet, nodes, i, parent);
      var s, d, tempMatchedLength, mismatch :=
        MatchLabel(T, nodes[current].startPosition + 1, nodes[current].endPosition + 1, T, i + matchedLength + 1);
      if mismatch {
        LabelPrefix(T, nodes[current].startPosition, s, i + matchedLength, d);
        nodes, leaves := SplitEdge(T, l, alphabet, nodes, leaves, i, parent, current, matchedLength, s, d);
        return;
      }
      FollowEdge(T, l, alphabet, nodes, i, parent, s, d);
      matchedLength := matchedLength + tempMatchedLength;
      if matchedLength == l {
        // case 1: the leaf whose window equals window i
        nodes := AppendToLeaf(T, l, alphabet, nodes, leaves, i, current);
        return;
      }
      // case 3: an internal node
      tempChar := T[i + matchedLength];
      if alphabet[tempChar] !in nodes[current].child {
        nodes, leaves := AttachLeaf(T, l, alphabet, nodes, leaves, i, current, matchedLength);
        return;
      }
      parent := current;
      current := nodes[current].child[alphabet[tempChar]];
    }
  }

  /**
   * Compares the rest of an edge label, T[s0..e-1], with W from index d0 on, where W
   * is the text itself during insertion (the loop at compactTrie.c:242-252) and the
   * pattern during search (416-427): s and d stop at the first mismatch, or s reaches
   * e; tempMatchedLength counts the label symbols matched, the first included.
   * Line 419 of the search compares with the index d instead of the symbol P[d]; this
   * method is the intended comparison, and README "## Findings" records the other.
   */
  method MatchLabel(T: seq<Byte>, s0: int, e: int, W: seq<Byte>, d0: int)
    returns (s: int, d: int, tempMatchedLength: int, mismatch: bool)
    requires 0 <= s0 <= e <= |T| && 0 <= d0 && d0 + (e - s0) <= |W|
    ensures s0 <= s <= e && d == d0 + (s - s0) && tempMatchedLength == 1 + (s - s0)
    ensures T[s0..s] == W[d0..d]
    ensures mismatch <==> s < e
    ensures mismatch ==> T[s] != W[d]
  {
    tempMatchedLength := 1;
    s, d := s0, d0;
    mismatch := false;
    while s < e
      invariant s0 <= s <= e && d == d0 + (s - s0) && tempMatchedLength == 1 + (s - s0)
      invariant T[s0..s] == W[d0..d]
      invariant !mismatch
    {
      if T[s] != W[d] {
        mismatch := true;
        break;
      }
      assert T[s0..s + 1] == T[s0..s] + [T[s]];
      assert W[d0..d + 1] == W[d0..d] + [W[d]];
      s := s + 1;
      d := d + 1;
      tempMatchedLength := tempMatchedLength + 1;
    }
  }

  /**
   * Creates a leaf for window i under node v, which the walk of the window reaches
   * with no child for the next symbol (compactTrie.c:197-224 at the root, 338-363
   * below it), and appends it to the leaf list.
   */
  method AttachLeaf(T: seq<Byte>, l: int, alphabet: seq<int>, nodes0: seq<Node>, leaves0: seq<int>, i: int, v: int, matchedLength: int)
    returns (nodes: seq<Node>, leaves: seq<int>)
    requires Valid(T, l, alphabet, nodes0, leaves0, i) && i + l <= |T|
    requires 0 <= v < |nodes0| && (v == 0 || !nodes0[v].isLeaf) && OnPath(T, l, alphabet, nodes0, Window(T, i, l), v)
    requires matchedLength == |Path(T, nodes0[v])| < l
    requires alphabet[T[i + matchedLength]] !in nodes0[v].child
    ensures Valid(T, l, alphabet, nodes, leaves, i + 1)
    ensures Extends(nodes0, leaves0, nodes, leaves, i)
    ensures |nodes| == |nodes0| + 1 && leaves == leaves0 + [|nodes0|]
    ensures Lookup(T, l, alphabet, nodes, Window(T, i, l)) == Some(|nodes0|)
    ensures AddedLeaf(T, l, nodes0, nodes, v, alphabet[T[i + matchedLength]], i)
  {
    var c := alphabet[T[i + matchedLength]];
    var y := |nodes0|;
    nodes := nodes0[v := nodes0[v].(child := nodes0[v].child[c := y], isLeaf := false)];
    nodes := nodes + [NewLeaf(i, i + matchedLength, l)];
    leaves := leaves0 + [y];
    AddLeafKeepsValid(T, l, alphabet, nodes0, leaves0, i, v, c, nodes);
  }

  /**
   * Splits the edge into `current` where window i first differs from its label, at
   * text index s of the label and d of the window (compactTrie.c:254-297): a new
   * internal node takes the matched part of the label, the old node keeps the rest,
   * and a new leaf takes the rest of the window.
   */
  method SplitEdge(T: seq<Byte>, l: int, alphabet: seq<int>, nodes0: seq<Node>, leaves0: seq<int>, i: int,
                   parent: int, current: int, matchedLength: int, s: int, d: int)
    returns (nodes: seq<Node>, leaves: seq<int>)
    requires Valid(T, l, alphabet, nodes0, leaves0, i) && i + l <= |T|
    requires 0 <= parent < |nodes0| && OnPath(T, l, alphabet, nodes0, Window(T, i, l), parent)
    requires matchedLength == |Path(T, nodes0[parent])| < l
    requires alphabet[T[i + matchedLength]] in nodes0[parent].child
    requires current == nodes0[parent].child[alphabet[T[i + matchedLength]]] && 0 <= current < |nodes0|
    requires 0 <= nodes0[current].startPosition < s <= nodes0[current].endPosition < |T|
    requires d == i + matchedLength + (s - nodes0[current].startPosition) && 0 <= d < |T|
    requires T[nodes0[current].startPosition..s] == T[i + matchedLength..d] && T[s] != T[d]
    ensures Valid(T, l, alphabet, nodes, leaves, i + 1)
    ensures Extends(nodes0, leaves0, nodes, leaves, i)
    ensures |nodes| == |nodes0| + 2 && leaves == leaves0 + [|nodes0| + 1]
    ensures Lookup(T, l, alphabet, nodes, Window(T, i, l)) == Some(|nodes0| + 1)
    ensures SplitAt(T, l, alphabet, nodes0, nodes, parent, alphabet[T[i + matchedLength]], s, d, i)
  {
    ghost var pc := alphabet[T[i + matchedLength]];
    OnPathPrefix(T, l, alphabet, nodes0, i, parent);
    EdgeFacts(T, l, alphabet, nodes0, i, parent);
    ChildDeeper(T, l, alphabet, nodes0, parent, pc);
    var tempChar := T[nodes0[current].startPosition];
    var tempNode := nodes0[parent].child[alphabet[tempChar]];
    var x := |nodes0|;
    var y := x + 1;
    // the new internal node takes the matched part of the label
    var branch := Node(nodes0[tempNode].substring, nodes0[tempNode].startPosition, s - 1,
                       map[alphabet[T[s]] := tempNode, alphabet[T[d]] := y], false, 0, [], []);
    // the parent's slot leads to it, and the original node keeps the rest of its label
    nodes := nodes0[parent := nodes0[parent].(child := nodes0[parent].child[alphabet[tempChar] := x])]
                   [tempNode := nodes0[tempNode].(startPosition := s)];
    // the new leaf comes after it
    nodes := nodes + [branch, NewLeaf(i, d, l)];
    leaves := leaves0 + [y];
    SplitAtHolds(T, l, alphabet, nodes0, nodes, parent, pc, s, d, i);
    SplitKeepsValid(T, l, alphabet, nodes0, leaves0, i, parent, pc, s, d, nodes);
  }

  /**
   * Appends window i to the list of the leaf its walk reaches (compactTrie.c:309-318).
   */
  method AppendToLeaf(T: seq<Byte>, l: int, alphabet: seq<int>, nodes0: seq<Node>, leaves: seq<int>, i: int, current: int)
    returns (nodes: seq<Node>)
    requires Valid(T, l, alphabet, nodes0, leaves, i) && i + l <= |T|
    requires 0 < current < |nodes0| && nodes0[current].isLeaf
    requires OnPath(T, l, alphabet, nodes0, Window(T, i, l), current)
    ensures Valid(T, l, alphabet, nodes, leaves, i + 1)
    ensures Extends(nodes0, leaves, nodes, leaves, i)
    ensures |nodes| == |nodes0| && nodes[current].storedLeaf == nodes0[current].storedLeaf + [i]
    ensures nodes[current] == nodes0[current].(numberOfLeaf := nodes0[current].numberOfLeaf + 1,
                                               storedLeaf := nodes0[current].storedLeaf + [i])
    ensures forall z :: 0 <= z < |nodes| && z != current ==> nodes[z] == nodes0[z]
  {
    OnPathLookup(T, l, alphabet, nodes0, Window(T, i, l), current);
    nodes := nodes0[current := nodes0[current].(numberOfLeaf := nodes0[current].numberOfLeaf + 1,
                                                 storedLeaf := nodes0[current].storedLeaf + [i])];
    AppendKeepsValid(T, l, alphabet, nodes0, leaves, i, current, nodes);
  }

  // ---------------------------------------------------------------------------
  // Facts about the walk of one window
  // ---------------------------------------------------------------------------

  /** A node on the walk of window i spells a prefix of the window. */
  lemma OnPathPrefix(T: seq<Byte>, l: int, alphabet: seq<int>, nodes: seq<Node>, i: int, v: int)
    requires Structure(T, l, alphabet, nodes) && 1 <= i && i + l <= |T|
    requires OnPath(T, l, alphabet, nodes, Window(T, i, l), v)
    ensures 0 <= v < |nodes| && |Path(T, nodes[v])| <= l
    ensures Path(T, nodes[v]) <= Window(T, i, l) && Path(T, nodes[v]) == T[i..i + |Path(T, nodes[v])|]
  {
    PathLength(T, l, nodes, 0);
    PassesDescend(T, l, alphabet, nodes, 0, Window(T, i, l), v);
    PathLength(T, l, nodes, v);
    assert Window(T, i, l)[..|Path(T, nodes[v])|] == T[i..i + |Path(T, nodes[v])|];
  }

  /** The walk that passes through a leaf ends there. */
  lemma OnPathLookup(T: seq<Byte>, l: int, alphabet: seq<int>, nodes: seq<Node>, key: seq<Byte>, v: int)
    requires Structure(T, l, alphabet, nodes) && |key| == l
    requires OnPath(T, l, alphabet, nodes, key, v) && 0 <= v < |nodes| && nodes[v].isLeaf
    ensures Lookup(T, l, alphabet, nodes, key) == Some(v)
  {
    PathLength(T, l, nodes, 0);
    PassesDescend(T, l, alphabet, nodes, 0, key, v);
  }

  /**
   * What the walk of window i knows at a node v on it, and at the child w it enters
   * for the next window symbol, spelled out on text indices.
   */
  lemma EdgeFacts(T: seq<Byte>, l: int, alphabet: seq<int>, nodes: seq<Node>, i: int, v: int)
    requires Structure(T, l, alphabet, nodes) && 1 <= i && i + l <= |T|
    requires 0 <= v < |nodes| && OnPath(T, l, alphabet, nodes, Window(T, i, l), v)
    requires |Path(T, nodes[v])| < l && alphabet[T[i + |Path(T, nodes[v])|]] in nodes[v].child
    ensures var w := nodes[v].child[alphabet[T[i + |Path(T, nodes[v])|]]];
      0 < w < |nodes| && !nodes[v].isLeaf
    ensures var ml := |Path(T, nodes[v])|; var nd := nodes[nodes[v].child[alphabet[T[i + ml]]]];
      1 <= nd.substring <= nd.startPosition <= nd.endPosition < |T| &&
      T[nd.startPosition] == T[i + ml] &&
      ml < |Path(T, nd)| == nd.endPosition + 1 - nd.substring <= l &&
      nd.startPosition - nd.substring == ml &&
      Path(T, nodes[v]) == T[i..i + ml] &&
      Path(T, nd) == T[nd.substring..nd.endPosition + 1] &&
      T[nd.substring..nd.startPosition] == T[i..i + ml]
  {
    OnPathPrefix(T, l, alphabet, nodes, i, v);
    var ml := |Path(T, nodes[v])|;
    var c := alphabet[T[i + ml]];
    var w := nodes[v].child[c];
    assert EdgeOK(T, alphabet, nodes, v, c);
    assert NodeOK(T, l, nodes, v);
    PathLength(T, l, nodes, w);
    var nd := nodes[w];
    ChildDeeper(T, l, alphabet, nodes, v, c);
    OccursAt(T, nd.startPosition);
    CodeDetermines(T, alphabet, T[nd.startPosition], T[i + ml]);
    assert Path(T, nd) == Path(T, nodes[v]) + T[nd.startPosition..nd.endPosition + 1];
    assert T[nd.substring..nd.startPosition] == Path(T, nd)[..nd.startPosition - nd.substring];
  }

  /** Two equal first symbols followed by two equal stretches make two equal slices. */
  lemma LabelPrefix(T: seq<Byte>, a: int, s: int, b: int, d: int)
    requires 0 <= a < s <= |T| && 0 <= b < d <= |T| && T[a] == T[b] && T[a + 1..s] == T[b + 1..d]
    ensures T[a..s] == T[b..d]
  {
    assert T[a..s] == [T[a]] + T[a + 1..s];
    assert T[b..d] == [T[b]] + T[b + 1..d];
  }

  /** A matched path prefix, a matched first symbol and a matched rest spell the same text. */
  lemma SpliceMatch(T: seq<Byte>, a: int, st: int, s: int, i: int, ml: int, d: int)
    requires 0 <= a <= st < s <= |T| && 0 <= i && 0 <= ml && i + ml < d <= |T|
    requires T[a..st] == T[i..i + ml] && T[st] == T[i + ml] && T[st + 1..s] == T[i + ml + 1..d]
    ensures T[a..s] == T[i..d]
  {
    LabelPrefix(T, st, s, i + ml, d);
    assert T[i..d] == T[i..i + ml] + T[i + ml..d];
    assert T[a..s] == T[a..st] + T[st..s];
  }

  /**
   * The walk of window i, at node v, enters the child w for the next symbol and
   * matches all of w's label: it passes through w, whose path ends at text index d.
   */
  lemma FollowEdge(T: seq<Byte>, l: int, alphabet: seq<int>, nodes: seq<Node>, i: int, v: int, s: int, d: int)
    requires Structure(T, l, alphabet, nodes) && 1 <= i && i + l <= |T|
    requires 0 <= v < |nodes| && OnPath(T, l, alphabet, nodes, Window(T, i, l), v)
    requires |Path(T, nodes[v])| < l && alphabet[T[i + |Path(T, nodes[v])|]] in nodes[v].child
    requires var w := nodes[v].child[alphabet[T[i + |Path(T, nodes[v])|]]];
      0 <= w < |nodes| && 0 <= nodes[w].startPosition < s == nodes[w].endPosition + 1 <= |T| &&
      d == i + |Path(T, nodes[v])| + (s - nodes[w].startPosition) && d <= |T| &&
      T[nodes[w].startPosition + 1..s] == T[i + |Path(T, nodes[v])| + 1..d]
    ensures var w := nodes[v].child[alphabet[T[i + |Path(T, nodes[v])|]]];
      OnPath(T, l, alphabet, nodes, Window(T, i, l), w) &&
      |Path(T, nodes[w])| == d - i <= l && (d - i == l <==> nodes[w].isLeaf)
  {
    EdgeFacts(T, l, alphabet, nodes, i, v);
    var ml := |Path(T, nodes[v])|;
    var c := alphabet[T[i + ml]];
    var w := nodes[v].child[c];
    var nd := nodes[w];
    SpliceMatch(T, nd.substring, nd.startPosition, s, i, ml, d);
    assert Path(T, nd) == T[i..d];
    assert d - i <= l;
    WindowPrefix(T, i, l, d - i);
    PathLength(T, l, nodes, 0);
    PassesStep(T, l, alphabet, nodes, 0, Window(T, i, l), v, c, w);
    PathLength(T, l, nodes, w);
  }

  /** A window that is found is found in a non-root leaf that spells it. */
  lemma LocatedFound(T: seq<Byte>, l: int, alphabet: seq<int>, nodes: seq<Node>, p: int)
    requires Structure(T, l, alphabet, nodes) && Located(T, l, alphabet, nodes, p)
    requires nodes[0].storedLeaf == []
    ensures var r := Lookup(T, l, alphabet, nodes, Window(T, p, l));
      r.Some? && 0 < r.value < |nodes| && nodes[r.value].isLeaf && Path(T, nodes[r.value]) == Window(T, p, l)
  {
    PathLength(T, l, nodes, 0);
    DescendFindsLeaf(T, l, alphabet, nodes, 0, Window(T, p, l));
  }

  /**
   * The leaf lists partition the inserted windows: each window start below next is in
   * the list of exactly one listed leaf, and no list holds anything else.
   */
  lemma LeafListPartition(T: seq<Byte>, l: int, alphabet: seq<int>, nodes: seq<Node>, leaves: seq<int>, next: int, p: int)
    requires Valid(T, l, alphabet, nodes, leaves, next)
    ensures 1 <= p < next ==> exists k :: 0 <= k < |leaves| && p in nodes[leaves[k]].storedLeaf
    ensures forall a, b ::
      (0 <= a < |leaves| && 0 <= b < |leaves| &&
       p in nodes[leaves[a]].storedLeaf && p in nodes[leaves[b]].storedLeaf) ==> a == b
    ensures forall k :: 0 <= k < |leaves| && p in nodes[leaves[k]].storedLeaf ==> 1 <= p < next
  {
    if 1 <= p < next {
      assert Located(T, l, alphabet, nodes, p);
      LocatedFound(T, l, alphabet, nodes, p);
      var v := Lookup(T, l, alphabet, nodes, Window(T, p, l)).value;
      assert v in leaves;
      var k :| 0 <= k < |leaves| && leaves[k] == v;
    }
    forall a, b | 0 <= a < |leaves| && 0 <= b < |leaves| &&
      p in nodes[leaves[a]].storedLeaf && p in nodes[leaves[b]].storedLeaf
      ensures a == b
    {
      StoredSpells(T, l, alphabet, nodes, leaves, next, a, p);
      StoredSpells(T, l, alphabet, nodes, leaves, next, b, p);
    }
    forall k | 0 <= k < |leaves| && p in nodes[leaves[k]].storedLeaf
      ensures 1 <= p < next
    {
      StoredSpells(T, l, alphabet, nodes, leaves, next, k, p);
    }
  }

  /** A window stored in a listed leaf spells the leaf's path, and the lookup of it finds the leaf. */
  lemma StoredSpells(T: seq<Byte>, l: int, alphabet: seq<int>, nodes: seq<Node>, leaves: seq<int>, next: int, k: int, p: int)
    requires Valid(T, l, alphabet, nodes, leaves, next)
    requires 0 <= k < |leaves| && p in nodes[leaves[k]].storedLeaf
    ensures 1 <= p < next && p + l <= |T| && Window(T, p, l) == Path(T, nodes[leaves[k]])
    ensures Lookup(T, l, alphabet, nodes, Window(T, p, l)) == Some(leaves[k])
  {
    var v := leaves[k];
    assert LeafOK(T, l, nodes, v, next);
    assert Reachable(T, l, alphabet, nodes, v);
    var a :| 0 <= a < |nodes[v].storedLeaf| && nodes[v].storedLeaf[a] == p;
    PathLength(T, l, nodes, v);
  }

  /** A listed leaf whose bounds and list an insertion leaves alone stays well formed. */
  lemma LeafKept(T: seq<Byte>, l: int, nodes: seq<Node>, nodes': seq<Node>, v: int, i: int)
    requires LeafOK(T, l, nodes, v, i) && |nodes| <= |nodes'|
    requires nodes'[v].isLeaf && nodes'[v].substring == nodes[v].substring && nodes'[v].endPosition == nodes[v].endPosition
    requires nodes'[v].storedLeaf == nodes[v].storedLeaf && nodes'[v].numberOfLeaf == nodes[v].numberOfLeaf
    ensures LeafOK(T, l, nodes', v, i + 1)
  {
    assert Path(T, nodes'[v]) == Path(T, nodes[v]);
  }

  /** A listed leaf that spells window i and gains i at the end of its list stays well formed. */
  lemma LeafAppended(T: seq<Byte>, l: int, nodes: seq<Node>, nodes': seq<Node>, v: int, i: int)
    requires LeafOK(T, l, nodes, v, i) && |nodes| <= |nodes'| && Window(T, i, l) == Path(T, nodes[v])
    requires nodes'[v] == nodes[v].(numberOfLeaf := nodes[v].numberOfLeaf + 1, storedLeaf := nodes[v].storedLeaf + [i])
    ensures LeafOK(T, l, nodes', v, i + 1)
  {
    assert Path(T, nodes'[v]) == Path(T, nodes[v]);
  }

  /**
   * The leaf lists after an insertion that lists one new leaf y holding just window i
   * and keeps every old leaf's list: the old list followed by y is the new leaf list.
   */
  lemma LeavesAddLeaf(T: seq<Byte>, l: int, nodes: seq<Node>, leaves: seq<int>, i: int, nodes': seq<Node>, y: int)
    requires LeavesOK(T, l, nodes, leaves, i)
    requires |nodes| <= y < |nodes'|
    requires forall k :: 0 <= k < |leaves| ==>
      LeafOK(T, l, nodes', leaves[k], i + 1) && nodes'[leaves[k]].storedLeaf == nodes[leaves[k]].storedLeaf
    requires LeafOK(T, l, nodes', y, i + 1) && nodes'[y].storedLeaf == [i]
    requires forall z :: 0 < z < |nodes'| && z != y && nodes'[z].isLeaf ==> z < |nodes| && nodes[z].isLeaf
    ensures LeavesOK(T, l, nodes', leaves + [y], i + 1)
    ensures Extends(nodes, leaves, nodes', leaves + [y], i)
  {
    var leaves' := leaves + [y];
    forall k | 0 <= k < |leaves'| ensures LeafOK(T, l, nodes', leaves'[k], i + 1)
    {
      if k < |leaves| {
        assert leaves'[k] == leaves[k];
      }
    }
    forall z | 0 < z < |nodes'| && nodes'[z].isLeaf ensures z in leaves'
    {
      if z != y {
        assert z in leaves;
      }
    }
    forall a, b | 0 <= a < b < |leaves'| ensures leaves'[a] != leaves'[b]
    {
      if b == |leaves| {
        assert LeafOK(T, l, nodes, leaves[a], i);
      }
    }
    assert leaves'[..|leaves|] == leaves;
  }

  // ---------------------------------------------------------------------------
  // Case 1: append to a leaf
  // ---------------------------------------------------------------------------

  /** Appending window i to the leaf its lookup reaches keeps the invariant, one window on. */
  lemma AppendKeepsValid(T: seq<Byte>, l: int, alphabet: seq<int>, nodes: seq<Node>, leaves: seq<int>, i: int, v: int, nodes': seq<Node>)
    requires Valid(T, l, alphabet, nodes, leaves, i) && i + l <= |T|
    requires 0 < v < |nodes| && nodes[v].isLeaf && Lookup(T, l, alphabet, nodes, Window(T, i, l)) == Some(v)
    requires nodes' == nodes[v := nodes[v].(numberOfLeaf := nodes[v].numberOfLeaf + 1, storedLeaf := nodes[v].storedLeaf + [i])]
    ensures Valid(T, l, alphabet, nodes', leaves, i + 1)
    ensures Extends(nodes, leaves, nodes', leaves, i)
  {
    assert forall z :: 0 <= z < |nodes| ==> Shape(nodes'[z]) == Shape(nodes[z]);
    ShapeKeepsStructure(T, l, alphabet, nodes, nodes');
    AppendLeaves(T, l, alphabet, nodes, leaves, i, v, nodes');
    forall p | 1 <= p < i + 1
      ensures Located(T, l, alphabet, nodes', p)
    {
      AppendLocated(T, l, alphabet, nodes, i, v, nodes', p);
    }
    forall k | 0 <= k < |leaves|
      ensures Reachable(T, l, alphabet, nodes', leaves[k])
    {
      ShapeReachable(T, l, alphabet, nodes, nodes', leaves[k]);
    }
  }

  /** Appending to a leaf: the leaf lists. */
  lemma AppendLeaves(T: seq<Byte>, l: int, alphabet: seq<int>, nodes: seq<Node>, leaves: seq<int>, i: int, v: int, nodes': seq<Node>)
    requires Structure(T, l, alphabet, nodes) && LeavesOK(T, l, nodes, leaves, i) && 1 <= i && i + l <= |T|
    requires 0 < v < |nodes| && nodes[v].isLeaf && Lookup(T, l, alphabet, nodes, Window(T, i, l)) == Some(v)
    requires nodes' == nodes[v := nodes[v].(numberOfLeaf := nodes[v].numberOfLeaf + 1, storedLeaf := nodes[v].storedLeaf + [i])]
    ensures LeavesOK(T, l, nodes', leaves, i + 1)
    ensures Extends(nodes, leaves, nodes', leaves, i)
  {
    PathLength(T, l, nodes, 0);
    DescendFindsLeaf(T, l, alphabet, nodes, 0, Window(T, i, l));
    forall k | 0 <= k < |leaves|
      ensures LeafOK(T, l, nodes', leaves[k], i + 1)
    {
      assert LeafOK(T, l, nodes, leaves[k], i);
      if leaves[k] == v {
        LeafAppended(T, l, nodes, nodes', v, i);
      } else {
        LeafKept(T, l, nodes, nodes', leaves[k], i);
      }
    }
    assert leaves[..|leaves|] == leaves;
  }

  /** Appending to a leaf: every window found before, and window i, is found. */
  lemma AppendLocated(T: seq<Byte>, l: int, alphabet: seq<int>, nodes: seq<Node>, i: int, v: int, nodes': seq<Node>, p: int)
    requires Structure(T, l, alphabet, nodes) && Structure(T, l, alphabet, nodes') && 1 <= i && i + l <= |T|
    requires 0 < v < |nodes| && Lookup(T, l, alphabet, nodes, Window(T, i, l)) == Some(v)
    requires nodes' == nodes[v := nodes[v].(numberOfLeaf := nodes[v].numberOfLeaf + 1, storedLeaf := nodes[v].storedLeaf + [i])]
    requires p == i || Located(T, l, alphabet, nodes, p)
    ensures Located(T, l, alphabet, nodes', p)
  {
    PathLength(T, l, nodes, 0);
    assert forall z :: 0 <= z < |nodes| ==> Shape(nodes'[z]) == Shape(nodes[z]);
    DescendShape(T, l, alphabet, nodes, nodes', 0, Window(T, p, l));
  }

  /** Changing only the leaf lists keeps the tree. */
  lemma ShapeKeepsStructure(T: seq<Byte>, l: int, alphabet: seq<int>, nodes: seq<Node>, nodes': seq<Node>)
    requires Structure(T, l, alphabet, nodes) && UniqueParents(nodes)
    requires |nodes'| == |nodes| && forall z :: 0 <= z < |nodes| ==> Shape(nodes'[z]) == Shape(nodes[z])
    ensures Structure(T, l, alphabet, nodes') && UniqueParents(nodes')
    ensures forall z :: 0 <= z < |nodes| ==> Path(T, nodes'[z]) == Path(T, nodes[z])
  {
    forall z | 0 <= z < |nodes| ensures NodeOK(T, l, nodes', z) && Path(T, nodes'[z]) == Path(T, nodes[z])
    {
      assert Shape(nodes'[z]) == Shape(nodes[z]);
      assert NodeOK(T, l, nodes, z);
    }
    forall v, c | 0 <= v < |nodes'| && c in nodes'[v].child ensures EdgeOK(T, alphabet, nodes', v, c)
    {
      assert Shape(nodes'[v]) == Shape(nodes[v]);
      assert EdgeOK(T, alphabet, nodes, v, c);
      assert Shape(nodes'[nodes[v].child[c]]) == Shape(nodes[nodes[v].child[c]]);
    }
    forall v | 0 <= v < |nodes| ensures nodes'[v].child == nodes[v].child
    {
      assert Shape(nodes'[v]) == Shape(nodes[v]);
    }
  }

  /** Changing only the leaf lists keeps every leaf reachable. */
  lemma ShapeReachable(T: seq<Byte>, l: int, alphabet: seq<int>, nodes: seq<Node>, nodes': seq<Node>, w: int)
    requires Structure(T, l, alphabet, nodes) && Structure(T, l, alphabet, nodes')
    requires |nodes'| == |nodes| && forall z :: 0 <= z < |nodes| ==> Shape(nodes'[z]) == Shape(nodes[z])
    requires Reachable(T, l, alphabet, nodes, w)
    ensures Reachable(T, l, alphabet, nodes', w)
  {
    PathLength(T, l, nodes, 0);
    assert Shape(nodes'[w]) == Shape(nodes[w]);
    DescendShape(T, l, alphabet, nodes, nodes', 0, Path(T, nodes[w]));
  }

  // ---------------------------------------------------------------------------
  // A new leaf under a node with no child for the next symbol
  // ---------------------------------------------------------------------------

  /** nodes' is nodes with a new leaf for window i under code c of node v. */
  ghost predicate AddedLeaf(T: seq<Byte>, l: int, nodes: seq<Node>, nodes': seq<Node>, v: int, c: int, i: int)
  {
    0 <= v < |nodes| && |nodes'| == |nodes| + 1 && c !in nodes[v].child &&
    nodes'[v] == nodes[v].(child := nodes[v].child[c := |nodes|], isLeaf := false) &&
    (forall z {:trigger nodes'[z]} :: 0 <= z < |nodes| && z != v ==> nodes'[z] == nodes[z]) &&
    nodes'[|nodes|] == NewLeaf(i, i + |Path(T, nodes[v])|, l)
  }

  /**
   * Giving node v, which the walk of window i passes, a new leaf under the code of the
   * window's next symbol keeps the invariant, one window on.
   */
  lemma AddLeafKeepsValid(T: seq<Byte>, l: int, alphabet: seq<int>, nodes: seq<Node>, leaves: seq<int>, i: int, v: int, c: int, nodes': seq<Node>)
    requires Valid(T, l, alphabet, nodes, leaves, i) && i + l <= |T|
    requires 0 <= v < |nodes| && (v == 0 || !nodes[v].isLeaf) && OnPath(T, l, alphabet, nodes, Window(T, i, l), v)
    requires |Path(T, nodes[v])| < l && c == alphabet[T[i + |Path(T, nodes[v])|]]
    requires AddedLeaf(T, l, nodes, nodes', v, c, i)
    ensures Valid(T, l, alphabet, nodes', leaves + [|nodes|], i + 1)
    ensures Extends(nodes, leaves, nodes', leaves + [|nodes|], i)
    ensures Lookup(T, l, alphabet, nodes', Window(T, i, l)) == Some(|nodes|)
  {
    OnPathPrefix(T, l, alphabet, nodes, i, v);
    AddLeafNodes(T, l, alphabet, nodes, i, v, c, nodes');
    AddLeafEdges(T, l, alphabet, nodes, i, v, c, nodes');
    AddLeafParents(T, l, alphabet, nodes, v, c, nodes');
    AddLeafLeaves(T, l, nodes, leaves, i, v, c, nodes');
    AddLeafFindsNew(T, l, alphabet, nodes, i, v, c, nodes');
    assert Path(T, nodes'[|nodes|]) == Window(T, i, l) && i in nodes'[|nodes|].storedLeaf;
    FoundLeaf(T, l, alphabet, nodes', i, |nodes|);
    forall p | 1 <= p < i + 1
      ensures Located(T, l, alphabet, nodes', p)
    {
      if p < i {
        AddLeafLocated(T, l, alphabet, nodes, i, v, c, nodes', p);
      }
    }
    var leaves' := leaves + [|nodes|];
    forall k | 0 <= k < |leaves'|
      ensures Reachable(T, l, alphabet, nodes', leaves'[k])
    {
      if k < |leaves| {
        assert LeafOK(T, l, nodes, leaves[k], i);
        AddLeafReachable(T, l, alphabet, nodes, i, v, c, nodes', leaves[k]);
      }
    }
  }

  /** A new leaf: the bounds of every node. */
  lemma AddLeafNodes(T: seq<Byte>, l: int, alphabet: seq<int>, nodes: seq<Node>, i: int, v: int, c: int, nodes': seq<Node>)
    requires Structure(T, l, alphabet, nodes) && 1 <= i && i + l <= |T|
    requires AddedLeaf(T, l, nodes, nodes', v, c, i) && (v == 0 || !nodes[v].isLeaf) && |Path(T, nodes[v])| < l
    ensures NodesOK(T, l, nodes')
    ensures forall z :: 0 <= z < |nodes| ==>
      Path(T, nodes'[z]) == Path(T, nodes[z]) && Label(T, nodes'[z]) == Label(T, nodes[z])
  {
    forall z | 0 <= z < |nodes'| ensures NodeOK(T, l, nodes', z)
    {
      if z < |nodes| {
        assert NodeOK(T, l, nodes, z);
      }
    }
  }

  /** A new leaf: every edge, the new one included. */
  lemma AddLeafEdges(T: seq<Byte>, l: int, alphabet: seq<int>, nodes: seq<Node>, i: int, v: int, c: int, nodes': seq<Node>)
    requires Structure(T, l, alphabet, nodes) && 1 <= i && i + l <= |T|
    requires AddedLeaf(T, l, nodes, nodes', v, c, i) && NodesOK(T, l, nodes')
    requires |Path(T, nodes[v])| < l && Path(T, nodes[v]) == T[i..i + |Path(T, nodes[v])|]
    requires c == alphabet[T[i + |Path(T, nodes[v])|]]
    requires forall z :: 0 <= z < |nodes| ==>
      Path(T, nodes'[z]) == Path(T, nodes[z]) && Label(T, nodes'[z]) == Label(T, nodes[z])
    ensures Structure(T, l, alphabet, nodes')
  {
    var ml := |Path(T, nodes[v])|;
    forall u, c' | 0 <= u < |nodes'| && c' in nodes'[u].child ensures EdgeOK(T, alphabet, nodes', u, c')
    {
      if u == v && c' == c {
        assert Path(T, nodes'[|nodes|]) == T[i..i + l] == T[i..i + ml] + T[i + ml..i + l];
      } else {
        assert u < |nodes| && c' in nodes[u].child && nodes'[u].child[c'] == nodes[u].child[c'];
        assert EdgeOK(T, alphabet, nodes, u, c');
      }
    }
  }

  /** A new leaf: the new slot is the only one leading to the new node. */
  lemma AddLeafParents(T: seq<Byte>, l: int, alphabet: seq<int>, nodes: seq<Node>, v: int, c: int, nodes': seq<Node>)
    requires Structure(T, l, alphabet, nodes) && UniqueParents(nodes)
    requires 0 <= v < |nodes| && |nodes'| == |nodes| + 1 && c !in nodes[v].child
    requires nodes'[v] == nodes[v].(child := nodes[v].child[c := |nodes|], isLeaf := false)
    requires forall z :: 0 <= z < |nodes| && z != v ==> nodes'[z] == nodes[z]
    requires nodes'[|nodes|].child == map[]
    ensures UniqueParents(nodes')
  {
    forall v1, c1, v2, c2 |
      0 <= v1 < |nodes'| && 0 <= v2 < |nodes'| && c1 in nodes'[v1].child && c2 in nodes'[v2].child &&
      nodes'[v1].child[c1] == nodes'[v2].child[c2]
      ensures v1 == v2 && c1 == c2
    {
      if (v1, c1) != (v, c) {
        assert nodes'[v1].child[c1] == nodes[v1].child[c1];
        assert EdgeOK(T, alphabet, nodes, v1, c1);
      }
      if (v2, c2) != (v, c) {
        assert nodes'[v2].child[c2] == nodes[v2].child[c2];
        assert EdgeOK(T, alphabet, nodes, v2, c2);
      }
    }
  }

  /** A new leaf: the leaf list gains it, and every other leaf keeps its list. */
  lemma AddLeafLeaves(T: seq<Byte>, l: int, nodes: seq<Node>, leaves: seq<int>, i: int, v: int, c: int, nodes': seq<Node>)
    requires LeavesOK(T, l, nodes, leaves, i) && 1 <= i && i + l <= |T|
    requires AddedLeaf(T, l, nodes, nodes', v, c, i) && (v == 0 || !nodes[v].isLeaf)
    ensures LeavesOK(T, l, nodes', leaves + [|nodes|], i + 1)
    ensures Extends(nodes, leaves, nodes', leaves + [|nodes|], i)
  {
    forall k | 0 <= k < |leaves|
      ensures LeafOK(T, l, nodes', leaves[k], i + 1) && nodes'[leaves[k]].storedLeaf == nodes[leaves[k]].storedLeaf
    {
      assert LeafOK(T, l, nodes, leaves[k], i);
      LeafKept(T, l, nodes, nodes', leaves[k], i);
    }
    LeavesAddLeaf(T, l, nodes, leaves, i, nodes', |nodes|);
  }

  /** A new leaf: window i is found in it. */
  lemma AddLeafFindsNew(T: seq<Byte>, l: int, alphabet: seq<int>, nodes: seq<Node>, i: int, v: int, c: int, nodes': seq<Node>)
    requires Structure(T, l, alphabet, nodes) && Structure(T, l, alphabet, nodes') && 1 <= i && i + l <= |T|
    requires AddedLeaf(T, l, nodes, nodes', v, c, i) && (v == 0 || !nodes[v].isLeaf)
    requires OnPath(T, l, alphabet, nodes, Window(T, i, l), v)
    requires |Path(T, nodes[v])| < l && c == alphabet[T[i + |Path(T, nodes[v])|]]
    requires forall z {:trigger Path(T, nodes'[z])} :: 0 <= z < |nodes| ==> Path(T, nodes'[z]) == Path(T, nodes[z])
    ensures Lookup(T, l, alphabet, nodes', Window(T, i, l)) == Some(|nodes|)
  {
    var W := Window(T, i, l);
    var y := |nodes|;
    var ml := |Path(T, nodes[v])|;
    PathLength(T, l, nodes, 0);
    PathLength(T, l, nodes', 0);
    PassesFrame(T, l, alphabet, nodes, nodes', 0, W, v);
    PassesDescend(T, l, alphabet, nodes', 0, W, v);
    assert W[ml] == T[i + ml];
    assert Path(T, nodes'[y]) == W;
    assert Descend(T, l, alphabet, nodes', y, W) == Some(y);
  }

  /** A new leaf: a window found before is found where it was. */
  lemma AddLeafLocated(T: seq<Byte>, l: int, alphabet: seq<int>, nodes: seq<Node>, i: int, v: int, c: int, nodes': seq<Node>, p: int)
    requires Structure(T, l, alphabet, nodes) && Structure(T, l, alphabet, nodes')
    requires AddedLeaf(T, l, nodes, nodes', v, c, i) && (v == 0 || !nodes[v].isLeaf) && nodes[0].storedLeaf == []
    requires Located(T, l, alphabet, nodes, p)
    ensures Located(T, l, alphabet, nodes', p)
  {
    LocatedFound(T, l, alphabet, nodes, p);
    var w := Lookup(T, l, alphabet, nodes, Window(T, p, l)).value;
    PathLength(T, l, nodes, 0);
    DescendAddChild(T, l, alphabet, nodes, nodes', v, c, 0, Window(T, p, l), w);
  }

  /** A new leaf: every old leaf is still reachable. */
  lemma AddLeafReachable(T: seq<Byte>, l: int, alphabet: seq<int>, nodes: seq<Node>, i: int, v: int, c: int, nodes': seq<Node>, w: int)
    requires Structure(T, l, alphabet, nodes) && Structure(T, l, alphabet, nodes')
    requires AddedLeaf(T, l, nodes, nodes', v, c, i)
    requires Reachable(T, l, alphabet, nodes, w) && w != v
    ensures Reachable(T, l, alphabet, nodes', w)
  {
    PathLength(T, l, nodes, 0);
    DescendAddChild(T, l, alphabet, nodes, nodes', v, c, 0, Path(T, nodes[w]), w);
  }

  /**
   * Adding a child under a code that had none keeps every successful walk ending where
   * it ended, unless it ended at the node that received the child.
   */
  lemma {:induction false} DescendAddChild(T: seq<Byte>, l: int, alphabet: seq<int>, nodes: seq<Node>, nodes': seq<Node>, v: int, c: int, u: int, key: seq<Byte>, w: int)
    requires Structure(T, l, alphabet, nodes) && Structure(T, l, alphabet, nodes')
    requires 0 <= v < |nodes| && c !in nodes[v].child && |nodes'| == |nodes| + 1
    requires nodes'[v] == nodes[v].(child := nodes[v].child[c := |nodes|], isLeaf := false)
    requires forall z :: 0 <= z < |nodes| && z != v ==> nodes'[z] == nodes[z]
    requires 0 <= u < |nodes| && |key| == l && Path(T, nodes[u]) <= key
    requires Descend(T, l, alphabet, nodes, u, key) == Some(w) && w != v
    ensures Path(T, nodes'[u]) <= key && Descend(T, l, alphabet, nodes', u, key) == Some(w)
    decreases l - |Path(T, nodes[u])|
  {
    assert Path(T, nodes'[u]) == Path(T, nodes[u]);
    PathLength(T, l, nodes, u);
    if !nodes[u].isLeaf {
      var cu := alphabet[key[|Path(T, nodes[u])|]];
      var t := nodes[u].child[cu];
      ChildDeeper(T, l, alphabet, nodes, u, cu);
      assert nodes'[u].child[cu] == t;
      DescendAddChild(T, l, alphabet, nodes, nodes', v, c, t, key, w);
    }
  }

  // ---------------------------------------------------------------------------
  // Edge split
  // ---------------------------------------------------------------------------

  /**
   * nodes' is nodes with the edge into o = nodes[p0].child[pc] split at text index s:
   * a new internal node x = |nodes| takes the slot and o's label up to s-1, o keeps
   * its label from s on, and x's second child is a new leaf y = |nodes| + 1 for window
   * i whose label starts at d.
   */
  ghost predicate SplitAt(T: seq<Byte>, l: int, alphabet: seq<int>, nodes: seq<Node>, nodes': seq<Node>,
                          p0: int, pc: int, s: int, d: int, i: int)
  {
    |alphabet| == 256 && 0 <= s < |T| && 0 <= d < |T| &&
    0 <= p0 < |nodes| && pc in nodes[p0].child &&
    var o := nodes[p0].child[pc];
    0 <= o < |nodes| && |nodes'| == |nodes| + 2 &&
    (forall z {:trigger nodes'[z]} :: 0 <= z < |nodes| && z != p0 && z != o ==> nodes'[z] == nodes[z]) &&
    nodes'[p0] == nodes[p0].(child := nodes[p0].child[pc := |nodes|]) &&
    nodes'[o] == nodes[o].(startPosition := s) &&
    nodes'[|nodes|] == Node(nodes[o].substring, nodes[o].startPosition, s - 1,
                            map[alphabet[T[s]] := o, alphabet[T[d]] := |nodes| + 1], false, 0, [], []) &&
    nodes'[|nodes| + 1] == NewLeaf(i, d, l)
  }

  /**
   * The facts about a split point: o is a proper descendant of p0, s lies strictly
   * inside o's label, d strictly inside window i, the label up to s spells window i up
   * to d, and the two symbols at s and d have different codes.
   */
  ghost predicate SplitPoint(T: seq<Byte>, l: int, alphabet: seq<int>, nodes: seq<Node>, p0: int, pc: int, s: int, d: int, i: int)
  {
    |alphabet| == 256 && 0 <= p0 < |nodes| && pc in nodes[p0].child &&
    var o := nodes[p0].child[pc];
    0 < o < |nodes| && o != p0 &&
    var nd := nodes[o];
    o != p0 && |Path(T, nodes[p0])| < |Path(T, nd)| &&
    1 <= i && i + l <= |T| &&
    1 <= nd.substring <= nd.startPosition < s <= nd.endPosition < nd.substring + l &&
    nd.endPosition < |T| && i < d < i + l &&
    alphabet[T[nd.startPosition]] == pc &&
    Path(T, nodes[p0]) == T[nd.substring..nd.startPosition] &&
    Path(T, nd) == T[nd.substring..nd.endPosition + 1] &&
    T[nd.substring..s] == T[i..d] &&
    alphabet[T[s]] != alphabet[T[d]]
  }

  /**
   * Splitting the edge into node o = nodes[p0].child[pc] at text index s, where window
   * i first differs from o's label (at text index d), keeps the invariant, one window on.
   */
  lemma SplitKeepsValid(T: seq<Byte>, l: int, alphabet: seq<int>, nodes: seq<Node>, leaves: seq<int>, i: int,
                        p0: int, pc: int, s: int, d: int, nodes': seq<Node>)
    requires Valid(T, l, alphabet, nodes, leaves, i) && i + l <= |T|
    requires 0 <= p0 < |nodes| && OnPath(T, l, alphabet, nodes, Window(T, i, l), p0)
    requires |Path(T, nodes[p0])| < l && pc == alphabet[T[i + |Path(T, nodes[p0])|]] && pc in nodes[p0].child
    requires var o := nodes[p0].child[pc];
      0 <= o < |nodes| && 0 <= nodes[o].startPosition < s <= nodes[o].endPosition < |T| &&
      d == i + |Path(T, nodes[p0])| + (s - nodes[o].startPosition) && 0 <= d < |T| &&
      T[nodes[o].startPosition..s] == T[i + |Path(T, nodes[p0])|..d] && T[s] != T[d]
    requires SplitAt(T, l, alphabet, nodes, nodes', p0, pc, s, d, i)
    ensures Valid(T, l, alphabet, nodes', leaves + [|nodes| + 1], i + 1)
    ensures Extends(nodes, leaves, nodes', leaves + [|nodes| + 1], i)
    ensures Lookup(T, l, alphabet, nodes', Window(T, i, l)) == Some(|nodes| + 1)
  {
    SplitShapeOK(T, l, alphabet, nodes, i, p0, pc, s, d, nodes');
    SplitLeaves(T, l, alphabet, nodes, leaves, nodes', p0, pc, s, d, i);
    SplitFindsLeaf(T, l, alphabet, nodes, nodes', p0, pc, s, d, i);
    SplitWalks(T, l, alphabet, nodes, leaves, nodes', p0, pc, s, d, i);
    var leaves' := leaves + [|nodes| + 1];
    forall k | 0 <= k < |leaves'|
      ensures Reachable(T, l, alphabet, nodes', leaves'[k])
    {
      if k < |leaves| {
        assert leaves'[k] == leaves[k];
      }
    }
  }

  /** A split: every window found before is found where it was, and every old leaf reached. */
  lemma SplitWalks(T: seq<Byte>, l: int, alphabet: seq<int>, nodes: seq<Node>, leaves: seq<int>, nodes': seq<Node>,
                   p0: int, pc: int, s: int, d: int, i: int)
    requires Structure(T, l, alphabet, nodes) && Structure(T, l, alphabet, nodes')
    requires SplitAt(T, l, alphabet, nodes, nodes', p0, pc, s, d, i)
    requires var nd := nodes[nodes[p0].child[pc]];
      nodes[p0].child[pc] != p0 && 1 <= nd.substring <= nd.startPosition < s <= nd.endPosition < |T| &&
      alphabet[T[s]] != alphabet[T[d]]
    requires forall p {:trigger Located(T, l, alphabet, nodes, p)} :: 1 <= p < i ==> Located(T, l, alphabet, nodes, p)
    requires Located(T, l, alphabet, nodes', i)
    requires forall k :: 0 <= k < |leaves| ==> Reachable(T, l, alphabet, nodes, leaves[k])
    ensures forall p {:trigger Located(T, l, alphabet, nodes', p)} :: 1 <= p < i + 1 ==> Located(T, l, alphabet, nodes', p)
    ensures forall k :: 0 <= k < |leaves| ==> Reachable(T, l, alphabet, nodes', leaves[k])
  {
    SplitRedirects(T, l, alphabet, nodes, nodes', p0, pc, s, d, i);
    RedirectAllLocated(T, l, alphabet, nodes, nodes', p0, pc, |nodes|, i);
    RedirectAllReachable(T, l, alphabet, nodes, leaves, nodes', p0, pc, |nodes|);
  }

  /** A split keeps the arena a tree whose edges and node bounds are well formed. */
  lemma SplitShapeOK(T: seq<Byte>, l: int, alphabet: seq<int>, nodes: seq<Node>, i: int,
                     p0: int, pc: int, s: int, d: int, nodes': seq<Node>)
    requires Structure(T, l, alphabet, nodes) && UniqueParents(nodes) && 1 <= i && i + l <= |T|
    requires 0 <= p0 < |nodes| && OnPath(T, l, alphabet, nodes, Window(T, i, l), p0)
    requires |Path(T, nodes[p0])| < l && pc == alphabet[T[i + |Path(T, nodes[p0])|]] && pc in nodes[p0].child
    requires var o := nodes[p0].child[pc];
      0 <= o < |nodes| && 0 <= nodes[o].startPosition < s <= nodes[o].endPosition < |T| &&
      d == i + |Path(T, nodes[p0])| + (s - nodes[o].startPosition) && 0 <= d < |T| &&
      T[nodes[o].startPosition..s] == T[i + |Path(T, nodes[p0])|..d] && T[s] != T[d]
    requires SplitAt(T, l, alphabet, nodes, nodes', p0, pc, s, d, i)
    ensures SplitPoint(T, l, alphabet, nodes, p0, pc, s, d, i) && !nodes[p0].isLeaf
    ensures Structure(T, l, alphabet, nodes') && UniqueParents(nodes')
    ensures forall z {:trigger Path(T, nodes'[z])} :: 0 <= z < |nodes| ==> Path(T, nodes'[z]) == Path(T, nodes[z])
  {
    SplitFacts(T, l, alphabet, nodes, i, p0, pc, s, d);
    SplitNodes(T, l, alphabet, nodes, nodes', p0, pc, s, d, i);
    SplitEdges(T, l, alphabet, nodes, nodes', p0, pc, s, d, i);
    forall v1, c1, v2, c2 |
      0 <= v1 < |nodes'| && 0 <= v2 < |nodes'| && c1 in nodes'[v1].child && c2 in nodes'[v2].child &&
      nodes'[v1].child[c1] == nodes'[v2].child[c2]
      ensures v1 == v2 && c1 == c2
    {
      SplitParents(T, l, alphabet, nodes, nodes', p0, pc, s, d, i, v1, c1, v2, c2);
    }
    assert NodeOK(T, l, nodes, p0);
  }

  /** The arena after the updates of a split, described node by node. */
  lemma SplitAtHolds(T: seq<Byte>, l: int, alphabet: seq<int>, nodes: seq<Node>, nodes': seq<Node>,
                     p0: int, pc: int, s: int, d: int, i: int)
    requires |alphabet| == 256 && 0 <= s < |T| && 0 <= d < |T|
    requires 0 <= p0 < |nodes| && pc in nodes[p0].child
    requires var o := nodes[p0].child[pc]; 0 <= o < |nodes| && o != p0
    requires var o := nodes[p0].child[pc];
      nodes' == nodes[p0 := nodes[p0].(child := nodes[p0].child[pc := |nodes|])][o := nodes[o].(startPosition := s)] +
                [Node(nodes[o].substring, nodes[o].startPosition, s - 1,
                      map[alphabet[T[s]] := o, alphabet[T[d]] := |nodes| + 1], false, 0, [], []),
                 NewLeaf(i, d, l)]
    ensures SplitAt(T, l, alphabet, nodes, nodes', p0, pc, s, d, i)
  {
  }

  /**
   * A split keeps the labels: the new internal node's label T[start..s-1] followed by
   * the shortened label T[s..end] of the old node is the old label, and the old node
   * keeps its path, its children and its leaf list; the parent's slot now leads to the
   * new node, whose two children are the old node and the new leaf.
   */
  lemma SplitLabels(T: seq<Byte>, l: int, alphabet: seq<int>, nodes: seq<Node>, nodes': seq<Node>,
                    p0: int, pc: int, s: int, d: int, i: int)
    requires SplitAt(T, l, alphabet, nodes, nodes', p0, pc, s, d, i)
    requires var o := nodes[p0].child[pc]; o != p0 && 0 <= nodes[o].startPosition < s <= nodes[o].endPosition < |T|
    ensures var o := nodes[p0].child[pc];
      Label(T, nodes'[|nodes|]) == T[nodes[o].startPosition..s] &&
      Label(T, nodes'[o]) == T[s..nodes[o].endPosition + 1] &&
      Label(T, nodes'[|nodes|]) + Label(T, nodes'[o]) == Label(T, nodes[o])
    ensures var o := nodes[p0].child[pc];
      Path(T, nodes'[o]) == Path(T, nodes[o]) && nodes'[o].child == nodes[o].child &&
      nodes'[o].isLeaf == nodes[o].isLeaf && nodes'[o].storedLeaf == nodes[o].storedLeaf
    ensures nodes'[p0].child[pc] == |nodes| &&
      nodes'[|nodes|].child == map[alphabet[T[s]] := nodes[p0].child[pc], alphabet[T[d]] := |nodes| + 1]
  {
    var o := nodes[p0].child[pc];
    assert T[nodes[o].startPosition..nodes[o].endPosition + 1] ==
           T[nodes[o].startPosition..s] + T[s..nodes[o].endPosition + 1];
  }

  /** The text-index facts behind a split. */
  lemma SplitFacts(T: seq<Byte>, l: int, alphabet: seq<int>, nodes: seq<Node>, i: int, p0: int, pc: int, s: int, d: int)
    requires Structure(T, l, alphabet, nodes) && 1 <= i && i + l <= |T|
    requires 0 <= p0 < |nodes| && OnPath(T, l, alphabet, nodes, Window(T, i, l), p0)
    requires |Path(T, nodes[p0])| < l && pc == alphabet[T[i + |Path(T, nodes[p0])|]] && pc in nodes[p0].child
    requires var o := nodes[p0].child[pc];
      0 <= o < |nodes| && 0 <= nodes[o].startPosition < s <= nodes[o].endPosition < |T| &&
      d == i + |Path(T, nodes[p0])| + (s - nodes[o].startPosition) && 0 <= d < |T| &&
      T[nodes[o].startPosition..s] == T[i + |Path(T, nodes[p0])|..d] && T[s] != T[d]
    ensures SplitPoint(T, l, alphabet, nodes, p0, pc, s, d, i)
  {
    var o := nodes[p0].child[pc];
    var nd := nodes[o];
    var ml := |Path(T, nodes[p0])|;
    ChildDeeper(T, l, alphabet, nodes, p0, pc);
    EdgeFacts(T, l, alphabet, nodes, i, p0);
    assert NodeOK(T, l, nodes, o);
    assert T[nd.substring..s] == T[nd.substring..nd.startPosition] + T[nd.startPosition..s];
    assert T[i..d] == T[i..i + ml] + T[i + ml..d];
    OccursAt(T, s);
    if alphabet[T[s]] == alphabet[T[d]] {
      CodeDetermines(T, alphabet, T[s], T[d]);
    }
  }

  /** A split: the bounds of every node. */
  lemma SplitNodes(T: seq<Byte>, l: int, alphabet: seq<int>, nodes: seq<Node>, nodes': seq<Node>,
                   p0: int, pc: int, s: int, d: int, i: int)
    requires Structure(T, l, alphabet, nodes)
    requires SplitAt(T, l, alphabet, nodes, nodes', p0, pc, s, d, i) && SplitPoint(T, l, alphabet, nodes, p0, pc, s, d, i)
    ensures NodesOK(T, l, nodes')
    ensures forall z :: 0 <= z < |nodes| ==> Path(T, nodes'[z]) == Path(T, nodes[z])
  {
    forall z | 0 <= z < |nodes'| ensures NodeOK(T, l, nodes', z)
    {
      if z < |nodes| {
        assert NodeOK(T, l, nodes, z);
      } else if z == |nodes| {
        assert NodeOK(T, l, nodes, nodes[p0].child[pc]);
      }
    }
  }

  /** A split: every edge, the three new ones included. */
  lemma SplitEdges(T: seq<Byte>, l: int, alphabet: seq<int>, nodes: seq<Node>, nodes': seq<Node>,
                   p0: int, pc: int, s: int, d: int, i: int)
    requires Structure(T, l, alphabet, nodes) && UniqueParents(nodes) && NodesOK(T, l, nodes')
    requires SplitAt(T, l, alphabet, nodes, nodes', p0, pc, s, d, i) && SplitPoint(T, l, alphabet, nodes, p0, pc, s, d, i)
    requires forall z :: 0 <= z < |nodes| ==> Path(T, nodes'[z]) == Path(T, nodes[z])
    ensures Structure(T, l, alphabet, nodes')
  {
    forall u, c' | 0 <= u < |nodes'| && c' in nodes'[u].child ensures EdgeOK(T, alphabet, nodes', u, c')
    {
      if u == |nodes| || (u == p0 && c' == pc) {
        SplitEdgeNew(T, l, alphabet, nodes, nodes', p0, pc, s, d, i, u, c');
      } else {
        SplitEdgeOld(T, l, alphabet, nodes, nodes', p0, pc, s, d, i, u, c');
      }
    }
  }

  /** A split: the edge into the new internal node and its two edges. */
  lemma SplitEdgeNew(T: seq<Byte>, l: int, alphabet: seq<int>, nodes: seq<Node>, nodes': seq<Node>,
                     p0: int, pc: int, s: int, d: int, i: int, u: int, c': int)
    requires SplitAt(T, l, alphabet, nodes, nodes', p0, pc, s, d, i) && SplitPoint(T, l, alphabet, nodes, p0, pc, s, d, i)
    requires u == |nodes| || (u == p0 && c' == pc)
    requires c' in nodes'[u].child
    ensures EdgeOK(T, alphabet, nodes', u, c')
  {
    var o := nodes[p0].child[pc];
    var nd := nodes[o];
    if u == p0 {
      assert Path(T, nodes'[p0]) == Path(T, nodes[p0]);
    }
    EdgeFromParts(T, alphabet, nodes', u, c');
  }

  /**
   * The edge from u under c' is sound when the child's label starts with a symbol of
   * code c' and u's path is the text from the child's substring up to its label.
   */
  lemma EdgeFromParts(T: seq<Byte>, alphabet: seq<int>, nodes: seq<Node>, u: int, c': int)
    requires |alphabet| == 256 && 0 <= u < |nodes| && c' in nodes[u].child
    requires var w := nodes[u].child[c'];
      0 < w < |nodes| && 0 <= nodes[w].startPosition < |T| && alphabet[T[nodes[w].startPosition]] == c'
    requires var nw := nodes[nodes[u].child[c']];
      0 <= nw.substring <= nw.startPosition <= nw.endPosition + 1 <= |T| &&
      Path(T, nodes[u]) == T[nw.substring..nw.startPosition]
    ensures EdgeOK(T, alphabet, nodes, u, c')
  {
    var nw := nodes[nodes[u].child[c']];
    assert T[nw.substring..nw.endPosition + 1] == T[nw.substring..nw.startPosition] + T[nw.startPosition..nw.endPosition + 1];
  }

  /** A split: an edge that was there before still leads where it led. */
  lemma SplitEdgeOld(T: seq<Byte>, l: int, alphabet: seq<int>, nodes: seq<Node>, nodes': seq<Node>,
                     p0: int, pc: int, s: int, d: int, i: int, u: int, c': int)
    requires Structure(T, l, alphabet, nodes) && UniqueParents(nodes)
    requires SplitAt(T, l, alphabet, nodes, nodes', p0, pc, s, d, i) && SplitPoint(T, l, alphabet, nodes, p0, pc, s, d, i)
    requires forall z :: 0 <= z < |nodes| ==> Path(T, nodes'[z]) == Path(T, nodes[z])
    requires 0 <= u < |nodes'| && u != |nodes| && !(u == p0 && c' == pc)
    requires c' in nodes'[u].child
    ensures EdgeOK(T, alphabet, nodes', u, c')
  {
    var o := nodes[p0].child[pc];
    assert u < |nodes| && c' in nodes[u].child && nodes'[u].child[c'] == nodes[u].child[c'];
    var t := nodes[u].child[c'];
    assert EdgeOK(T, alphabet, nodes, u, c');
    assert t != o;
    assert nodes'[t].startPosition == nodes[t].startPosition && Label(T, nodes'[t]) == Label(T, nodes[t]);
  }

  /** A split: parent uniqueness, for one pair of slots. */
  lemma SplitParents(T: seq<Byte>, l: int, alphabet: seq<int>, nodes: seq<Node>, nodes': seq<Node>,
                     p0: int, pc: int, s: int, d: int, i: int, v1: int, c1: int, v2: int, c2: int)
    requires Structure(T, l, alphabet, nodes) && UniqueParents(nodes)
    requires SplitAt(T, l, alphabet, nodes, nodes', p0, pc, s, d, i) && SplitPoint(T, l, alphabet, nodes, p0, pc, s, d, i)
    requires 0 <= v1 < |nodes'| && 0 <= v2 < |nodes'| && c1 in nodes'[v1].child && c2 in nodes'[v2].child
    requires nodes'[v1].child[c1] == nodes'[v2].child[c2]
    ensures v1 == v2 && c1 == c2
  {
    var x := |nodes|;
    if v1 < x && (v1, c1) != (p0, pc) {
      assert c1 in nodes[v1].child && nodes'[v1].child[c1] == nodes[v1].child[c1];
      assert EdgeOK(T, alphabet, nodes, v1, c1);
    }
    if v2 < x && (v2, c2) != (p0, pc) {
      assert c2 in nodes[v2].child && nodes'[v2].child[c2] == nodes[v2].child[c2];
      assert EdgeOK(T, alphabet, nodes, v2, c2);
    }
  }

  /** A split: the leaf list gains the new leaf, and every old leaf keeps its list. */
  lemma SplitLeaves(T: seq<Byte>, l: int, alphabet: seq<int>, nodes: seq<Node>, leaves: seq<int>, nodes': seq<Node>,
                    p0: int, pc: int, s: int, d: int, i: int)
    requires LeavesOK(T, l, nodes, leaves, i) && 1 <= i
    requires SplitAt(T, l, alphabet, nodes, nodes', p0, pc, s, d, i)
    requires !nodes[p0].isLeaf
    ensures LeavesOK(T, l, nodes', leaves + [|nodes| + 1], i + 1)
    ensures Extends(nodes, leaves, nodes', leaves + [|nodes| + 1], i)
  {
    forall k | 0 <= k < |leaves|
      ensures LeafOK(T, l, nodes', leaves[k], i + 1) && nodes'[leaves[k]].storedLeaf == nodes[leaves[k]].storedLeaf
    {
      assert LeafOK(T, l, nodes, leaves[k], i);
      LeafKept(T, l, nodes, nodes', leaves[k], i);
    }
    LeavesAddLeaf(T, l, nodes, leaves, i, nodes', |nodes| + 1);
  }

  /** A split: window i is found in the new leaf, which its own path reaches. */
  lemma SplitFindsLeaf(T: seq<Byte>, l: int, alphabet: seq<int>, nodes: seq<Node>, nodes': seq<Node>,
                       p0: int, pc: int, s: int, d: int, i: int)
    requires Structure(T, l, alphabet, nodes) && Structure(T, l, alphabet, nodes')
    requires SplitAt(T, l, alphabet, nodes, nodes', p0, pc, s, d, i) && SplitPoint(T, l, alphabet, nodes, p0, pc, s, d, i)
    requires OnPath(T, l, alphabet, nodes, Window(T, i, l), p0)
    requires pc == alphabet[T[i + |Path(T, nodes[p0])|]]
    requires forall z {:trigger Path(T, nodes'[z])} :: 0 <= z < |nodes| ==> Path(T, nodes'[z]) == Path(T, nodes[z])
    ensures Lookup(T, l, alphabet, nodes', Window(T, i, l)) == Some(|nodes| + 1)
    ensures Located(T, l, alphabet, nodes', i) && Reachable(T, l, alphabet, nodes', |nodes| + 1)
  {
    SplitFindsNew(T, l, alphabet, nodes, nodes', p0, pc, s, d, i);
    NewLeafFound(T, l, alphabet, nodes', i, d, |nodes| + 1);
  }

  /** A split: window i is found in the new leaf, through the new internal node. */
  lemma SplitFindsNew(T: seq<Byte>, l: int, alphabet: seq<int>, nodes: seq<Node>, nodes': seq<Node>,
                      p0: int, pc: int, s: int, d: int, i: int)
    requires Structure(T, l, alphabet, nodes) && Structure(T, l, alphabet, nodes')
    requires SplitAt(T, l, alphabet, nodes, nodes', p0, pc, s, d, i) && SplitPoint(T, l, alphabet, nodes, p0, pc, s, d, i)
    requires OnPath(T, l, alphabet, nodes, Window(T, i, l), p0)
    requires pc == alphabet[T[i + |Path(T, nodes[p0])|]]
    requires forall z {:trigger Path(T, nodes'[z])} :: 0 <= z < |nodes| ==> Path(T, nodes'[z]) == Path(T, nodes[z])
    ensures Lookup(T, l, alphabet, nodes', Window(T, i, l)) == Some(|nodes| + 1)
  {
    var W := Window(T, i, l);
    SplitKeepsPath(T, l, alphabet, nodes, nodes', p0, pc, s, d, i);
    PassesDescend(T, l, alphabet, nodes', 0, W, p0);
    SplitToNew(T, l, alphabet, nodes, nodes', p0, pc, s, d, i);
    SplitFirstStep(T, l, alphabet, nodes, nodes', p0, pc, s, d, i);
  }

  /** A split: the walk along window i still passes through p0. */
  lemma SplitKeepsPath(T: seq<Byte>, l: int, alphabet: seq<int>, nodes: seq<Node>, nodes': seq<Node>,
                       p0: int, pc: int, s: int, d: int, i: int)
    requires Structure(T, l, alphabet, nodes) && Structure(T, l, alphabet, nodes')
    requires SplitAt(T, l, alphabet, nodes, nodes', p0, pc, s, d, i) && SplitPoint(T, l, alphabet, nodes, p0, pc, s, d, i)
    requires OnPath(T, l, alphabet, nodes, Window(T, i, l), p0)
    ensures Path(T, nodes'[0]) <= Window(T, i, l) && Passes(T, l, alphabet, nodes', 0, Window(T, i, l), p0)
  {
    PathLength(T, l, nodes, 0);
    assert Path(T, nodes'[p0]) == Path(T, nodes[p0]);
    PassesFrame(T, l, alphabet, nodes, nodes', 0, Window(T, i, l), p0);
  }

  /** A split: the walk along window i goes from the new internal node to the new leaf. */
  lemma SplitToNew(T: seq<Byte>, l: int, alphabet: seq<int>, nodes: seq<Node>, nodes': seq<Node>,
                   p0: int, pc: int, s: int, d: int, i: int)
    requires Structure(T, l, alphabet, nodes')
    requires SplitAt(T, l, alphabet, nodes, nodes', p0, pc, s, d, i) && SplitPoint(T, l, alphabet, nodes, p0, pc, s, d, i)
    ensures Path(T, nodes'[|nodes|]) <= Window(T, i, l)
    ensures Descend(T, l, alphabet, nodes', |nodes|, Window(T, i, l)) == Some(|nodes| + 1)
  {
    var x, y := |nodes|, |nodes| + 1;
    assert Path(T, nodes'[x]) == T[i..d];
    NewBranchFinds(T, l, alphabet, nodes', x, y, i, d);
  }

  /**
   * An internal node x whose path is the window's first d - i symbols, with the new
   * leaf y for the window under the code of T[d]: the walk from x ends in y.
   */
  lemma NewBranchFinds(T: seq<Byte>, l: int, alphabet: seq<int>, nodes: seq<Node>, x: int, y: int, i: int, d: int)
    requires Structure(T, l, alphabet, nodes)
    requires 0 <= x < |nodes| && 0 < y < |nodes| && 1 <= i < d < i + l <= |T|
    requires Path(T, nodes[x]) == T[i..d] && !nodes[x].isLeaf
    requires alphabet[T[d]] in nodes[x].child && nodes[x].child[alphabet[T[d]]] == y
    requires nodes[y] == NewLeaf(i, d, l)
    ensures Path(T, nodes[x]) <= Window(T, i, l)
    ensures Descend(T, l, alphabet, nodes, x, Window(T, i, l)) == Some(y)
  {
    var W := Window(T, i, l);
    assert Path(T, nodes[y]) == W == T[i..i + l];
    WindowPrefix(T, i, l, d - i);
    assert W[d - i] == T[d];
    DescendThrough(T, l, alphabet, nodes, x, y, W);
    assert NodeOK(T, l, nodes, y);
  }

  /** A split: from p0 the walk along window i enters the new internal node. */
  lemma SplitFirstStep(T: seq<Byte>, l: int, alphabet: seq<int>, nodes: seq<Node>, nodes': seq<Node>,
                       p0: int, pc: int, s: int, d: int, i: int)
    requires Structure(T, l, alphabet, nodes')
    requires SplitAt(T, l, alphabet, nodes, nodes', p0, pc, s, d, i) && SplitPoint(T, l, alphabet, nodes, p0, pc, s, d, i)
    requires Path(T, nodes'[p0]) <= Window(T, i, l) && |Path(T, nodes[p0])| < l
    requires pc == alphabet[T[i + |Path(T, nodes[p0])|]]
    requires Path(T, nodes'[|nodes|]) <= Window(T, i, l)
    ensures Descend(T, l, alphabet, nodes', p0, Window(T, i, l)) == Descend(T, l, alphabet, nodes', |nodes|, Window(T, i, l))
  {
    var W := Window(T, i, l);
    var ml := |Path(T, nodes[p0])|;
    assert pc in nodes'[p0].child && nodes'[p0].child != map[];
    assert NodeOK(T, l, nodes', p0);
    assert Path(T, nodes'[p0]) == Path(T, nodes[p0]);
    assert W[ml] == T[i + ml];
    DescendStep(T, l, alphabet, nodes', p0, W, |nodes|);
  }

  /**
   * One child slot redirected: p0's slot pc now holds x, and from x every walk along the
   * path of the old child o goes on to o; no node below |nodes| changes its path, its
   * leaf flag, its leaf list or, except p0, its child map.
   */
  ghost predicate Redirected(T: seq<Byte>, l: int, alphabet: seq<int>, nodes: seq<Node>, nodes': seq<Node>,
                             p0: int, pc: int, x: int)
    requires Structure(T, l, alphabet, nodes')
  {
    |nodes| <= |nodes'| && 0 <= x < |nodes'| &&
    (forall z {:trigger nodes'[z]} :: 0 <= z < |nodes| ==>
       Path(T, nodes'[z]) == Path(T, nodes[z]) && nodes'[z].isLeaf == nodes[z].isLeaf &&
       nodes'[z].storedLeaf == nodes[z].storedLeaf) &&
    (forall z {:trigger nodes'[z].child} :: 0 <= z < |nodes| && z != p0 ==> nodes'[z].child == nodes[z].child) &&
    0 <= p0 < |nodes| && pc in nodes[p0].child && 0 <= nodes[p0].child[pc] < |nodes| &&
    nodes'[p0].child == nodes[p0].child[pc := x] &&
    forall key {:trigger Bridges(T, l, alphabet, nodes', x, nodes[p0].child[pc], key)} ::
      |key| == l && Path(T, nodes[nodes[p0].child[pc]]) <= key ==>
      Bridges(T, l, alphabet, nodes', x, nodes[p0].child[pc], key)
  }

  /** Both x and o lie on the walk along key, and from x it ends where it ends from o. */
  ghost predicate Bridges(T: seq<Byte>, l: int, alphabet: seq<int>, nodes: seq<Node>, x: int, o: int, key: seq<Byte>)
    requires Structure(T, l, alphabet, nodes) && 0 <= x < |nodes| && 0 <= o < |nodes| && |key| == l
  {
    Path(T, nodes[x]) <= key && Path(T, nodes[o]) <= key &&
    Descend(T, l, alphabet, nodes, x, key) == Descend(T, l, alphabet, nodes, o, key)
  }

  /** A split redirects p0's slot pc to the new internal node. */
  lemma SplitRedirects(T: seq<Byte>, l: int, alphabet: seq<int>, nodes: seq<Node>, nodes': seq<Node>,
                       p0: int, pc: int, s: int, d: int, i: int)
    requires Structure(T, l, alphabet, nodes')
    requires SplitAt(T, l, alphabet, nodes, nodes', p0, pc, s, d, i)
    requires var nd := nodes[nodes[p0].child[pc]];
      nodes[p0].child[pc] != p0 && 1 <= nd.substring <= nd.startPosition < s <= nd.endPosition < |T| &&
      alphabet[T[s]] != alphabet[T[d]]
    ensures Redirected(T, l, alphabet, nodes, nodes', p0, pc, |nodes|)
  {
    SplitKeepsOld(T, l, alphabet, nodes, nodes', p0, pc, s, d, i);
    SplitBridges(T, l, alphabet, nodes, nodes', p0, pc, s, d, i);
  }

  /** A split changes no old node's path, leaf flag or leaf list, and no child map but p0's. */
  lemma SplitKeepsOld(T: seq<Byte>, l: int, alphabet: seq<int>, nodes: seq<Node>, nodes': seq<Node>,
                      p0: int, pc: int, s: int, d: int, i: int)
    requires SplitAt(T, l, alphabet, nodes, nodes', p0, pc, s, d, i)
    requires nodes[p0].child[pc] != p0
    ensures forall z :: 0 <= z < |nodes| ==>
      Path(T, nodes'[z]) == Path(T, nodes[z]) && nodes'[z].isLeaf == nodes[z].isLeaf &&
      nodes'[z].storedLeaf == nodes[z].storedLeaf
    ensures forall z :: 0 <= z < |nodes| && z != p0 ==> nodes'[z].child == nodes[z].child
  {
  }

  /** After a split, every walk along the old child's path goes from the new node on to it. */
  lemma SplitBridges(T: seq<Byte>, l: int, alphabet: seq<int>, nodes: seq<Node>, nodes': seq<Node>,
                     p0: int, pc: int, s: int, d: int, i: int)
    requires Structure(T, l, alphabet, nodes')
    requires SplitAt(T, l, alphabet, nodes, nodes', p0, pc, s, d, i)
    requires var nd := nodes[nodes[p0].child[pc]];
      nodes[p0].child[pc] != p0 && 1 <= nd.substring <= nd.startPosition < s <= nd.endPosition < |T| &&
      alphabet[T[s]] != alphabet[T[d]]
    ensures forall key {:trigger Bridges(T, l, alphabet, nodes', |nodes|, nodes[p0].child[pc], key)} ::
      |key| == l && Path(T, nodes[nodes[p0].child[pc]]) <= key ==>
      Bridges(T, l, alphabet, nodes', |nodes|, nodes[p0].child[pc], key)
  {
    var o := nodes[p0].child[pc];
    var x := |nodes|;
    var nd := nodes[o];
    assert Path(T, nodes'[x]) == T[nd.substring..s];
    assert Path(T, nodes'[o]) == T[nd.substring..nd.endPosition + 1];
    forall key | |key| == l && Path(T, nodes[o]) <= key
      ensures Bridges(T, l, alphabet, nodes', x, o, key)
    {
      SplitBridge(T, l, alphabet, nodes', x, o, key, nd.substring, s, nd.endPosition);
    }
  }

  /** A redirect keeps every window found before found where it was. */
  lemma RedirectAllLocated(T: seq<Byte>, l: int, alphabet: seq<int>, nodes: seq<Node>, nodes': seq<Node>,
                           p0: int, pc: int, x: int, i: int)
    requires Structure(T, l, alphabet, nodes) && Structure(T, l, alphabet, nodes')
    requires Redirected(T, l, alphabet, nodes, nodes', p0, pc, x)
    requires forall p {:trigger Located(T, l, alphabet, nodes, p)} :: 1 <= p < i ==> Located(T, l, alphabet, nodes, p)
    requires Located(T, l, alphabet, nodes', i)
    ensures forall p {:trigger Located(T, l, alphabet, nodes', p)} :: 1 <= p < i + 1 ==> Located(T, l, alphabet, nodes', p)
  {
    forall p | 1 <= p < i + 1
      ensures Located(T, l, alphabet, nodes', p)
    {
      if p < i {
        RedirectLocated(T, l, alphabet, nodes, nodes', p0, pc, x, p);
      }
    }
  }

  /** A redirect keeps a window that was found found where it was. */
  lemma RedirectLocated(T: seq<Byte>, l: int, alphabet: seq<int>, nodes: seq<Node>, nodes': seq<Node>,
                        p0: int, pc: int, x: int, p: int)
    requires Structure(T, l, alphabet, nodes) && Structure(T, l, alphabet, nodes')
    requires Redirected(T, l, alphabet, nodes, nodes', p0, pc, x)
    requires Located(T, l, alphabet, nodes, p)
    ensures Located(T, l, alphabet, nodes', p)
  {
    var w := Lookup(T, l, alphabet, nodes, Window(T, p, l)).value;
    PathLength(T, l, nodes, 0);
    DescendRedirect(T, l, alphabet, nodes, nodes', p0, pc, x, 0, Window(T, p, l), w);
  }

  /** A redirect keeps every listed leaf reached by its own path. */
  lemma RedirectAllReachable(T: seq<Byte>, l: int, alphabet: seq<int>, nodes: seq<Node>, leaves: seq<int>, nodes': seq<Node>,
                             p0: int, pc: int, x: int)
    requires Structure(T, l, alphabet, nodes) && Structure(T, l, alphabet, nodes')
    requires Redirected(T, l, alphabet, nodes, nodes', p0, pc, x)
    requires forall k :: 0 <= k < |leaves| ==> Reachable(T, l, alphabet, nodes, leaves[k])
    ensures forall k :: 0 <= k < |leaves| ==> Reachable(T, l, alphabet, nodes', leaves[k])
  {
    forall k | 0 <= k < |leaves|
      ensures Reachable(T, l, alphabet, nodes', leaves[k])
    {
      RedirectReachable(T, l, alphabet, nodes, nodes', p0, pc, x, leaves[k]);
    }
  }

  /** A redirect keeps a leaf reached by its own path reached. */
  lemma RedirectReachable(T: seq<Byte>, l: int, alphabet: seq<int>, nodes: seq<Node>, nodes': seq<Node>,
                          p0: int, pc: int, x: int, w: int)
    requires Structure(T, l, alphabet, nodes) && Structure(T, l, alphabet, nodes')
    requires Redirected(T, l, alphabet, nodes, nodes', p0, pc, x)
    requires Reachable(T, l, alphabet, nodes, w)
    ensures Reachable(T, l, alphabet, nodes', w)
  {
    PathLength(T, l, nodes, 0);
    DescendRedirect(T, l, alphabet, nodes, nodes', p0, pc, x, 0, Path(T, nodes[w]), w);
  }

  /**
   * The new internal node x, whose path stops at text index s inside o's path, hands
   * every walk along o's path on to o.
   */
  lemma SplitBridge(T: seq<Byte>, l: int, alphabet: seq<int>, nodes': seq<Node>, x: int, o: int, key: seq<Byte>,
                    sub: int, s: int, e: int)
    requires Structure(T, l, alphabet, nodes')
    requires 0 <= x < |nodes'| && 0 <= o < |nodes'| && |key| == l
    requires 0 <= sub < s <= e < |T|
    requires Path(T, nodes'[x]) == T[sub..s] && Path(T, nodes'[o]) == T[sub..e + 1]
    requires !nodes'[x].isLeaf && alphabet[T[s]] in nodes'[x].child && nodes'[x].child[alphabet[T[s]]] == o
    requires Path(T, nodes'[o]) <= key
    ensures Path(T, nodes'[x]) <= key
    ensures Descend(T, l, alphabet, nodes', x, key) == Descend(T, l, alphabet, nodes', o, key)
  {
    assert T[sub..e + 1][s - sub] == T[s];
    assert T[sub..s] <= T[sub..e + 1];
    DescendThrough(T, l, alphabet, nodes', x, o, key);
  }

  /**
   * Redirecting one child slot to a node x from which every walk that would have
   * entered the old child ends where it would have ended, changing no path and no
   * other child map, keeps every successful walk ending where it ended.
   */
  lemma {:induction false} DescendRedirect(T: seq<Byte>, l: int, alphabet: seq<int>, nodes: seq<Node>, nodes': seq<Node>,
                                           p0: int, pc: int, x: int, u: int, key: seq<Byte>, w: int)
    requires Structure(T, l, alphabet, nodes) && Structure(T, l, alphabet, nodes')
    requires Redirected(T, l, alphabet, nodes, nodes', p0, pc, x)
    requires |key| == l
    requires 0 <= u < |nodes| && Path(T, nodes[u]) <= key
    requires Descend(T, l, alphabet, nodes, u, key) == Some(w)
    ensures Path(T, nodes'[u]) <= key && Descend(T, l, alphabet, nodes', u, key) == Some(w)
    decreases l - |Path(T, nodes[u])|
  {
    PathLength(T, l, nodes, u);
    if !nodes[u].isLeaf {
      var cu := alphabet[key[|Path(T, nodes[u])|]];
      var t := nodes[u].child[cu];
      ChildDeeper(T, l, alphabet, nodes, u, cu);
      DescendRedirect(T, l, alphabet, nodes, nodes', p0, pc, x, t, key, w);
      if u == p0 && cu == pc {
        assert Bridges(T, l, alphabet, nodes', x, t, key);
        DescendStep(T, l, alphabet, nodes', u, key, x);
      } else {
        DescendStep(T, l, alphabet, nodes', u, key, t);
      }
    }
  }

  // ---------------------------------------------------------------------------
  // The insertion loop and the flattening of the leaf lists
  // ---------------------------------------------------------------------------

  /** The empty trie: a root that is a leaf, with no windows inserted. */
  lemma EmptyValid(T: seq<Byte>, l: int, alphabet: seq<int>)
    requires Context(T, l, alphabet)
    ensures Valid(T, l, alphabet, [Root()], [], 1)
  {
    assert NodeOK(T, l, [Root()], 0);
  }

  /**
   * Builds the trie of all windows (compactTrie.c:171-367): afterwards every window
   * start 1..n-l+1 is stored in a leaf found by the lookup of its window, and the leaf
   * list holds exactly the non-root leaves.
   */
  method BuildTrie(T: seq<Byte>, l: int, alphabet: seq<int>) returns (nodes: seq<Node>, leaves: seq<int>)
    requires Context(T, l, alphabet)
    ensures Valid(T, l, alphabet, nodes, leaves, WindowCount(T, l) + 1)
  {
    var n := |T| - 1;
    nodes := [Root()];
    leaves := [];
    EmptyValid(T, l, alphabet);
    var i := 1;
    while i <= n - l + 1
      invariant 1 <= i <= WindowCount(T, l) + 1
      invariant Valid(T, l, alphabet, nodes, leaves, i)
    {
      nodes, leaves := InsertWindow(T, l, alphabet, nodes, leaves, i);
      i := i + 1;
    }
  }

  /**
   * Copies each leaf's linked list of window starts into an array of numberOfLeaf
   * entries, in list order (compactTrie.c:369-389). Nothing else changes.
   */
  method FlattenLeaves(T: seq<Byte>, l: int, alphabet: seq<int>, nodes0: seq<Node>, leaves: seq<int>, ghost next: int)
    returns (nodes: seq<Node>)
    requires Valid(T, l, alphabet, nodes0, leaves, next)
    ensures |nodes| == |nodes0|
    ensures forall v :: 0 <= v < |nodes| ==> nodes[v] == nodes0[v].(leafArray := nodes[v].leafArray)
    ensures forall k :: 0 <= k < |leaves| ==>
      nodes[leaves[k]].leafArray == nodes0[leaves[k]].storedLeaf &&
      |nodes[leaves[k]].leafArray| == nodes0[leaves[k]].numberOfLeaf
    ensures forall v :: 0 <= v < |nodes| && v !in leaves ==> nodes[v].leafArray == nodes0[v].leafArray
    ensures Valid(T, l, alphabet, nodes, leaves, next)
  {
    nodes := nodes0;
    var t := 0;
    while t < |leaves|
      invariant 0 <= t <= |leaves| && |nodes| == |nodes0|
      invariant forall v :: 0 <= v < |nodes| ==> nodes[v] == nodes0[v].(leafArray := nodes[v].leafArray)
      invariant forall k :: 0 <= k < t ==> nodes[leaves[k]].leafArray == nodes0[leaves[k]].storedLeaf
      invariant forall v :: 0 <= v < |nodes| && v !in leaves[..t] ==> nodes[v].leafArray == nodes0[v].leafArray
    {
      var v := leaves[t];
      assert LeafOK(T, l, nodes0, v, next);
      var leafArray := CopyLeafList(nodes[v].storedLeaf, nodes[v].numberOfLeaf);
      nodes := nodes[v := nodes[v].(leafArray := leafArray[..])];
      assert leaves[..t + 1] == leaves[..t] + [v];
      t := t + 1;
    }
    assert leaves[..t] == leaves;
    forall k | 0 <= k < |leaves|
      ensures |nodes[leaves[k]].leafArray| == nodes0[leaves[k]].numberOfLeaf
    {
      assert LeafOK(T, l, nodes0, leaves[k], next);
    }
    FlattenKeepsValid(T, l, alphabet, nodes0, leaves, next, nodes);
  }

  /**
   * Copies a leaf's list of j window starts into a new array, in list order (the inner
   * loop at compactTrie.c:381-387).
   */
  method CopyLeafList(storedLeaf: seq<int>, j: int) returns (leafArray: array<int>)
    requires j == |storedLeaf|
    ensures fresh(leafArray) && leafArray[..] == storedLeaf
  {
    leafArray := new int[j];
    var i := 0;
    while i != j
      invariant 0 <= i <= j
      invariant leafArray[..i] == storedLeaf[..i]
    {
      leafArray[i] := storedLeaf[i];
      i := i + 1;
    }
  }

  /** Filling in the leaf arrays of the non-root leaves keeps the invariant. */
  lemma FlattenKeepsValid(T: seq<Byte>, l: int, alphabet: seq<int>, nodes: seq<Node>, leaves: seq<int>, next: int, nodes': seq<Node>)
    requires Valid(T, l, alphabet, nodes, leaves, next)
    requires |nodes'| == |nodes| && forall v :: 0 <= v < |nodes| ==> nodes'[v] == nodes[v].(leafArray := nodes'[v].leafArray)
    requires nodes'[0].leafArray == nodes[0].leafArray
    ensures Valid(T, l, alphabet, nodes', leaves, next)
  {
    assert forall z :: 0 <= z < |nodes| ==> Shape(nodes'[z]) == Shape(nodes[z]);
    ShapeKeepsStructure(T, l, alphabet, nodes, nodes');
    forall k | 0 <= k < |leaves|
      ensures LeafOK(T, l, nodes', leaves[k], next)
    {
      assert LeafOK(T, l, nodes, leaves[k], next);
    }
    forall p | 1 <= p < next
      ensures Located(T, l, alphabet, nodes', p)
    {
      FlattenLocated(T, l, alphabet, nodes, nodes', p);
    }
    forall k | 0 <= k < |leaves|
      ensures Reachable(T, l, alphabet, nodes', leaves[k])
    {
      ShapeReachable(T, l, alphabet, nodes, nodes', leaves[k]);
    }
  }

  /** Filling in the leaf arrays: a window found before is found where it was. */
  lemma FlattenLocated(T: seq<Byte>, l: int, alphabet: seq<int>, nodes: seq<Node>, nodes': seq<Node>, p: int)
    requires Structure(T, l, alphabet, nodes) && Structure(T, l, alphabet, nodes')
    requires |nodes'| == |nodes| && forall v :: 0 <= v < |nodes| ==> nodes'[v] == nodes[v].(leafArray := nodes'[v].leafArray)
    requires Located(T, l, alphabet, nodes, p)
    ensures Located(T, l, alphabet, nodes', p)
  {
    PathLength(T, l, nodes, 0);
    assert forall z :: 0 <= z < |nodes| ==> Shape(nodes'[z]) == Shape(nodes[z]);
    DescendShape(T, l, alphabet, nodes, nodes', 0, Window(T, p, l));
  }
}
