/**
 * The path-compressed trie of compactTrie.c as an arena of node records: node 0 is
 * the root, a pointer is an index into the arena, and a node's child array becomes a
 * map from the alphabet code of a child's first label symbol to the child's index (a
 * missing key is a NULL slot). This module holds the node record, the invariant the
 * construction keeps, and the reference lookup that the search is proved against.
 */
module TrieModel {
  import opened Alphabet

  datatype Option<T> = None | Some(value: T)

  /**
   * One node (compactTrie.c:16-27). Its edge label is T[startPosition..endPosition];
   * substring is a window start whose first symbols spell the whole path from the root
   * down to endPosition. storedLeaf is the linked list of window starts of a leaf,
   * appended through currentLeaf; leafArray is its flattened copy.
   */
  datatype Node = Node(
    substring: int,
    startPosition: int,
    endPosition: int,
    child: map<int, nat>,
    isLeaf: bool,
    numberOfLeaf: int,
    storedLeaf: seq<int>,
    leafArray: seq<int>)

  /**
   * The root as compactTrie.c:171-183 leaves it: a leaf with no children. The C never
   * sets its label fields; here they spell the empty string.
   */
  function Root(): Node
  {
    Node(1, 1, 0, map[], true, 0, [], [])
  }

  /** A new leaf for window i whose edge label starts at `start` (lines 206-216, 280-289, 346-355). */
  function NewLeaf(i: int, start: int, l: int): Node
  {
    Node(i, start, i + l - 1, map[], true, 1, [i], [])
  }

  /** T[a..b-1], or nothing when the bounds do not fit. */
  function Slice(T: seq<Byte>, a: int, b: int): seq<Byte>
  {
    if 0 <= a <= b <= |T| then T[a..b] else []
  }

  /** The window of l symbols that starts at text position p. */
  function Window(T: seq<Byte>, p: int, l: int): seq<Byte>
  {
    Slice(T, p, p + l)
  }

  /** The first k symbols of the window at p are the text from p on. */
  lemma WindowPrefix(T: seq<Byte>, p: int, l: int, k: int)
    requires 0 <= p && p + l <= |T| && 0 <= k <= l
    ensures Window(T, p, l)[..k] == T[p..p + k]
  {
    assert Window(T, p, l) == T[p..p + l];
  }

  /** The string spelled from the root down to the end of nd's edge. */
  function Path(T: seq<Byte>, nd: Node): seq<Byte>
  {
    Slice(T, nd.substring, nd.endPosition + 1)
  }

  /** The edge label of nd. */
  function Label(T: seq<Byte>, nd: Node): seq<Byte>
  {
    Slice(T, nd.startPosition, nd.endPosition + 1)
  }

  /** The fields the trie walk reads; the leaf lists are left out. */
  function Shape(nd: Node): Node
  {
    nd.(numberOfLeaf := 0, storedLeaf := [], leafArray := [])
  }

  /** The text, the window length and the alphabet table the trie is built over. */
  ghost predicate Context(T: seq<Byte>, l: int, alphabet: seq<int>)
  {
    l >= 1 && IsCodec(T, alphabet)
  }

  /**
   * The bounds of one node. A non-root label is non-empty and lies inside the window
   * of its substring, which lies inside T[1..n]; a node is a leaf exactly when its path
   * is a whole window, and leaves have no children. The root is a leaf exactly while
   * it has no children.
   */
  ghost predicate NodeOK(T: seq<Byte>, l: int, nodes: seq<Node>, v: int)
    requires 0 <= v < |nodes|
  {
    var nd := nodes[v];
    if v == 0 then
      nd.substring == 1 && nd.startPosition == 1 && nd.endPosition == 0 &&
      (nd.isLeaf <==> nd.child == map[])
    else
      1 <= nd.substring <= nd.startPosition <= nd.endPosition <= nd.substring + l - 1 < |T| &&
      (nd.isLeaf <==> nd.endPosition == nd.substring + l - 1) &&
      (nd.isLeaf ==> nd.child == map[])
  }

  ghost predicate NodesOK(T: seq<Byte>, l: int, nodes: seq<Node>)
  {
    |nodes| >= 1 &&
    forall v {:trigger NodeOK(T, l, nodes, v)} :: 0 <= v < |nodes| ==> NodeOK(T, l, nodes, v)
  }

  /**
   * The edge from v under code c: it leads to a non-root node whose label starts with
   * a byte of code c, and the child's path is the parent's path followed by the label.
   */
  ghost predicate EdgeOK(T: seq<Byte>, alphabet: seq<int>, nodes: seq<Node>, v: int, c: int)
    requires |alphabet| == 256 && 0 <= v < |nodes| && c in nodes[v].child
  {
    var w := nodes[v].child[c];
    0 < w < |nodes| && 0 <= nodes[w].startPosition < |T| &&
    alphabet[T[nodes[w].startPosition]] == c &&
    Path(T, nodes[w]) == Path(T, nodes[v]) + Label(T, nodes[w])
  }

  ghost predicate EdgesOK(T: seq<Byte>, alphabet: seq<int>, nodes: seq<Node>)
    requires |alphabet| == 256
  {
    forall v, c {:trigger EdgeOK(T, alphabet, nodes, v, c)} ::
      0 <= v < |nodes| && c in nodes[v].child ==> EdgeOK(T, alphabet, nodes, v, c)
  }

  /** No node is the child of two slots: the arena is a tree, not a DAG. */
  ghost predicate UniqueParents(nodes: seq<Node>)
  {
    forall v1, c1, v2, c2 ::
      (0 <= v1 < |nodes| && 0 <= v2 < |nodes| && c1 in nodes[v1].child && c2 in nodes[v2].child &&
       nodes[v1].child[c1] == nodes[v2].child[c2]) ==> v1 == v2 && c1 == c2
  }

  /** What the trie walk needs of the arena. */
  ghost predicate Structure(T: seq<Byte>, l: int, alphabet: seq<int>, nodes: seq<Node>)
  {
    Context(T, l, alphabet) && NodesOK(T, l, nodes) && EdgesOK(T, alphabet, nodes)
  }

  /**
   * The reference lookup: walk from v along key (a string of l symbols), choosing the
   * child by the code of the next key symbol and following it only when its path is a
   * prefix of key; the leaf reached, if any.
   */
  ghost function Descend(T: seq<Byte>, l: int, alphabet: seq<int>, nodes: seq<Node>, v: int, key: seq<Byte>): Option<int>
    requires Structure(T, l, alphabet, nodes)
    requires 0 <= v < |nodes| && |key| == l && Path(T, nodes[v]) <= key
    decreases l - |Path(T, nodes[v])|
  {
    assert NodeOK(T, l, nodes, v);
    if nodes[v].isLeaf then Some(v)
    else
      var c := alphabet[key[|Path(T, nodes[v])|]];
      if c !in nodes[v].child then None
      else
        var w := nodes[v].child[c];
        assert EdgeOK(T, alphabet, nodes, v, c) && NodeOK(T, l, nodes, w);
        if Path(T, nodes[w]) <= key then Descend(T, l, alphabet, nodes, w, key) else None
  }

  /** The walk from the root. */
  ghost function Lookup(T: seq<Byte>, l: int, alphabet: seq<int>, nodes: seq<Node>, key: seq<Byte>): Option<int>
    requires Structure(T, l, alphabet, nodes) && |key| == l
  {
    assert NodeOK(T, l, nodes, 0);
    Descend(T, l, alphabet, nodes, 0, key)
  }

  /** The walk from u along key passes through v. */
  ghost predicate Passes(T: seq<Byte>, l: int, alphabet: seq<int>, nodes: seq<Node>, u: int, key: seq<Byte>, v: int)
    requires Structure(T, l, alphabet, nodes)
    requires 0 <= u < |nodes| && |key| == l && Path(T, nodes[u]) <= key
    decreases l - |Path(T, nodes[u])|
  {
    assert NodeOK(T, l, nodes, u);
    u == v ||
    (!nodes[u].isLeaf &&
     var c := alphabet[key[|Path(T, nodes[u])|]];
     c in nodes[u].child &&
     var w := nodes[u].child[c];
     assert EdgeOK(T, alphabet, nodes, u, c) && NodeOK(T, l, nodes, w);
     Path(T, nodes[w]) <= key && Passes(T, l, alphabet, nodes, w, key, v))
  }

  /** The walk from the root along key passes through v. */
  ghost predicate OnPath(T: seq<Byte>, l: int, alphabet: seq<int>, nodes: seq<Node>, key: seq<Byte>, v: int)
    requires Structure(T, l, alphabet, nodes) && |key| == l
  {
    assert NodeOK(T, l, nodes, 0);
    Passes(T, l, alphabet, nodes, 0, key, v)
  }

  /** A leaf in the leaf list: its positions ascend, lie below next and spell its path. */
  ghost predicate LeafOK(T: seq<Byte>, l: int, nodes: seq<Node>, v: int, next: int)
  {
    0 < v < |nodes| && nodes[v].isLeaf &&
    var stored := nodes[v].storedLeaf;
    nodes[v].numberOfLeaf == |stored| && |stored| >= 1 && stored[0] == nodes[v].substring &&
    (forall a, b :: 0 <= a < b < |stored| ==> stored[a] < stored[b]) &&
    (forall a :: 0 <= a < |stored| ==> 1 <= stored[a] < next && Window(T, stored[a], l) == Path(T, nodes[v]))
  }

  /**
   * The leaf list (the leafpointer chain of compactTrie.c): exactly the non-root leaves,
   * each once, each in order.
   */
  ghost predicate LeavesOK(T: seq<Byte>, l: int, nodes: seq<Node>, leaves: seq<int>, next: int)
  {
    (forall k :: 0 <= k < |leaves| ==> LeafOK(T, l, nodes, leaves[k], next)) &&
    (forall v :: 0 < v < |nodes| && nodes[v].isLeaf ==> v in leaves) &&
    (forall a, b :: 0 <= a < b < |leaves| ==> leaves[a] != leaves[b])
  }

  /** Window p is found by the lookup, in a leaf that stores p. */
  ghost predicate Located(T: seq<Byte>, l: int, alphabet: seq<int>, nodes: seq<Node>, p: int)
    requires Structure(T, l, alphabet, nodes)
  {
    1 <= p && p + l <= |T| &&
    var r := Lookup(T, l, alphabet, nodes, Window(T, p, l));
    r.Some? && 0 <= r.value < |nodes| && p in nodes[r.value].storedLeaf
  }

  /** Leaf v is what the lookup of its own path finds. */
  ghost predicate Reachable(T: seq<Byte>, l: int, alphabet: seq<int>, nodes: seq<Node>, v: int)
    requires Structure(T, l, alphabet, nodes)
  {
    0 < v < |nodes| && |Path(T, nodes[v])| == l &&
    Lookup(T, l, alphabet, nodes, Path(T, nodes[v])) == Some(v)
  }

  /** A leaf that stores window p and spells it, found by the lookup of that window. */
  lemma FoundLeaf(T: seq<Byte>, l: int, alphabet: seq<int>, nodes: seq<Node>, p: int, y: int)
    requires Structure(T, l, alphabet, nodes) && 1 <= p && p + l <= |T| && 0 < y < |nodes|
    requires Path(T, nodes[y]) == Window(T, p, l) && p in nodes[y].storedLeaf
    requires Lookup(T, l, alphabet, nodes, Window(T, p, l)) == Some(y)
    ensures Located(T, l, alphabet, nodes, p) && Reachable(T, l, alphabet, nodes, y)
  {
  }

  /** A fresh leaf for window p that the lookup of window p reaches: p is located there. */
  lemma NewLeafFound(T: seq<Byte>, l: int, alphabet: seq<int>, nodes: seq<Node>, p: int, start: int, y: int)
    requires Structure(T, l, alphabet, nodes) && 1 <= p && p + l <= |T| && 0 < y < |nodes|
    requires nodes[y] == NewLeaf(p, start, l)
    requires Lookup(T, l, alphabet, nodes, Window(T, p, l)) == Some(y)
    ensures Located(T, l, alphabet, nodes, p) && Reachable(T, l, alphabet, nodes, y)
  {
    assert Path(T, nodes[y]) == Window(T, p, l);
    FoundLeaf(T, l, alphabet, nodes, p, y);
  }

  /**
   * The trie after windows 1..next-1 have been inserted: a well-formed tree whose
   * leaves hold exactly those windows, each found by the lookup.
   */
  ghost predicate Valid(T: seq<Byte>, l: int, alphabet: seq<int>, nodes: seq<Node>, leaves: seq<int>, next: int)
  {
    Structure(T, l, alphabet, nodes) && UniqueParents(nodes) && 1 <= next &&
    nodes[0].numberOfLeaf == 0 && nodes[0].storedLeaf == [] && nodes[0].leafArray == [] &&
    LeavesOK(T, l, nodes, leaves, next) &&
    (forall p {:trigger Located(T, l, alphabet, nodes, p)} :: 1 <= p < next ==> Located(T, l, alphabet, nodes, p)) &&
    (forall k :: 0 <= k < |leaves| ==> Reachable(T, l, alphabet, nodes, leaves[k]))
  }

  // ---------------------------------------------------------------------------
  // Facts about the walk
  // ---------------------------------------------------------------------------

  /** A child's path is strictly longer than its parent's, and no longer than l. */
  lemma ChildDeeper(T: seq<Byte>, l: int, alphabet: seq<int>, nodes: seq<Node>, v: int, c: int)
    requires Structure(T, l, alphabet, nodes)
    requires 0 <= v < |nodes| && c in nodes[v].child
    ensures var w := nodes[v].child[c];
      0 < w < |nodes| && |Path(T, nodes[v])| < |Path(T, nodes[w])| <= l
  {
    assert EdgeOK(T, alphabet, nodes, v, c);
    assert NodeOK(T, l, nodes, nodes[v].child[c]);
  }

  /** Path lengths: a node's path has as many symbols as its depth, at most l. */
  lemma PathLength(T: seq<Byte>, l: int, nodes: seq<Node>, v: int)
    requires l >= 1 && |T| >= 1 && NodesOK(T, l, nodes) && 0 <= v < |nodes|
    ensures v == 0 ==> Path(T, nodes[v]) == []
    ensures v != 0 ==>
      1 <= nodes[v].substring <= nodes[v].endPosition < |T| &&
      Path(T, nodes[v]) == T[nodes[v].substring .. nodes[v].endPosition + 1]
    ensures |Path(T, nodes[v])| <= l
    ensures |Path(T, nodes[v])| == l <==> v != 0 && nodes[v].isLeaf
  {
    assert NodeOK(T, l, nodes, v);
  }

  /** The walk ends in a leaf whose path is the key, or finds nothing. */
  lemma {:induction false} DescendFindsLeaf(T: seq<Byte>, l: int, alphabet: seq<int>, nodes: seq<Node>, v: int, key: seq<Byte>)
    requires Structure(T, l, alphabet, nodes)
    requires 0 <= v < |nodes| && |key| == l && Path(T, nodes[v]) <= key
    ensures var r := Descend(T, l, alphabet, nodes, v, key);
      r.Some? ==> 0 <= r.value < |nodes| && nodes[r.value].isLeaf &&
                  (r.value == 0 || Path(T, nodes[r.value]) == key)
    decreases l - |Path(T, nodes[v])|
  {
    PathLength(T, l, nodes, v);
    if !nodes[v].isLeaf {
      var c := alphabet[key[|Path(T, nodes[v])|]];
      if c in nodes[v].child {
        var w := nodes[v].child[c];
        ChildDeeper(T, l, alphabet, nodes, v, c);
        if Path(T, nodes[w]) <= key {
          DescendFindsLeaf(T, l, alphabet, nodes, w, key);
        }
      }
    }
  }

  /** One step of the walk: from an internal node v, through the child for the next key symbol. */
  lemma DescendStep(T: seq<Byte>, l: int, alphabet: seq<int>, nodes: seq<Node>, v: int, key: seq<Byte>, w: int)
    requires Structure(T, l, alphabet, nodes)
    requires 0 <= v < |nodes| && |key| == l && Path(T, nodes[v]) <= key && |Path(T, nodes[v])| < l
    requires !nodes[v].isLeaf && alphabet[key[|Path(T, nodes[v])|]] in nodes[v].child
    requires w == nodes[v].child[alphabet[key[|Path(T, nodes[v])|]]]
    requires 0 <= w < |nodes| && Path(T, nodes[w]) <= key
    ensures Descend(T, l, alphabet, nodes, v, key) == Descend(T, l, alphabet, nodes, w, key)
  {
  }

  /**
   * A walk along key that reaches x goes on to o when x is an internal node whose path
   * is a proper prefix of o's, and x's slot for the next symbol of o's path holds o.
   */
  lemma DescendThrough(T: seq<Byte>, l: int, alphabet: seq<int>, nodes: seq<Node>, x: int, o: int, key: seq<Byte>)
    requires Structure(T, l, alphabet, nodes)
    requires 0 <= x < |nodes| && 0 <= o < |nodes| && |key| == l
    requires Path(T, nodes[x]) <= Path(T, nodes[o]) <= key && |Path(T, nodes[x])| < |Path(T, nodes[o])|
    requires !nodes[x].isLeaf
    requires alphabet[Path(T, nodes[o])[|Path(T, nodes[x])|]] in nodes[x].child
    requires nodes[x].child[alphabet[Path(T, nodes[o])[|Path(T, nodes[x])|]]] == o
    ensures Path(T, nodes[x]) <= key
    ensures Descend(T, l, alphabet, nodes, x, key) == Descend(T, l, alphabet, nodes, o, key)
  {
    assert key[|Path(T, nodes[x])|] == Path(T, nodes[o])[|Path(T, nodes[x])|];
    DescendStep(T, l, alphabet, nodes, x, key, o);
  }

  /** Passing through v: v's path is a prefix of the key, and the walk ends where v's does. */
  lemma {:induction false} PassesDescend(T: seq<Byte>, l: int, alphabet: seq<int>, nodes: seq<Node>, u: int, key: seq<Byte>, v: int)
    requires Structure(T, l, alphabet, nodes)
    requires 0 <= u < |nodes| && |key| == l && Path(T, nodes[u]) <= key
    requires Passes(T, l, alphabet, nodes, u, key, v)
    ensures 0 <= v < |nodes| && Path(T, nodes[v]) <= key
    ensures Descend(T, l, alphabet, nodes, u, key) == Descend(T, l, alphabet, nodes, v, key)
    ensures u != v ==> |Path(T, nodes[u])| < |Path(T, nodes[v])|
    decreases l - |Path(T, nodes[u])|
  {
    PathLength(T, l, nodes, u);
    if u != v {
      var c := alphabet[key[|Path(T, nodes[u])|]];
      var w := nodes[u].child[c];
      ChildDeeper(T, l, alphabet, nodes, u, c);
      PassesDescend(T, l, alphabet, nodes, w, key, v);
    }
  }

  /** Taking one more step along the key from a node the walk passes through. */
  lemma {:induction false} PassesStep(T: seq<Byte>, l: int, alphabet: seq<int>, nodes: seq<Node>, u: int, key: seq<Byte>, v: int, c: int, w: int)
    requires Structure(T, l, alphabet, nodes)
    requires 0 <= u < |nodes| && |key| == l && Path(T, nodes[u]) <= key
    requires Passes(T, l, alphabet, nodes, u, key, v)
    requires 0 <= v < |nodes| && !nodes[v].isLeaf && |Path(T, nodes[v])| < l
    requires c == alphabet[key[|Path(T, nodes[v])|]] && c in nodes[v].child && w == nodes[v].child[c]
    requires 0 <= w < |nodes| && Path(T, nodes[w]) <= key
    ensures Passes(T, l, alphabet, nodes, u, key, w)
    decreases l - |Path(T, nodes[u])|
  {
    PathLength(T, l, nodes, u);
    ChildDeeper(T, l, alphabet, nodes, v, c);
    if u != v {
      var cu := alphabet[key[|Path(T, nodes[u])|]];
      ChildDeeper(T, l, alphabet, nodes, u, cu);
      PassesStep(T, l, alphabet, nodes, nodes[u].child[cu], key, v, c, w);
    } else {
      assert Passes(T, l, alphabet, nodes, w, key, w);
    }
  }

  /**
   * Changing only nodes whose path is at least as long as v's, and not v's path, keeps
   * every walk that passes through v passing through it.
   */
  lemma {:induction false} PassesFrame(T: seq<Byte>, l: int, alphabet: seq<int>, nodes: seq<Node>, nodes': seq<Node>, u: int, key: seq<Byte>, v: int)
    requires Structure(T, l, alphabet, nodes) && Structure(T, l, alphabet, nodes')
    requires |nodes| <= |nodes'|
    requires 0 <= u < |nodes| && |key| == l && Path(T, nodes[u]) <= key
    requires Passes(T, l, alphabet, nodes, u, key, v)
    requires 0 <= v < |nodes| && Path(T, nodes'[v]) == Path(T, nodes[v])
    requires forall z :: 0 <= z < |nodes| && |Path(T, nodes[z])| < |Path(T, nodes[v])| ==> nodes'[z] == nodes[z]
    ensures Path(T, nodes'[u]) <= key && Passes(T, l, alphabet, nodes', u, key, v)
    decreases l - |Path(T, nodes[u])|
  {
    PathLength(T, l, nodes, u);
    if u != v {
      PassesDescend(T, l, alphabet, nodes, u, key, v);
      assert nodes'[u] == nodes[u];
      var c := alphabet[key[|Path(T, nodes[u])|]];
      var w := nodes[u].child[c];
      ChildDeeper(T, l, alphabet, nodes, u, c);
      if w != v {
        PassesDescend(T, l, alphabet, nodes, w, key, v);
      }
      PassesFrame(T, l, alphabet, nodes, nodes', w, key, v);
      ChildDeeper(T, l, alphabet, nodes', u, c);
    }
  }

  /** The walk reads only the shape of the nodes, never their leaf lists. */
  lemma {:induction false} DescendShape(T: seq<Byte>, l: int, alphabet: seq<int>, nodes: seq<Node>, nodes': seq<Node>, v: int, key: seq<Byte>)
    requires Structure(T, l, alphabet, nodes) && Structure(T, l, alphabet, nodes')
    requires |nodes'| == |nodes| && forall z :: 0 <= z < |nodes| ==> Shape(nodes'[z]) == Shape(nodes[z])
    requires 0 <= v < |nodes| && |key| == l && Path(T, nodes[v]) <= key
    ensures Path(T, nodes'[v]) <= key
    ensures Descend(T, l, alphabet, nodes', v, key) == Descend(T, l, alphabet, nodes, v, key)
    decreases l - |Path(T, nodes[v])|
  {
    assert Shape(nodes'[v]) == Shape(nodes[v]);
    PathLength(T, l, nodes, v);
    if !nodes[v].isLeaf {
      var c := alphabet[key[|Path(T, nodes[v])|]];
      if c in nodes[v].child {
        var w := nodes[v].child[c];
        ChildDeeper(T, l, alphabet, nodes, v, c);
        assert Shape(nodes'[w]) == Shape(nodes[w]);
        if Path(T, nodes[w]) <= key {
          DescendShape(T, l, alphabet, nodes, nodes', w, key);
        }
      }
    }
  }
}
