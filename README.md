# Compact trie for multiple exact pattern matching

This project models and verifies the compact-trie matcher of
`CompactTrie/compactTrie.c`. Given a text `T[1..n]`, a window length `l` and
patterns `P_1 .. P_r`, each at least `l` symbols long, the program works in four phases:

1. **Alphabet codec.** One scan of the text marks the bytes that occur. A second pass
   over the byte values `0..255` numbers the marked bytes densely, in ascending byte
   order. Every other byte keeps the marker `0xff`.
2. **Construction.** Every window `T[i..i+l-1]`, `i = 1..n-l+1`, is inserted into a
   path-compressed trie whose edge labels are text intervals. There are three cases:
   - A mismatch inside an edge splits the edge: a new internal node takes the matched
     part of the label, the old node keeps the rest, and a new leaf takes the rest of
     the window.
   - A full match of `l` symbols appends `i` to the leaf's list of window starts.
   - A missing child slot gets a new leaf.
   Every new leaf is also appended to a global list of leaves.
3. **Flattening.** Each leaf's linked list of window starts is copied, in order, into an
   array of `numberOfLeaf` entries.
4. **Search.** For each pattern, the first `l` symbols are looked up in the trie. At the
   leaf reached, the rest of the pattern is compared with the text after each stored
   window. Every match is reported as `(end position, pattern number)`.

Texts and patterns are 1-indexed sequences of bytes whose element 0 is an unused
placeholder, as in the C program. The trie is an arena `seq<Node>`:
- node 0 is the root;
- a pointer is an index into the arena;
- a node's child array becomes a map from alphabet code to child index, where a missing
  key stands for a NULL slot;
- the global list of leaves is a sequence of arena indices.

The construction and the search are written as loops and methods over these values, in
the order and with the branches of the C code. They are proved against a reference
lookup, `TrieModel.Lookup`, which walks the trie by the codes of a key's symbols.

The invariant `TrieModel.Valid` holds after windows `1..i-1` have been inserted. It
states:
- the arena is a tree: no node is the child of two slots;
- every child's path is its parent's path followed by its label, under the code of the
  label's first byte;
- a non-root node is a leaf exactly when its path is a whole window, and the root is a
  leaf exactly while it has no children;
- the leaf list holds exactly the non-root leaves, each once;
- each leaf's list ascends and holds only starts of windows equal to the leaf's path;
- every inserted window start is found by the reference lookup, in a leaf that stores it.

The end-to-end result, `TrieSearch.CompactTrie`, states that the reports are exactly
the occurrences of the patterns. They are ordered by pattern number and then by end
position. This holds for the search with its edge comparison at line 419 read as
comparing with the pattern symbol `P[i][d]`. As written, the line compares with the
index `d`, so the program misses some occurrences and reports some non-occurrences (see
"## Findings").

Files:
- `alphabet.dfy` holds the codec (module `Alphabet`).
- `trie_model.dfy` holds the node record, the invariant and the reference walk (module
  `TrieModel`).
- `trie_build.dfy` holds insertion, construction and flattening (module `TrieBuild`).
- `trie_search.dfy` holds the search and the whole pipeline (module `TrieSearch`).

## Model

| member | source | states |
|---|---|---|
| Alphabet.BuildAlphabet | CompactTrie/compactTrie.c:150-169 | The table is the codec of T. Each byte that occurs in T[1..n] gets the number of occurring bytes below it, and every other byte gets 0xff. The size returned is the number of distinct bytes, and every code lies below it. |
| Alphabet.MarkOccurring | CompactTrie/compactTrie.c:150-158 | After the text scan, exactly the bytes that occur in T[1..n] are marked 1 and all others hold 0xff. The count is the number of distinct bytes. |
| Alphabet.NumberOccurring | CompactTrie/compactTrie.c:161-169 | Every marked byte is replaced by its rank among the marked bytes. Unmarked bytes keep 0xff. |
| Alphabet.CodesAscending | CompactTrie/compactTrie.c:161-169 | Codes ascend strictly with byte value. |
| Alphabet.CodesContiguous | CompactTrie/compactTrie.c:161-169 | Every code below the alphabet size belongs to some occurring byte, so the codes are dense. |
| Alphabet.CodeDetermines | CompactTrie/compactTrie.c:161-169 | An occurring byte shares its code with no other byte, so a child slot identifies its first label symbol. |
| TrieModel.PathLength | CompactTrie/compactTrie.c:16-27 | A non-root node's path is the text from its substring start to its endPosition. The path has at most l symbols, and exactly l when the node is a non-root leaf. The root's path is empty. |
| TrieModel.DescendFindsLeaf | CompactTrie/compactTrie.c:400-447 | A walk that finds something ends either in a leaf whose path is the whole key or in the childless root. |
| TrieModel.PassesDescend | CompactTrie/compactTrie.c:326-337 | A node the walk of a key passes through spells a prefix of the key and is deeper than where the walk started. The walk from it ends where the whole walk ends. |
| TrieModel.DescendShape | CompactTrie/compactTrie.c:376-387 | The walk reads only labels and children, never the leaf lists or arrays. |
| TrieBuild.EmptyValid | CompactTrie/compactTrie.c:171-188 | The initial trie, a childless root that is a leaf, with an empty leaf list, satisfies the invariant with no window inserted. |
| TrieBuild.MatchLabel | CompactTrie/compactTrie.c:237-252 | The label scan stops at the first position where label and window differ. The part compared so far is equal. It reports a mismatch exactly when it stopped before the label's end, and then the two symbols differ. tempMatchedLength is one more than the symbols compared. |
| TrieBuild.InsertWindow | CompactTrie/compactTrie.c:190-366 | Inserting window i into a trie that is valid for windows 1..i-1 gives one that is valid for windows 1..i. Every old leaf keeps its list or gets i appended, the old leaf list is kept in order, and a new leaf holds exactly [i]. |
| TrieBuild.AttachLeaf | CompactTrie/compactTrie.c:338-363 | A new leaf for window i goes into v's empty slot for the code of the window's next symbol, where v is a node on the window's walk. The leaf's label runs from i + matchedLength to i + l - 1, and its list is [i]. v becomes internal, and every other node is unchanged. The invariant is kept, the leaf is appended to the leaf list, and the lookup of window i now finds it. The same step at the root is lines 197-224. |
| TrieBuild.SplitEdge | CompactTrie/compactTrie.c:254-297 | Splitting the edge where window i first differs from the label keeps the invariant. The new internal node takes the parent's slot and the matched label part. The old node keeps the rest, a new leaf takes the rest of the window and is listed, and the lookup of window i finds the new leaf. |
| TrieBuild.SplitLabels | CompactTrie/compactTrie.c:259-277 | After a split, the new node's label followed by the old node's shortened label is the old label. The old node keeps its path, children and leaf list. The new node's two children are the old node, under the code of the mismatching label byte, and the new leaf, under the code of the window byte. |
| TrieBuild.AppendToLeaf | CompactTrie/compactTrie.c:309-318 | Appending i to the list of the leaf the window's walk reaches keeps the invariant. That leaf's count grows by one and its label and children stay as they were. Every other node is unchanged. |
| TrieBuild.FollowEdge | CompactTrie/compactTrie.c:299-337 | When a label matches completely, the walk of window i passes through the child. The child's path ends at the window position reached, and the child is a leaf exactly when all l symbols are matched. |
| TrieBuild.AddLeafKeepsValid | CompactTrie/compactTrie.c:338-363 | A new leaf under a node on the window's walk keeps every earlier window found where it was and every old leaf reachable. The new leaf is found for window i. |
| TrieBuild.SplitKeepsValid | CompactTrie/compactTrie.c:254-297 | A split keeps the tree, path and leaf-list invariants. Every earlier window is still found in its leaf through the new internal node, and window i is found in the new leaf. |
| TrieBuild.AppendKeepsValid | CompactTrie/compactTrie.c:309-318 | Appending to the leaf that the lookup of window i finds keeps the invariant, one window on. |
| TrieBuild.LeavesAddLeaf | CompactTrie/compactTrie.c:218-221 | After a new leaf is appended, the leaf list is again exactly the non-root leaves, each once, and each leaf's list is still well formed. |
| TrieBuild.BuildTrie | CompactTrie/compactTrie.c:171-367 | After the loop, the trie is valid for all windows 1..n-l+1. Each is stored in exactly one leaf, and that leaf is what the lookup of the window finds. |
| TrieBuild.LeafListPartition | CompactTrie/compactTrie.c:190-367 | Every inserted window start is in the list of exactly one listed leaf, and no list holds anything else. |
| TrieBuild.StoredSpells | CompactTrie/compactTrie.c:309-318 | A window start stored in a leaf begins a window equal to the leaf's path, and the lookup of that window finds the leaf. |
| TrieBuild.FlattenLeaves | CompactTrie/compactTrie.c:369-389 | Every listed leaf's array equals its list, in order, and has numberOfLeaf entries. Nodes off the leaf list keep their arrays, every other field of every node is unchanged, and the invariant still holds. |
| TrieBuild.CopyLeafList | CompactTrie/compactTrie.c:381-387 | The new array holds the list's entries in list order. |
| TrieBuild.FlattenKeepsValid | CompactTrie/compactTrie.c:369-389 | Filling in the leaf arrays keeps the invariant: every window is found where it was. |
| TrieSearch.OccursSplit | CompactTrie/compactTrie.c:453-466 | An occurrence of P at p is exactly a window at p equal to P's first l symbols, followed in the text by P's remaining symbols. |
| TrieSearch.VerifyTail | CompactTrie/compactTrie.c:453-472 | The tail comparison succeeds exactly when P[l+1..m] follows the window inside the text. The end position then reported is p+m-1. |
| TrieSearch.VerifyLeaf | CompactTrie/compactTrie.c:449-474 | The reports for one leaf are those of its array entries whose tail matches, in array order. |
| TrieSearch.VerifiedMembers | CompactTrie/compactTrie.c:451-473 | A report for one leaf carries the pattern number, and its start position is a stored window whose tail matches. Every such window is reported. |
| TrieSearch.VerifiedAscending | CompactTrie/compactTrie.c:451-473 | Ascending window starts give strictly ascending end positions. |
| TrieSearch.LookupStores | CompactTrie/compactTrie.c:403-447 | In the finished trie, a window equals the key exactly when the lookup of the key finds a leaf that stores the window's start. |
| TrieSearch.LeafArrayIsList | CompactTrie/compactTrie.c:449-450 | A leaf's array in the finished trie is its list: numberOfLeaf entries, strictly ascending, all at least 1. |
| TrieSearch.WalkChild | CompactTrie/compactTrie.c:405-414 | The child for the pattern's next symbol is a non-root node, and its label ends within the pattern's first l symbols. |
| TrieSearch.WalkFollow | CompactTrie/compactTrie.c:433-438 | A fully matched label moves the search to the child. The child's path is a prefix of the pattern's first l symbols, and the walk's outcome is unchanged. |
| TrieSearch.WalkMismatch | CompactTrie/compactTrie.c:428-432 | A mismatch inside a label means the lookup of the pattern's first l symbols finds nothing. |
| TrieSearch.SearchMeaning | CompactTrie/compactTrie.c:395-478 | The reports of the leaf the lookup finds, or none when it finds nothing, are exactly the pattern's occurrences, in ascending end position. |
| TrieSearch.SearchPattern | CompactTrie/compactTrie.c:397-477 | The reports for one pattern are exactly its occurrences in the text, by end position and pattern number, in ascending end position. |
| TrieSearch.AppendOrdered | CompactTrie/compactTrie.c:395-478 | Appending the ascending reports of the next pattern keeps the reports ordered by pattern and then by end position. |
| TrieSearch.SearchAll | CompactTrie/compactTrie.c:395-478 | The reports are exactly the occurrences of every pattern, ordered by pattern number and then by end position. |
| TrieSearch.CompactTrie | CompactTrie/compactTrie.c:150-478 | The whole program, from the codec through construction and flattening to the search, reports exactly the pattern occurrences, ordered by pattern and then by end position. This holds with line 419 comparing against `P[i][d]`; as written, the program misses and invents matches (see "## Findings"). |
| TrieSearch.MatchLabelAsWritten | CompactTrie/compactTrie.c:416-427 | As written, the search's label scan accepts a label exactly when each of its bytes equals the pattern index it is compared at. |
| TrieSearch.AsWrittenMissesOccurrence | CompactTrie/compactTrie.c:419 | For T = "ab", l = 2 and P = "ab", P occurs ending at 2 and the label byte equals the pattern byte, yet the comparison as written rejects it. |
| TrieSearch.AsWrittenReportsNonOccurrence | CompactTrie/compactTrie.c:419 | For T = "a\x02", l = 2 and P = "a\x05", P does not occur, yet the comparison as written accepts the label. |

## Left out

- Command-line handling and file reading (lines 108-145) are left out. The text, the window length and the patterns are parameters.
- Timing (`gettimeofday`) and the final timing line are left out. The match `printf` at line 471 becomes a report appended to the output sequence, in the same order.
- Memory management is left out: `malloc`, `free`, `FreeCompactTree` and the freeing of the list cells and leafpointer cells during flattening. Pointers are arena indices, a node's child array is a map (a missing key is a NULL slot), and the leafpointer chain is a sequence of arena indices.
- `currentLeaf`, the tail pointer of a leaf's list, is not a field: appending to the list sequence does what it is for.
- The C never sets the root's label fields, the root's `numberOfLeaf` or `leafArray`, or the `storedLeaf` and `numberOfLeaf` of internal nodes. The model gives them defined values: an empty root label, zero counts and empty lists. So when no window is inserted (n < l), a search that reaches the root as a leaf reports nothing.
- TrieSearch.CompactTrie requires `l >= 1` and patterns of at least `l` symbols. With a shorter pattern the C reads past the pattern buffer during the lookup.
- A pattern byte that does not occur in the text has code 0xff. The C indexes child slot 0xff, out of bounds when the alphabet is smaller. The model's maps never have that key, so the search finds nothing there.
- TrieSearch.VerifyTail treats a text index past n as a mismatch. The C reads `T[n+1]` there, outside the buffer, and the bound test `s <= n + 1` at line 469 then rejects such a match anyway.
- The integer widths of the C (`int` positions and counts, the `unsigned char` table) are not modelled. Positions stay below n + 1, and codes below 256.

## Findings

| source | as written | input that shows it | evidently intended | confidence | as-written member | corrected member |
|---|---|---|---|---|---|---|
| CompactTrie/compactTrie.c:419 | The search's label scan compares the text byte `T[s]` with the pattern index `d` | T = "ab", l = 2, P = "ab": the occurrence ending at 2 is not reported. T = "a\x02", l = 2, P = "a\x05": a match ending at 2 is reported that does not exist. | `T[s] != P[i][d]`, as in the insertion scan at line 244 and the tail check at line 459 | high (not executed) | TrieSearch.MatchLabelAsWritten, TrieSearch.AsWrittenMissesOccurrence, TrieSearch.AsWrittenReportsNonOccurrence | TrieBuild.MatchLabel, used by TrieSearch.SearchPattern |
