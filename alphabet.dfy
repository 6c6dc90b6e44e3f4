/**
 * The alphabet codec of the compact trie: one scan of the text marks the bytes that
 * occur, a second pass over the byte values 0..255 numbers the marked bytes densely in
 * ascending byte order, and every other byte keeps the marker 0xff.
 *
 * Texts are 1-indexed as in the C program: T[0] is a placeholder that is never read and
 * the text proper is T[1..n] with n == |T| - 1.
 */
module Alphabet {

  /** An `unsigned char`. */
  type Byte = b: int | 0 <= b < 256

  /** The table entry of a byte that does not occur in the text. */
  const Absent: int := 0xff

  /** The bytes that occur in T[1..k-1]. */
  function Seen(T: seq<Byte>, k: nat): set<Byte>
    requires 1 <= k <= |T|
  {
    if k == 1 then {} else Seen(T, k - 1) + {T[k - 1]}
  }

  /** The bytes that occur in the text T[1..n]. */
  function Occurring(T: seq<Byte>): set<Byte>
    requires |T| >= 1
  {
    Seen(T, |T|)
  }

  /** How many members of S lie below b: the dense code the table gives to b. */
  function CountBelow(S: set<Byte>, b: int): nat
    requires 0 <= b <= 256
  {
    if b == 0 then 0 else CountBelow(S, b - 1) + (if b - 1 in S then 1 else 0)
  }

  /** The table the codec builds for T: dense ascending codes, Absent elsewhere. */
  ghost predicate IsCodec(T: seq<Byte>, alphabet: seq<int>)
  {
    |T| >= 1 && |alphabet| == 256 &&
    forall b: Byte {:trigger alphabet[b]} ::
      alphabet[b] == if b in Occurring(T) then CountBelow(Occurring(T), b) else Absent
  }

  /**
   * The two passes of compactTrie.c over the text and over the byte values: the table
   * is filled in place and handed back with the number of distinct bytes.
   */
  method BuildAlphabet(T: seq<Byte>) returns (alphabet: seq<int>, sizeAlphabet: nat)
    requires |T| >= 1
    ensures IsCodec(T, alphabet)
    ensures sizeAlphabet == |Occurring(T)|
    ensures forall b: Byte :: b in Occurring(T) ==> 0 <= alphabet[b] < sizeAlphabet
  {
    var table := new int[256](_ => Absent);  // memset(alphabet, 0xff, 256)
    sizeAlphabet := MarkOccurring(T, table);
    NumberOccurring(table, Occurring(T));
    alphabet := table[..];
    assert forall b: Byte :: alphabet[b] == table[b];
    forall b: Byte | b in Occurring(T)
      ensures 0 <= alphabet[b] < sizeAlphabet
    {
      CodeBelowSize(Occurring(T), b);
    }
  }

  /** First pass: mark with 1 each byte of T[1..n] and count the distinct ones. */
  method MarkOccurring(T: seq<Byte>, table: array<int>) returns (sizeAlphabet: nat)
    requires |T| >= 1 && table.Length == 256
    requires forall b :: 0 <= b < 256 ==> table[b] == Absent
    modifies table
    ensures sizeAlphabet == |Occurring(T)|
    ensures forall b: Byte :: table[b] == if b in Occurring(T) then 1 else Absent
  {
    var n := |T| - 1;
    sizeAlphabet := 0;
    var i := 1;
    while i <= n
      invariant 1 <= i <= n + 1
      invariant sizeAlphabet == |Seen(T, i)|
      invariant forall b: Byte :: table[b] == if b in Seen(T, i) then 1 else Absent
    {
      ghost var seen := Seen(T, i);
      assert Seen(T, i + 1) == seen + {T[i]};
      if table[T[i]] == Absent {
        assert T[i] !in seen;
        assert |seen + {T[i]}| == |seen| + 1;
        table[T[i]] := 1;
        sizeAlphabet := sizeAlphabet + 1;
      } else {
        assert seen + {T[i]} == seen;
      }
      i := i + 1;
    }
  }

  /** Second pass: give the marked bytes the codes 0, 1, ... in ascending byte order. */
  method NumberOccurring(table: array<int>, ghost S: set<Byte>)
    requires table.Length == 256
    requires forall b: Byte :: table[b] == if b in S then 1 else Absent
    modifies table
    ensures forall b: Byte :: table[b] == if b in S then CountBelow(S, b) else Absent
  {
    var j := 0;
    var i := 0;
    while i != 256
      invariant 0 <= i <= 256
      invariant j == CountBelow(S, i)
      invariant forall b: Byte :: b < i ==> table[b] == if b in S then CountBelow(S, b) else Absent
      invariant forall b: Byte :: i <= b ==> table[b] == if b in S then 1 else Absent
    {
      if table[i] != Absent {
        table[i] := j;
        j := j + 1;
      }
      i := i + 1;
    }
  }

  /** Every byte of the text T[1..n] is in the occurring set. */
  lemma {:induction false} OccursAt(T: seq<Byte>, k: nat)
    requires 1 <= k < |T|
    ensures T[k] in Occurring(T)
  {
    SeenGrows(T, k + 1, |T|);
  }

  /** Seen only grows as the scan advances. */
  lemma {:induction false} SeenGrows(T: seq<Byte>, k: nat, k': nat)
    requires 1 <= k <= k' <= |T|
    ensures Seen(T, k) <= Seen(T, k')
    decreases k' - k
  {
    if k < k' {
      SeenGrows(T, k, k' - 1);
    }
  }

  /** A byte in the occurring set occurs at some position of T[1..n]. */
  lemma {:induction false} OccurringHasPosition(T: seq<Byte>, k: nat, b: Byte)
    requires 1 <= k <= |T| && b in Seen(T, k)
    ensures exists j :: 1 <= j < k && T[j] == b
  {
    if T[k - 1] != b {
      OccurringHasPosition(T, k - 1, b);
    }
  }

  /** The members of S below b, as a set. */
  function Below(S: set<Byte>, b: int): set<Byte>
  {
    set x: Byte | x in S && x < b
  }

  /** CountBelow counts the set of members below b. */
  lemma {:induction false} CountBelowIsCard(S: set<Byte>, b: int)
    requires 0 <= b <= 256
    ensures CountBelow(S, b) == |Below(S, b)|
  {
    if b == 0 {
      assert Below(S, b) == {};
    } else {
      CountBelowIsCard(S, b - 1);
      if b - 1 in S {
        assert Below(S, b) == Below(S, b - 1) + {b - 1};
      } else {
        assert Below(S, b) == Below(S, b - 1);
      }
    }
  }

  /** Counting all 256 byte values counts the whole set: sizeAlphabet is the top code. */
  lemma CountBelowAll(S: set<Byte>)
    ensures CountBelow(S, 256) == |S|
  {
    CountBelowIsCard(S, 256);
    assert Below(S, 256) == S;
  }

  /** CountBelow is monotonic, and strictly so past a member. */
  lemma {:induction false} CountBelowMonotonic(S: set<Byte>, a: int, b: int)
    requires 0 <= a <= b <= 256
    ensures CountBelow(S, a) <= CountBelow(S, b)
    ensures a < b && a in S ==> CountBelow(S, a) < CountBelow(S, b)
    decreases b - a
  {
    if a < b {
      CountBelowMonotonic(S, a, b - 1);
    }
  }

  /** The code of a present byte is below the number of distinct bytes. */
  lemma CodeBelowSize(S: set<Byte>, b: Byte)
    requires b in S
    ensures CountBelow(S, b) < |S|
  {
    CountBelowMonotonic(S, b, 256);
    CountBelowAll(S);
  }

  /** CountBelow never exceeds the bound, and falls short of it past a missing byte. */
  lemma {:induction false} CountBelowAtMost(S: set<Byte>, b: int, x: Byte)
    requires 0 <= b <= 256
    ensures CountBelow(S, b) <= b
    ensures x < b && x !in S ==> CountBelow(S, b) < b
  {
    if b > 0 {
      CountBelowAtMost(S, b - 1, x);
    }
  }

  /**
   * Present bytes get strictly ascending codes, so the table is injective on the
   * bytes of the text (compactTrie.c:160-169).
   */
  lemma CodesAscending(T: seq<Byte>, alphabet: seq<int>, x: Byte, y: Byte)
    requires IsCodec(T, alphabet)
    requires x in Occurring(T) && y in Occurring(T) && x < y
    ensures alphabet[x] < alphabet[y]
  {
    CountBelowMonotonic(Occurring(T), x, y);
  }

  /**
   * The codes are contiguous: every number below sizeAlphabet is the code of a byte
   * of the text.
   */
  lemma CodesContiguous(T: seq<Byte>, alphabet: seq<int>, c: int)
    requires IsCodec(T, alphabet)
    requires 0 <= c < |Occurring(T)|
    ensures exists b: Byte :: b in Occurring(T) && alphabet[b] == c
  {
    var S := Occurring(T);
    CountBelowAll(S);
    var b := CodeOwner(S, c, 256);
    assert alphabet[b] == c;
  }

  /** The byte below u whose code is c, for any c below CountBelow(S, u). */
  lemma {:induction false} CodeOwner(S: set<Byte>, c: int, u: int) returns (b: Byte)
    requires 0 <= u <= 256 && 0 <= c < CountBelow(S, u)
    ensures b in S && b < u && CountBelow(S, b) == c
  {
    if c < CountBelow(S, u - 1) {
      b := CodeOwner(S, c, u - 1);
    } else {
      b := u - 1;
    }
  }

  /**
   * A byte of the text shares its table entry with no other byte, absent or not.
   * When some byte is absent there are at most 255 codes, so the marker 0xff is
   * never a code; when none is absent 0xff is the code of byte 255 alone.
   */
  lemma CodeDetermines(T: seq<Byte>, alphabet: seq<int>, x: Byte, y: Byte)
    requires IsCodec(T, alphabet)
    requires x in Occurring(T) && alphabet[x] == alphabet[y]
    ensures x == y
  {
    var S := Occurring(T);
    if y in S {
      if x < y {
        CodesAscending(T, alphabet, x, y);
      } else if y < x {
        CodesAscending(T, alphabet, y, x);
      }
    } else {
      CodeBelowSize(S, x);
      CountBelowAll(S);
      CountBelowAtMost(S, 256, y);
    }
  }
}
