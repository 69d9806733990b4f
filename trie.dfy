/**
 * The values a compile-time trie is made of, and the structural folds over them.
 *
 * The original encodes every node as a distinct C++ type; here a node is an
 * ordinary value: the sequence of its entries, in the order insertion left them.
 * That order is what decides the slot a key resolves to.
 */
module Trie {

  /** What the builder is handed: a character key, or the default pseudo-key. */
  datatype InsertKey = Key(chars: string) | DefaultKey

  /** One member of a node: an edge labelled by a character, a leaf marker, or a default marker. */
  datatype Entry = Edge(c: char, child: Node) | Leaf | Default

  /** A node is its entries, in order. */
  type Node = seq<Entry>

  /** The two construction failures (compile-time assertions in the original). */
  datatype BuildError = DuplicateKey | MultipleDefaults

  datatype Result<T> = Ok(value: T) | Err(error: BuildError)

  /** The largest `std::size_t`, the minimum match length of a marker entry. */
  const SizeMax: nat := 0xFFFF_FFFF_FFFF_FFFF

  function MaxOf(a: nat, b: nat): nat { if a >= b then a else b }

  function MinOf(a: nat, b: nat): nat { if a <= b then a else b }

  /** The number of slots an entry occupies: its child's size, 1 for a leaf, 0 for a default. */
  function EntrySize(e: Entry): nat
    decreases e
  {
    match e
    case Edge(_, child) => Size(child)
    case Leaf => 1
    case Default => 0
  }

  /** The number of keys below a node: the sum of its entries' sizes. */
  function Size(n: Node): nat
    decreases n
  {
    if n == [] then 0 else EntrySize(n[0]) + Size(n[1..])
  }

  /** An entry's own "not found" value; it always coincides with the entry's size. */
  function EntryEnd(e: Entry): (r: nat)
    ensures r == EntrySize(e)
  {
    match e
    case Edge(_, child) => End(child)
    case Leaf => 1
    case Default => 0
  }

  /** A node's "not found" sentinel. */
  function End(n: Node): nat
  {
    Size(n)
  }

  predicate HasLeaf(n: Node)
  {
    Leaf in n
  }

  predicate HasDefault(n: Node)
  {
    Default in n
  }

  /** The number of value slots: one per key, plus one for the default when there is one. */
  function Capacity(n: Node): (r: nat)
    ensures r == Size(n) + 1 <==> HasDefault(n)
    ensures r >= Size(n)
  {
    Size(n) + if HasDefault(n) then 1 else 0
  }

  /** Only an edge matches a character; the markers never do. */
  predicate Matches(e: Entry, ch: char)
  {
    e.Edge? && e.c == ch
  }

  function EntryMaxMatchLength(e: Entry): nat
    decreases e
  {
    match e
    case Edge(_, child) => 1 + MaxMatchLength(child)
    case _ => 0
  }

  /** The maximum over the entries' maximum match lengths and 0. */
  function MaxMatchLength(n: Node): nat
    decreases n
  {
    if n == [] then 0 else MaxOf(EntryMaxMatchLength(n[0]), MaxMatchLength(n[1..]))
  }

  function EntryMinMatchLength(e: Entry): nat
    decreases e
  {
    match e
    case Edge(_, child) => 1 + MinMatchLength(child)
    case _ => SizeMax
  }

  /**
   * The minimum over the entries' minimum match lengths and a literal 0, so it is
   * always 0 and the lower-length prune of a lookup never fires.
   */
  function MinMatchLength(n: Node): (r: nat)
    ensures r == 0
    decreases n
  {
    if n == [] then 0 else MinOf(EntryMinMatchLength(n[0]), MinMatchLength(n[1..]))
  }

  /**
   * The summed sizes of the entries before the first entry equal to `e`
   * (all of them when there is none).
   */
  function SizeUntil(n: Node, e: Entry): (r: nat)
    ensures r <= Size(n)
  {
    if n == [] then 0
    else if n[0] == e then 0
    else EntrySize(n[0]) + SizeUntil(n[1..], e)
  }

  /** The index of the first entry matching `ch`, or `|n|` when none does. */
  function FirstMatch(n: Node, ch: char): (i: nat)
    ensures i <= |n|
    ensures i < |n| ==> Matches(n[i], ch)
    ensures forall j :: 0 <= j < i ==> !Matches(n[j], ch)
  {
    if n == [] then 0
    else if Matches(n[0], ch) then 0
    else 1 + FirstMatch(n[1..], ch)
  }

  /**
   * The key set of a node: `s` spells a path of edges ending at a leaf.
   * This is the reference meaning against which lookup and insertion are proved.
   */
  ghost predicate IsKey(n: Node, s: string)
    decreases |s|
  {
    if s == [] then Leaf in n
    else exists e :: e in n && Matches(e, s[0]) && IsKey(e.child, s[1..])
  }

  /** No entry value occurs twice (so at most one leaf and at most one default). */
  ghost predicate NoRepeats(n: Node)
  {
    forall i, j :: 0 <= i < j < |n| ==> n[i] != n[j]
  }

  /** Two edges with the same character are the same edge. */
  ghost predicate EdgeCharsDistinct(n: Node)
  {
    forall e1, e2 :: e1 in n && e2 in n && e1.Edge? && e2.Edge? && e1.c == e2.c ==> e1 == e2
  }

  /**
   * The shape insertion maintains: entries unique, edges unique by character,
   * and every child non-empty, free of defaults (those live at the root only)
   * and itself well formed.
   */
  ghost predicate WellFormed(n: Node)
    decreases n
  {
    NoRepeats(n) && EdgeCharsDistinct(n) &&
    forall e :: e in n && e.Edge? ==>
      Size(e.child) > 0 && !HasDefault(e.child) && WellFormed(e.child)
  }

  // ---------------------------------------------------------------------------
  // Lemmas about the folds

  lemma {:induction false} SizeAppend(a: Node, b: Node)
    ensures Size(a + b) == Size(a) + Size(b)
    decreases |a|
  {
    if a == [] {
      assert a + b == b;
    } else {
      assert (a + b)[0] == a[0];
      assert (a + b)[1..] == a[1..] + b;
      SizeAppend(a[1..], b);
    }
  }

  /** Removing the entry at `i` takes exactly its size away. */
  lemma SizeRemoveAt(n: Node, i: nat)
    requires i < |n|
    ensures Size(n[..i] + n[i+1..]) + EntrySize(n[i]) == Size(n)
  {
    SizeAppend(n[..i], n[i+1..]);
    SizeAppend(n[..i], n[i..]);
    SizeAppend([n[i]], n[i+1..]);
    assert n == n[..i] + n[i..];
    assert n[i..] == [n[i]] + n[i+1..];
    assert Size([n[i]]) == EntrySize(n[i]) by {
      assert [n[i]][1..] == [];
    }
  }

  /** An entry's slot range, starting at `SizeUntil`, lies inside the node's. */
  lemma {:induction false} SizeUntilBound(n: Node, e: Entry)
    requires e in n
    ensures SizeUntil(n, e) + EntrySize(e) <= Size(n)
  {
    if n[0] != e {
      assert e in n[1..] by {
        var k :| 0 <= k < |n| && n[k] == e;
        assert n[1..][k - 1] == e;
      }
      SizeUntilBound(n[1..], e);
    }
  }

  /** Two different entries of one node occupy disjoint slot ranges. */
  lemma {:induction false} SizeUntilDisjoint(n: Node, e1: Entry, e2: Entry)
    requires e1 in n && e2 in n && e1 != e2
    ensures SizeUntil(n, e1) + EntrySize(e1) <= SizeUntil(n, e2)
         || SizeUntil(n, e2) + EntrySize(e2) <= SizeUntil(n, e1)
  {
    if n[0] != e1 && n[0] != e2 {
      InTail(n, e1);
      InTail(n, e2);
      SizeUntilDisjoint(n[1..], e1, e2);
    }
  }

  /** Every slot below a node's size falls in the range of some entry. */
  lemma {:induction false} SizeCover(n: Node, p: nat)
    requires NoRepeats(n)
    requires p < Size(n)
    ensures exists e :: e in n && SizeUntil(n, e) <= p < SizeUntil(n, e) + EntrySize(e)
  {
    if p < EntrySize(n[0]) {
      assert SizeUntil(n, n[0]) == 0;
    } else {
      var rest := n[1..];
      assert NoRepeats(rest) by {
        forall i, j | 0 <= i < j < |rest| ensures rest[i] != rest[j] {
          assert rest[i] == n[i + 1] && rest[j] == n[j + 1];
        }
      }
      SizeCover(rest, p - EntrySize(n[0]));
      var e :| e in rest && SizeUntil(rest, e) <= p - EntrySize(n[0]) < SizeUntil(rest, e) + EntrySize(e);
      assert e != n[0] by {
        var k :| 0 <= k < |rest| && rest[k] == e;
        assert n[k + 1] == e;
      }
      assert e in n;
    }
  }

  lemma InTail(n: Node, e: Entry)
    requires e in n && n[0] != e
    ensures e in n[1..]
  {
    var k :| 0 <= k < |n| && n[k] == e;
    assert n[1..][k - 1] == e;
  }

  /** An edge's match length never exceeds its node's. */
  lemma {:induction false} MaxMatchLengthBound(n: Node, e: Entry)
    requires e in n
    ensures EntryMaxMatchLength(e) <= MaxMatchLength(n)
  {
    if n[0] != e {
      InTail(n, e);
      MaxMatchLengthBound(n[1..], e);
    }
  }

  /** A positive maximum match length is attained by one of the node's edges. */
  lemma {:induction false} MaxMatchLengthAttained(n: Node)
    requires MaxMatchLength(n) > 0
    ensures exists e :: e in n && e.Edge? && EntryMaxMatchLength(e) == MaxMatchLength(n)
  {
    if EntryMaxMatchLength(n[0]) < MaxMatchLength(n) || !n[0].Edge? {
      MaxMatchLengthAttained(n[1..]);
      var e :| e in n[1..] && e.Edge? && EntryMaxMatchLength(e) == MaxMatchLength(n[1..]);
      assert e in n;
    }
  }
}
