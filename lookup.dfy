/**
 * Resolving a query string against a finished trie: `find` gives a slot or the
 * node's end sentinel, `contains` answers membership. Both descend left to right
 * one character at a time and prune queries longer than any path below the node.
 */
module Lookup {
  import opened Trie

  /**
   * Translation of an entry's own answer into the node's numbering: a hit is
   * shifted by the sizes of the entries before that entry, the entry's end
   * becomes the node's end.
   */
  function CallFind(n: Node, e: Entry, idx: nat): (r: nat)
    requires e in n
    ensures idx < EntryEnd(e) ==> r < End(n)
    ensures idx == EntryEnd(e) ==> r == End(n)
  {
    SizeUntilBound(n, e);
    if idx != EntryEnd(e) then idx + SizeUntil(n, e) else End(n)
  }

  /**
   * The slot of `s`, or `End(n)`. An empty query hits the leaf; otherwise the
   * first edge for the leading character is asked for the rest of the query,
   * and there is no fall-through to later entries.
   */
  function Find(n: Node, s: string): (r: nat)
    ensures r <= End(n)
    decreases |s|
  {
    if s == [] then
      if HasLeaf(n) then CallFind(n, Leaf, 0) else End(n)
    else if |s| < MinMatchLength(n) || |s| > MaxMatchLength(n) then
      End(n)
    else
      var i := FirstMatch(n, s[0]);
      if i < |n| then CallFind(n, n[i], Find(n[i].child, s[1..])) else End(n)
  }

  /** Membership: some edge for the leading character contains the rest of the query. */
  function Contains(n: Node, s: string): (r: bool)
    ensures r ==> |s| <= MaxMatchLength(n)
    decreases |s|
  {
    if s == [] then HasLeaf(n)
    else if |s| < MinMatchLength(n) || |s| > MaxMatchLength(n) then false
    else exists e :: e in n && Matches(e, s[0]) && Contains(e.child, s[1..])
  }

  /** The slot of a key as the builder names it; the default pseudo-key resolves to the end. */
  function FindKey(n: Node, k: InsertKey): (r: nat)
    requires k.DefaultKey? ==> HasDefault(n)
    ensures k.DefaultKey? ==> r == Capacity(n) - 1
    ensures k.Key? ==> r <= End(n)
  {
    match k
    case Key(s) => Find(n, s)
    case DefaultKey => End(n)
  }

  /**
   * The lookup as the original runs it: `result` starts at the end and is
   * overwritten by the first matching entry, after which the scan stops.
   */
  method ResolveFind(n: Node, s: string) returns (result: nat)
    ensures result == Find(n, s)
    decreases |s|
  {
    if s == [] {
      if HasLeaf(n) {
        result := CallFind(n, Leaf, 0);
      } else {
        result := End(n);
      }
      return;
    }
    if |s| < MinMatchLength(n) || |s| > MaxMatchLength(n) {
      return End(n);
    }
    result := End(n);
    var c := s[0];
    var i := 0;
    while i < |n|
      invariant 0 <= i <= |n|
      invariant forall j :: 0 <= j < i ==> !Matches(n[j], c)
      invariant result == End(n)
    {
      if Matches(n[i], c) {
        var idx := ResolveFind(n[i].child, s[1..]);
        result := CallFind(n, n[i], idx);
        return;
      }
      i := i + 1;
    }
  }

  // ---------------------------------------------------------------------------
  // Lookup against the key set

  /** No key is longer than the node's maximum match length. */
  lemma {:induction false} IsKeyBounded(n: Node, s: string)
    requires IsKey(n, s)
    ensures |s| <= MaxMatchLength(n)
    decreases |s|
  {
    if s != [] {
      var e :| e in n && Matches(e, s[0]) && IsKey(e.child, s[1..]);
      IsKeyBounded(e.child, s[1..]);
      MaxMatchLengthBound(n, e);
    }
  }

  /** The length prune never changes the answer: `contains` is exactly key-set membership. */
  lemma {:induction false} PruneNeverChangesContains(n: Node, s: string)
    ensures Contains(n, s) <==> IsKey(n, s)
    decreases |s|
  {
    if s != [] {
      forall e | e in n && Matches(e, s[0])
        ensures Contains(e.child, s[1..]) <==> IsKey(e.child, s[1..])
      {
        PruneNeverChangesContains(e.child, s[1..]);
      }
      if IsKey(n, s) {
        IsKeyBounded(n, s);
      }
    }
  }

  /** The edge `FirstMatch` picks is the only edge for its character in a well-formed node. */
  lemma OnlyMatch(n: Node, ch: char, e: Entry)
    requires WellFormed(n) && e in n && Matches(e, ch)
    ensures FirstMatch(n, ch) < |n| && n[FirstMatch(n, ch)] == e
  {
    var k :| 0 <= k < |n| && n[k] == e;
    assert n[FirstMatch(n, ch)] in n;
  }

  /** On a well-formed node, `find` hits a slot exactly for the keys. */
  lemma {:induction false} FindHitIffKey(n: Node, s: string)
    requires WellFormed(n)
    ensures Find(n, s) < End(n) <==> IsKey(n, s)
    decreases |s|
  {
    if s != [] {
      if IsKey(n, s) {
        IsKeyBounded(n, s);
      }
      var i := FirstMatch(n, s[0]);
      if i < |n| {
        assert n[i] in n;
        FindHitIffKey(n[i].child, s[1..]);
        if IsKey(n, s) {
          var e :| e in n && Matches(e, s[0]) && IsKey(e.child, s[1..]);
          OnlyMatch(n, s[0], e);
        }
      } else {
        forall e | e in n ensures !Matches(e, s[0]) {
          var k :| 0 <= k < |n| && n[k] == e;
        }
      }
    }
  }

  /** `contains(s)` holds exactly when `find(s)` is not the end sentinel. */
  lemma ContainsIffFound(n: Node, s: string)
    requires WellFormed(n)
    ensures Contains(n, s) <==> Find(n, s) != End(n)
  {
    PruneNeverChangesContains(n, s);
    FindHitIffKey(n, s);
  }

  /**
   * The slot of a key lies in the range of the entry that key passes through:
   * the leaf for the empty key, otherwise the edge for its first character, and
   * then it is the child's slot shifted by the sizes before that edge.
   */
  lemma FindSlot(n: Node, s: string) returns (e: Entry)
    requires WellFormed(n) && IsKey(n, s)
    ensures e in n
    ensures SizeUntil(n, e) <= Find(n, s) < SizeUntil(n, e) + EntrySize(e)
    ensures s == [] ==> e == Leaf
    ensures s != [] ==> Matches(e, s[0]) && IsKey(e.child, s[1..]) &&
                        Find(n, s) == SizeUntil(n, e) + Find(e.child, s[1..])
  {
    if s == [] {
      e := Leaf;
    } else {
      IsKeyBounded(n, s);
      e :| e in n && Matches(e, s[0]) && IsKey(e.child, s[1..]);
      OnlyMatch(n, s[0], e);
      FindHitIffKey(e.child, s[1..]);
    }
  }

  /** Distinct keys, prefix pairs included, resolve to distinct slots. */
  lemma {:induction false} FindInjective(n: Node, a: string, b: string)
    requires WellFormed(n) && IsKey(n, a) && IsKey(n, b)
    requires Find(n, a) == Find(n, b)
    ensures a == b
    decreases |a|
  {
    var ea := FindSlot(n, a);
    var eb := FindSlot(n, b);
    if ea != eb {
      SizeUntilDisjoint(n, ea, eb);
    } else if a != [] && b != [] {
      assert ea.Edge? && ea in n;
      FindInjective(ea.child, a[1..], b[1..]);
      assert a == [a[0]] + a[1..] && b == [b[0]] + b[1..];
    }
  }

  /** Every slot below the size is the slot of some key. */
  lemma {:induction false} FindOnto(n: Node, p: nat) returns (s: string)
    requires WellFormed(n) && p < Size(n)
    ensures IsKey(n, s) && Find(n, s) == p
    decreases n
  {
    SizeCover(n, p);
    var e :| e in n && SizeUntil(n, e) <= p < SizeUntil(n, e) + EntrySize(e);
    if e == Leaf {
      s := [];
    } else {
      var child := e.child;
      var s' := FindOnto(child, p - SizeUntil(n, e));
      s := [e.c] + s';
      assert s[1..] == s';
      IsKeyBounded(child, s');
      MaxMatchLengthBound(n, e);
      OnlyMatch(n, e.c, e);
    }
  }

  /** On a well-formed non-empty node, some key is exactly as long as the maximum match length. */
  lemma {:induction false} LongestKey(n: Node) returns (s: string)
    requires WellFormed(n) && Size(n) > 0
    ensures IsKey(n, s) && |s| == MaxMatchLength(n)
    decreases n
  {
    if MaxMatchLength(n) == 0 {
      SizeCover(n, 0);
      var e :| e in n && SizeUntil(n, e) <= 0 < SizeUntil(n, e) + EntrySize(e);
      MaxMatchLengthBound(n, e);
      s := [];
    } else {
      MaxMatchLengthAttained(n);
      var e :| e in n && e.Edge? && EntryMaxMatchLength(e) == MaxMatchLength(n);
      var s' := LongestKey(e.child);
      s := [e.c] + s';
      assert s[1..] == s';
    }
  }
}
