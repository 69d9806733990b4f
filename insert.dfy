/**
 * Building a trie: structural insertion of one key at a time, and the fold of
 * insertion over a whole key list. Insertion never changes a node; it builds a
 * new one in which the touched entry has moved to the end.
 */
module Insertion {
  import opened Trie

  /**
   * Insertion of a character key. An exhausted key appends a leaf (a second leaf
   * is a duplicate key). Otherwise the first edge for the leading character is
   * rebuilt around the insertion of the rest and moves behind all other entries,
   * or, when there is no such edge, a new edge over a fresh node is appended.
   * The entries that are not touched keep their relative order.
   */
  function InsertChars(n: Node, s: string): (r: Result<Node>)
    ensures r.Err? ==> r.error == DuplicateKey
    ensures r.Ok? && s == [] ==> r.value == n + [Leaf]
    ensures r.Ok? && s != [] ==>
      var i := FirstMatch(n, s[0]);
      |r.value| == (if i < |n| then |n| else |n| + 1) &&
      Matches(r.value[|r.value| - 1], s[0]) &&
      r.value[..|r.value| - 1] == (if i < |n| then n[..i] + n[i+1..] else n)
    decreases |s|
  {
    if s == [] then
      if HasLeaf(n) then Err(DuplicateKey) else Ok(n + [Leaf])
    else
      var i := FirstMatch(n, s[0]);
      if i < |n| then
        match InsertChars(n[i].child, s[1..])
        case Err(e) => Err(e)
        case Ok(child) => Ok(n[..i] + n[i+1..] + [Edge(n[i].c, child)])
      else
        match InsertChars([], s[1..])
        case Err(e) => Err(e)
        case Ok(child) => Ok(n + [Edge(s[0], child)])
  }

  /** Insertion of either kind of key; the default pseudo-key appends a default marker. */
  function Insert(n: Node, k: InsertKey): (r: Result<Node>)
    ensures r.Err? ==> r.error == (if k.DefaultKey? then MultipleDefaults else DuplicateKey)
    ensures k.DefaultKey? ==> (r.Err? <==> HasDefault(n))
    ensures k.DefaultKey? && r.Ok? ==> r.value == n + [Default]
  {
    match k
    case Key(s) => InsertChars(n, s)
    case DefaultKey => if HasDefault(n) then Err(MultipleDefaults) else Ok(n + [Default])
  }

  /** Building the index: insert every key in turn into the empty node, left to right. */
  function Build(keys: seq<InsertKey>): Result<Node>
  {
    if keys == [] then Ok([])
    else
      match Build(keys[..|keys| - 1])
      case Err(e) => Err(e)
      case Ok(n) => Insert(n, keys[|keys| - 1])
  }

  /** No key, and no default, is given twice. */
  predicate Distinct(keys: seq<InsertKey>)
  {
    forall i, j :: 0 <= i < j < |keys| ==> keys[i] != keys[j]
  }

  // ---------------------------------------------------------------------------
  // Helpers on entry sequences

  lemma RemoveAtMembers(n: Node, i: nat)
    requires i < |n|
    ensures forall e :: e in n[..i] + n[i+1..] ==> e in n
    ensures forall e :: e in n && e != n[i] ==> e in n[..i] + n[i+1..]
    ensures NoRepeats(n) ==> NoRepeats(n[..i] + n[i+1..]) && n[i] !in n[..i] + n[i+1..]
  {
    var m := n[..i] + n[i+1..];
    assert |m| == |n| - 1;
    assert forall k :: 0 <= k < |m| ==> m[k] == if k < i then n[k] else n[k + 1];
    forall e | e in n && e != n[i] ensures e in m {
      var k :| 0 <= k < |n| && n[k] == e;
      if k < i { assert m[k] == e; } else { assert m[k - 1] == e; }
    }
  }

  lemma NoRepeatsAppend(n: Node, x: Entry)
    requires NoRepeats(n) && x !in n
    ensures NoRepeats(n + [x])
  {
    var r := n + [x];
    forall i, j | 0 <= i < j < |r| ensures r[i] != r[j] {
      if j == |n| { assert r[i] == n[i]; }
    }
  }

  lemma EmptyHasNoKeys(s: string)
    ensures !IsKey([], s)
  {
  }

  /** Appending a default marker changes no key. */
  lemma AppendDefaultKeys(n: Node, t: string)
    ensures IsKey(n + [Default], t) <==> IsKey(n, t)
  {
    if t != [] {
      if IsKey(n + [Default], t) {
        var e :| e in n + [Default] && Matches(e, t[0]) && IsKey(e.child, t[1..]);
        assert e in n;
      }
    }
  }

  // ---------------------------------------------------------------------------
  // What one insertion does

  /** Insertion adds exactly the inserted key to the key set. */
  lemma {:induction false} InsertKeySet(n: Node, s: string, t: string)
    requires InsertChars(n, s).Ok?
    ensures IsKey(InsertChars(n, s).value, t) <==> IsKey(n, t) || t == s
    decreases |s|
  {
    var r := InsertChars(n, s).value;
    if s == [] {
      if t != [] && IsKey(r, t) {
        var e :| e in r && Matches(e, t[0]) && IsKey(e.child, t[1..]);
        assert e in n;
      }
    } else {
      var i := FirstMatch(n, s[0]);
      if i < |n| {
        var child' := InsertChars(n[i].child, s[1..]).value;
        var m := n[..i] + n[i+1..];
        var e' := Edge(n[i].c, child');
        assert r == m + [e'];
        RemoveAtMembers(n, i);
        if t == [] {
          assert Leaf in r <==> Leaf in n;
        } else if t[0] != s[0] {
          if IsKey(r, t) {
            var e :| e in r && Matches(e, t[0]) && IsKey(e.child, t[1..]);
            assert e in n;
          }
          if IsKey(n, t) {
            var e :| e in n && Matches(e, t[0]) && IsKey(e.child, t[1..]);
            assert e in r;
          }
        } else {
          InsertKeySet(n[i].child, s[1..], t[1..]);
          assert t == s <==> t[1..] == s[1..];
          if IsKey(r, t) {
            var e :| e in r && Matches(e, t[0]) && IsKey(e.child, t[1..]);
            if e == e' {
              if t != s { assert n[i] in n; }
            } else {
              assert e in n;
            }
          }
          if IsKey(n, t) {
            var e :| e in n && Matches(e, t[0]) && IsKey(e.child, t[1..]);
            if e == n[i] { assert e' in r; } else { assert e in r; }
          }
          if t == s {
            assert e' in r;
          }
        }
      } else {
        var child' := InsertChars([], s[1..]).value;
        var e' := Edge(s[0], child');
        assert r == n + [e'];
        if t != [] {
          if t[0] == s[0] {
            InsertKeySet([], s[1..], t[1..]);
            EmptyHasNoKeys(t[1..]);
            assert t == s <==> t[1..] == s[1..];
            if t == s { assert e' in r; }
          }
          if IsKey(r, t) {
            var e :| e in r && Matches(e, t[0]) && IsKey(e.child, t[1..]);
            if e != e' { assert e in n; }
          }
          if IsKey(n, t) {
            var e :| e in n && Matches(e, t[0]) && IsKey(e.child, t[1..]);
            assert e in r;
          }
        }
      }
    }
  }

  /** On a well-formed node, inserting a key fails exactly when it is already a key. */
  lemma {:induction false} InsertFailsIffKey(n: Node, s: string)
    requires WellFormed(n)
    ensures InsertChars(n, s).Err? <==> IsKey(n, s)
    decreases |s|
  {
    if s != [] {
      var i := FirstMatch(n, s[0]);
      if i < |n| {
        assert n[i] in n;
        InsertFailsIffKey(n[i].child, s[1..]);
        if IsKey(n, s) {
          var e :| e in n && Matches(e, s[0]) && IsKey(e.child, s[1..]);
          assert e == n[i];
        }
      } else {
        InsertFailsIffKey([], s[1..]);
        EmptyHasNoKeys(s[1..]);
        forall e | e in n ensures !Matches(e, s[0]) {
          var k :| 0 <= k < |n| && n[k] == e;
        }
      }
    }
  }

  /** A successful insertion adds one slot. */
  lemma {:induction false} InsertSize(n: Node, s: string)
    requires InsertChars(n, s).Ok?
    ensures Size(InsertChars(n, s).value) == Size(n) + 1
    decreases |s|
  {
    var r := InsertChars(n, s).value;
    if s == [] {
      SizeAppend(n, [Leaf]);
    } else {
      var i := FirstMatch(n, s[0]);
      if i < |n| {
        var child' := InsertChars(n[i].child, s[1..]).value;
        InsertSize(n[i].child, s[1..]);
        SizeAppend(n[..i] + n[i+1..], [Edge(n[i].c, child')]);
        SizeRemoveAt(n, i);
      } else {
        var child' := InsertChars([], s[1..]).value;
        InsertSize([], s[1..]);
        SizeAppend(n, [Edge(s[0], child')]);
      }
    }
  }

  /** Appending an entry that repeats nothing and shares no edge character keeps a node well formed. */
  lemma AppendWellFormed(m: Node, x: Entry)
    requires WellFormed(m) && x !in m
    requires x.Edge? ==> forall e :: e in m && e.Edge? ==> e.c != x.c
    requires x.Edge? ==> Size(x.child) > 0 && !HasDefault(x.child) && WellFormed(x.child)
    ensures WellFormed(m + [x])
  {
    NoRepeatsAppend(m, x);
    assert forall e :: e in m + [x] ==> e in m || e == x;
  }

  /** Dropping one entry keeps a node well formed. */
  lemma RemoveAtWellFormed(n: Node, i: nat)
    requires WellFormed(n) && i < |n|
    ensures WellFormed(n[..i] + n[i+1..])
  {
    RemoveAtMembers(n, i);
  }

  /** Moving an edge to the end over a new well-formed child keeps a node well formed. */
  lemma ReplaceEdgeWellFormed(n: Node, i: nat, child': Node)
    requires WellFormed(n) && i < |n| && n[i].Edge?
    requires Size(child') > 0 && !HasDefault(child') && WellFormed(child')
    ensures WellFormed(n[..i] + n[i+1..] + [Edge(n[i].c, child')])
    ensures HasDefault(n[..i] + n[i+1..] + [Edge(n[i].c, child')]) <==> HasDefault(n)
  {
    assert n[i] in n;
    var m := n[..i] + n[i+1..];
    var e' := Edge(n[i].c, child');
    RemoveAtMembers(n, i);
    RemoveAtWellFormed(n, i);
    assert forall e :: e in m && e.Edge? ==> e.c != e'.c;
    AppendWellFormed(m, e');
    assert Default in m + [e'] <==> Default in m;
  }

  /** Insertion keeps a node well formed and neither adds nor removes a default. */
  lemma {:induction false} InsertPreservesWellFormed(n: Node, s: string)
    requires WellFormed(n)
    requires InsertChars(n, s).Ok?
    ensures WellFormed(InsertChars(n, s).value)
    ensures HasDefault(InsertChars(n, s).value) <==> HasDefault(n)
    decreases |s|
  {
    var r := InsertChars(n, s).value;
    if s == [] {
      AppendWellFormed(n, Leaf);
    } else {
      var i := FirstMatch(n, s[0]);
      if i < |n| {
        assert n[i] in n;
        var child' := InsertChars(n[i].child, s[1..]).value;
        InsertPreservesWellFormed(n[i].child, s[1..]);
        InsertSize(n[i].child, s[1..]);
        ReplaceEdgeWellFormed(n, i, child');
      } else {
        var child' := InsertChars([], s[1..]).value;
        InsertPreservesWellFormed([], s[1..]);
        InsertSize([], s[1..]);
        var e' := Edge(s[0], child');
        assert r == n + [e'];
        forall e | e in n ensures !Matches(e, s[0]) {
          var k :| 0 <= k < |n| && n[k] == e;
        }
        AppendWellFormed(n, e');
      }
    }
  }

  /**
   * Building succeeds exactly when no key and no default is repeated; the trie
   * built is well formed, its keys are exactly the character keys given, it has
   * a default exactly when one was given, and it has one slot per key given.
   */
  lemma {:induction false} BuildCorrect(keys: seq<InsertKey>)
    ensures Build(keys).Ok? <==> Distinct(keys)
    ensures Build(keys).Ok? ==>
      var n := Build(keys).value;
      WellFormed(n) &&
      (forall s :: IsKey(n, s) <==> Key(s) in keys) &&
      (HasDefault(n) <==> DefaultKey in keys) &&
      Capacity(n) == |keys|
  {
    if keys != [] {
      var ks := keys[..|keys| - 1];
      var k := keys[|keys| - 1];
      assert keys == ks + [k];
      BuildCorrect(ks);
      assert Distinct(keys) <==> Distinct(ks) && k !in ks by {
        if Distinct(keys) {
          assert Distinct(ks) by {
            forall i, j | 0 <= i < j < |ks| ensures ks[i] != ks[j] {
              assert ks[i] == keys[i] && ks[j] == keys[j];
            }
          }
          forall i | 0 <= i < |ks| ensures ks[i] != k {
            assert ks[i] == keys[i];
          }
        }
        if Distinct(ks) && k !in ks {
          forall i, j | 0 <= i < j < |keys| ensures keys[i] != keys[j] {
            if j < |ks| {
              assert keys[i] == ks[i] && keys[j] == ks[j];
            } else {
              assert keys[i] == ks[i];
            }
          }
        }
      }
      if Build(ks).Ok? {
        var n := Build(ks).value;
        match k
        case Key(s) =>
          InsertFailsIffKey(n, s);
          if InsertChars(n, s).Ok? {
            var r := InsertChars(n, s).value;
            InsertPreservesWellFormed(n, s);
            InsertSize(n, s);
            forall t ensures IsKey(r, t) <==> Key(t) in keys {
              InsertKeySet(n, s, t);
            }
            assert DefaultKey in keys <==> DefaultKey in ks;
          }
        case DefaultKey =>
          if !HasDefault(n) {
            var r := n + [Default];
            NoRepeatsAppend(n, Default);
            assert forall e :: e in r ==> e in n || e == Default;
            assert WellFormed(r);
            forall t ensures IsKey(r, t) <==> Key(t) in keys {
              AppendDefaultKeys(n, t);
            }
            SizeAppend(n, [Default]);
          }
      }
    }
  }
}
