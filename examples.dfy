/**
 * The test vectors of the original and the map its demo program builds,
 * derived from the proved contracts of the model.
 */
module Examples {
  import opened Trie
  import opened Insertion
  import opened Lookup
  import opened Layout
  import opened ArrayMaps

  /** What a query against a trie built from `keys` answers, by the key set alone. */
  lemma QueryByKeys(keys: seq<InsertKey>, n: Node, s: string)
    requires Build(keys) == Ok(n)
    ensures Contains(n, s) <==> Key(s) in keys
    ensures Find(n, s) < Size(n) <==> Key(s) in keys
  {
    BuildCorrect(keys);
    PruneNeverChangesContains(n, s);
    FindHitIffKey(n, s);
  }

  /** Distinct keys build a trie. */
  lemma OkByKeys(keys: seq<InsertKey>)
    requires Distinct(keys)
    ensures Build(keys).Ok?
  {
    BuildCorrect(keys);
  }

  /** The size and capacity of a trie built from `keys`. */
  lemma SizeByKeys(keys: seq<InsertKey>, n: Node)
    requires Build(keys) == Ok(n)
    ensures Capacity(n) == |keys|
    ensures HasDefault(n) <==> DefaultKey in keys
  {
    BuildCorrect(keys);
  }

  // ---------------------------------------------------------------------------
  // The index tests

  const SingleKey: seq<InsertKey> := [Key("A")]

  /** An index built from the single key "A": one slot, "A" at 0, other queries at the end. */
  lemma IndexSingleInsertion(keys: seq<InsertKey>)
    requires keys == SingleKey
    ensures Build(keys).Ok?
    ensures var n := Build(keys).value;
      Size(n) == 1 && Find(n, "A") == 0 && Find(n, "AA") == 1 && Find(n, "B") == 1
  {
    assert Distinct(keys) && DefaultKey !in keys;
    assert Key("A") in keys && Key("AA") !in keys && Key("B") !in keys;
    OkByKeys(keys);
    var n := Build(keys).value;
    assert Size(n) == 1 by {
      SizeByKeys(keys, n);
    }
    assert Find(n, "A") < 1 by {
      QueryByKeys(keys, n, "A");
    }
    assert Find(n, "AA") == 1 by {
      QueryByKeys(keys, n, "AA");
    }
    assert Find(n, "B") == 1 by {
      QueryByKeys(keys, n, "B");
    }
  }

  const MultiIndexKeys: seq<InsertKey> := [Key("A"), Key("B"), Key("AB"), Key("AA"), Key("CD")]

  /** An index of five keys, some prefixes of others: five slots, and membership as given. */
  lemma IndexMultiInsertions(keys: seq<InsertKey>)
    requires keys == MultiIndexKeys
    ensures Build(keys).Ok?
    ensures var n := Build(keys).value;
      Size(n) == 5 && Contains(n, "A") && Contains(n, "AA") && !Contains(n, "AAA")
  {
    assert Distinct(keys) && DefaultKey !in keys;
    assert keys[0] == Key("A") && keys[3] == Key("AA") && Key("AAA") !in keys;
    OkByKeys(keys);
    var n := Build(keys).value;
    assert Size(n) == 5 by {
      SizeByKeys(keys, n);
    }
    assert Contains(n, "A") by {
      QueryByKeys(keys, n, "A");
    }
    assert Contains(n, "AA") by {
      QueryByKeys(keys, n, "AA");
    }
    assert !Contains(n, "AAA") by {
      QueryByKeys(keys, n, "AAA");
    }
  }

  // ---------------------------------------------------------------------------
  // The map tests

  /** A map with no keys has no elements and no default. */
  method MapNoInsertions() returns (size: nat, capacity: nat, hasDefault: bool)
    ensures size == 0 && capacity == 0 && !hasDefault
  {
    var r := BuildMap<int>([], []);
    var m := r.value;
    SizeByKeys([], m.root);
    size := m.Size();
    capacity := m.Capacity();
    hasDefault := m.HasDefault();
  }

  /** A map of the single key "A" to 0xA. */
  method MapSingleInsertion(keys: seq<InsertKey>, values: seq<int>)
    returns (size: nat, capacity: nat, hasDefault: bool, first: int, atA: int, findB: nat, end: nat)
    requires keys == SingleKey && values == [0xA]
    ensures size == 1 && capacity == 1 && !hasDefault
    ensures first == 0xA && atA == 0xA && findB == end
  {
    assert Distinct(keys) && DefaultKey !in keys && keys[0] == Key("A") && Key("B") !in keys;
    var r := BuildMap(keys, values);
    var m := r.value;
    assert Trie.Capacity(m.root) == 1 && !HasDefault(m.root) by {
      SizeByKeys(keys, m.root);
    }
    assert !m.ContainsKey("B") by {
      QueryByKeys(keys, m.root, "B");
    }
    size := m.Size();
    capacity := m.Capacity();
    hasDefault := m.HasDefault();
    atA := m.AtKey("A");
    first := m.At(0);
    findB := m.FindPosition("B");
    end := m.End();
  }

  const MultiMapKeys: seq<InsertKey> := [Key("A"), Key("ABC"), Key("FFF"), Key("AC")]
  const MultiMapValues: seq<int> := [0xA, 0xABC, 0xFFF, 0xAC]

  /** Four keys, one a prefix of another: the sizes and the values of two keys. */
  method MapMultiInsertions(keys: seq<InsertKey>, values: seq<int>)
    returns (size: nat, capacity: nat, atAC: int, atFFF: int)
    requires keys == MultiMapKeys && values == MultiMapValues
    ensures size == 4 && capacity == 4
    ensures atAC == 0xAC && atFFF == 0xFFF
  {
    assert Distinct(keys) && DefaultKey !in keys;
    var r := BuildMap(keys, values);
    var m := r.value;
    assert Trie.Capacity(m.root) == 4 && !HasDefault(m.root) by {
      SizeByKeys(keys, m.root);
    }
    size := m.Size();
    capacity := m.Capacity();
    atAC := m.AtKey(keys[3].chars);
    atFFF := m.AtKey(keys[2].chars);
  }

  /** In the same map, a proper prefix of a key is not found. */
  method MapPartialKeyNotFound(keys: seq<InsertKey>, values: seq<int>) returns (findFF: nat, end: nat)
    requires keys == MultiMapKeys && values == MultiMapValues
    ensures findFF == end
  {
    assert Distinct(keys) && Key("FF") !in keys;
    var r := BuildMap(keys, values);
    var m := r.value;
    assert !m.ContainsKey("FF") by {
      QueryByKeys(keys, m.root, "FF");
    }
    findFF := m.FindPosition("FF");
    end := m.End();
  }

  const DefaultMapKeys: seq<InsertKey> := [Key("A"), Key("B"), DefaultKey]

  /** Two keys and a default: an unknown key is not found, and indexing by it gives the default. */
  method MapWithDefaultKey(keys: seq<InsertKey>, values: seq<int>)
    returns (size: nat, capacity: nat, hasDefault: bool, dflt: int, atA: int, atC: int, findC: nat, end: nat)
    requires keys == DefaultMapKeys && values == [0xA, 0xB, 0xDEF]
    ensures size == 2 && capacity == 3 && hasDefault && dflt == 0xDEF
    ensures atA == 0xA && atC == 0xDEF && findC == end
  {
    assert Distinct(keys) && keys[0] == Key("A") && keys[2] == DefaultKey && Key("C") !in keys;
    var r := BuildMap(keys, values);
    var m := r.value;
    assert Trie.Capacity(m.root) == 3 && HasDefault(m.root) by {
      SizeByKeys(keys, m.root);
    }
    assert !m.ContainsKey("C") by {
      QueryByKeys(keys, m.root, "C");
    }
    size := m.Size();
    capacity := m.Capacity();
    hasDefault := m.HasDefault();
    dflt := m.GetDefault();
    atA := m.AtKey(keys[0].chars);
    atC := m.AtKey("C");
    findC := m.FindPosition("C");
    end := m.End();
  }

  // ---------------------------------------------------------------------------
  // The map of the demo program, built step by step

  /** The single path a key spells when it is inserted into an empty node. */
  function Path(s: string): (n: Node)
    ensures Size(n) == 1
  {
    if s == [] then [Leaf] else [Edge(s[0], Path(s[1..]))]
  }

  /** Inserting into an empty node makes exactly the key's path. */
  lemma {:induction false} InsertIntoEmpty(s: string)
    ensures InsertChars([], s) == Ok(Path(s))
    decreases |s|
  {
    var empty: Node := [];
    if s == [] {
      assert !HasLeaf(empty);
      assert empty + [Leaf] == [Leaf];
    } else {
      InsertIntoEmpty(s[1..]);
      assert FirstMatch(empty, s[0]) == 0;
      assert empty + [Edge(s[0], Path(s[1..]))] == [Edge(s[0], Path(s[1..]))];
    }
  }

  /**
   * Building is inserting the keys one by one into the empty node: when each
   * stage inserts the next key into the stage before it, the keys build the last stage.
   */
  lemma {:induction false} BuildChain(keys: seq<InsertKey>, stages: seq<Node>)
    requires |stages| == |keys| + 1 && stages[0] == []
    requires forall i :: 0 <= i < |keys| ==> Insert(stages[i], keys[i]) == Ok(stages[i + 1])
    ensures Build(keys) == Ok(stages[|keys|])
    decreases |keys|
  {
    if keys != [] {
      var k := |keys| - 1;
      BuildChain(keys[..k], stages[..k + 1]);
    }
  }

  /** The keys of the demo program, default last. */
  const DemoKeys: seq<InsertKey> := [Key("AA"), Key("BA"), Key("A"), Key("AB"), DefaultKey]

  /** The nodes after each of the first four insertions, and the finished trie. */
  const DemoStage1: Node := [Edge('A', [Edge('A', [Leaf])])]
  const DemoStage2: Node := [Edge('A', [Edge('A', [Leaf])]), Edge('B', [Edge('A', [Leaf])])]
  const DemoStage3: Node := [Edge('B', [Edge('A', [Leaf])]), Edge('A', [Edge('A', [Leaf]), Leaf])]
  const DemoStage4: Node :=
    [Edge('B', [Edge('A', [Leaf])]), Edge('A', [Edge('A', [Leaf]), Leaf, Edge('B', [Leaf])])]
  const DemoRoot: Node :=
    [Edge('B', [Edge('A', [Leaf])]), Edge('A', [Edge('A', [Leaf]), Leaf, Edge('B', [Leaf])]), Default]

  /** "AA" into the empty root: a new edge. */
  lemma Step1()
    ensures Insert([], Key("AA")) == Ok(DemoStage1)
  {
    InsertIntoEmpty("AA");
  }

  /** "BA": no edge for 'B', so a new edge is appended. */
  lemma Step2()
    ensures Insert(DemoStage1, Key("BA")) == Ok(DemoStage2)
  {
    var n1: Node := DemoStage1;
    assert n1[1..] == [];
    assert FirstMatch(n1, 'B') == 1;
    assert "BA"[1..] == "A" && "A"[1..] == [];
    InsertIntoEmpty("A");
    assert Path("A") == [Edge('A', [Leaf])];
    assert InsertChars(n1, "BA") == Ok(n1 + [Edge('B', [Edge('A', [Leaf])])]);
    assert n1 + [Edge('B', [Edge('A', [Leaf])])] == DemoStage2;
  }

  /** "A": the 'A' edge gains a leaf and moves behind the 'B' edge. */
  lemma Step3()
    ensures Insert(DemoStage2, Key("A")) == Ok(DemoStage3)
  {
    var a: Node := [Edge('A', [Leaf])];
    assert !HasLeaf(a) && a + [Leaf] == [Edge('A', [Leaf]), Leaf];
    var n2: Node := DemoStage2;
    assert FirstMatch(n2, 'A') == 0;
    assert "A"[1..] == [];
    assert InsertChars(a, []) == Ok([Edge('A', [Leaf]), Leaf]);
    assert n2[..0] + n2[1..] == [Edge('B', a)];
    assert InsertChars(n2, "A") == Ok([Edge('B', a)] + [Edge('A', [Edge('A', [Leaf]), Leaf])]);
    assert [Edge('B', a)] + [Edge('A', [Edge('A', [Leaf]), Leaf])] == DemoStage3;
  }

  /** "AB": the 'A' edge gains a 'B' edge and stays last. */
  lemma Step4()
    ensures Insert(DemoStage3, Key("AB")) == Ok(DemoStage4)
  {
    InsertIntoEmpty([]);
    var c: Node := [Edge('A', [Leaf]), Leaf];
    assert c[1..][1..] == [];
    assert FirstMatch(c, 'B') == 2;
    assert "AB"[1..] == "B" && "B"[1..] == [];
    assert InsertChars(c, "B") == Ok(c + [Edge('B', [Leaf])]);
    assert c + [Edge('B', [Leaf])] == [Edge('A', [Leaf]), Leaf, Edge('B', [Leaf])];
    var n3: Node := DemoStage3;
    assert n3[1..][1..] == [];
    assert FirstMatch(n3, 'A') == 1;
    assert n3[..1] + n3[2..] == [n3[0]];
    assert InsertChars(n3, "AB") == Ok([n3[0]] + [Edge('A', c + [Edge('B', [Leaf])])]);
    assert [n3[0]] + [Edge('A', c + [Edge('B', [Leaf])])] == DemoStage4;
  }

  /** The default last: appended behind everything. */
  lemma Step5()
    ensures Insert(DemoStage4, DefaultKey) == Ok(DemoRoot)
  {
    assert !HasDefault(DemoStage4);
    assert DemoStage4 + [Default] == DemoRoot;
  }

  /** The demo keys build `DemoRoot`. */
  lemma DemoTrie(keys: seq<InsertKey>)
    requires keys == DemoKeys
    ensures Build(keys) == Ok(DemoRoot)
  {
    var stages := [[], DemoStage1, DemoStage2, DemoStage3, DemoStage4, DemoRoot];
    forall i | 0 <= i < 5
      ensures Insert(stages[i], keys[i]) == Ok(stages[i + 1])
    {
      if i == 0 {
        assert stages[0] == [] && stages[1] == DemoStage1 && keys[0] == Key("AA");
        Step1();
      } else if i == 1 {
        assert stages[1] == DemoStage1 && stages[2] == DemoStage2 && keys[1] == Key("BA");
        Step2();
      } else if i == 2 {
        assert stages[2] == DemoStage2 && stages[3] == DemoStage3 && keys[2] == Key("A");
        Step3();
      } else if i == 3 {
        assert stages[3] == DemoStage3 && stages[4] == DemoStage4 && keys[3] == Key("AB");
        Step4();
      } else {
        assert stages[4] == DemoStage4 && stages[5] == DemoRoot && keys[4] == DefaultKey;
        Step5();
      }
    }
    BuildChain(keys, stages);
  }

  /** The two children of `DemoRoot`'s edges for 'A'. */
  const LeafA: Node := [Edge('A', [Leaf])]
  const ChildA: Node := [Edge('A', [Leaf]), Leaf, Edge('B', [Leaf])]

  /** Sizes and match lengths of the demo nodes. */
  lemma DemoShape()
    ensures Find([Leaf], []) == 0
    ensures MaxMatchLength(LeafA) == 1 && Size(LeafA) == 1
    ensures MaxMatchLength(ChildA) == 1 && Size(ChildA) == 3
    ensures MaxMatchLength(DemoRoot) == 2 && Size(DemoRoot) == 4
  {
    assert LeafA[1..] == [];
    assert ChildA[1..][1..][1..] == [];
    assert DemoRoot[1..][1..][1..] == [];
  }

  /** The slots of the demo keys: "BA" first, since its edge now leads the root. */
  lemma SlotBA()
    ensures Find(DemoRoot, "BA") == 0
  {
    DemoShape();
    assert "BA"[1..] == "A" && "A"[1..] == [];
    assert Find(LeafA, "A") == 0;
  }

  lemma SlotAA()
    ensures Find(DemoRoot, "AA") == 1
  {
    DemoShape();
    assert "AA"[1..] == "A" && "A"[1..] == [];
    assert FirstMatch(DemoRoot, 'A') == 1;
    assert Find(ChildA, "A") == 0;
    assert SizeUntil(DemoRoot, DemoRoot[1]) == 1;
  }

  lemma SlotA()
    ensures Find(DemoRoot, "A") == 2
  {
    DemoShape();
    assert "A"[1..] == [];
    assert FirstMatch(DemoRoot, 'A') == 1;
    assert SizeUntil(ChildA, Leaf) == 1;
    assert Find(ChildA, []) == 1;
    assert SizeUntil(DemoRoot, DemoRoot[1]) == 1;
  }

  lemma SlotAB()
    ensures Find(DemoRoot, "AB") == 3
  {
    DemoShape();
    assert "AB"[1..] == "B" && "B"[1..] == [];
    assert FirstMatch(DemoRoot, 'A') == 1;
    assert FirstMatch(ChildA, 'B') == 2;
    assert SizeUntil(ChildA, ChildA[2]) == 2;
    assert Find(ChildA, "B") == 2;
    assert SizeUntil(DemoRoot, DemoRoot[1]) == 1;
  }

  /** The slots of the demo keys, in the order the keys were given. */
  lemma DemoSlots(keys: seq<InsertKey>)
    requires keys == DemoKeys
    ensures Find(DemoRoot, keys[0].chars) == 1 && Find(DemoRoot, keys[1].chars) == 0
    ensures Find(DemoRoot, keys[2].chars) == 2 && Find(DemoRoot, keys[3].chars) == 3
  {
    SlotAA();
    SlotBA();
    SlotA();
    SlotAB();
  }

  /** Sequence extensionality for five elements, kept apart to keep the concrete proof small. */
  lemma FiveSlots(x: seq<nat>, a: nat, b: nat, c: nat, d: nat, e: nat)
    requires |x| == 5 && x[0] == a && x[1] == b && x[2] == c && x[3] == d && x[4] == e
    ensures x == [a, b, c, d, e]
  {
  }

  /**
   * The slots of the demo keys in the order given: the default takes the last
   * one, and "BA" comes first although it was given second.
   */
  lemma DemoSlotOrder(keys: seq<InsertKey>)
    requires keys == DemoKeys
    ensures Slots(DemoRoot, keys) == [1, 0, 2, 3, 4]
  {
    var slots := Slots(DemoRoot, keys);
    assert slots[0] == 1 && slots[1] == 0 && slots[2] == 2 && slots[3] == 3 by {
      DemoSlots(keys);
    }
    assert slots[4] == 4 by {
      DemoShape();
      assert HasDefault(DemoRoot);
    }
    FiveSlots(slots, 1, 0, 2, 3, 4);
  }

  /**
   * What the demo program prints for one argument: the value of the key when it
   * is found, and otherwise the value indexing by it gives, which is the default.
   */
  method FindOrIndex<T>(m: ArrayMap<T>, txt: string) returns (found: bool, v: T)
    requires m.Valid() && m.HasDefault()
    ensures found <==> m.ContainsKey(txt)
    ensures found ==> m.IndexOf(txt) < m.Size() && v == m.data[m.IndexOf(txt)]
    ensures !found ==> v == m.data[m.Size()]
  {
    var pos := m.FindPosition(txt);
    if pos != m.End() {
      found := true;
      v := m.At(pos);
    } else {
      found := false;
      v := m.AtKey(txt);
    }
  }
}
