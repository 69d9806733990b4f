/**
 * The finished map: the keys' values permuted into the slot order of the trie
 * they built, held in a fixed-length array next to that trie.
 */
module ArrayMaps {
  import opened Trie
  import opened Insertion
  import opened Lookup
  import opened Layout

  /** The first argument position whose slot is `p`, or the number of arguments when none is. */
  method FindKeyIdx(slots: seq<nat>, p: nat) returns (i: nat)
    ensures i <= |slots|
    ensures i < |slots| ==> slots[i] == p
    ensures forall j :: 0 <= j < i ==> slots[j] != p
  {
    i := 0;
    while i != |slots|
      invariant i <= |slots|
      invariant forall j :: 0 <= j < i ==> slots[j] != p
    {
      if slots[i] == p {
        return;
      }
      i := i + 1;
    }
  }

  /** No argument before the `i`-th has the same slot. */
  predicate FirstWithSlot(slots: seq<nat>, i: nat)
    requires i < |slots|
  {
    forall j :: 0 <= j < i ==> slots[j] != slots[i]
  }

  /** Position `p` holds the value of an argument whose slot is `p`. */
  ghost predicate FilledFromSlot<T>(slots: seq<nat>, values: seq<T>, ordered: seq<T>, p: nat)
    requires |slots| == |values| && p < |ordered|
  {
    exists i :: 0 <= i < |slots| && slots[i] == p && ordered[p] == values[i]
  }

  /**
   * The value order of the finished array: position `p` takes the value of the
   * first argument whose slot is `p`. Every position has to be some argument's
   * slot; the original does not compile otherwise.
   */
  method AssembleValues<T>(slots: seq<nat>, values: seq<T>, capacity: nat) returns (ordered: seq<T>)
    requires |slots| == |values|
    requires forall p :: 0 <= p < capacity ==> p in slots
    ensures |ordered| == capacity
    ensures forall p :: 0 <= p < capacity ==> FilledFromSlot(slots, values, ordered, p)
    ensures forall i :: 0 <= i < |slots| && slots[i] < capacity && FirstWithSlot(slots, i) ==>
      ordered[slots[i]] == values[i]
  {
    ordered := [];
    ghost var taken: seq<nat> := [];
    var pos := 0;
    while pos < capacity
      invariant pos <= capacity && |ordered| == pos && |taken| == pos
      invariant forall q :: 0 <= q < pos ==>
        taken[q] < |slots| && slots[taken[q]] == q && ordered[q] == values[taken[q]] &&
        forall j :: 0 <= j < taken[q] ==> slots[j] != q
    {
      var k := FindKeyIdx(slots, pos);
      assert pos in slots;
      assert k < |slots| by {
        var j :| 0 <= j < |slots| && slots[j] == pos;
      }
      ordered := ordered + [values[k]];
      taken := taken + [k];
      pos := pos + 1;
    }
    forall q | 0 <= q < capacity
      ensures FilledFromSlot(slots, values, ordered, q)
    {
      var i := taken[q];
      assert 0 <= i < |slots| && slots[i] == q && ordered[q] == values[i];
    }
    forall i | 0 <= i < |slots| && slots[i] < capacity && FirstWithSlot(slots, i)
      ensures ordered[slots[i]] == values[i]
    {
      var q := slots[i];
      assert taken[q] == i;
    }
  }

  /**
   * A fixed-length value array laid out by a trie. Positions `[0, size)` hold the
   * keys' values in slot order; position `size`, when there is a default, holds
   * the default value and is the last one.
   */
  class ArrayMap<T> {
    const root: Node
    const data: array<T>

    ghost predicate Valid()
    {
      WellFormed(root) && data.Length == Trie.Capacity(root)
    }

    constructor (root: Node, values: seq<T>)
      requires WellFormed(root) && |values| == Trie.Capacity(root)
      ensures Valid()
      ensures this.root == root && data[..] == values && fresh(data)
    {
      this.root := root;
      data := new T[|values|](i requires 0 <= i < |values| => values[i]);
    }

    function Size(): nat
    {
      Trie.Size(root)
    }

    function Capacity(): (r: nat)
      requires Valid()
      ensures r == data.Length
      ensures r == Size() || (HasDefault() && r == Size() + 1)
    {
      Trie.Capacity(root)
    }

    predicate Empty()
    {
      Trie.Size(root) == 0
    }

    predicate HasDefault()
    {
      Trie.HasDefault(root)
    }

    /** The position a query resolves to: a key's slot, or `size` when it is no key. */
    function IndexOf(s: string): (pos: nat)
      ensures pos <= Size()
    {
      Find(root, s)
    }

    predicate ContainsKey(s: string)
    {
      Contains(root, s)
    }

    /** The position one past the iterated range. */
    function End(): nat
    {
      Size()
    }

    /** The position of a query's value; it is the end exactly when the query is no key. */
    function FindPosition(s: string): (pos: nat)
      requires Valid()
      ensures pos <= End()
      ensures pos == End() <==> !ContainsKey(s)
    {
      ContainsIffFound(root, s);
      Find(root, s)
    }

    /**
     * Indexing by string, unchecked: the caller must know the key is present or
     * that there is a default, which an absent key then lands on.
     */
    method AtKey(s: string) returns (v: T)
      requires Valid()
      requires ContainsKey(s) || HasDefault()
      ensures ContainsKey(s) ==> IndexOf(s) < Size() && v == data[IndexOf(s)]
      ensures !ContainsKey(s) ==> v == data[data.Length - 1]
    {
      ContainsIffFound(root, s);
      v := data[IndexOf(s)];
    }

    /** Indexing by position, unchecked. */
    method At(pos: nat) returns (v: T)
      requires pos < data.Length
      ensures v == data[pos]
    {
      v := data[pos];
    }

    /** What iteration visits: the key slots, never the default slot. */
    function Elements(): (r: seq<T>)
      reads data
      requires Valid()
      ensures |r| == Size()
      ensures !HasDefault() ==> r == data[..]
      ensures HasDefault() ==> r + [data[data.Length - 1]] == data[..]
    {
      data[..Size()]
    }

    /** The last element, which is the default value when there is one. */
    method GetDefault() returns (v: T)
      requires Valid() && data.Length > 0
      ensures v == data[data.Length - 1]
      ensures HasDefault() ==> v == data[Size()]
    {
      v := data[data.Length - 1];
    }
  }

  /** Position `p` of `ordered` holds the value of a character key whose slot is `p`. */
  ghost predicate HeldByKey<T>(n: Node, keys: seq<InsertKey>, values: seq<T>, ordered: seq<T>, p: nat)
    requires |keys| == |values| && p < |ordered|
  {
    exists i :: 0 <= i < |keys| && keys[i].Key? && Find(n, keys[i].chars) == p && ordered[p] == values[i]
  }

  /**
   * Building the map: build the trie from the keys, resolve every key's slot in
   * the finished trie, and put each value at the slot of the key it came with;
   * the default's value lands at `size`. Fails exactly as building the trie does.
   */
  method BuildMap<T>(keys: seq<InsertKey>, values: seq<T>) returns (r: Result<ArrayMap<T>>)
    requires |keys| == |values|
    ensures r.Err? <==> Build(keys).Err?
    ensures r.Err? ==> r.error == Build(keys).error
    ensures r.Ok? <==> Distinct(keys)
    ensures r.Ok? ==> r.value.Valid() && Build(keys) == Ok(r.value.root)
    ensures r.Ok? ==> forall i :: 0 <= i < |keys| && keys[i].Key? ==>
      r.value.ContainsKey(keys[i].chars) && r.value.IndexOf(keys[i].chars) < r.value.Size() &&
      r.value.data[r.value.IndexOf(keys[i].chars)] == values[i]
    ensures r.Ok? ==> forall i :: 0 <= i < |keys| && keys[i].DefaultKey? ==>
      r.value.HasDefault() && r.value.data[r.value.Size()] == values[i]
    ensures r.Ok? ==> forall p :: 0 <= p < r.value.Size() ==>
      HeldByKey(r.value.root, keys, values, r.value.data[..], p)
  {
    BuildCorrect(keys);
    var built := Build(keys);
    if built.Err? {
      return Err(built.error);
    }
    var root := built.value;
    SlotsAreBijection(keys, root);
    var slots := Slots(root, keys);
    var ordered := AssembleValues(slots, values, Trie.Capacity(root));
    KeysAssembled(keys, values, root, ordered);
    DefaultAssembled(keys, values, root, ordered);
    SizeRangeAssembled(keys, values, root, ordered);
    var m := new ArrayMap(root, ordered);
    r := Ok(m);
  }

  /** Each key's slot is the first argument position with that slot, since slots are distinct. */
  lemma AllFirstWithSlot(keys: seq<InsertKey>, n: Node)
    requires Build(keys) == Ok(n)
    requires DefaultKey in keys ==> HasDefault(n)
    ensures forall i :: 0 <= i < |keys| ==> FirstWithSlot(Slots(n, keys), i)
  {
    SlotsAreBijection(keys, n);
  }

  /** A character key's value sits at that key's slot, which is below the size. */
  lemma KeysAssembled<T>(keys: seq<InsertKey>, values: seq<T>, n: Node, ordered: seq<T>)
    requires |keys| == |values| && Build(keys) == Ok(n)
    requires DefaultKey in keys ==> HasDefault(n)
    requires |ordered| == Capacity(n)
    requires forall i :: 0 <= i < |keys| && Slots(n, keys)[i] < Capacity(n) && FirstWithSlot(Slots(n, keys), i) ==>
      ordered[Slots(n, keys)[i]] == values[i]
    ensures forall i :: 0 <= i < |keys| && keys[i].Key? ==>
      Contains(n, keys[i].chars) && Find(n, keys[i].chars) < Size(n) &&
      ordered[Find(n, keys[i].chars)] == values[i]
  {
    SlotsAreBijection(keys, n);
    AllFirstWithSlot(keys, n);
    BuildCorrect(keys);
    forall i | 0 <= i < |keys| && keys[i].Key?
      ensures Contains(n, keys[i].chars)
    {
      assert Key(keys[i].chars) in keys;
      PruneNeverChangesContains(n, keys[i].chars);
    }
  }

  /** The default's value sits at position `size`. */
  lemma DefaultAssembled<T>(keys: seq<InsertKey>, values: seq<T>, n: Node, ordered: seq<T>)
    requires |keys| == |values| && Build(keys) == Ok(n)
    requires DefaultKey in keys ==> HasDefault(n)
    requires |ordered| == Capacity(n)
    requires forall i :: 0 <= i < |keys| && Slots(n, keys)[i] < Capacity(n) && FirstWithSlot(Slots(n, keys), i) ==>
      ordered[Slots(n, keys)[i]] == values[i]
    ensures forall i :: 0 <= i < |keys| && keys[i].DefaultKey? ==>
      HasDefault(n) && ordered[Size(n)] == values[i]
  {
    SlotsAreBijection(keys, n);
    AllFirstWithSlot(keys, n);
    forall i | 0 <= i < |keys| && keys[i].DefaultKey?
      ensures HasDefault(n) && ordered[Size(n)] == values[i]
    {
      assert keys[i] in keys;
      assert Slots(n, keys)[i] == Size(n);
    }
  }

  /** Every position below the size holds the value of the key resolving there. */
  lemma SizeRangeAssembled<T>(keys: seq<InsertKey>, values: seq<T>, n: Node, ordered: seq<T>)
    requires |keys| == |values| && Build(keys) == Ok(n)
    requires DefaultKey in keys ==> HasDefault(n)
    requires |ordered| == Capacity(n)
    requires forall p :: 0 <= p < Capacity(n) ==> FilledFromSlot(Slots(n, keys), values, ordered, p)
    ensures forall p :: 0 <= p < Size(n) ==> HeldByKey(n, keys, values, ordered, p)
  {
    SlotsAreBijection(keys, n);
    var slots := Slots(n, keys);
    forall p | 0 <= p < Size(n)
      ensures HeldByKey(n, keys, values, ordered, p)
    {
      assert FilledFromSlot(slots, values, ordered, p);
      var i :| 0 <= i < |slots| && slots[i] == p && ordered[p] == values[i];
      assert keys[i].Key?;
    }
  }
}
