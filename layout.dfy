/**
 * How the keys handed to the builder spread over the value slots of the trie
 * they build: one slot each, all different, and every slot taken.
 */
module Layout {
  import opened Trie
  import opened Insertion
  import opened Lookup

  /** The slot of every key, in the order the keys were given. */
  function Slots(n: Node, keys: seq<InsertKey>): (slots: seq<nat>)
    requires DefaultKey in keys ==> HasDefault(n)
    ensures |slots| == |keys|
    ensures forall i :: 0 <= i < |keys| && keys[i].Key? ==> slots[i] <= End(n)
  {
    seq(|keys|, i requires 0 <= i < |keys| => FindKey(n, keys[i]))
  }

  /**
   * For a trie built from `keys`, the slots of the keys are a one-to-one map
   * onto the capacity positions: character keys take `[0, size)`, the default
   * takes `size`, no two keys share a slot, and no position is left over.
   */
  lemma SlotsAreBijection(keys: seq<InsertKey>, n: Node)
    requires Build(keys) == Ok(n)
    ensures DefaultKey in keys ==> HasDefault(n)
    ensures forall i :: 0 <= i < |keys| ==> Slots(n, keys)[i] < Capacity(n)
    ensures forall i :: 0 <= i < |keys| ==> (keys[i].Key? <==> Slots(n, keys)[i] < Size(n))
    ensures forall i, j :: 0 <= i < j < |keys| ==> Slots(n, keys)[i] != Slots(n, keys)[j]
    ensures forall p :: 0 <= p < Capacity(n) ==> p in Slots(n, keys)
  {
    BuildCorrect(keys);
    var slots := Slots(n, keys);
    forall i | 0 <= i < |keys| && keys[i].Key?
      ensures slots[i] < Size(n)
    {
      assert Key(keys[i].chars) in keys;
      FindHitIffKey(n, keys[i].chars);
    }
    forall i, j | 0 <= i < j < |keys|
      ensures slots[i] != slots[j]
    {
      if keys[i].Key? && keys[j].Key? && slots[i] == slots[j] {
        assert Key(keys[i].chars) in keys && Key(keys[j].chars) in keys;
        FindInjective(n, keys[i].chars, keys[j].chars);
      }
    }
    forall p | 0 <= p < Capacity(n)
      ensures p in slots
    {
      if p < Size(n) {
        var s := FindOnto(n, p);
        var i :| 0 <= i < |keys| && keys[i] == Key(s);
        assert slots[i] == p;
      } else {
        var i :| 0 <= i < |keys| && keys[i] == DefaultKey;
        assert slots[i] == p;
      }
    }
  }
}
