/**
 * The skip list itself: a header node with `MaxLevel` slots over an arena of
 * nodes, the `length` and `size` counters, and the operations `Add`, `Search`
 * and `Size`. The ghost field `chains` names, for every level, the nodes that
 * level links in order; `Valid` ties the links to it.
 */
module SkipLists {
  import opened Wrappers
  import opened Bytes
  import opened Codec
  import opened Scores
  import opened Arena

  /** `p` is the header, or a node with a slot for level `i` whose key is below `key`. */
  ghost predicate Before(nodes: seq<Element>, p: nat, i: nat, key: seq<Byte>) {
    Shape(nodes) && p < |nodes| && i < |nodes[p].levels| &&
    (p == 0 || Less(KeyAt(nodes, p), key))
  }

  /** The level-`i` link of `p` is nil or a node whose key is above `key`. */
  ghost predicate Beyond(nodes: seq<Element>, key: seq<Byte>, p: nat, i: nat) {
    Before(nodes, p, i, key) &&
    (nodes[p].levels[i] == Nil || Less(key, KeyAt(nodes, nodes[p].levels[i])))
  }

  /**
   * The walk along level `i` of chain `c` stopped at `p`: `p` is before `key`,
   * its level-`i` link is nil or above `key`, and it is the recorded predecessor.
   */
  ghost predicate Stopped(nodes: seq<Element>, c: seq<nat>, key: seq<Byte>, p: nat, i: nat) {
    Beyond(nodes, key, p, i) && Recorded(nodes, c, key, p)
  }

  /**
   * One level of the descent: from `start`, follow level `i` while the next
   * node's key is below `key`. Stops at the node holding `key`, or at the
   * last node before it, which is that level's recorded predecessor.
   */
  method WalkLevel(nodes: seq<Element>, ghost chains: seq<seq<nat>>, key: seq<Byte>, score: nat, i: nat, start: nat)
    returns (found: int, last: nat)
    requires WellFormed(nodes, chains) && i < MaxLevel && score == Score(key) && Before(nodes, start, i, key)
    ensures found != Nil ==> 1 <= found < |nodes| && i < |nodes[found].levels| && KeyAt(nodes, found) == key
    ensures found == Nil ==> Stopped(nodes, chains[i], key, last, i)
  {
    ChainOf(nodes, chains, i);
    ghost var c := chains[i];
    found := Nil;
    last := start;
    ghost var m := PositionOf(nodes, c, i, last, key);
    var next := nodes[last].levels[i];
    while next != Nil
      invariant m <= |c| && last == PredNode(c, m) && next == Succ(c, m - 1)
      invariant Before(nodes, last, i, key) && next == nodes[last].levels[i]
      invariant forall l :: 0 <= l < m ==> Less(KeyAt(nodes, c[l]), key)
      decreases |c| - m
    {
      assert next == c[m];
      assert IsNode(nodes[next]);
      CompareMatchesBytes(key, nodes[next]);
      var comp := Arena.Compare(score, key, nodes[next]);
      if comp <= 0 {
        if comp == 0 {
          found := next;
          return;
        }
        break;
      }
      CompareAntisymmetric(key, KeyAt(nodes, next));
      last := next;
      next := nodes[last].levels[i];
      m := m + 1;
    }
    PredAt(nodes, c, m, key);
  }

  /**
   * The descent shared by `Add` and `Search`: from the top level down, walk
   * right while the next key is smaller, record the last node visited on each
   * level, and skip the levels whose slot still points at the same node.
   * Either the key is found on some level, or every level's predecessor is
   * recorded.
   */
  method Descend(nodes: seq<Element>, ghost chains: seq<seq<nat>>, key: seq<Byte>, score: nat)
    returns (found: int, prev: seq<nat>)
    requires WellFormed(nodes, chains) && score == Score(key)
    ensures found != Nil ==> 1 <= found < |nodes| && 0 < |nodes[found].levels| && KeyAt(nodes, found) == key
    ensures found == Nil ==>
      |prev| == MaxLevel && forall j :: 0 <= j < MaxLevel ==> Recorded(nodes, chains[j], key, prev[j])
  {
    found := Nil;
    var prevElem: nat := 0;
    prev := seq(MaxLevel, _ => 0);
    var i: int := |nodes[0].levels| - 1;
    while i >= 0
      invariant -1 <= i < MaxLevel && |prev| == MaxLevel && found == Nil
      invariant RecordedFrom(nodes, chains, key, prev, i + 1)
      invariant i >= 0 ==> Before(nodes, prevElem, i, key)
      decreases i + 1
    {
      var f, last := WalkLevel(nodes, chains, key, score, i, prevElem);
      if f != Nil {
        found := f;
        return;
      }
      prevElem := last;
      RecordLevel(nodes, chains, key, prev, i, prevElem);
      prev := prev[i := prevElem];
      i, prev := SkipLevels(nodes, chains, key, prevElem, i, prev);
    }
    RecordedFromAll(nodes, chains, key, prev, 0);
  }

  /**
   * Below level `top`, where the walk stopped at `p`, records `p` for every
   * level whose slot at `p` points at the same node as its slot on `top`:
   * those levels need no walk. Stops at the first level below `top` whose
   * slot points elsewhere, or at -1; no other level of `prev` changes, and
   * every level from the one it stops at up is then recorded.
   */
  method SkipLevels(nodes: seq<Element>, ghost chains: seq<seq<nat>>, key: seq<Byte>, p: nat, top: nat, prev: seq<nat>)
    returns (i: int, prev': seq<nat>)
    requires WellFormed(nodes, chains) && top < MaxLevel && |prev| == MaxLevel
    requires Beyond(nodes, key, p, top) && RecordedFrom(nodes, chains, key, prev, top)
    ensures -1 <= i < top && |prev'| == MaxLevel
    ensures i >= 0 ==> nodes[p].levels[i] != nodes[p].levels[top]
    ensures forall l :: i < l < top ==> nodes[p].levels[l] == nodes[p].levels[top]
    ensures forall l :: 0 <= l < MaxLevel ==> prev'[l] == if i < l < top then p else prev[l]
    ensures RecordedFrom(nodes, chains, key, prev', i + 1)
  {
    var topLevel := nodes[p].levels[top];
    prev' := prev;
    i := top - 1;
    while i >= 0 && nodes[p].levels[i] == topLevel
      invariant -1 <= i < top && |prev'| == MaxLevel
      invariant forall l :: i < l < top ==> nodes[p].levels[l] == topLevel
      invariant forall l :: 0 <= l < MaxLevel ==> prev'[l] == if i < l < top then p else prev[l]
      decreases i + 1
    {
      prev' := prev'[i := p];
      i := i - 1;
    }
    SkippedRecorded(nodes, chains, key, p, top, i + 1, prev, prev');
  }

  /**
   * The levels `SkipLevels` passed over have `p` as their recorded
   * predecessor: `p`'s slot on each of them points where its slot on `top`
   * does, which is nil or a node above `key`.
   */
  lemma {:induction false} SkippedRecorded(nodes: seq<Element>, chains: seq<seq<nat>>, key: seq<Byte>, p: nat, top: nat,
                                           lo: nat, prev: seq<nat>, prev': seq<nat>)
    requires WellFormed(nodes, chains) && lo <= top < MaxLevel && Beyond(nodes, key, p, top)
    requires |prev| == MaxLevel && |prev'| == MaxLevel && RecordedFrom(nodes, chains, key, prev, top)
    requires forall l :: lo <= l < top ==> nodes[p].levels[l] == nodes[p].levels[top]
    requires forall l :: 0 <= l < MaxLevel ==> prev'[l] == if lo <= l < top then p else prev[l]
    ensures RecordedFrom(nodes, chains, key, prev', lo)
  {
    forall j | lo <= j < MaxLevel
      ensures RecordedOn(nodes, chains, key, prev', j)
    {
      if j < top {
        ChainOf(nodes, chains, j);
        RecordedAt(nodes, chains[j], j, p, key);
      } else {
        assert RecordedOn(nodes, chains, key, prev, j);
      }
    }
  }

  /**
   * The arena side of `Add`: descends to `data.key`, then either replaces the
   * entry of the node holding that key or appends a node of `level` slots
   * and links it right after the recorded predecessor on each of its levels.
   * `inserted` tells which of the two happened.
   */
  method Put(nodes: seq<Element>, ghost chains: seq<seq<nat>>, data: Entry, level: nat)
    returns (ns: seq<Element>, ghost cs: seq<seq<nat>>, inserted: bool)
    requires WellFormed(nodes, chains) && level <= MaxLevel
    ensures WellFormed(ns, cs)
    ensures inserted <==> data.key !in ContentsOf(nodes, chains[0])
    ensures !inserted ==>
      cs == chains &&
      (exists q :: 1 <= q < |nodes| && KeyAt(nodes, q) == data.key && ns == nodes[q := nodes[q].(entry := Some(data))]) &&
      ContentsOf(ns, cs[0]) == ContentsOf(nodes, chains[0])[data.key := data] &&
      KeysOf(ns, cs[0]) == KeysOf(nodes, chains[0]) &&
      SizeOf(ns, cs[0]) + ContentsOf(nodes, chains[0])[data.key].size == SizeOf(nodes, chains[0]) + data.size
    ensures inserted ==>
      |ns| == |nodes| + 1 && SameData(ns, nodes + [NewElement(Score(data.key), data, level)]) &&
      forall j :: 0 <= j < MaxLevel ==>
        cs[j] == if j < level then InsertAt(chains[j], PredPos(nodes, chains[j], data.key), |nodes|) else chains[j]
    ensures inserted && 0 < level ==>
      var m := PredPos(nodes, chains[0], data.key);
      ContentsOf(ns, cs[0]) == ContentsOf(nodes, chains[0])[data.key := data] &&
      SizeOf(ns, cs[0]) == SizeOf(nodes, chains[0]) + data.size &&
      KeysOf(ns, cs[0]) == KeysOf(nodes, chains[0])[..m] + [data.key] + KeysOf(nodes, chains[0])[m..]
    ensures inserted && level == 0 ==>
      ContentsOf(ns, cs[0]) == ContentsOf(nodes, chains[0]) && SizeOf(ns, cs[0]) == SizeOf(nodes, chains[0]) &&
      KeysOf(ns, cs[0]) == KeysOf(nodes, chains[0])
  {
    ChainInArena(nodes, chains, 0);
    ContentsKeysOf(nodes, chains[0], data.key);
    ContentsKeys(nodes, chains[0], data.key);
    var score := CalcScore(data.key);
    var found, prev := Descend(nodes, chains, data.key, score);
    if found != Nil {
      OnLevelZero(nodes, chains, found);
      UpdateOutcome(nodes, chains, found, data);
      ns, cs, inserted := nodes[found := nodes[found].(entry := Some(data))], chains, false;
      assert 1 <= found < |nodes| && KeyAt(nodes, found) == data.key && ns == nodes[found := nodes[found].(entry := Some(data))];
    } else {
      var elem := NewElement(score, data, level);
      ns, cs := AppendAndLink(nodes, chains, elem, level, prev);
      InsertOutcome(nodes, chains[0], elem, PredPos(nodes, chains[0], data.key), ns, cs[0]);
      inserted := true;
    }
  }

  class SkipList {
    /** The arena: `nodes[0]` is the header, the others the elements in order of insertion. */
    var nodes: seq<Element>
    var maxLevel: int
    /** Number of `Add` calls that inserted a new node. */
    var length: int
    /** Sum of the sizes of the entries those calls inserted. */
    var size: int
    /** `chains[j]`: the nodes level `j` links, from the header onwards. */
    ghost var chains: seq<seq<nat>>

    ghost predicate Valid()
      reads this
    {
      maxLevel == MaxLevel && length == |nodes| - 1 && WellFormed(nodes, chains)
    }

    /** The keys reachable along level 0, in link order. */
    ghost function Keys(): seq<seq<Byte>>
      reads this
      requires Valid()
    {
      KeysOf(nodes, chains[0])
    }

    /** What the list holds: the entry of every node reachable along level 0, by key. */
    ghost function Contents(): map<seq<Byte>, Entry>
      reads this
      requires Valid()
    {
      ContentsOf(nodes, chains[0])
    }

    /** The sum of the entry sizes along level 0. */
    ghost function WalkedSize(): nat
      reads this
      requires Valid()
    {
      SizeOf(nodes, chains[0])
    }

    /** An empty list: a header with `MaxLevel` nil slots. */
    constructor ()
      ensures Valid() && length == 0 && size == 0
      ensures Contents() == map[] && Keys() == [] && WalkedSize() == 0
      ensures forall j :: 0 <= j < MaxLevel ==> chains[j] == []
    {
      nodes := [Element(seq(MaxLevel, _ => Nil), None, 0)];
      maxLevel := MaxLevel;
      length := 0;
      size := 0;
      chains := seq(MaxLevel, _ => []);
      new;
      WellFormedIntro(nodes, chains);
    }

    /**
     * Adds `data` with a node of `level` slots (the level the list draws at
     * random). When a node already holds the key, its entry is replaced and
     * nothing else changes. Otherwise a new node is appended and linked on
     * levels `0..level-1` right after the predecessor the descent recorded on
     * each; `length` and `size` grow even when `level` is 0 and the node is
     * linked nowhere.
     */
    method Add(data: Entry, level: nat) returns (err: Option<string>)
      requires Valid() && level <= MaxLevel
      modifies this
      ensures Valid() && err == None
      ensures old(data.key in Contents()) ==>
        Contents() == old(Contents())[data.key := data] && Keys() == old(Keys()) &&
        WalkedSize() + old(Contents()[data.key].size) == old(WalkedSize()) + data.size &&
        length == old(length) && size == old(size) && chains == old(chains) &&
        exists q :: 1 <= q < |nodes| && KeyAt(old(nodes), q) == data.key &&
          nodes == old(nodes)[q := old(nodes)[q].(entry := Some(data))]
      ensures !old(data.key in Contents()) ==>
        length == old(length) + 1 && size == old(size) + data.size &&
        |nodes| == old(|nodes|) + 1 && SameData(nodes, old(nodes) + [NewElement(Score(data.key), data, level)]) &&
        (forall j :: 0 <= j < MaxLevel ==>
          chains[j] == if j < level then InsertAt(old(chains[j]), old(PredPos(nodes, chains[j], data.key)), old(|nodes|))
                       else old(chains[j]))
      ensures !old(data.key in Contents()) && level > 0 ==>
        Contents() == old(Contents())[data.key := data] && WalkedSize() == old(WalkedSize()) + data.size &&
        Keys() == old(Keys()[..PredPos(nodes, chains[0], data.key)] + [data.key] + Keys()[PredPos(nodes, chains[0], data.key)..])
      ensures !old(data.key in Contents()) && level == 0 ==>
        Contents() == old(Contents()) && WalkedSize() == old(WalkedSize()) && Keys() == old(Keys())
    {
      var inserted;
      nodes, chains, inserted := Put(nodes, chains, data, level);
      if inserted {
        size := size + data.size;
        length := length + 1;
      }
      return None;
    }

    /**
     * Looks `key` up: nothing in an empty list; otherwise the entry of the node
     * holding `key`, or nothing when no node holds it.
     */
    method Search(key: seq<Byte>) returns (e: Option<Entry>)
      requires Valid()
      ensures e == if key in Contents() then Some(Contents()[key]) else None
    {
      ChainOf(nodes, chains, 0);
      ContentsKeys(nodes, chains[0], key);
      if length == 0 {
        return None;
      }
      var score := CalcScore(key);
      var found, _ := Descend(nodes, chains, key, score);
      if found != Nil {
        OnLevelZero(nodes, chains, found);
        ghost var t :| 0 <= t < |chains[0]| && chains[0][t] == found;
        ContentsAt(nodes, chains[0], t);
        KeyIsEntryKey(nodes, found);
        return nodes[found].entry;
      }
      SplitIsPredPos(nodes, chains[0], PredPos(nodes, chains[0], key), key);
      return None;
    }

    /** Walks level 0 from the header and adds up the sizes of the entries it visits. */
    method Size() returns (s: int)
      requires Valid()
      ensures s == WalkedSize()
    {
      ghost var c := chains[0];
      ChainOf(nodes, chains, 0);
      s := 0;
      var next := nodes[0].levels[0];
      ghost var k := 0;
      while next != Nil
        invariant 0 <= k <= |c| && next == Succ(c, k - 1)
        invariant s == SizeOf(nodes, c[..k])
        decreases |c| - k
      {
        assert next == c[k] && IsNode(nodes[next]);
        SizeOfStep(nodes, c, k);
        s := s + nodes[next].entry.value.size;
        next := nodes[next].levels[0];
        k := k + 1;
      }
      assert k == |c| && c[..k] == c;
    }
  }
}
