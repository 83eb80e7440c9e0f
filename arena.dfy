/**
 * The skip list's nodes, kept in an arena: a sequence of elements addressed by
 * index, element 0 being the header and `Nil` (-1) standing for a nil link.
 * This module holds the element type, the comparator, and the invariant that
 * says what the links of every level mean, with the lemmas the list's methods
 * use to keep it.
 */
module Arena {
  import opened Wrappers
  import opened Bytes
  import opened Codec
  import opened Scores

  /** `defaultMaxLevel`: the header's number of forward slots. */
  const MaxLevel: nat := 48

  /** The nil link. */
  const Nil: int := -1

  /**
   * A node: one forward link per level it takes part in, the entry it holds
   * (None only for the header) and the score of that entry's key.
   */
  datatype Element = Element(levels: seq<int>, entry: Option<Entry>, score: nat)

  /** `newElement`: a node holding `entry` with `level` forward slots, all nil. */
  function NewElement(score: nat, entry: Entry, level: nat): (e: Element)
    ensures e.entry == Some(entry) && e.score == score && |e.levels| == level
    ensures forall j :: 0 <= j < level ==> e.levels[j] == Nil
  {
    Element(seq(level, _ => Nil), Some(entry), score)
  }

  /**
   * `compare`: orders a key against a node's entry by score first and by
   * `bytes.Compare` when the scores tie.
   */
  function Compare(score: nat, key: seq<Byte>, next: Element): (r: int)
    requires next.entry.Some?
    ensures -1 <= r <= 1
    ensures r == 0 <==> score == next.score && key == next.entry.value.key
  {
    if score == next.score then Bytes.Compare(key, next.entry.value.key)
    else if score < next.score then -1
    else 1
  }

  /**
   * Whatever monotone conversion is applied to the scores (the source turns
   * them into `float64`, which rounds), the comparator agrees with
   * `bytes.Compare` on the keys: a monotone map can only create ties, and
   * ties fall back to the full comparison.
   */
  lemma {:induction false} CompareUnderMonotoneScore(f: nat -> nat, key: seq<Byte>, next: Element)
    requires forall x: nat, y: nat :: x <= y ==> f(x) <= f(y)
    requires next.entry.Some? && next.score == f(Score(next.entry.value.key))
    ensures Compare(f(Score(key)), key, next) == Bytes.Compare(key, next.entry.value.key)
  {
    var other := next.entry.value.key;
    if f(Score(key)) < next.score {
      ScoreLess(key, other);
    } else if f(Score(key)) > next.score {
      ScoreLess(other, key);
      CompareAntisymmetric(other, key);
    }
  }

  /** With the integer score itself, the comparator is `bytes.Compare`. */
  lemma {:induction false} CompareMatchesBytes(key: seq<Byte>, next: Element)
    requires next.entry.Some? && next.score == Score(next.entry.value.key)
    ensures Compare(Score(key), key, next) == Bytes.Compare(key, next.entry.value.key)
  {
    CompareUnderMonotoneScore(x => x, key, next);
  }

  /** The key held by node `p`, or the empty key for the header or a bad index. */
  function KeyAt(nodes: seq<Element>, p: int): seq<Byte> {
    if 0 <= p < |nodes| && nodes[p].entry.Some? then nodes[p].entry.value.key else []
  }

  /** The entry held by node `p` (a placeholder for the header or a bad index). */
  function EntryAt(nodes: seq<Element>, p: int): Entry {
    if 0 <= p < |nodes| && nodes[p].entry.Some? then nodes[p].entry.value else Entry([], [], 0)
  }

  lemma {:induction false} KeyIsEntryKey(nodes: seq<Element>, p: int)
    ensures KeyAt(nodes, p) == EntryAt(nodes, p).key
  {
  }

  /** The node after position `k` of chain `c`, position -1 being the header. */
  function Succ(c: seq<nat>, k: int): int {
    if -1 <= k && k + 1 < |c| then c[k + 1] else Nil
  }

  /** The node at position `m - 1` of chain `c`, the header when `m` is 0. */
  function PredNode(c: seq<nat>, m: nat): nat {
    if 0 < m <= |c| then c[m - 1] else 0
  }

  /** A real node: it holds an entry, its score is that entry's, its height is bounded. */
  ghost predicate IsNode(x: Element) {
    x.entry.Some? && x.score == Score(x.entry.value.key) && |x.levels| <= MaxLevel
  }

  /** The header is element 0, has no entry and `MaxLevel` slots; the rest are real nodes. */
  ghost predicate Shape(nodes: seq<Element>) {
    |nodes| >= 1 && nodes[0].entry.None? && |nodes[0].levels| == MaxLevel &&
    forall p :: 1 <= p < |nodes| ==> IsNode(nodes[p])
  }

  /** Following level `j` from the header visits exactly the nodes of `c`, in order. */
  ghost predicate Linked(nodes: seq<Element>, c: seq<nat>, j: nat) {
    |nodes| >= 1 && j < |nodes[0].levels| && nodes[0].levels[j] == Succ(c, -1) &&
    forall k :: 0 <= k < |c| ==>
      1 <= c[k] < |nodes| && j < |nodes[c[k]].levels| && nodes[c[k]].levels[j] == Succ(c, k)
  }

  /** The keys along `c` strictly increase. */
  ghost predicate Sorted(nodes: seq<Element>, c: seq<nat>) {
    forall k, l :: 0 <= k < l < |c| ==> Less(KeyAt(nodes, c[k]), KeyAt(nodes, c[l]))
  }

  /** Every node below index `n` that has a slot for level `j` is on `c`. */
  ghost predicate Complete(nodes: seq<Element>, c: seq<nat>, j: nat, n: nat) {
    forall p {:trigger OnChain(c, p)} :: 1 <= p < n && p < |nodes| && j < |nodes[p].levels| ==> OnChain(c, p)
  }

  /** `p` is one of the nodes of chain `c`. */
  predicate OnChain(c: seq<nat>, p: int) {
    p in c
  }

  /** `c` is the chain of level `j`, counting the nodes below index `n`. */
  ghost predicate Chain(nodes: seq<Element>, c: seq<nat>, j: nat, n: nat) {
    Linked(nodes, c, j) && Sorted(nodes, c) && Complete(nodes, c, j, n)
  }

  /** The arena invariant: `chains[j]` is the chain of level `j` for every level. */
  ghost predicate WellFormed(nodes: seq<Element>, chains: seq<seq<nat>>) {
    Shape(nodes) && |chains| == MaxLevel &&
    forall j {:trigger ChainAt(nodes, chains, j)} :: 0 <= j < MaxLevel ==> ChainAt(nodes, chains, j)
  }

  /** `chains[j]` is the chain of level `j`. */
  ghost predicate ChainAt(nodes: seq<Element>, chains: seq<seq<nat>>, j: nat) {
    j < |chains| && Chain(nodes, chains[j], j, |nodes|)
  }

  /** A well-formed arena has the chain of every level. */
  lemma {:induction false} ChainOf(nodes: seq<Element>, chains: seq<seq<nat>>, j: nat)
    requires WellFormed(nodes, chains) && j < MaxLevel
    ensures Chain(nodes, chains[j], j, |nodes|)
  {
    assert ChainAt(nodes, chains, j);
  }

  /** Every node on a chain of a well-formed arena is a node of the arena. */
  lemma {:induction false} ChainInArena(nodes: seq<Element>, chains: seq<seq<nat>>, j: nat)
    requires WellFormed(nodes, chains) && j < MaxLevel
    ensures forall l :: 0 <= l < |chains[j]| ==> 1 <= chains[j][l] < |nodes|
  {
    ChainOf(nodes, chains, j);
  }

  /** A node with at least one slot is on the level-0 chain. */
  lemma {:induction false} OnLevelZero(nodes: seq<Element>, chains: seq<seq<nat>>, q: nat)
    requires WellFormed(nodes, chains) && 1 <= q < |nodes| && 0 < |nodes[q].levels|
    ensures q in chains[0]
  {
    ChainOf(nodes, chains, 0);
    assert OnChain(chains[0], q);
  }

  /** An arena of the right shape with the chain of every level is well formed. */
  lemma {:induction false} WellFormedIntro(nodes: seq<Element>, chains: seq<seq<nat>>)
    requires Shape(nodes) && |chains| == MaxLevel
    requires forall j :: 0 <= j < MaxLevel ==> Chain(nodes, chains[j], j, |nodes|)
    ensures WellFormed(nodes, chains)
  {
  }

  /** No node on `c` holds `key`. */
  ghost predicate Absent(nodes: seq<Element>, c: seq<nat>, key: seq<Byte>) {
    forall k :: 0 <= k < |c| ==> KeyAt(nodes, c[k]) != key
  }

  /** Position `m` splits `c` into the keys below `key` and the keys above it. */
  ghost predicate Splits(nodes: seq<Element>, c: seq<nat>, m: nat, key: seq<Byte>) {
    m <= |c| &&
    (forall l :: 0 <= l < m ==> Less(KeyAt(nodes, c[l]), key)) &&
    (forall l :: m <= l < |c| ==> Less(key, KeyAt(nodes, c[l])))
  }

  /** The number of leading nodes of `c` whose keys are below `key`. */
  ghost function PredPos(nodes: seq<Element>, c: seq<nat>, key: seq<Byte>): (m: nat)
    ensures m <= |c|
  {
    if c == [] || !Less(KeyAt(nodes, c[0]), key) then 0 else 1 + PredPos(nodes, c[1..], key)
  }

  /** The keys along a chain. */
  ghost function KeysOf(nodes: seq<Element>, c: seq<nat>): (ks: seq<seq<Byte>>)
    ensures |ks| == |c|
  {
    seq(|c|, k requires 0 <= k < |c| => KeyAt(nodes, c[k]))
  }

  /** The map from key to entry along a chain (a later node wins a repeated key). */
  ghost function ContentsOf(nodes: seq<Element>, c: seq<nat>): map<seq<Byte>, Entry> {
    if c == [] then map[]
    else ContentsOf(nodes, c[..|c| - 1])[KeyAt(nodes, c[|c| - 1]) := EntryAt(nodes, c[|c| - 1])]
  }

  /** The sum of the entries' sizes along a chain, in link order. */
  ghost function SizeOf(nodes: seq<Element>, c: seq<nat>): nat {
    if c == [] then 0 else SizeOf(nodes, c[..|c| - 1]) + EntryAt(nodes, c[|c| - 1]).size
  }

  // ---- Finding the predecessor of a key on one level ----

  /** A split point is where `PredPos` stops, and no node on the chain holds the key. */
  lemma {:induction false} SplitIsPredPos(nodes: seq<Element>, c: seq<nat>, m: nat, key: seq<Byte>)
    requires Splits(nodes, c, m, key)
    ensures PredPos(nodes, c, key) == m && Absent(nodes, c, key)
  {
    forall k | 0 <= k < |c|
      ensures KeyAt(nodes, c[k]) != key
    {
      if k < m {
        assert Less(KeyAt(nodes, c[k]), key);
      } else {
        assert Less(key, KeyAt(nodes, c[k]));
      }
    }
    if c != [] {
      if m == 0 {
        CompareAntisymmetric(key, KeyAt(nodes, c[0]));
      } else {
        assert Splits(nodes, c[1..], m - 1, key) by {
          forall l | 0 <= l < m - 1 ensures Less(KeyAt(nodes, c[1..][l]), key) {
            assert c[1..][l] == c[l + 1];
          }
          forall l | m - 1 <= l < |c| - 1 ensures Less(key, KeyAt(nodes, c[1..][l])) {
            assert c[1..][l] == c[l + 1];
          }
        }
        SplitIsPredPos(nodes, c[1..], m - 1, key);
      }
    }
  }

  /**
   * The header, or a node on level `j` whose key is below `key`, sits at some
   * position `m` of the chain: everything up to it is below `key` and its
   * level-`j` link is the chain's next node.
   */
  lemma {:induction false} PositionOf(nodes: seq<Element>, c: seq<nat>, j: nat, p: int, key: seq<Byte>) returns (m: nat)
    requires Chain(nodes, c, j, |nodes|)
    requires p == 0 || (1 <= p < |nodes| && j < |nodes[p].levels| && Less(KeyAt(nodes, p), key))
    ensures m <= |c| && PredNode(c, m) == p && Succ(c, m - 1) == nodes[p].levels[j]
    ensures forall l :: 0 <= l < m ==> Less(KeyAt(nodes, c[l]), key)
  {
    if p == 0 {
      m := 0;
    } else {
      assert OnChain(c, p);
      var q :| 0 <= q < |c| && c[q] == p;
      m := q + 1;
      forall l | 0 <= l < m
        ensures Less(KeyAt(nodes, c[l]), key)
      {
        if l < q {
          LessTransitive(KeyAt(nodes, c[l]), KeyAt(nodes, p), key);
        }
      }
    }
  }

  /**
   * If everything before position `m` is below `key` and the node after it is
   * above `key` (or there is none), then `m` is the split point: the node before
   * it is the last one on the level whose key is below `key`.
   */
  lemma {:induction false} PredAt(nodes: seq<Element>, c: seq<nat>, m: nat, key: seq<Byte>)
    requires Sorted(nodes, c) && m <= |c|
    requires forall l :: 0 <= l < m ==> Less(KeyAt(nodes, c[l]), key)
    requires Succ(c, m - 1) == Nil || Less(key, KeyAt(nodes, Succ(c, m - 1)))
    ensures Splits(nodes, c, m, key)
    ensures PredPos(nodes, c, key) == m && Absent(nodes, c, key)
  {
    forall l | m <= l < |c|
      ensures Less(key, KeyAt(nodes, c[l]))
    {
      assert Succ(c, m - 1) == c[m];
      if l > m {
        LessTransitive(key, KeyAt(nodes, c[m]), KeyAt(nodes, c[l]));
      }
    }
    SplitIsPredPos(nodes, c, m, key);
  }

  // ---- Keeping the chains through a change of the arena ----

  /** Keys along a sorted chain are pairwise distinct, and so are its nodes. */
  lemma {:induction false} SortedDistinct(nodes: seq<Element>, c: seq<nat>, k: nat, l: nat)
    requires Sorted(nodes, c) && k < |c| && l < |c| && k != l
    ensures KeyAt(nodes, c[k]) != KeyAt(nodes, c[l]) && c[k] != c[l]
  {
    if k < l {
      assert Less(KeyAt(nodes, c[k]), KeyAt(nodes, c[l]));
    } else {
      assert Less(KeyAt(nodes, c[l]), KeyAt(nodes, c[k]));
    }
  }

  /** No node occurs twice on `c`. */
  ghost predicate Distinct(c: seq<nat>) {
    forall k, l :: 0 <= k < l < |c| ==> c[k] != c[l]
  }

  lemma {:induction false} SortedIsDistinct(nodes: seq<Element>, c: seq<nat>)
    requires Sorted(nodes, c)
    ensures Distinct(c)
  {
    forall k, l | 0 <= k < l < |c|
      ensures c[k] != c[l]
    {
      SortedDistinct(nodes, c, k, l);
    }
  }

  /** A level's chain survives any change that leaves all keys, all heights and that level's links alone. */
  lemma {:induction false} ChainFrame(nodes: seq<Element>, nodes': seq<Element>, c: seq<nat>, j: nat, n: nat)
    requires Chain(nodes, c, j, n) && |nodes'| == |nodes|
    requires forall q :: 0 <= q < |nodes| ==> KeyAt(nodes', q) == KeyAt(nodes, q) && |nodes'[q].levels| == |nodes[q].levels|
    requires forall q :: 0 <= q < |nodes| && j < |nodes[q].levels| ==> nodes'[q].levels[j] == nodes[q].levels[j]
    ensures Chain(nodes', c, j, n)
  {
    assert Linked(nodes', c, j);
    assert Sorted(nodes', c) by {
      forall k, l | 0 <= k < l < |c|
        ensures Less(KeyAt(nodes', c[k]), KeyAt(nodes', c[l]))
      {
        assert Less(KeyAt(nodes, c[k]), KeyAt(nodes, c[l]));
      }
    }
  }

  /**
   * Appending a node with no links to the arena keeps every chain, for the
   * nodes below the old arena size.
   */
  lemma {:induction false} AppendKeepsChain(nodes: seq<Element>, x: Element, c: seq<nat>, j: nat)
    requires Chain(nodes, c, j, |nodes|)
    ensures Chain(nodes + [x], c, j, |nodes|)
  {
    var nodes' := nodes + [x];
    forall q | 0 <= q < |nodes|
      ensures KeyAt(nodes', q) == KeyAt(nodes, q) && nodes'[q] == nodes[q]
    {
    }
    assert Linked(nodes', c, j);
    assert Sorted(nodes', c) by {
      forall k, l | 0 <= k < l < |c|
        ensures Less(KeyAt(nodes', c[k]), KeyAt(nodes', c[l]))
      {
        assert Less(KeyAt(nodes, c[k]), KeyAt(nodes, c[l]));
      }
    }
  }

  /**
   * The splice of one level: with `e` the newest node, not yet on level `j`,
   * and `p` the node before split point `m`, setting `e.levels[j]` to
   * `p.levels[j]` and then `p.levels[j]` to `e` (and nothing else) puts `e`
   * on the chain right after `p`.
   */
  lemma {:induction false} SpliceChain(nodes: seq<Element>, nodes': seq<Element>, c: seq<nat>, j: nat, m: nat, p: nat, e: nat)
    requires Chain(nodes, c, j, e) && e == |nodes| - 1 && e >= 1 && j < |nodes[e].levels|
    requires forall l :: 0 <= l < |c| ==> c[l] < e
    requires Splits(nodes, c, m, KeyAt(nodes, e)) && p == PredNode(c, m)
    requires |nodes'| == |nodes|
    requires forall q :: 0 <= q < |nodes| ==>
      KeyAt(nodes', q) == KeyAt(nodes, q) && |nodes'[q].levels| == |nodes[q].levels|
    requires SpliceLinks(nodes, nodes', j, p, e)
    ensures Chain(nodes', c[..m] + [e] + c[m..], j, |nodes'|)
  {
    var c' := c[..m] + [e] + c[m..];
    SortedIsDistinct(nodes, c);
    SpliceLinked(nodes, nodes', c, j, m, p, e);
    SpliceSorted(nodes, nodes', c, m, e);
    SpliceComplete(nodes, nodes', c, j, m, e);
  }

  /** `nodes'` is `nodes` with `e.levels[j] = p.levels[j]; p.levels[j] = e` done and no other link changed. */
  ghost predicate SpliceLinks(nodes: seq<Element>, nodes': seq<Element>, j: nat, p: nat, e: nat) {
    |nodes'| == |nodes| && p < |nodes| && e < |nodes| && p != e &&
    j < |nodes[p].levels| && j < |nodes[e].levels| && j < |nodes'[p].levels| && j < |nodes'[e].levels| &&
    nodes'[e].levels[j] == nodes[p].levels[j] && nodes'[p].levels[j] == e &&
    forall q :: 0 <= q < |nodes| && j < |nodes[q].levels| && j < |nodes'[q].levels| && q != p && q != e ==>
      nodes'[q].levels[j] == nodes[q].levels[j]
  }

  lemma {:induction false} SpliceLinked(nodes: seq<Element>, nodes': seq<Element>, c: seq<nat>, j: nat, m: nat, p: nat, e: nat)
    requires Linked(nodes, c, j) && Distinct(c) && e == |nodes| - 1
    requires forall l :: 0 <= l < |c| ==> c[l] < e
    requires m <= |c| && p == PredNode(c, m)
    requires SpliceLinks(nodes, nodes', j, p, e)
    requires forall q :: 0 <= q < |nodes| ==> |nodes'[q].levels| == |nodes[q].levels|
    ensures Linked(nodes', c[..m] + [e] + c[m..], j)
  {
    var c' := c[..m] + [e] + c[m..];
    assert nodes'[0].levels[j] == Succ(c', -1) by {
      if m > 0 {
        assert p == c[m - 1] != 0;
      }
    }
    forall l | 0 <= l < |c'|
      ensures 1 <= c'[l] < |nodes'| && j < |nodes'[c'[l]].levels| && nodes'[c'[l]].levels[j] == Succ(c', l)
    {
      SpliceLinkedAt(nodes, nodes', c, j, m, p, e, l);
    }
  }

  /** Position `l` of `c` with `e` spliced in at `m`, and the node after it. */
  lemma {:induction false} SpliceIndex(c: seq<nat>, m: nat, e: nat, l: nat)
    requires m <= |c| && l <= |c|
    ensures var c' := c[..m] + [e] + c[m..];
      |c'| == |c| + 1 &&
      c'[l] == (if l < m then c[l] else if l == m then e else c[l - 1]) &&
      Succ(c', l) == (if l + 1 < m then c[l + 1] else if l + 1 == m then e else Succ(c, l - 1))
  {
    var c' := c[..m] + [e] + c[m..];
    if l + 1 < |c'| {
      assert c'[l + 1] == if l + 1 < m then c[l + 1] else if l + 1 == m then e else c[l];
    }
  }

  lemma {:induction false} SpliceLinkedAt(nodes: seq<Element>, nodes': seq<Element>, c: seq<nat>, j: nat, m: nat, p: nat, e: nat, l: nat)
    requires Linked(nodes, c, j) && Distinct(c) && e == |nodes| - 1
    requires forall l :: 0 <= l < |c| ==> c[l] < e
    requires m <= |c| && p == PredNode(c, m)
    requires SpliceLinks(nodes, nodes', j, p, e)
    requires forall q :: 0 <= q < |nodes| ==> |nodes'[q].levels| == |nodes[q].levels|
    requires l <= |c|
    ensures var c' := c[..m] + [e] + c[m..];
      1 <= c'[l] < |nodes'| && j < |nodes'[c'[l]].levels| && nodes'[c'[l]].levels[j] == Succ(c', l)
  {
    SpliceIndex(c, m, e, l);
    if l < m - 1 {
      assert c[l] != c[m - 1];
    } else if l > m {
      assert m > 0 ==> c[l - 1] != c[m - 1];
    }
  }

  lemma {:induction false} SpliceSorted(nodes: seq<Element>, nodes': seq<Element>, c: seq<nat>, m: nat, e: nat)
    requires Sorted(nodes, c) && Splits(nodes, c, m, KeyAt(nodes, e))
    requires forall q :: KeyAt(nodes', q) == KeyAt(nodes, q)
    ensures Sorted(nodes', c[..m] + [e] + c[m..])
  {
    var key := KeyAt(nodes, e);
    var c' := c[..m] + [e] + c[m..];
    forall k, l | 0 <= k < l < |c'|
      ensures Less(KeyAt(nodes', c'[k]), KeyAt(nodes', c'[l]))
    {
      SpliceIndex(c, m, e, k);
      SpliceIndex(c, m, e, l);
      if l < m {
        assert Less(KeyAt(nodes, c[k]), KeyAt(nodes, c[l]));
      } else if k > m {
        assert Less(KeyAt(nodes, c[k - 1]), KeyAt(nodes, c[l - 1]));
      } else if k == m {
        assert Less(key, KeyAt(nodes, c[l - 1]));
      } else if l == m {
        assert Less(KeyAt(nodes, c[k]), key);
      } else {
        LessTransitive(KeyAt(nodes, c[k]), key, KeyAt(nodes, c[l - 1]));
      }
    }
  }

  lemma {:induction false} SpliceComplete(nodes: seq<Element>, nodes': seq<Element>, c: seq<nat>, j: nat, m: nat, e: nat)
    requires Complete(nodes, c, j, e) && e == |nodes| - 1 && m <= |c| && |nodes'| == |nodes|
    requires forall q :: 0 <= q < |nodes| ==> |nodes'[q].levels| == |nodes[q].levels|
    ensures Complete(nodes', c[..m] + [e] + c[m..], j, |nodes'|)
  {
    var c' := c[..m] + [e] + c[m..];
    forall q | 1 <= q < |nodes'| && j < |nodes'[q].levels|
      ensures q in c'
    {
      if q == e {
        assert c'[m] == q;
      } else {
        assert OnChain(c, q);
        var t :| 0 <= t < |c| && c[t] == q;
        assert c'[if t < m then t else t + 1] == q;
      }
    }
  }

  // ---- What a chain holds ----

  /** A key is in a chain's map exactly when some node on the chain holds it. */
  lemma {:induction false} ContentsKeys(nodes: seq<Element>, c: seq<nat>, key: seq<Byte>)
    ensures key in ContentsOf(nodes, c) <==> exists l :: 0 <= l < |c| && KeyAt(nodes, c[l]) == key
  {
    if c != [] {
      var c0 := c[..|c| - 1];
      ContentsKeys(nodes, c0, key);
      if key in ContentsOf(nodes, c) && key != KeyAt(nodes, c[|c| - 1]) {
        var l :| 0 <= l < |c0| && KeyAt(nodes, c0[l]) == key;
        assert c[l] == c0[l];
      }
      if exists l :: 0 <= l < |c| && KeyAt(nodes, c[l]) == key {
        var l :| 0 <= l < |c| && KeyAt(nodes, c[l]) == key;
        if l < |c| - 1 {
          assert c0[l] == c[l];
        }
      }
    }
  }

  /** On a sorted chain the map gives each node's key that node's entry. */
  lemma {:induction false} ContentsAt(nodes: seq<Element>, c: seq<nat>, l: nat)
    requires Sorted(nodes, c) && l < |c|
    ensures KeyAt(nodes, c[l]) in ContentsOf(nodes, c)
    ensures ContentsOf(nodes, c)[KeyAt(nodes, c[l])] == EntryAt(nodes, c[l])
  {
    var c0 := c[..|c| - 1];
    if l < |c| - 1 {
      assert Sorted(nodes, c0) by {
        forall k, t | 0 <= k < t < |c0|
          ensures Less(KeyAt(nodes, c0[k]), KeyAt(nodes, c0[t]))
        {
          assert c0[k] == c[k] && c0[t] == c[t];
        }
      }
      assert c0[l] == c[l];
      ContentsAt(nodes, c0, l);
      SortedDistinct(nodes, c, l, |c| - 1);
    }
  }

  /** The chain maps of two arenas agree when every node on the chain holds the same entry. */
  lemma {:induction false} ContentsFrame(nodes: seq<Element>, nodes': seq<Element>, c: seq<nat>)
    requires forall l :: 0 <= l < |c| ==> EntryAt(nodes', c[l]) == EntryAt(nodes, c[l])
    ensures ContentsOf(nodes', c) == ContentsOf(nodes, c)
    ensures SizeOf(nodes', c) == SizeOf(nodes, c)
  {
    if c != [] {
      KeyIsEntryKey(nodes, c[|c| - 1]);
      KeyIsEntryKey(nodes', c[|c| - 1]);
      var c0 := c[..|c| - 1];
      assert forall l :: 0 <= l < |c0| ==> c0[l] == c[l];
      ContentsFrame(nodes, nodes', c0);
    }
  }

  lemma {:induction false} MapSwap<K, V>(m: map<K, V>, k1: K, v1: V, k2: K, v2: V)
    requires k1 != k2
    ensures m[k1 := v1][k2 := v2] == m[k2 := v2][k1 := v1]
  {
  }

  /**
   * Inserting node `x` into a chain adds its entry to the chain's map, when
   * no later node holds the same key.
   */
  lemma {:induction false} ContentsInsert(nodes: seq<Element>, a: seq<nat>, x: nat, b: seq<nat>)
    requires forall l :: 0 <= l < |b| ==> KeyAt(nodes, b[l]) != KeyAt(nodes, x)
    ensures ContentsOf(nodes, a + [x] + b) == ContentsOf(nodes, a + b)[KeyAt(nodes, x) := EntryAt(nodes, x)]
    decreases |b|
  {
    if b == [] {
      assert a + [x] + b == a + [x] && (a + [x])[..|a|] == a && a + b == a;
    } else {
      var b0, y := b[..|b| - 1], b[|b| - 1];
      var s, t := a + [x] + b, a + b;
      assert s[..|s| - 1] == a + [x] + b0 && s[|s| - 1] == y;
      assert t[..|t| - 1] == a + b0 && t[|t| - 1] == y;
      assert forall l :: 0 <= l < |b0| ==> b0[l] == b[l];
      ContentsInsert(nodes, a, x, b0);
      MapSwap(ContentsOf(nodes, a + b0), KeyAt(nodes, x), EntryAt(nodes, x), KeyAt(nodes, y), EntryAt(nodes, y));
    }
  }

  /** Inserting node `x` into a chain adds its size to the chain's total. */
  lemma {:induction false} SizeInsert(nodes: seq<Element>, a: seq<nat>, x: nat, b: seq<nat>)
    ensures SizeOf(nodes, a + [x] + b) == SizeOf(nodes, a + b) + EntryAt(nodes, x).size
    decreases |b|
  {
    if b == [] {
      assert a + [x] + b == a + [x] && (a + [x])[..|a|] == a && a + b == a;
    } else {
      var b0, y := b[..|b| - 1], b[|b| - 1];
      var s, t := a + [x] + b, a + b;
      assert s[..|s| - 1] == a + [x] + b0 && s[|s| - 1] == y;
      assert t[..|t| - 1] == a + b0 && t[|t| - 1] == y;
      SizeInsert(nodes, a, x, b0);
    }
  }

  /**
   * Replacing the entry of node `c[t]` on a sorted chain by one with the same
   * key replaces that key's entry in the map.
   */
  lemma {:induction false} ContentsUpdate(nodes: seq<Element>, nodes': seq<Element>, c: seq<nat>, t: nat)
    requires Sorted(nodes, c) && t < |c|
    requires forall p :: KeyAt(nodes', p) == KeyAt(nodes, p)
    requires forall p :: p != c[t] ==> EntryAt(nodes', p) == EntryAt(nodes, p)
    ensures ContentsOf(nodes', c) == ContentsOf(nodes, c)[KeyAt(nodes, c[t]) := EntryAt(nodes', c[t])]
  {
    var c0, y := c[..|c| - 1], c[|c| - 1];
    SortedIsDistinct(nodes, c);
    assert forall l :: 0 <= l < |c0| ==> c0[l] == c[l];
    assert ContentsOf(nodes', c) == ContentsOf(nodes', c0)[KeyAt(nodes, y) := EntryAt(nodes', y)];
    if t == |c| - 1 {
      ContentsFrame(nodes, nodes', c0);
    } else {
      SortedPrefix(nodes, c);
      ContentsUpdate(nodes, nodes', c0, t);
      SortedDistinct(nodes, c, t, |c| - 1);
      MapSwap(ContentsOf(nodes, c0), KeyAt(nodes, c[t]), EntryAt(nodes', c[t]), KeyAt(nodes, y), EntryAt(nodes, y));
    }
  }

  /**
   * Replacing the entry of node `c[t]`, which occurs once on the chain, moves
   * the chain's total by the difference of the two sizes.
   */
  lemma {:induction false} SizeUpdate(nodes: seq<Element>, nodes': seq<Element>, c: seq<nat>, t: nat)
    requires Distinct(c) && t < |c|
    requires forall p :: p != c[t] ==> EntryAt(nodes', p) == EntryAt(nodes, p)
    ensures SizeOf(nodes', c) + EntryAt(nodes, c[t]).size == SizeOf(nodes, c) + EntryAt(nodes', c[t]).size
  {
    var c0 := c[..|c| - 1];
    assert forall l :: 0 <= l < |c0| ==> c0[l] == c[l];
    if t == |c| - 1 {
      ContentsFrame(nodes, nodes', c0);
    } else {
      SizeUpdate(nodes, nodes', c0, t);
    }
  }

  lemma {:induction false} SortedPrefix(nodes: seq<Element>, c: seq<nat>)
    requires Sorted(nodes, c) && c != []
    ensures Sorted(nodes, c[..|c| - 1])
  {
    var c0 := c[..|c| - 1];
    forall k, l | 0 <= k < l < |c0|
      ensures Less(KeyAt(nodes, c0[k]), KeyAt(nodes, c0[l]))
    {
      assert Less(KeyAt(nodes, c[k]), KeyAt(nodes, c[l]));
    }
  }

  // ---- Levels are subsequences of the levels below ----

  /** `a` can be obtained from `b` by deleting elements. */
  ghost predicate IsSubsequence(a: seq<nat>, b: seq<nat>)
    decreases |b|
  {
    if a == [] then true
    else if b == [] then false
    else if a[0] == b[0] then IsSubsequence(a[1..], b[1..])
    else IsSubsequence(a, b[1..])
  }

  /** A sorted chain whose nodes all lie on another sorted chain is a subsequence of it. */
  lemma {:induction false} SortedSubsetIsSubsequence(nodes: seq<Element>, a: seq<nat>, b: seq<nat>)
    requires Sorted(nodes, a) && Sorted(nodes, b)
    requires forall k :: 0 <= k < |a| ==> a[k] in b
    ensures IsSubsequence(a, b)
    decreases |b|
  {
    if a != [] {
      assert a[0] in b;
      assert b != [];
      var b' := b[1..];
      assert Sorted(nodes, b') by {
        forall k, l | 0 <= k < l < |b'|
          ensures Less(KeyAt(nodes, b'[k]), KeyAt(nodes, b'[l]))
        {
          assert Less(KeyAt(nodes, b[k + 1]), KeyAt(nodes, b[l + 1]));
        }
      }
      if a[0] == b[0] {
        var a' := a[1..];
        assert Sorted(nodes, a') by {
          forall k, l | 0 <= k < l < |a'|
            ensures Less(KeyAt(nodes, a'[k]), KeyAt(nodes, a'[l]))
          {
            assert Less(KeyAt(nodes, a[k + 1]), KeyAt(nodes, a[l + 1]));
          }
        }
        forall k | 0 <= k < |a'|
          ensures a'[k] in b'
        {
          assert a'[k] == a[k + 1];
          var t :| 0 <= t < |b| && b[t] == a[k + 1];
          SortedDistinct(nodes, a, 0, k + 1);
          assert t != 0;
          assert b'[t - 1] == a'[k];
        }
        SortedSubsetIsSubsequence(nodes, a', b');
      } else {
        forall k | 0 <= k < |a|
          ensures a[k] in b'
        {
          var t :| 0 <= t < |b| && b[t] == a[k];
          if t == 0 {
            // b[0] would be below a[0] and yet not before it on a
            var t0 :| 0 <= t0 < |b| && b[t0] == a[0];
            assert t0 != 0;
            assert Less(KeyAt(nodes, b[0]), KeyAt(nodes, a[0]));
            if k > 0 {
              assert Less(KeyAt(nodes, a[0]), KeyAt(nodes, a[k]));
              LessTransitive(KeyAt(nodes, a[k]), KeyAt(nodes, a[0]), KeyAt(nodes, a[k]));
            }
            CompareAntisymmetric(KeyAt(nodes, a[k]), KeyAt(nodes, a[k]));
          }
          assert b'[t - 1] == a[k];
        }
        SortedSubsetIsSubsequence(nodes, a, b');
      }
    }
  }

  /** Every level is a subsequence of the level below it. */
  lemma {:induction false} LevelIsSubsequence(nodes: seq<Element>, chains: seq<seq<nat>>, j: nat)
    requires WellFormed(nodes, chains) && 0 < j < MaxLevel
    ensures IsSubsequence(chains[j], chains[j - 1])
  {
    var a, b := chains[j], chains[j - 1];
    ChainOf(nodes, chains, j);
    ChainOf(nodes, chains, j - 1);
    forall k | 0 <= k < |a|
      ensures a[k] in b
    {
      assert j - 1 < |nodes[a[k]].levels|;
      assert OnChain(b, a[k]);
    }
    SortedSubsetIsSubsequence(nodes, a, b);
  }

  // ---- The two ways `Add` changes the arena ----

  /** Chain `c` with node `e` inserted at position `m` (at the end when `m` is past it). */
  function InsertAt(c: seq<nat>, m: nat, e: nat): (r: seq<nat>)
    ensures |r| == |c| + 1
  {
    if m <= |c| then c[..m] + [e] + c[m..] else c + [e]
  }

  /** The assignment `q.levels[j] = v`. */
  function SetSlot(nodes: seq<Element>, q: nat, j: nat, v: int): (r: seq<Element>)
    requires q < |nodes| && j < |nodes[q].levels|
    ensures |r| == |nodes| && |r[q].levels| == |nodes[q].levels|
  {
    nodes[q := nodes[q].(levels := nodes[q].levels[j := v])]
  }

  /** `e.levels[j] = p.levels[j]` followed by `p.levels[j] = e`. */
  function LinkAfter(nodes: seq<Element>, j: nat, p: nat, e: nat): seq<Element>
    requires p < |nodes| && e < |nodes| && j < |nodes[p].levels| && j < |nodes[e].levels|
  {
    SetSlot(SetSlot(nodes, e, j, nodes[p].levels[j]), p, j, e)
  }

  /** `nodes` and `base` agree on everything but the links. */
  ghost predicate SameData(nodes: seq<Element>, base: seq<Element>) {
    |nodes| == |base| &&
    forall q :: 0 <= q < |base| ==>
      nodes[q].entry == base[q].entry && nodes[q].score == base[q].score && |nodes[q].levels| == |base[q].levels|
  }

  lemma {:induction false} SameDataFacts(nodes: seq<Element>, base: seq<Element>)
    requires SameData(nodes, base)
    ensures forall q :: KeyAt(nodes, q) == KeyAt(base, q) && EntryAt(nodes, q) == EntryAt(base, q)
    ensures Shape(base) ==> Shape(nodes)
  {
    if Shape(base) {
      forall q | 1 <= q < |nodes|
        ensures IsNode(nodes[q])
      {
        assert IsNode(base[q]);
      }
    }
  }

  /** Replacing a node's entry by one with the same key leaves a chain intact. */
  lemma {:induction false} UpdateKeepsChain(nodes: seq<Element>, c: seq<nat>, j: nat, q: nat, data: Entry)
    requires Chain(nodes, c, j, |nodes|) && 1 <= q < |nodes| && KeyAt(nodes, q) == data.key
    ensures Chain(nodes[q := nodes[q].(entry := Some(data))], c, j, |nodes|)
  {
    var nodes' := nodes[q := nodes[q].(entry := Some(data))];
    assert forall p :: KeyAt(nodes', p) == KeyAt(nodes, p);
    ChainFrame(nodes, nodes', c, j, |nodes|);
  }

  /**
   * The update branch of `Add` on the arena: the level-0 node `q` holding the
   * key gets the new entry. The arena stays well formed, the level-0 map
   * changes at that key only, the keys stay the same and the walked size
   * changes by the difference of the two entry sizes.
   */
  lemma {:induction false} UpdateOutcome(nodes: seq<Element>, chains: seq<seq<nat>>, q: nat, data: Entry)
    requires WellFormed(nodes, chains) && q < |nodes| && q in chains[0] && KeyAt(nodes, q) == data.key
    ensures data.key in ContentsOf(nodes, chains[0])
    ensures var nodes' := nodes[q := nodes[q].(entry := Some(data))];
      WellFormed(nodes', chains) &&
      ContentsOf(nodes', chains[0]) == ContentsOf(nodes, chains[0])[data.key := data] &&
      KeysOf(nodes', chains[0]) == KeysOf(nodes, chains[0]) &&
      SizeOf(nodes', chains[0]) + ContentsOf(nodes, chains[0])[data.key].size == SizeOf(nodes, chains[0]) + data.size
  {
    var c := chains[0];
    ChainOf(nodes, chains, 0);
    var t :| 0 <= t < |c| && c[t] == q;
    ContentsAt(nodes, c, t);
    UpdateKeepsWellFormed(nodes, chains, q, data);
    UpdateContents(nodes, c, t, data);
  }

  /** Replacing a node's entry by one with the same key leaves every chain intact. */
  lemma {:induction false} UpdateKeepsWellFormed(nodes: seq<Element>, chains: seq<seq<nat>>, q: nat, data: Entry)
    requires WellFormed(nodes, chains) && 1 <= q < |nodes| && KeyAt(nodes, q) == data.key
    ensures WellFormed(nodes[q := nodes[q].(entry := Some(data))], chains)
  {
    var nodes' := nodes[q := nodes[q].(entry := Some(data))];
    assert Shape(nodes') by {
      forall p | 1 <= p < |nodes'|
        ensures IsNode(nodes'[p])
      {
        assert IsNode(nodes[p]);
      }
    }
    forall j | 0 <= j < MaxLevel
      ensures Chain(nodes', chains[j], j, |nodes'|)
    {
      ChainOf(nodes, chains, j);
      UpdateKeepsChain(nodes, chains[j], j, q, data);
    }
    WellFormedIntro(nodes', chains);
  }

  /** The same replacement changes the level-0 map at that key only, and the walked size by the difference. */
  lemma {:induction false} UpdateContents(nodes: seq<Element>, c: seq<nat>, t: nat, data: Entry)
    requires Sorted(nodes, c) && t < |c| && c[t] < |nodes| && KeyAt(nodes, c[t]) == data.key
    ensures var nodes' := nodes[c[t] := nodes[c[t]].(entry := Some(data))];
      ContentsOf(nodes', c) == ContentsOf(nodes, c)[data.key := data] &&
      SizeOf(nodes', c) + EntryAt(nodes, c[t]).size == SizeOf(nodes, c) + data.size &&
      KeysOf(nodes', c) == KeysOf(nodes, c)
  {
    var nodes' := nodes[c[t] := nodes[c[t]].(entry := Some(data))];
    assert forall p :: KeyAt(nodes', p) == KeyAt(nodes, p);
    assert forall p :: p != c[t] ==> EntryAt(nodes', p) == EntryAt(nodes, p);
    ContentsUpdate(nodes, nodes', c, t);
    SortedIsDistinct(nodes, c);
    SizeUpdate(nodes, nodes', c, t);
  }

  /**
   * The state of `Add`'s splice loop once levels `0..i-1` of the new node `e`
   * are linked: `base` is the arena right after `e` was appended, `c0` the
   * chains before, `m[j]` the split point of level `j`.
   */
  ghost predicate SplicedUpTo(nodes: seq<Element>, chains: seq<seq<nat>>, base: seq<Element>,
                              c0: seq<seq<nat>>, m: seq<nat>, e: nat, i: nat)
  {
    |nodes| == e + 1 && e >= 1 && |chains| == MaxLevel && |c0| == MaxLevel && |m| == MaxLevel &&
    i <= |nodes[e].levels| && Shape(nodes) && SameData(nodes, base) &&
    (forall j :: 0 <= j < MaxLevel ==> m[j] <= |c0[j]|) &&
    (forall j :: 0 <= j < i ==> chains[j] == InsertAt(c0[j], m[j], e) && Chain(nodes, chains[j], j, |nodes|)) &&
    (forall j :: i <= j < MaxLevel ==> chains[j] == c0[j] && Chain(nodes, chains[j], j, e))
  }

  /** What the split points of the new key guarantee, for every level. */
  ghost predicate SplitPoints(base: seq<Element>, c0: seq<seq<nat>>, m: seq<nat>, e: nat) {
    |c0| == MaxLevel && |m| == MaxLevel && e < |base| &&
    (forall j :: 0 <= j < MaxLevel ==> Splits(base, c0[j], m[j], KeyAt(base, e))) &&
    (forall j, l :: 0 <= j < MaxLevel && 0 <= l < |c0[j]| ==> c0[j][l] < e)
  }

  /** Appending the new node starts the splice loop. */
  lemma {:induction false} SpliceStart(nodes: seq<Element>, chains: seq<seq<nat>>, x: Element, m: seq<nat>)
    requires WellFormed(nodes, chains) && IsNode(x)
    requires |m| == MaxLevel && forall j :: 0 <= j < MaxLevel ==> Splits(nodes, chains[j], m[j], x.entry.value.key)
    ensures SplicedUpTo(nodes + [x], chains, nodes + [x], chains, m, |nodes|, 0)
    ensures SplitPoints(nodes + [x], chains, m, |nodes|)
  {
    var base, e := nodes + [x], |nodes|;
    assert forall q :: 0 <= q < |nodes| ==> base[q] == nodes[q];
    assert forall q :: 0 <= q < |nodes| ==> KeyAt(base, q) == KeyAt(nodes, q);
    assert KeyAt(base, e) == x.entry.value.key;
    forall j | 0 <= j < MaxLevel
      ensures Chain(base, chains[j], j, e)
      ensures Splits(base, chains[j], m[j], KeyAt(base, e))
      ensures forall l :: 0 <= l < |chains[j]| ==> chains[j][l] < e
    {
      ChainOf(nodes, chains, j);
      AppendKeepsChain(nodes, x, chains[j], j);
      SplitsFrame(nodes, base, chains[j], m[j], x.entry.value.key);
    }
    assert Shape(base) by {
      forall q | 1 <= q < |base|
        ensures IsNode(base[q])
      {
        if q < e {
          assert IsNode(nodes[q]);
        }
      }
    }
  }

  lemma {:induction false} SplitsFrame(nodes: seq<Element>, nodes': seq<Element>, c: seq<nat>, m: nat, key: seq<Byte>)
    requires Splits(nodes, c, m, key)
    requires forall l :: 0 <= l < |c| ==> KeyAt(nodes', c[l]) == KeyAt(nodes, c[l])
    ensures Splits(nodes', c, m, key)
  {
  }

  /** `LinkAfter` changes slot `j` of `p` and `e` only. */
  lemma {:induction false} LinkAfterFrame(nodes: seq<Element>, j: nat, p: nat, e: nat)
    requires p < |nodes| && e < |nodes| && p != e && j < |nodes[p].levels| && j < |nodes[e].levels|
    ensures var nodes' := LinkAfter(nodes, j, p, e);
      SameData(nodes', nodes) && SpliceLinks(nodes, nodes', j, p, e) &&
      forall q, k :: 0 <= q < |nodes| && 0 <= k < |nodes[q].levels| && k != j ==> nodes'[q].levels[k] == nodes[q].levels[k]
  {
  }

  /** One round of the splice loop links level `i` and keeps the loop's invariant. */
  lemma {:induction false} SpliceStep(nodes: seq<Element>, chains: seq<seq<nat>>, base: seq<Element>,
                   c0: seq<seq<nat>>, m: seq<nat>, e: nat, i: nat, p: nat)
    requires SplicedUpTo(nodes, chains, base, c0, m, e, i) && SplitPoints(base, c0, m, e)
    requires i < |nodes[e].levels| && p == PredNode(c0[i], m[i])
    ensures p < |nodes| && i < |nodes[p].levels| && p != e
    ensures var nodes' := LinkAfter(nodes, i, p, e); |nodes'| == e + 1 && i + 1 <= |nodes'[e].levels|
    ensures Shape(LinkAfter(nodes, i, p, e))
    ensures SameData(LinkAfter(nodes, i, p, e), base)
    ensures var nodes', chains' := LinkAfter(nodes, i, p, e), chains[i := InsertAt(c0[i], m[i], e)];
      forall j :: 0 <= j < i + 1 ==> chains'[j] == InsertAt(c0[j], m[j], e) && Chain(nodes', chains'[j], j, |nodes'|)
    ensures var nodes', chains' := LinkAfter(nodes, i, p, e), chains[i := InsertAt(c0[i], m[i], e)];
      forall j :: i + 1 <= j < MaxLevel ==> chains'[j] == c0[j] && Chain(nodes', chains'[j], j, e)
  {
    assert IsNode(nodes[e]);
    assert Chain(nodes, c0[i], i, e);
    SplicePredecessor(nodes, c0[i], i, m[i], e);
    var nodes' := LinkAfter(nodes, i, p, e);
    LinkAfterFrame(nodes, i, p, e);
    SameDataFacts(nodes', nodes);
    SpliceLevel(nodes, base, c0[i], i, m[i], p, e);
    var chains' := chains[i := InsertAt(c0[i], m[i], e)];
    forall j | 0 <= j < i
      ensures chains'[j] == InsertAt(c0[j], m[j], e) && Chain(nodes', chains'[j], j, |nodes'|)
    {
      ChainFrame(nodes, nodes', chains[j], j, |nodes|);
    }
    forall j | i < j < MaxLevel
      ensures chains'[j] == c0[j] && Chain(nodes', chains'[j], j, e)
    {
      ChainFrame(nodes, nodes', chains[j], j, e);
    }
  }

  /** `SpliceStep`'s conclusions, put back together as the loop invariant. */
  lemma {:induction false} SpliceRound(nodes: seq<Element>, chains: seq<seq<nat>>, base: seq<Element>,
                    c0: seq<seq<nat>>, m: seq<nat>, e: nat, i: nat, p: nat)
    requires SplicedUpTo(nodes, chains, base, c0, m, e, i) && SplitPoints(base, c0, m, e)
    requires i < |nodes[e].levels| && p == PredNode(c0[i], m[i])
    ensures p < |nodes| && i < |nodes[p].levels| && p != e
    ensures SplicedUpTo(LinkAfter(nodes, i, p, e), chains[i := InsertAt(c0[i], m[i], e)], base, c0, m, e, i + 1)
  {
    SpliceStep(nodes, chains, base, c0, m, e, i, p);
  }

  lemma {:induction false} SplicePredecessor(nodes: seq<Element>, c: seq<nat>, j: nat, m: nat, e: nat)
    requires Linked(nodes, c, j) && m <= |c| && e >= 1 && forall l :: 0 <= l < |c| ==> c[l] < e
    ensures PredNode(c, m) < e && j < |nodes[PredNode(c, m)].levels|
  {
    if m > 0 {
      assert PredNode(c, m) == c[m - 1];
    }
  }

  /** The splice of level `j` inside the loop. */
  lemma {:induction false} SpliceLevel(nodes: seq<Element>, base: seq<Element>, c: seq<nat>, j: nat, m: nat, p: nat, e: nat)
    requires Chain(nodes, c, j, e) && |nodes| == e + 1 && e >= 1 && Shape(nodes) && SameData(nodes, base)
    requires j < |nodes[e].levels| && p == PredNode(c, m) && p < e && j < |nodes[p].levels|
    requires Splits(base, c, m, KeyAt(base, e)) && forall l :: 0 <= l < |c| ==> c[l] < e
    ensures Chain(LinkAfter(nodes, j, p, e), InsertAt(c, m, e), j, e + 1)
  {
    var nodes' := LinkAfter(nodes, j, p, e);
    LinkAfterFrame(nodes, j, p, e);
    SameDataFacts(nodes', nodes);
    SameDataFacts(nodes, base);
    SplitsFrame(base, nodes, c, m, KeyAt(base, e));
    SpliceChain(nodes, nodes', c, j, m, p, e);
  }

  /** When every slot of `e` is linked the arena is well formed again. */
  lemma {:induction false} SpliceDone(nodes: seq<Element>, chains: seq<seq<nat>>, base: seq<Element>,
                   c0: seq<seq<nat>>, m: seq<nat>, e: nat)
    requires |nodes| == e + 1 && SplicedUpTo(nodes, chains, base, c0, m, e, |nodes[e].levels|)
    ensures WellFormed(nodes, chains)
  {
    forall j | 0 <= j < MaxLevel
      ensures Chain(nodes, chains[j], j, |nodes|)
    {
      if |nodes[e].levels| <= j {
        ChainExtend(nodes, chains[j], j, e);
      }
    }
    WellFormedIntro(nodes, chains);
  }

  lemma {:induction false} ChainExtend(nodes: seq<Element>, c: seq<nat>, j: nat, e: nat)
    requires Chain(nodes, c, j, e) && |nodes| == e + 1 && |nodes[e].levels| <= j
    ensures Chain(nodes, c, j, e + 1)
  {
  }

  // ---- What `Add` does to the level-0 map ----

  /** Appending a node that is on no chain leaves every chain's map, size and keys alone. */
  lemma {:induction false} AppendedContents(nodes: seq<Element>, nodes': seq<Element>, c: seq<nat>)
    requires |nodes'| == |nodes| + 1
    requires forall q :: 0 <= q < |nodes| ==> EntryAt(nodes', q) == EntryAt(nodes, q)
    requires forall l :: 0 <= l < |c| ==> c[l] < |nodes|
    ensures ContentsOf(nodes', c) == ContentsOf(nodes, c) && SizeOf(nodes', c) == SizeOf(nodes, c)
    ensures KeysOf(nodes', c) == KeysOf(nodes, c)
    ensures forall l :: 0 <= l < |c| ==> KeyAt(nodes', c[l]) == KeyAt(nodes, c[l])
  {
    ContentsFrame(nodes, nodes', c);
    forall l | 0 <= l < |c|
      ensures KeyAt(nodes', c[l]) == KeyAt(nodes, c[l])
    {
      KeyIsEntryKey(nodes, c[l]);
      KeyIsEntryKey(nodes', c[l]);
    }
  }

  /**
   * Inserting the new node `e` at the split point of its key adds its entry to
   * the chain's map ...
   */
  lemma {:induction false} InsertContents(nodes: seq<Element>, nodes': seq<Element>, c: seq<nat>, m: nat, e: nat)
    requires |nodes| == e && |nodes'| == e + 1
    requires forall q :: 0 <= q < e ==> EntryAt(nodes', q) == EntryAt(nodes, q)
    requires forall l :: 0 <= l < |c| ==> c[l] < e
    requires Splits(nodes, c, m, KeyAt(nodes', e))
    ensures ContentsOf(nodes', InsertAt(c, m, e)) == ContentsOf(nodes, c)[KeyAt(nodes', e) := EntryAt(nodes', e)]
  {
    AppendedContents(nodes, nodes', c);
    InsertMap(nodes, nodes', c, m, e);
  }

  /** ... its size to the chain's size ... */
  lemma {:induction false} InsertSizeOf(nodes: seq<Element>, nodes': seq<Element>, c: seq<nat>, m: nat, e: nat)
    requires |nodes| == e && |nodes'| == e + 1 && m <= |c|
    requires forall q :: 0 <= q < e ==> EntryAt(nodes', q) == EntryAt(nodes, q)
    requires forall l :: 0 <= l < |c| ==> c[l] < e
    ensures SizeOf(nodes', InsertAt(c, m, e)) == SizeOf(nodes, c) + EntryAt(nodes', e).size
  {
    ContentsFrame(nodes, nodes', c);
    assert c[..m] + c[m..] == c;
    SizeInsert(nodes', c[..m], e, c[m..]);
  }

  /** ... and its key to the chain's keys, at the split point. */
  lemma {:induction false} InsertKeysOf(nodes: seq<Element>, nodes': seq<Element>, c: seq<nat>, m: nat, e: nat)
    requires |nodes| == e && |nodes'| == e + 1 && m <= |c|
    requires forall q :: 0 <= q < e ==> EntryAt(nodes', q) == EntryAt(nodes, q)
    requires forall l :: 0 <= l < |c| ==> c[l] < e
    ensures KeysOf(nodes', InsertAt(c, m, e)) == KeysOf(nodes, c)[..m] + [KeyAt(nodes', e)] + KeysOf(nodes, c)[m..]
  {
    AppendedContents(nodes, nodes', c);
    InsertKeys(nodes', c, m, e);
  }

  lemma {:induction false} InsertMap(nodes: seq<Element>, nodes': seq<Element>, c: seq<nat>, m: nat, e: nat)
    requires m <= |c| && forall l :: 0 <= l < |c| ==> KeyAt(nodes', c[l]) == KeyAt(nodes, c[l])
    requires Splits(nodes, c, m, KeyAt(nodes', e))
    ensures ContentsOf(nodes', InsertAt(c, m, e)) == ContentsOf(nodes', c)[KeyAt(nodes', e) := EntryAt(nodes', e)]
  {
    var key := KeyAt(nodes', e);
    assert c[..m] + c[m..] == c;
    forall l | 0 <= l < |c[m..]|
      ensures KeyAt(nodes', c[m..][l]) != key
    {
      assert Less(key, KeyAt(nodes, c[m + l]));
      CompareAntisymmetric(key, KeyAt(nodes, c[m + l]));
    }
    ContentsInsert(nodes', c[..m], e, c[m..]);
  }

  lemma {:induction false} InsertKeys(nodes: seq<Element>, c: seq<nat>, m: nat, e: nat)
    requires m <= |c|
    ensures KeysOf(nodes, InsertAt(c, m, e)) == KeysOf(nodes, c)[..m] + [KeyAt(nodes, e)] + KeysOf(nodes, c)[m..]
  {
    var a, b := KeysOf(nodes, InsertAt(c, m, e)), KeysOf(nodes, c)[..m] + [KeyAt(nodes, e)] + KeysOf(nodes, c)[m..];
    forall l | 0 <= l < |a|
      ensures a[l] == b[l]
    {
      if l < m {
        assert InsertAt(c, m, e)[l] == c[l];
      } else if l > m {
        assert InsertAt(c, m, e)[l] == c[l - 1];
      }
    }
  }

  /** `p` is the predecessor `Add` records for `key` on chain `c`: the node before its split point. */
  ghost predicate Recorded(nodes: seq<Element>, c: seq<nat>, key: seq<Byte>, p: nat) {
    Splits(nodes, c, PredPos(nodes, c, key), key) && p == PredNode(c, PredPos(nodes, c, key))
  }

  /** `prev[j]` is the recorded predecessor of `key` on level `j`. */
  ghost predicate RecordedOn(nodes: seq<Element>, chains: seq<seq<nat>>, key: seq<Byte>, prev: seq<nat>, j: nat) {
    j < |chains| && j < |prev| && Recorded(nodes, chains[j], key, prev[j])
  }

  /** `prev[j]` is the recorded predecessor of `key` on every level `j` from `k` up. */
  ghost predicate RecordedFrom(nodes: seq<Element>, chains: seq<seq<nat>>, key: seq<Byte>, prev: seq<nat>, k: nat) {
    forall j {:trigger RecordedOn(nodes, chains, key, prev, j)} :: k <= j < MaxLevel ==> RecordedOn(nodes, chains, key, prev, j)
  }

  /** Recording `p` for level `i` extends what is recorded from `i + 1` up to `i`. */
  lemma {:induction false} RecordLevel(nodes: seq<Element>, chains: seq<seq<nat>>, key: seq<Byte>, prev: seq<nat>,
                                       i: nat, p: nat)
    requires i < MaxLevel && |prev| == MaxLevel && |chains| == MaxLevel
    requires RecordedFrom(nodes, chains, key, prev, i + 1) && Recorded(nodes, chains[i], key, p)
    ensures RecordedFrom(nodes, chains, key, prev[i := p], i)
  {
    var prev' := prev[i := p];
    forall j | i <= j < MaxLevel
      ensures RecordedOn(nodes, chains, key, prev', j)
    {
      if j > i {
        assert RecordedOn(nodes, chains, key, prev, j);
      }
    }
  }

  /** What is recorded from `k` up, level by level. */
  lemma {:induction false} RecordedFromAll(nodes: seq<Element>, chains: seq<seq<nat>>, key: seq<Byte>, prev: seq<nat>, k: nat)
    requires RecordedFrom(nodes, chains, key, prev, k) && |chains| == MaxLevel && |prev| == MaxLevel
    ensures forall j :: k <= j < MaxLevel ==> Recorded(nodes, chains[j], key, prev[j])
  {
    forall j | k <= j < MaxLevel
      ensures Recorded(nodes, chains[j], key, prev[j])
    {
      assert RecordedOn(nodes, chains, key, prev, j);
    }
  }

  /** A key is in a chain's map exactly when it is among the chain's keys. */
  lemma {:induction false} ContentsKeysOf(nodes: seq<Element>, c: seq<nat>, key: seq<Byte>)
    ensures key in ContentsOf(nodes, c) <==> key in KeysOf(nodes, c)
  {
    ContentsKeys(nodes, c, key);
    if key in ContentsOf(nodes, c) {
      var l :| 0 <= l < |c| && KeyAt(nodes, c[l]) == key;
      assert KeysOf(nodes, c)[l] == key;
    }
  }

  /** Along level 0 of a well-formed arena the keys strictly increase. */
  lemma {:induction false} KeysSorted(nodes: seq<Element>, chains: seq<seq<nat>>)
    requires WellFormed(nodes, chains)
    ensures var ks := KeysOf(nodes, chains[0]);
      forall k, l :: 0 <= k < l < |ks| ==> Less(ks[k], ks[l])
  {
    ChainOf(nodes, chains, 0);
  }

  /**
   * A node `p` before `key` (or the header) whose level-`j` slot points at nil
   * or at a node beyond `key` is the predecessor recorded for `key` on level `j`.
   */
  lemma {:induction false} RecordedAt(nodes: seq<Element>, c: seq<nat>, j: nat, p: nat, key: seq<Byte>)
    requires Chain(nodes, c, j, |nodes|)
    requires p == 0 || (1 <= p < |nodes| && j < |nodes[p].levels| && Less(KeyAt(nodes, p), key))
    requires p < |nodes| && j < |nodes[p].levels|
    requires nodes[p].levels[j] == Nil || Less(key, KeyAt(nodes, nodes[p].levels[j]))
    ensures Recorded(nodes, c, key, p)
  {
    var m := PositionOf(nodes, c, j, p, key);
    PredAt(nodes, c, m, key);
  }

  /** Walking one more node of a chain adds that node's entry size. */
  lemma {:induction false} SizeOfStep(nodes: seq<Element>, c: seq<nat>, k: nat)
    requires k < |c|
    ensures SizeOf(nodes, c[..k + 1]) == SizeOf(nodes, c[..k]) + EntryAt(nodes, c[k]).size
  {
    assert c[..k + 1][..k] == c[..k];
  }

  /**
   * The insert branch of `Add` on the arena: append `x`, then for every level
   * `i` below its height do `x.levels[i] = prev[i].levels[i]` and
   * `prev[i].levels[i] = x`. With `prev[i]` the node before the key's split
   * point on every level, the arena stays well formed and each of those
   * levels gains `x` at its split point.
   */
  method AppendAndLink(nodes: seq<Element>, ghost chains: seq<seq<nat>>, x: Element, level: nat, prev: seq<nat>)
    returns (ns: seq<Element>, ghost cs: seq<seq<nat>>)
    requires WellFormed(nodes, chains) && IsNode(x) && level == |x.levels| && |prev| == MaxLevel
    requires forall j :: 0 <= j < MaxLevel ==> Recorded(nodes, chains[j], x.entry.value.key, prev[j])
    ensures WellFormed(ns, cs) && SameData(ns, nodes + [x])
    ensures forall j :: 0 <= j < MaxLevel ==>
      cs[j] == if j < level then InsertAt(chains[j], PredPos(nodes, chains[j], x.entry.value.key), |nodes|) else chains[j]
  {
    ghost var m := seq(MaxLevel, j requires 0 <= j < MaxLevel => PredPos(nodes, chains[j], x.entry.value.key));
    var e := |nodes|;
    ghost var base := nodes + [x];
    SpliceStart(nodes, chains, x, m);
    ns, cs := nodes + [x], chains;
    var i := 0;
    while i < level
      invariant SplicedUpTo(ns, cs, base, chains, m, e, i) && 0 <= i <= level == |ns[e].levels|
    {
      var p := prev[i];
      SpliceRound(ns, cs, base, chains, m, e, i, p);
      ns := SetSlot(ns, e, i, ns[p].levels[i]);
      ns := SetSlot(ns, p, i, e);
      cs := cs[i := InsertAt(chains[i], m[i], e)];
      i := i + 1;
    }
    SpliceDone(ns, cs, base, chains, m, e);
  }

  /**
   * What the insert branch of `Add` does to level 0: with `x` appended at
   * index `e = |nodes|` and level 0 either spliced at the key's split point `m`
   * (when `x` has slots) or left alone, the level-0 map, size and keys gain
   * `x`'s entry exactly when `x` has slots.
   */
  lemma {:induction false} InsertOutcome(nodes: seq<Element>, c: seq<nat>, x: Element, m: nat, ns: seq<Element>, c': seq<nat>)
    requires x.entry.Some? && SameData(ns, nodes + [x]) && m <= |c|
    requires forall l :: 0 <= l < |c| ==> c[l] < |nodes|
    requires Splits(nodes, c, m, x.entry.value.key)
    requires c' == if 0 < |x.levels| then InsertAt(c, m, |nodes|) else c
    ensures 0 < |x.levels| ==>
      ContentsOf(ns, c') == ContentsOf(nodes, c)[x.entry.value.key := x.entry.value] &&
      SizeOf(ns, c') == SizeOf(nodes, c) + x.entry.value.size &&
      KeysOf(ns, c') == KeysOf(nodes, c)[..m] + [x.entry.value.key] + KeysOf(nodes, c)[m..]
    ensures |x.levels| == 0 ==>
      ContentsOf(ns, c') == ContentsOf(nodes, c) && SizeOf(ns, c') == SizeOf(nodes, c) && KeysOf(ns, c') == KeysOf(nodes, c)
  {
    var e := |nodes|;
    AppendFacts(nodes, x, ns);
    if 0 < |x.levels| {
      InsertContents(nodes, ns, c, m, e);
      InsertSizeOf(nodes, ns, c, m, e);
      InsertKeysOf(nodes, ns, c, m, e);
    } else {
      AppendedContents(nodes, ns, c);
    }
  }

  lemma {:induction false} AppendFacts(nodes: seq<Element>, x: Element, ns: seq<Element>)
    requires x.entry.Some? && SameData(ns, nodes + [x])
    ensures forall q :: 0 <= q < |nodes| ==> EntryAt(ns, q) == EntryAt(nodes, q)
    ensures KeyAt(ns, |nodes|) == x.entry.value.key && EntryAt(ns, |nodes|) == x.entry.value
  {
    var base := nodes + [x];
    assert forall q :: 0 <= q < |nodes| ==> base[q] == nodes[q];
    SameDataFacts(ns, base);
  }
}
