// The skip list of skiplist.hpp: one chain of nodes per level, spliced in place.
module SkipLists {
  import opened SortedMap
  import opened RandomSource
  import Lehmer

  class Node {
    const key: int
    const nodeLevel: nat
    const forward: array<Node?>
    var value: int

    // createNode: the forward array has one slot per level, all of them unset.
    constructor (level: nat, key: int, value: int)
      ensures this.key == key && this.value == value && nodeLevel == level
      ensures fresh(forward) && forward.Length == level + 1
    {
      this.key, this.value, this.nodeLevel := key, value, level;
      this.forward := new Node?[level + 1];
    }
  }

  // ---------- Positions in the full chain: header, data nodes, footer ----------

  /** b is the first position after a whose tower reaches level i, or the footer. */
  ghost predicate IsNext(ns: seq<Node>, i: nat, a: nat, b: nat)
  {
    && a < b < |ns|
    && (b == |ns| - 1 || ns[b].nodeLevel >= i)
    && forall c | a < c < b :: ns[c].nodeLevel < i
  }

  ghost function NextAt(ns: seq<Node>, i: nat, a: nat): (b: nat)
    requires a < |ns| - 1
    ensures IsNext(ns, i, a, b)
    decreases |ns| - a
  {
    if a + 1 == |ns| - 1 || ns[a + 1].nodeLevel >= i then a + 1 else NextAt(ns, i, a + 1)
  }

  lemma NextUnique(ns: seq<Node>, i: nat, a: nat, b: nat)
    requires a < |ns| - 1 && IsNext(ns, i, a, b)
    ensures NextAt(ns, i, a) == b
  {
  }

  /** The forward arrays are pairwise distinct and sized by the towers. */
  ghost predicate Shaped(ns: seq<Node>)
  {
    && |ns| >= 2
    && ns[0].nodeLevel == MAX_LEVEL
    && (forall a | 0 <= a < |ns| :: ns[a].forward.Length == ns[a].nodeLevel + 1)
    && (forall a | 0 < a < |ns| - 1 :: 1 <= ns[a].nodeLevel < MAX_LEVEL)
    && Apart(ns)
  }

  predicate Differ(m: Node, n: Node) { m != n && m.forward != n.forward }

  ghost predicate Apart(ns: seq<Node>)
  {
    forall a, b {:trigger Differ(ns[a], ns[b])} | 0 <= a < b < |ns| :: Differ(ns[a], ns[b])
  }

  /** Keys after the header, the footer's included, are strictly in list order. */
  ghost predicate Ordered(forward: bool, ns: seq<Node>)
  {
    forall a, b {:trigger Before(forward, ns[a].key, ns[b].key)} | 0 < a < b < |ns| ::
      Before(forward, ns[a].key, ns[b].key)
  }

  /** Level i is one chain: each tower that reaches it points to the next that does. */
  ghost predicate Linked(ns: seq<Node>, i: nat)
    reads set n | n in ns :: n.forward
  {
    forall a {:trigger LinkOf(ns, i, a)} | 0 <= a < |ns| - 1 && ns[a].nodeLevel >= i :: LinkOf(ns, i, a)
  }

  ghost predicate LinkOf(ns: seq<Node>, i: nat, a: nat)
    requires a < |ns| - 1
    reads ns[a].forward
  {
    i < ns[a].forward.Length && ns[a].forward[i] == ns[NextAt(ns, i, a)]
  }

  /** a is the last position on level i before split s. */
  ghost predicate IsPred(ns: seq<Node>, i: nat, s: nat, a: nat)
  {
    && a < s < |ns|
    && ns[a].nodeLevel >= i
    && forall c | a < c < s :: ns[c].nodeLevel < i
  }

  lemma PredNext(ns: seq<Node>, i: nat, s: nat, a: nat)
    requires IsPred(ns, i, s, a)
    ensures NextAt(ns, i, a) >= s
    ensures ns[s].nodeLevel >= i ==> NextAt(ns, i, a) == s
  {
  }

  /** Exactly the positions before s hold keys strictly before the given key. */
  ghost predicate IsSplit(forward: bool, ns: seq<Node>, key: int, s: nat)
  {
    && 0 < s < |ns|
    && (forall a | 0 < a < s :: Before(forward, ns[a].key, key))
    && (forall a | s <= a < |ns| :: !Before(forward, ns[a].key, key))
  }

  lemma FindSplit(forward: bool, ns: seq<Node>, key: int) returns (s: nat)
    requires |ns| >= 2 && Ordered(forward, ns) && !Before(forward, ns[|ns| - 1].key, key)
    ensures IsSplit(forward, ns, key, s)
  {
    s := 1;
    while Before(forward, ns[s].key, key)
      invariant 0 < s < |ns|
      invariant forall a | 0 < a < s :: Before(forward, ns[a].key, key)
      decreases |ns| - s
    {
      s := s + 1;
    }
    forall a | s <= a < |ns|
      ensures !Before(forward, ns[a].key, key)
    {
      assert a > s ==> Before(forward, ns[s].key, ns[a].key);
    }
  }

  // ---------- One more or one less position ----------

  /** t is ns with n spliced in at position s. */
  ghost predicate IsSpliced(ns: seq<Node>, s: nat, n: Node, t: seq<Node>)
  {
    && 0 < s < |ns| && |t| == |ns| + 1 && t[s] == n
    && (forall a {:trigger t[a]} | 0 <= a < s :: t[a] == ns[a])
    && (forall a {:trigger t[a]} | s < a < |t| :: t[a] == ns[a - 1])
  }

  /** Successors of the old positions after a splice. */
  lemma NextAfterSplice(ns: seq<Node>, s: nat, n: Node, t: seq<Node>, i: nat, a: nat)
    requires IsSpliced(ns, s, n, t) && a < |ns| - 1
    ensures a < s && NextAt(ns, i, a) < s ==> NextAt(t, i, a) == NextAt(ns, i, a)
    ensures a < s <= NextAt(ns, i, a) ==>
              NextAt(t, i, a) == if n.nodeLevel >= i then s else NextAt(ns, i, a) + 1
    ensures s <= a ==> NextAt(t, i, a + 1) == NextAt(ns, i, a) + 1
  {
    var b := NextAt(ns, i, a);
    if s <= a {
      NextUnique(t, i, a + 1, b + 1);
    } else if b < s {
      NextUnique(t, i, a, b);
    } else if n.nodeLevel >= i {
      NextUnique(t, i, a, s);
    } else {
      NextUnique(t, i, a, b + 1);
    }
  }

  /** The spliced node's successor is its predecessor's old one. */
  lemma NextOfSpliced(ns: seq<Node>, s: nat, n: Node, t: seq<Node>, i: nat, p: nat)
    requires IsSpliced(ns, s, n, t) && IsPred(ns, i, s, p)
    ensures NextAt(t, i, s) == NextAt(ns, i, p) + 1
  {
    PredNext(ns, i, s, p);
    NextUnique(t, i, s, NextAt(ns, i, p) + 1);
  }

  lemma NextBefore(ns: seq<Node>, i: nat, a: nat, p: nat)
    requires a < p < |ns| - 1 && ns[p].nodeLevel >= i
    ensures NextAt(ns, i, a) <= p
  {
  }

  /** Where the links of a level lead after a splice at s behind predecessor p. */
  lemma SpliceTarget(ns: seq<Node>, s: nat, n: Node, t: seq<Node>, i: nat, p: nat, a: nat)
    requires IsSpliced(ns, s, n, t) && IsPred(ns, i, s, p) && n.nodeLevel >= i
    requires a < |ns| && t[a].nodeLevel >= i
    ensures a < s ==> a <= p
    ensures t[NextAt(t, i, a)] ==
            if a < p then ns[NextAt(ns, i, a)]
            else if a == p then n
            else if a == s then ns[NextAt(ns, i, p)]
            else ns[NextAt(ns, i, a - 1)]
  {
    PredNext(ns, i, s, p);
    if a < p {
      NextBefore(ns, i, a, p);
      NextAfterSplice(ns, s, n, t, i, a);
    } else if a == p {
      NextAfterSplice(ns, s, n, t, i, p);
    } else if a == s {
      NextOfSpliced(ns, s, n, t, i, p);
    } else {
      assert a > s;
      NextAfterSplice(ns, s, n, t, i, a - 1);
    }
  }

  /** Redirecting one link and filling one slot turns the old chain into the new one. */
  lemma SpliceLevel(ns: seq<Node>, s: nat, n: Node, t: seq<Node>, i: nat, p: nat)
    requires IsSpliced(ns, s, n, t) && n.nodeLevel >= i && IsPred(ns, i, s, p)
    requires i < n.forward.Length && n.forward[i] == ns[NextAt(ns, i, p)]
    requires i < ns[p].forward.Length && ns[p].forward[i] == n
    requires forall a | 0 <= a < |ns| - 1 && a != p && ns[a].nodeLevel >= i :: LinkOf(ns, i, a)
    ensures Linked(t, i)
  {
    forall a | 0 <= a < |t| - 1 && t[a].nodeLevel >= i
      ensures LinkOf(t, i, a)
    {
      SpliceTarget(ns, s, n, t, i, p, a);
      if a < s && a != p {
        assert LinkOf(ns, i, a);
      } else if a > s {
        assert LinkOf(ns, i, a - 1);
      }
    }
  }

  function Shift(s: nat, a: nat): nat { if a < s then a else a + 1 }

  /** On a level the spliced node does not reach, links lead where they led. */
  lemma TargetAbove(ns: seq<Node>, s: nat, n: Node, t: seq<Node>, i: nat, a: nat)
    requires IsSpliced(ns, s, n, t) && n.nodeLevel < i && a < |ns| - 1
    ensures t[Shift(s, a)] == ns[a] && t[NextAt(t, i, Shift(s, a))] == ns[NextAt(ns, i, a)]
  {
    NextAfterSplice(ns, s, n, t, i, a);
  }

  lemma SpliceAbove(ns: seq<Node>, s: nat, n: Node, t: seq<Node>, i: nat)
    requires IsSpliced(ns, s, n, t) && n.nodeLevel < i && Linked(ns, i)
    ensures Linked(t, i)
  {
    forall a | 0 <= a < |t| - 1 && t[a].nodeLevel >= i
      ensures LinkOf(t, i, a)
    {
      var b := if a < s then a else a - 1;
      assert a != s;
      TargetAbove(ns, s, n, t, i, b);
      assert LinkOf(ns, i, b);
    }
  }

  lemma SpliceAllAbove(ns: seq<Node>, s: nat, n: Node, t: seq<Node>)
    requires IsSpliced(ns, s, n, t)
    ensures forall i: nat | n.nodeLevel < i && Linked(ns, i) :: Linked(t, i)
    ensures forall i: nat | n.nodeLevel < i && Linked(t, i) :: Linked(ns, i)
  {
    forall i: nat | n.nodeLevel < i && Linked(ns, i)
      ensures Linked(t, i)
    {
      SpliceAbove(ns, s, n, t, i);
    }
    forall i: nat | n.nodeLevel < i && Linked(t, i)
      ensures Linked(ns, i)
    {
      UnspliceAbove(ns, s, n, t, i);
    }
  }

  lemma UnspliceAbove(ns: seq<Node>, s: nat, n: Node, t: seq<Node>, i: nat)
    requires IsSpliced(ns, s, n, t) && n.nodeLevel < i && Linked(t, i)
    ensures Linked(ns, i)
  {
    forall a | 0 <= a < |ns| - 1 && ns[a].nodeLevel >= i
      ensures LinkOf(ns, i, a)
    {
      TargetAbove(ns, s, n, t, i, a);
      assert LinkOf(t, i, Shift(s, a));
    }
  }

  /** The links the old positions need once the spliced node is bypassed. */
  lemma UnspliceTarget(ns: seq<Node>, s: nat, n: Node, t: seq<Node>, i: nat, p: nat, a: nat)
    requires IsSpliced(ns, s, n, t) && n.nodeLevel >= i
    requires IsPred(ns, i, s, p) && a < |ns| - 1 && ns[a].nodeLevel >= i
    ensures t[Shift(s, a)] == ns[a]
    ensures ns[NextAt(ns, i, a)] ==
            if a == p then t[NextAt(t, i, s)] else t[NextAt(t, i, Shift(s, a))]
  {
    SpliceTarget(ns, s, n, t, i, p, if a == p then s else Shift(s, a));
  }

  /** Bypassing a node on one level turns the chain with it into the chain without it. */
  lemma UnspliceLevel(ns: seq<Node>, s: nat, n: Node, t: seq<Node>, i: nat, p: nat)
    requires IsSpliced(ns, s, n, t) && n.nodeLevel >= i && IsPred(ns, i, s, p)
    requires i < ns[p].forward.Length && ns[p].forward[i] == t[NextAt(t, i, s)]
    requires forall a | 0 <= a < |ns| - 1 && a != p && ns[a].nodeLevel >= i ::
               LinkOf(t, i, Shift(s, a))
    ensures Linked(ns, i)
  {
    forall a | 0 <= a < |ns| - 1 && ns[a].nodeLevel >= i
      ensures LinkOf(ns, i, a)
    {
      UnspliceTarget(ns, s, n, t, i, p, a);
      assert a != p ==> LinkOf(t, i, Shift(s, a));
    }
  }

  lemma ShapedAfterSplice(ns: seq<Node>, s: nat, n: Node, t: seq<Node>)
    requires IsSpliced(ns, s, n, t) && Shaped(ns)
    requires 1 <= n.nodeLevel < MAX_LEVEL && n.forward.Length == n.nodeLevel + 1
    requires forall m | m in ns :: Differ(m, n)
    ensures Shaped(t)
  {
    forall a, b | 0 <= a < b < |t|
      ensures Differ(t[a], t[b])
    {
      if a == s {
        assert t[b] == ns[b - 1] && ns[b - 1] in ns;
      } else if b == s {
        assert t[a] == ns[a] && ns[a] in ns;
      } else {
        assert Differ(ns[if a < s then a else a - 1], ns[if b < s then b else b - 1]);
      }
    }
  }

  lemma ShapedBeforeSplice(ns: seq<Node>, s: nat, n: Node, t: seq<Node>)
    requires IsSpliced(ns, s, n, t) && Shaped(t)
    ensures Shaped(ns)
  {
    forall a, b | 0 <= a < b < |ns|
      ensures Differ(ns[a], ns[b])
    {
      assert Differ(t[Shift(s, a)], t[Shift(s, b)]);
    }
    forall a | 0 <= a < |ns|
      ensures ns[a] == t[Shift(s, a)]
    {
    }
  }

  lemma OrderedAfterSplice(forward: bool, ns: seq<Node>, s: nat, n: Node, t: seq<Node>)
    requires IsSpliced(ns, s, n, t) && Ordered(forward, ns)
    requires IsSplit(forward, ns, n.key, s) && ns[s].key != n.key
    ensures Ordered(forward, t)
  {
    forall a, b | 0 < a < b < |t|
      ensures Before(forward, t[a].key, t[b].key)
    {
      if a != s && b != s {
        assert Before(forward, ns[if a < s then a else a - 1].key, ns[if b < s then b else b - 1].key);
      }
    }
  }

  lemma OrderedBeforeSplice(forward: bool, ns: seq<Node>, s: nat, n: Node, t: seq<Node>)
    requires IsSpliced(ns, s, n, t) && Ordered(forward, t)
    ensures Ordered(forward, ns)
  {
    forall a, b | 0 < a < b < |ns|
      ensures Before(forward, ns[a].key, ns[b].key)
    {
      assert Before(forward, t[Shift(s, a)].key, t[Shift(s, b)].key);
    }
  }

  /** Writing a slot of level i leaves every other level of a chain linked. */
  method SetForward(n: Node, i: nat, target: Node?, ghost ns: seq<Node>, ghost t: seq<Node>)
    requires i < n.forward.Length
    modifies n.forward
    ensures n.forward[i] == target
    ensures forall j: nat | j != i && old(Linked(ns, j)) :: Linked(ns, j)
    ensures forall j: nat | j != i && old(Linked(t, j)) :: Linked(t, j)
  {
    n.forward[i] := target;
    forall j: nat | j != i && old(Linked(ns, j))
      ensures Linked(ns, j)
    {
      forall a | 0 <= a < |ns| - 1 && ns[a].nodeLevel >= j
        ensures LinkOf(ns, j, a)
      {
        assert old(LinkOf(ns, j, a));
      }
    }
    forall j: nat | j != i && old(Linked(t, j))
      ensures Linked(t, j)
    {
      forall a | 0 <= a < |t| - 1 && t[a].nodeLevel >= j
        ensures LinkOf(t, j, a)
      {
        assert old(LinkOf(t, j, a));
      }
    }
  }

  lemma OthersApart(ns: seq<Node>, p: nat)
    requires Apart(ns) && p < |ns|
    ensures forall a | 0 <= a < |ns| && a != p :: ns[a] != ns[p] && ns[a].forward != ns[p].forward
  {
    forall a | 0 <= a < |ns| && a != p
      ensures ns[a] != ns[p] && ns[a].forward != ns[p].forward
    {
      assert if a < p then Differ(ns[a], ns[p]) else Differ(ns[p], ns[a]);
    }
  }

  /** One level of the splice. */
  method SpliceOne(newNode: Node, node: Node, i: nat,
                   ghost ns: seq<Node>, ghost s: nat, ghost t: seq<Node>, ghost p: nat)
    requires IsSpliced(ns, s, newNode, t) && i <= newNode.nodeLevel < newNode.forward.Length
    requires IsPred(ns, i, s, p) && node == ns[p]
    requires Apart(ns) && forall a | 0 <= a < |ns| :: ns[a].forward != newNode.forward
    requires Linked(ns, i)
    modifies newNode.forward, node.forward
    ensures Linked(t, i)
    ensures forall j: nat | j != i && old(Linked(ns, j)) :: Linked(ns, j)
    ensures forall j: nat | j != i && old(Linked(t, j)) :: Linked(t, j)
  {
    assert LinkOf(ns, i, p);
    OthersApart(ns, p);
    SetForward(newNode, i, node.forward[i], ns, t);
    SetForward(node, i, newNode, ns, t);
    SpliceLevel(ns, s, newNode, t, i, p);
  }

  /** The splice loop of insert: top level first, one redirected link per level. */
  method SpliceIn(newNode: Node, update: array<Node?>, ghost frame: set<array<Node?>>,
                  ghost ns: seq<Node>, ghost s: nat, ghost t: seq<Node>, ghost preds: seq<nat>)
    requires IsSpliced(ns, s, newNode, t)
    requires newNode.nodeLevel < |preds| && newNode.forward.Length == newNode.nodeLevel + 1
    requires update.Length == MAX_LEVEL > newNode.nodeLevel && update !in frame
    requires newNode.forward in frame && forall a | 0 <= a < |ns| :: ns[a].forward in frame
    requires Apart(ns) && forall a | 0 <= a < |ns| :: ns[a].forward != newNode.forward
    requires forall i | 0 <= i <= newNode.nodeLevel ::
               IsPred(ns, i, s, preds[i]) && update[i] == ns[preds[i]]
    requires forall i | 0 <= i < MAX_LEVEL :: Linked(ns, i)
    modifies frame
    ensures forall i | 0 <= i < MAX_LEVEL :: Linked(t, i)
  {
    SpliceAllAbove(ns, s, newNode, t);
    for i := newNode.nodeLevel + 1 downto 0
      invariant forall j | i <= j < MAX_LEVEL :: Linked(t, j)
      invariant forall j | 0 <= j < i :: Linked(ns, j)
    {
      SpliceOne(newNode, update[i], i, ns, s, t, preds[i]);
    }
  }

  /** One level of the bypass. */
  method BypassOne(node: Node, pred: Node, i: nat,
                   ghost ns: seq<Node>, ghost s: nat, ghost t: seq<Node>, ghost p: nat)
    requires IsSpliced(ns, s, node, t) && i <= node.nodeLevel && IsPred(ns, i, s, p) && pred == ns[p]
    requires Apart(ns) && Linked(t, i)
    modifies pred.forward
    ensures Linked(ns, i)
    ensures forall j: nat | j != i && old(Linked(ns, j)) :: Linked(ns, j)
    ensures forall j: nat | j != i && old(Linked(t, j)) :: Linked(t, j)
  {
    assert t[s] == node && t[p] == pred;
    assert LinkOf(t, i, s) && LinkOf(t, i, p);
    OthersApart(ns, p);
    SetForward(pred, i, node.forward[i], ns, t);
    forall a | 0 <= a < |ns| - 1 && a != p && ns[a].nodeLevel >= i
      ensures LinkOf(t, i, Shift(s, a))
    {
      assert t[Shift(s, a)] == ns[a];
      assert old(LinkOf(t, i, Shift(s, a)));
    }
    UnspliceLevel(ns, s, node, t, i, p);
  }

  lemma PredBeforeSplice(ns: seq<Node>, s: nat, n: Node, t: seq<Node>, i: nat, p: nat)
    requires IsSpliced(ns, s, n, t) && IsPred(t, i, s, p)
    ensures IsPred(ns, i, s, p) && ns[p] == t[p]
  {
    forall c | p < c < s
      ensures ns[c].nodeLevel < i
    {
      assert t[c] == ns[c];
    }
    assert t[p] == ns[p];
  }

  /** The unlink loop of remove: bottom level first, until a level does not lead to the node. */
  method BypassAll(node: Node, update: array<Node?>, level: nat, ghost frame: set<array<Node?>>,
                   ghost ns: seq<Node>, ghost s: nat, ghost t: seq<Node>, ghost preds: seq<nat>)
    requires IsSpliced(ns, s, node, t) && forall a | 0 <= a < |t| && a != s :: t[a] != node
    requires node.nodeLevel <= level < |preds|
    requires update.Length == MAX_LEVEL > level && update !in frame
    requires forall a | 0 <= a < |ns| :: ns[a].forward in frame
    requires Apart(ns)
    requires forall i | 0 <= i <= level :: IsPred(t, i, s, preds[i]) && update[i] == t[preds[i]]
    requires forall i | 0 <= i < MAX_LEVEL :: Linked(t, i)
    modifies frame
    ensures forall i | 0 <= i < MAX_LEVEL :: Linked(ns, i)
  {
    var i := 0;
    while i <= level
      invariant i <= level + 1 && i <= node.nodeLevel + 1
      invariant forall j | i <= j < MAX_LEVEL :: Linked(t, j)
      invariant forall j | 0 <= j < i :: Linked(ns, j)
    {
      ghost var p := preds[i];
      assert Linked(t, i);
      assert LinkOf(t, i, p);
      PredNext(t, i, s, p);
      if update[i].forward[i] != node {
        break;
      }
      assert t[NextAt(t, i, p)] == t[s];
      assert NextAt(t, i, p) == s;
      PredBeforeSplice(ns, s, node, t, i, p);
      BypassOne(node, update[i], i, ns, s, t, p);
      i := i + 1;
    }
    SpliceAllAbove(ns, s, node, t);
  }

  /** Every slot of a new header leads to the footer. */
  method FillHeader(header: Node, footer: Node)
    requires header.nodeLevel == MAX_LEVEL && header.forward.Length == MAX_LEVEL + 1
    requires footer.nodeLevel == 0
    modifies header.forward
    ensures forall i | 0 <= i < MAX_LEVEL :: Linked([header, footer], i)
  {
    for i := 0 to MAX_LEVEL
      invariant forall j | 0 <= j < i :: header.forward[j] == footer
    {
      header.forward[i] := footer;
    }
    ghost var ns := [header, footer];
    forall i | 0 <= i < MAX_LEVEL
      ensures Linked(ns, i)
    {
      NextUnique(ns, i, 0, 1);
      assert LinkOf(ns, i, 0);
    }
  }

  // ---------- The list ----------

  class SkipList {
    const isForward: bool
    var level: nat
    const header: Node
    const footer: Node
    var nodeCount: nat
    const rnd: Random

    // The full chain of level 0, header and footer included, and what it stores.
    ghost var nodes: seq<Node>
    ghost var entries: seq<Entry>
    ghost var Repr: set<object>

    // Every node ever created, and every node deleted, in order.
    ghost var created: set<Node>
    ghost var deleted: seq<Node>

    ghost predicate Valid()
      reads this, Repr, rnd
    {
      Intact() && rnd !in Repr && rnd.Valid()
    }

    /** The part of the invariant that does not depend on the random source. */
    ghost predicate Intact()
      reads this, Repr
    {
      this !in Repr && Represents(nodes, entries, created, deleted, Repr)
    }

    /** The list's pointers and counters are those of the full chain ns with contents es. */
    ghost predicate Represents(ns: seq<Node>, es: seq<Entry>, ever: set<Node>, gone: seq<Node>, repr: set<object>)
      reads this`level, this`nodeCount, repr
    {
      && ChainOf(isForward, header, footer, level, ns, ever, gone, repr)
      && (forall i | 0 <= i < MAX_LEVEL :: Linked(ns, i))
      && nodeCount == |ns| - 2
      && Stores(ns, es)
    }

    ghost function Model(): map<int, int>
      reads this
    {
      ToMap(entries)
    }

    // createList: the footer first, then a header whose slots all lead to it.
    constructor (footerKey: int, isForward: bool)
      ensures Valid() && fresh(Repr) && fresh(rnd)
      ensures this.isForward == isForward && footer.key == footerKey
      ensures entries == [] && deleted == [] && footer.value == 0
      ensures header.nodeLevel == 16 && rnd.seed == 0x12345678
    {
      this.isForward := isForward;
      var r := new Random(0x12345678);
      var f := new Node(0, footerKey, 0);
      var h := new Node(MAX_LEVEL, 0, 0);
      rnd, footer, header := r, f, h;
      level, nodeCount := 0, 0;
      nodes, entries, created, deleted := [h, f], [], {f, h}, [];
      Repr := {f, h, f.forward, h.forward};
      new;
      FillHeader(h, f);
    }

    /** The inner loop of a descent: along level i up to the last node before the key. */
    method Advance(from: Node, i: nat, key: int, ghost s: nat, ghost a: nat)
      returns (node: Node, ghost p: nat)
      requires Intact() && i <= level && IsSplit(isForward, nodes, key, s)
      requires a < s && from == nodes[a] && from.nodeLevel >= i
      ensures IsPred(nodes, i, s, p) && node == nodes[p]
      ensures node.forward.Length > i && node.forward[i] != null
      ensures !Before(isForward, node.forward[i].key, key)
      ensures node == header || Before(isForward, node.key, key)
    {
      node, p := from, a;
      assert Linked(nodes, i);
      assert LinkOf(nodes, i, p);
      while Before(isForward, node.forward[i].key, key)
        invariant p < s && node == nodes[p] && node.nodeLevel >= i && LinkOf(nodes, i, p)
        decreases |nodes| - p
      {
        p := NextAt(nodes, i, p);
        node := node.forward[i];
      }
    }

    method Search(key: int) returns (r: Node?)
      requires Intact() && !Before(isForward, footer.key, key)
      ensures r == null <==> key !in Model() && key != footer.key
      ensures r != null ==> r.key == key && r in nodes
      ensures key == footer.key ==> r == footer
      ensures key in Model() ==> r != footer && r.value == Model()[key]
    {
      ghost var s := FindSplit(isForward, nodes, key);
      SplitInModel(isForward, nodes, entries, key, s);
      var node := header;
      ghost var p: nat := 0;
      for i := level + 1 downto 0
        invariant p < s < |nodes| && node == nodes[p] && node.nodeLevel >= i
        invariant i <= level ==> IsPred(nodes, i, s, p)
      {
        node, p := Advance(node, i, key, s, p);
      }
      PredNext(nodes, 0, s, p);
      assert Linked(nodes, 0) && LinkOf(nodes, 0, p);
      node := node.forward[0];
      r := if node.key == key then node else null;
    }

    /** The descent of insert and remove: the last node before the key on every level, and
        the node after the one found on level 0. */
    method FindUpdate(key: int, update: array<Node?>)
      returns (node: Node, ghost s: nat, ghost preds: seq<nat>)
      requires Intact() && !Before(isForward, footer.key, key)
      requires update.Length == MAX_LEVEL && update !in Repr
      modifies update
      ensures IsSplit(isForward, nodes, key, s) && node == nodes[s]
      ensures |preds| == level + 1
      ensures forall i | 0 <= i <= level :: IsPred(nodes, i, s, preds[i]) && update[i] == nodes[preds[i]]
    {
      s := FindSplit(isForward, nodes, key);
      node := header;
      ghost var p: nat := 0;
      preds := seq(level + 1, _ => 0);
      for i := level + 1 downto 0
        invariant p < s < |nodes| && node == nodes[p] && node.nodeLevel >= i
        invariant i <= level ==> IsPred(nodes, i, s, p)
        invariant |preds| == level + 1
        invariant forall j | i <= j <= level :: IsPred(nodes, j, s, preds[j]) && update[j] == nodes[preds[j]]
        modifies update
      {
        node, p := Advance(node, i, key, s, p);
        update[i] := node;
        preds := preds[i := p];
      }
      PredNext(nodes, 0, s, p);
      assert Linked(nodes, 0) && LinkOf(nodes, 0, p);
      node := node.forward[0];
    }

    method GetRandomLevel() returns (l: nat)
      requires rnd.Valid()
      modifies rnd
      ensures rnd.Valid() && rnd.seed == Lehmer.Step(old(rnd.seed))
      ensures l == LevelOf(rnd.seed) == if rnd.seed % 16 == 0 then 1 else rnd.seed % 16
    {
      l := rnd.Uniform(MAX_LEVEL);
      if l == 0 {
        l := 1;
      }
    }

    /** A drawn height may exceed the list's level by one at most; then the header precedes. */
    method LimitHeight(drawn: nat, update: array<Node?>, ghost s: nat, ghost preds: seq<nat>)
      returns (nodeLevel: nat, ghost heights: seq<nat>)
      requires |nodes| >= 2 && TopLevel(nodes, level) && header == nodes[0] && 0 < s < |nodes|
      requires 1 <= drawn < MAX_LEVEL && header.nodeLevel == MAX_LEVEL
      requires update.Length == MAX_LEVEL && |preds| == level + 1
      requires forall i | 0 <= i <= level :: IsPred(nodes, i, s, preds[i]) && update[i] == nodes[preds[i]]
      modifies this`level, update
      ensures level == if drawn > old(level) then old(level) + 1 else old(level)
      ensures nodeLevel == (if drawn > level then level else drawn) < |heights| && 1 <= nodeLevel
      ensures forall i | 0 <= i <= nodeLevel :: IsPred(nodes, i, s, heights[i]) && update[i] == nodes[heights[i]]
    {
      nodeLevel, heights := drawn, preds;
      if nodeLevel > level {
        level := level + 1;
        nodeLevel := level;
        update[nodeLevel] := header;
        heights := preds + [0];
      }
    }

    /** The part of insert after the key was not found. */
    method InsertNew(key: int, value: int, update: array<Node?>, ghost s: nat, ghost preds: seq<nat>)
      requires Valid() && IsSplit(isForward, nodes, key, s) && nodes[s].key != key
      requires key !in Model()
      requires update.Length == MAX_LEVEL && update !in Repr && |preds| == level + 1
      requires forall i | 0 <= i <= level :: IsPred(nodes, i, s, preds[i]) && update[i] == nodes[preds[i]]
      modifies this, Repr, rnd, update
      ensures Valid() && (forall o | o in Repr :: o in old(Repr) || fresh(o))
      ensures Model() == old(Model())[key := value] && footer.value == old(footer.value)
      ensures deleted == old(deleted) && old(created) <= created && |created| == |old(created)| + 1
      ensures rnd.seed == Lehmer.Step(old(rnd.seed))
      ensures s < |nodes| - 1 && IsTower(nodes[s], key, old(level), rnd.seed)
    {
      ghost var es := entries;
      var drawn := GetRandomLevel();
      InsertDrawn(key, value, drawn, update, s, preds);
      ToMapKeys(es, key);
      InsertInto(es, s - 1, Entry(key, value));
    }

    /** The part of insert after a height was drawn: create the node, splice it. */
    method InsertDrawn(key: int, value: int, drawn: nat, update: array<Node?>,
                       ghost s: nat, ghost preds: seq<nat>)
      requires Intact() && IsSplit(isForward, nodes, key, s) && nodes[s].key != key
      requires update.Length == MAX_LEVEL && update !in Repr && |preds| == level + 1
      requires forall i | 0 <= i <= level :: IsPred(nodes, i, s, preds[i]) && update[i] == nodes[preds[i]]
      requires 1 <= drawn < MAX_LEVEL
      modifies this, Repr, update
      ensures Intact() && (forall o | o in Repr :: o in old(Repr) || fresh(o))
      ensures entries == old(entries)[..s - 1] + [Entry(key, value)] + old(entries)[s - 1..]
      ensures deleted == old(deleted) && footer.value == old(footer.value)
      ensures old(created) <= created && |created| == |old(created)| + 1
      ensures s < |nodes| - 1 && nodes[s].key == key
      ensures nodes[s].nodeLevel == if drawn > old(level) then old(level) + 1 else drawn
    {
      ghost var es, ever, objects := entries, created, Repr;
      var newNode;
      ghost var t;
      newNode, t := AddTower(key, value, drawn, update, s, preds);
      Adopt(t, es[..s - 1] + [Entry(key, value)] + es[s - 1..],
            ever + {newNode}, objects + {newNode, newNode.forward});
    }

    method AddTower(key: int, value: int, drawn: nat, update: array<Node?>,
                    ghost s: nat, ghost preds: seq<nat>)
      returns (newNode: Node, ghost t: seq<Node>)
      requires Intact() && IsSplit(isForward, nodes, key, s) && nodes[s].key != key
      requires update.Length == MAX_LEVEL && update !in Repr && |preds| == level + 1
      requires forall i | 0 <= i <= level :: IsPred(nodes, i, s, preds[i]) && update[i] == nodes[preds[i]]
      requires 1 <= drawn < MAX_LEVEL
      modifies this`level, this`nodeCount, update, set n | n in nodes :: n.forward
      ensures fresh(newNode) && fresh(newNode.forward)
      ensures s < |t| - 1 && t[s] == newNode && newNode.key == key
      ensures newNode.nodeLevel == if drawn > old(level) then old(level) + 1 else drawn
      ensures Represents(t, old(entries)[..s - 1] + [Entry(key, value)] + old(entries)[s - 1..],
                         old(created) + {newNode}, old(deleted), old(Repr) + {newNode, newNode.forward})
    {
      ghost var ns, es, ever, gone, objects, was := nodes, entries, created, deleted, Repr, level;
      var nodeLevel;
      ghost var heights;
      nodeCount := nodeCount + 1;
      nodeLevel, heights := LimitHeight(drawn, update, s, preds);
      newNode, t := CreateAndSplice(key, value, nodeLevel, update, ns, s, heights);
      GrownChain(isForward, header, footer, was, level, ns, s, newNode, t, ever, gone, objects);
      StoresAfterSplice(ns, s, newNode, t, es);
    }

    /** Inserts, or overwrites the value of a stored key when updateIfExists is set. The footer
        answers for its own key: it is never inserted, and its unlisted value is overwritten. */
    method Insert(key: int, value: int, updateIfExists: bool) returns (changed: bool)
      requires Valid() && !Before(isForward, footer.key, key)
      modifies this, Repr, rnd
      ensures Valid() && (forall o | o in Repr :: o in old(Repr) || fresh(o))
      ensures changed <==> updateIfExists || (key !in old(Model()) && key != footer.key)
      ensures Model() == if key == footer.key || (key in old(Model()) && !updateIfExists)
                         then old(Model()) else old(Model())[key := value]
      ensures footer.value == if key == footer.key && updateIfExists then value else old(footer.value)
      ensures deleted == old(deleted) && old(created) <= created
      ensures |created| == |old(created)| + if key !in old(Model()) && key != footer.key then 1 else 0
      ensures key in old(Model()) || key == footer.key ==> rnd.seed == old(rnd.seed)
      ensures key !in old(Model()) && key != footer.key ==>
                && rnd.seed == Lehmer.Step(old(rnd.seed))
                && exists a :: 0 < a < |nodes| - 1 && IsTower(nodes[a], key, old(level), rnd.seed)
    {
      var update := new Node?[MAX_LEVEL];
      var node;
      ghost var s, preds;
      node, s, preds := FindUpdate(key, update);
      SplitInModel(isForward, nodes, entries, key, s);
      changed := InsertAt(node, key, value, updateIfExists, update, s, preds);
    }

    /** The part of insert after the descent. */
    method InsertAt(node: Node, key: int, value: int, updateIfExists: bool, update: array<Node?>,
                    ghost s: nat, ghost preds: seq<nat>) returns (changed: bool)
      requires Valid() && IsSplit(isForward, nodes, key, s) && node == nodes[s]
      requires key in Model() <==> s < |nodes| - 1 && node.key == key
      requires update.Length == MAX_LEVEL && update !in Repr && |preds| == level + 1
      requires forall i | 0 <= i <= level :: IsPred(nodes, i, s, preds[i]) && update[i] == nodes[preds[i]]
      modifies this, Repr, rnd, update
      ensures Valid() && (forall o | o in Repr :: o in old(Repr) || fresh(o))
      ensures changed <==> updateIfExists || (key !in old(Model()) && key != footer.key)
      ensures Model() == if key == footer.key || (key in old(Model()) && !updateIfExists)
                         then old(Model()) else old(Model())[key := value]
      ensures footer.value == if key == footer.key && updateIfExists then value else old(footer.value)
      ensures deleted == old(deleted) && old(created) <= created
      ensures |created| == |old(created)| + if key !in old(Model()) && key != footer.key then 1 else 0
      ensures key in old(Model()) || key == footer.key ==> rnd.seed == old(rnd.seed)
      ensures key !in old(Model()) && key != footer.key ==>
                && rnd.seed == Lehmer.Step(old(rnd.seed))
                && exists a :: 0 < a < |nodes| - 1 && IsTower(nodes[a], key, old(level), rnd.seed)
    {
      if node.key == key {
        FooterOnlyThere(isForward, nodes, s);
        if updateIfExists {
          Overwrite(node, value, s);
        }
        return updateIfExists;
      }
      FooterOnlyAtEnd(isForward, nodes, key, s);
      InsertNew(key, value, update, s, preds);
      changed := true;
    }

    method Overwrite(node: Node, value: int, ghost s: nat)
      requires Intact() && 0 < s < |nodes| && node == nodes[s]
      modifies node`value, this`nodes, this`entries, this`Repr, this`created
      ensures Intact() && Repr == old(Repr) && |nodes| == |old(nodes)|
      ensures Model() == if s == |nodes| - 1 then old(Model()) else old(Model())[node.key := value]
      ensures footer.value == if s == |nodes| - 1 then value else old(footer.value)
      ensures created == old(created) && deleted == old(deleted)
    {
      EntriesSorted(isForward, nodes, entries);
      OthersApart(nodes, s);
      ghost var stored := entries;
      if s < |nodes| - 1 {
        UpdateAt(isForward, entries, s - 1, value);
        stored := entries[s - 1 := Entry(node.key, value)];
      }
      node.value := value;
      Adopt(nodes, stored, created, Repr);
    }

    /** Removes a stored key and hands out its value; an absent key leaves the caller's value. */
    method Remove(key: int, previous: int) returns (removed: bool, value: int)
      requires Valid() && Before(isForward, key, footer.key)
      modifies this, Repr
      ensures Valid() && Repr == old(Repr)
      ensures removed <==> key in old(Model())
      ensures value == if removed then old(Model())[key] else previous
      ensures Model() == old(Model()) - {key} && footer.value == old(footer.value)
      ensures |deleted| == |old(deleted)| + (if removed then 1 else 0)
      ensures created == old(created)
    {
      value := previous;
      var update := new Node?[MAX_LEVEL];
      var node;
      ghost var s, preds;
      node, s, preds := FindUpdate(key, update);
      SplitInModel(isForward, nodes, entries, key, s);
      if node.key != key {
        WithoutAbsent(Model(), key);
        return false, value;
      }
      value := node.value;
      RemoveNode(node, update, s, preds);
      removed := true;
    }

    /** The part of remove after the key was found: unlink, delete, lower the level. */
    method RemoveNode(node: Node, update: array<Node?>, ghost s: nat, ghost preds: seq<nat>)
      requires Intact() && 0 < s < |nodes| - 1 && node == nodes[s]
      requires update.Length == MAX_LEVEL && update !in Repr && |preds| == level + 1
      requires forall i | 0 <= i <= level :: IsPred(nodes, i, s, preds[i]) && update[i] == nodes[preds[i]]
      modifies this, Repr
      ensures Intact() && Repr == old(Repr)
      ensures Model() == old(Model()) - {node.key} && footer.value == old(footer.value)
      ensures deleted == old(deleted) + [node] && created == old(created)
    {
      EntriesSorted(isForward, nodes, entries);
      RemoveFrom(isForward, entries, s - 1);
      ghost var es, ever, gone, objects := entries, created, deleted, Repr;
      ghost var t := Unlink(node, update, s, preds);
      deleted := gone + [node];
      Adopt(t, es[..s - 1] + es[s..], ever, objects);
    }

    method Unlink(node: Node, update: array<Node?>, ghost s: nat, ghost preds: seq<nat>)
      returns (ghost ns: seq<Node>)
      requires Intact() && 0 < s < |nodes| - 1 && node == nodes[s]
      requires update.Length == MAX_LEVEL && update !in Repr && |preds| == level + 1
      requires forall i | 0 <= i <= level :: IsPred(nodes, i, s, preds[i]) && update[i] == nodes[preds[i]]
      modifies this`level, this`nodeCount, set n | n in nodes :: n.forward
      ensures Represents(ns, old(entries)[..s - 1] + old(entries)[s..],
                         old(created), old(deleted) + [node], old(Repr))
    {
      ghost var t, es, ever, gone, objects, was := nodes, entries, created, deleted, Repr, level;
      nodeCount := nodeCount - 1;
      ns := BypassTower(node, update, level, t, s, preds);
      LowerLevel(ns);
      ShrunkChain(isForward, header, footer, was, level, ns, s, node, t, ever, gone, objects);
      StoresBeforeSplice(ns, s, node, t, es);
    }

    /** Lowers the level past chains that have become empty. */
    method LowerLevel(ghost ns: seq<Node>)
      requires Shaped(ns) && header == ns[0] && footer == ns[|ns| - 1] && level < MAX_LEVEL
      requires forall a | 0 < a < |ns| - 1 :: ns[a].nodeLevel <= level
      requires forall i | 0 <= i < MAX_LEVEL :: Linked(ns, i)
      modifies this`level
      ensures TopLevel(ns, level)
    {
      assert Linked(ns, level) && LinkOf(ns, level, 0);
      while level > 0 && header.forward[level] == footer
        invariant level < MAX_LEVEL && LinkOf(ns, level, 0)
        invariant forall a | 0 < a < |ns| - 1 :: ns[a].nodeLevel <= level
      {
        OthersApart(ns, |ns| - 1);
        level := level - 1;
        assert Linked(ns, level) && LinkOf(ns, level, 0);
      }
    }

    method Begin() returns (node: Node?)
      requires Valid()
      ensures entries == [] ==> node == null
      ensures entries != [] ==> node == nodes[1]
    {
      FirstLink(nodes, 0);
      node := header.forward[0];
      if node == footer {
        ApartEnds(nodes, 1);
        node := null;
      } else {
        assert |nodes| > 2;
      }
    }

    /** The node after a stored one, null after the last and after null. */
    method Next(node: Node?, ghost k: nat) returns (r: Node?)
      requires Valid() && (node != null ==> 0 < k < |nodes| - 1 && node == nodes[k])
      ensures node == null ==> r == null
      ensures node != null ==> r == if k == |nodes| - 2 then null else nodes[k + 1]
    {
      r := null;
      if node != null {
        FirstLink(nodes, k);
        ApartEnds(nodes, k + 1);
        if node.forward[0] != footer {
          r := node.forward[0];
        }
      }
    }

    /** The stored keys ascend in a forward list and descend in a backward one. */
    lemma KeysInOrder()
      requires Valid()
      ensures forall i, j | 0 <= i < j < |entries| ::
                if isForward then entries[i].key < entries[j].key else entries[i].key > entries[j].key
    {
      EntriesSorted(isForward, nodes, entries);
      forall i, j | 0 <= i < j < |entries|
        ensures if isForward then entries[i].key < entries[j].key else entries[i].key > entries[j].key
      {
        assert Before(isForward, entries[i].key, entries[j].key);
      }
    }

    /** They are the pairs of the map. */
    lemma EntriesArePairs()
      requires Valid()
      ensures forall e :: e in entries <==> e.key in Model() && Model()[e.key] == e.value
    {
      EntriesSorted(isForward, nodes, entries);
      forall e
        ensures e in entries <==> e.key in Model() && Model()[e.key] == e.value
      {
        PairIn(isForward, entries, e);
      }
    }

    /** Appends the first n stored pairs in list order. */
    method TopN(n: int, v: seq<Entry>) returns (r: seq<Entry>)
      requires Valid()
      ensures r == v + entries[..if n < 0 then 0 else if n < |entries| then n else |entries|]
      ensures forall i, j | |v| <= i < j < |r| ::
                if isForward then r[i].key < r[j].key else r[i].key > r[j].key
    {
      KeysInOrder();
      r := v;
      var node := header;
      var count := 0;
      FirstLink(nodes, 0);
      ApartEnds(nodes, 1);
      while node.forward[0] != footer
        invariant 0 <= count <= |entries| && (n >= 0 ==> count <= n)
        invariant n < 0 ==> count == 0
        invariant node == nodes[count] && node.forward.Length > 0 && node.forward[0] == nodes[count + 1]
        invariant footer == nodes[count + 1] <==> count == |entries|
        invariant r == v + entries[..count]
        decreases |nodes| - count
      {
        if count >= n {
          break;
        }
        node := node.forward[0];
        r := r + [Entry(node.key, node.value)];
        count := count + 1;
        FirstLink(nodes, count);
        ApartEnds(nodes, count + 1);
      }
    }

    /** The client's walk with begin and next lists every pair in order. */
    method Enumerate() returns (r: seq<Entry>)
      requires Valid()
      ensures r == entries
      ensures forall i, j | 0 <= i < j < |r| :: if isForward then r[i].key < r[j].key else r[i].key > r[j].key
      ensures forall e :: e in r <==> e.key in Model() && Model()[e.key] == e.value
    {
      KeysInOrder();
      EntriesArePairs();
      r := [];
      var node := Begin();
      while node != null
        invariant |r| <= |entries| && r == entries[..|r|]
        invariant node == if |r| == |entries| then null else nodes[|r| + 1]
        decreases |entries| - |r|
      {
        ghost var k := |r| + 1;
        r := r + [Entry(node.key, node.value)];
        node := Next(node, k);
      }
    }

    /** The destructor: deletes every node in chain order, the footer last. */
    method FreeList()
      requires Valid()
      modifies this`deleted
      ensures deleted == old(deleted) + nodes
      ensures forall n | n in created :: n in deleted
      ensures forall a, b | 0 <= a < b < |deleted| :: deleted[a] != deleted[b]
    {
      var p: Node? := header;
      ghost var k := 0;
      while p != null && p != footer
        invariant k < |nodes| && p == nodes[k]
        invariant deleted == old(deleted) + nodes[..k]
        decreases |nodes| - k
      {
        NotYetDeleted(created, nodes, old(deleted), k);
        ApartEnds(nodes, k);
        FirstLink(nodes, k);
        var q := p.forward[0];
        Delete(p);
        p := q;
        k := k + 1;
      }
      ApartEnds(nodes, k);
      NotYetDeleted(created, nodes, old(deleted), k);
      Delete(p);
      assert nodes == nodes[..k] + [p];
      DeletedOnce(created, nodes, old(deleted));
    }

    /** A node may be deleted once, and only if it was created. */
    method Delete(n: Node)
      requires n in created && n !in deleted
      modifies this`deleted
      ensures deleted == old(deleted) + [n]
    {
      deleted := deleted + [n];
    }

    /** Takes over a new chain, with the nodes and objects created for it. */
    ghost method Adopt(t: seq<Node>, stored: seq<Entry>, ever: set<Node>, objects: set<object>)
      requires this !in objects && Represents(t, stored, ever, deleted, objects)
      modifies this`nodes, this`entries, this`Repr, this`created
      ensures Intact() && nodes == t && entries == stored
      ensures Repr == objects && created == ever
    {
      nodes, entries, created, Repr := t, stored, ever, objects;
    }
  }

  /** The node of the key, as high as the seed says, but at most one level above the list. */
  predicate IsTower(n: Node, key: int, level: nat, seed: nat)
  {
    var drawn := if seed % 16 == 0 then 1 else seed % 16;
    n.key == key && n.nodeLevel == if drawn > level then level + 1 else drawn
  }

  /** createNode and the splice loop. */
  method CreateAndSplice(key: int, value: int, nodeLevel: nat, update: array<Node?>,
                         ghost ns: seq<Node>, ghost s: nat, ghost preds: seq<nat>)
    returns (newNode: Node, ghost t: seq<Node>)
    requires 0 < s < |ns| && Apart(ns) && 1 <= nodeLevel < |preds|
    requires update.Length == MAX_LEVEL > nodeLevel
    requires forall a | 0 <= a < |ns| :: ns[a].forward != update
    requires forall i | 0 <= i <= nodeLevel :: IsPred(ns, i, s, preds[i]) && update[i] == ns[preds[i]]
    requires forall i | 0 <= i < MAX_LEVEL :: Linked(ns, i)
    modifies set n | n in ns :: n.forward
    ensures fresh(newNode) && fresh(newNode.forward) && IsSpliced(ns, s, newNode, t)
    ensures newNode.key == key && newNode.value == value && newNode.nodeLevel == nodeLevel
    ensures newNode.forward.Length == nodeLevel + 1
    ensures forall i | 0 <= i < MAX_LEVEL :: Linked(t, i)
  {
    newNode := new Node(nodeLevel, key, value);
    t := ns[..s] + [newNode] + ns[s..];
    ghost var frame := (set n | n in ns :: n.forward) + {newNode.forward};
    SpliceIn(newNode, update, frame, ns, s, t, preds);
  }

  lemma AccountedAfterSplice(ever: set<Node>, gone: seq<Node>, ns: seq<Node>, s: nat, n: Node, t: seq<Node>)
    requires IsSpliced(ns, s, n, t) && Accounted(ever, ns, gone) && n !in ever
    ensures Accounted(ever + {n}, t, gone)
  {
    forall m | m in ns
      ensures m in t
    {
      var a :| 0 <= a < |ns| && ns[a] == m;
      assert t[Shift(s, a)] == m;
    }
  }

  /** The invariants over the chain that do not read the links. */
  ghost predicate ChainOf(forward: bool, header: Node, footer: Node, level: nat,
                          ns: seq<Node>, ever: set<Node>, gone: seq<Node>, repr: set<object>)
  {
    && (forall a | 0 <= a < |ns| :: ns[a] in repr && ns[a].forward in repr)
    && Shaped(ns) && Ordered(forward, ns)
    && header == ns[0] && footer == ns[|ns| - 1]
    && TopLevel(ns, level)
    && Accounted(ever, ns, gone)
  }

  /** They survive the splice of a new tower one level higher than the list at most. */
  lemma GrownChain(forward: bool, header: Node, footer: Node, level: nat, newLevel: nat,
                   ns: seq<Node>, s: nat, n: Node, t: seq<Node>,
                   ever: set<Node>, gone: seq<Node>, repr: set<object>)
    requires ChainOf(forward, header, footer, level, ns, ever, gone, repr)
    requires IsSpliced(ns, s, n, t) && IsSplit(forward, ns, n.key, s) && ns[s].key != n.key
    requires 1 <= n.nodeLevel <= newLevel < MAX_LEVEL && n.forward.Length == n.nodeLevel + 1
    requires newLevel == level || newLevel == level + 1 == n.nodeLevel
    requires n !in ever && n.forward !in repr
    ensures ChainOf(forward, header, footer, newLevel, t, ever + {n}, gone, repr + {n, n.forward})
  {
    forall m | m in ns
      ensures Differ(m, n)
    {
      var a :| 0 <= a < |ns| && ns[a] == m;
    }
    ShapedAfterSplice(ns, s, n, t);
    OrderedAfterSplice(forward, ns, s, n, t);
    TopLevelAfterSplice(ns, s, n, t, level, newLevel);
    AccountedAfterSplice(ever, gone, ns, s, n, t);
  }

  /** The chain without the node at s, as the chain it was spliced into. */
  ghost predicate IsShortened(ns: seq<Node>, s: nat, n: Node, t: seq<Node>, level: nat)
  {
    && IsSpliced(ns, s, n, t) && Shaped(ns)
    && ns[0] == t[0] && ns[|ns| - 1] == t[|t| - 1]
    && (forall a | 0 < a < |ns| - 1 :: ns[a].nodeLevel <= level)
    && (forall a | 0 <= a < |t| && a != s :: t[a] != n)
  }

  lemma CutOut(ns: seq<Node>, s: nat, t: seq<Node>)
    requires 0 < s < |t| - 1 && ns == t[..s] + t[s + 1..]
    ensures IsSpliced(ns, s, t[s], t)
    ensures forall a | 0 <= a < |ns| :: ns[a] in t
  {
    forall a | 0 <= a < |ns|
      ensures ns[a] == t[Shift(s, a)]
    {
    }
  }

  lemma Shorten(ns: seq<Node>, s: nat, n: Node, t: seq<Node>, level: nat)
    requires 0 < s < |t| - 1 && IsSpliced(ns, s, n, t)
    requires Shaped(t) && TopLevel(t, level)
    ensures IsShortened(ns, s, n, t, level)
  {
    ShapedBeforeSplice(ns, s, n, t);
    OthersApart(t, s);
    assert ns[0] == t[0] && t[|t| - 1] == ns[|ns| - 1];
    forall a | 0 < a < |ns| - 1
      ensures ns[a].nodeLevel <= level
    {
      assert ns[a] == t[Shift(s, a)];
    }
  }

  method BypassTower(node: Node, update: array<Node?>, level: nat,
                     ghost t: seq<Node>, ghost s: nat, ghost preds: seq<nat>)
    returns (ghost ns: seq<Node>)
    requires Shaped(t) && TopLevel(t, level) && 0 < s < |t| - 1 && node == t[s]
    requires update.Length == MAX_LEVEL && forall a | 0 <= a < |t| :: t[a].forward != update
    requires |preds| == level + 1
    requires forall i | 0 <= i <= level :: IsPred(t, i, s, preds[i]) && update[i] == t[preds[i]]
    requires forall i | 0 <= i < MAX_LEVEL :: Linked(t, i)
    modifies set n | n in t :: n.forward
    ensures IsShortened(ns, s, node, t, level)
    ensures forall i | 0 <= i < MAX_LEVEL :: Linked(ns, i)
  {
    ns := t[..s] + t[s + 1..];
    CutOut(ns, s, t);
    Shorten(ns, s, node, t, level);
    ghost var frame := set n | n in t :: n.forward;
    BypassAll(node, update, level, frame, ns, s, t, preds);
  }

  /** The invariants survive the loss of a tower once the level is lowered. */
  lemma ShrunkChain(forward: bool, header: Node, footer: Node, level: nat, newLevel: nat,
                    ns: seq<Node>, s: nat, n: Node, t: seq<Node>,
                    ever: set<Node>, gone: seq<Node>, repr: set<object>)
    requires ChainOf(forward, header, footer, level, t, ever, gone, repr)
    requires IsShortened(ns, s, n, t, level) && TopLevel(ns, newLevel)
    ensures ChainOf(forward, header, footer, newLevel, ns, ever, gone + [n], repr)
  {
    OrderedBeforeSplice(forward, ns, s, n, t);
    AccountedAfterDelete(ever, gone, ns, s, n, t);
    forall a | 0 <= a < |ns|
      ensures ns[a] == t[Shift(s, a)]
    {
    }
  }

  lemma AccountedAfterDelete(ever: set<Node>, gone: seq<Node>, ns: seq<Node>, s: nat, n: Node, t: seq<Node>)
    requires IsSpliced(ns, s, n, t) && Accounted(ever, t, gone)
    requires forall a | 0 <= a < |t| && a != s :: t[a] != n
    ensures Accounted(ever, ns, gone + [n])
  {
    assert n in t;
    forall m | m in ns
      ensures m in t && m != n
    {
      var a :| 0 <= a < |ns| && ns[a] == m;
      assert m == t[Shift(s, a)];
    }
    forall m | m in t && m != n
      ensures m in ns
    {
      var a :| 0 <= a < |t| && t[a] == m;
      assert ns[if a < s then a else a - 1] == m;
    }
  }

  lemma StoresBeforeSplice(ns: seq<Node>, s: nat, n: Node, t: seq<Node>, entries: seq<Entry>)
    requires IsSpliced(ns, s, n, t) && Stores(t, entries)
    ensures Stores(ns, entries[..s - 1] + entries[s..])
  {
    var stored := entries[..s - 1] + entries[s..];
    forall k | 0 <= k < |stored|
      ensures stored[k] == Entry(ns[k + 1].key, ns[k + 1].value)
    {
      assert ns[k + 1] == t[Shift(s, k + 1)];
    }
  }

  lemma TopLevelAfterSplice(ns: seq<Node>, s: nat, n: Node, t: seq<Node>, level: nat, newLevel: nat)
    requires IsSpliced(ns, s, n, t) && TopLevel(ns, level)
    requires 1 <= n.nodeLevel <= newLevel < MAX_LEVEL
    requires newLevel == level || newLevel == level + 1 == n.nodeLevel
    ensures TopLevel(t, newLevel)
  {
    NextAfterSplice(ns, s, n, t, newLevel, 0);
  }

  lemma StoresAfterSplice(ns: seq<Node>, s: nat, n: Node, t: seq<Node>, entries: seq<Entry>)
    requires IsSpliced(ns, s, n, t) && Stores(ns, entries)
    ensures Stores(t, entries[..s - 1] + [Entry(n.key, n.value)] + entries[s - 1..])
  {
  }

  lemma EntriesSorted(forward: bool, ns: seq<Node>, entries: seq<Entry>)
    requires |ns| >= 2 && Ordered(forward, ns) && Stores(ns, entries)
    ensures Sorted(forward, entries)
  {
    forall i, j | 0 <= i < j < |entries|
      ensures Before(forward, entries[i].key, entries[j].key)
    {
      assert Before(forward, ns[i + 1].key, ns[j + 1].key);
    }
  }

  /** The key sought is stored exactly when the descent's end node carries it. */
  lemma SplitInModel(forward: bool, ns: seq<Node>, entries: seq<Entry>, key: int, s: nat)
    requires |ns| >= 2 && Ordered(forward, ns) && Stores(ns, entries) && IsSplit(forward, ns, key, s)
    ensures key in ToMap(entries) <==> s < |ns| - 1 && ns[s].key == key
    ensures key in ToMap(entries) ==> ToMap(entries)[key] == ns[s].value
  {
    EntriesSorted(forward, ns, entries);
    ToMapKeys(entries, key);
    if s < |ns| - 1 && ns[s].key == key {
      assert entries[s - 1].key == key;
      ToMapValue(forward, entries, s - 1);
    }
    if HasKey(entries, key) {
      var k :| 0 <= k < |entries| && entries[k].key == key;
      assert ns[k + 1].key == key;
    }
  }

  lemma FirstLink(ns: seq<Node>, a: nat)
    requires Linked(ns, 0) && a < |ns| - 1
    ensures ns[a].forward.Length > 0 && ns[a].forward[0] == ns[a + 1]
  {
    assert LinkOf(ns, 0, a);
  }

  lemma ApartEnds(ns: seq<Node>, a: nat)
    requires Apart(ns) && a < |ns|
    ensures ns[a] == ns[|ns| - 1] <==> a == |ns| - 1
  {
    if a < |ns| - 1 {
      assert Differ(ns[a], ns[|ns| - 1]);
    }
  }

  lemma NotYetDeleted(ever: set<Node>, ns: seq<Node>, gone: seq<Node>, k: nat)
    requires Accounted(ever, ns, gone) && Apart(ns) && k < |ns|
    ensures ns[k] in ever && ns[k] !in gone + ns[..k]
  {
    forall a | 0 <= a < k
      ensures ns[a] != ns[k]
    {
      assert Differ(ns[a], ns[k]);
    }
    assert ns[k] in ns;
  }

  lemma DeletedOnce(ever: set<Node>, ns: seq<Node>, gone: seq<Node>)
    requires Accounted(ever, ns, gone) && Apart(ns)
    ensures forall n | n in ever :: n in gone + ns
    ensures forall a, b | 0 <= a < b < |gone + ns| :: (gone + ns)[a] != (gone + ns)[b]
  {
    forall a, b | 0 <= a < b < |gone + ns|
      ensures (gone + ns)[a] != (gone + ns)[b]
    {
      if a >= |gone| {
        assert Differ(ns[a - |gone|], ns[b - |gone|]);
      } else if b >= |gone| {
        assert ns[b - |gone|] in ns && gone[a] in gone;
      }
    }
  }

  /** No node before the footer carries its key. */
  lemma FooterOnlyThere(forward: bool, ns: seq<Node>, s: nat)
    requires |ns| >= 2 && Ordered(forward, ns) && 0 < s < |ns|
    ensures ns[s].key == ns[|ns| - 1].key <==> s == |ns| - 1
  {
    if s < |ns| - 1 {
      assert Before(forward, ns[s].key, ns[|ns| - 1].key);
    }
  }

  /** A descent that ends at the footer's key ends at the footer. */
  lemma FooterOnlyAtEnd(forward: bool, ns: seq<Node>, key: int, s: nat)
    requires |ns| >= 2 && Ordered(forward, ns) && IsSplit(forward, ns, key, s) && ns[s].key != key
    ensures key != ns[|ns| - 1].key
  {
    if s < |ns| - 1 {
      assert Before(forward, ns[s].key, ns[|ns| - 1].key);
    }
  }

  /** Every created node is either in the list or was deleted, and was deleted once. */
  ghost predicate Accounted(created: set<Node>, nodes: seq<Node>, deleted: seq<Node>)
  {
    && (forall n | n in created :: n in nodes || n in deleted)
    && (forall n | n in nodes :: n in created && n !in deleted)
    && (forall n | n in deleted :: n in created)
    && (forall a, b | 0 <= a < b < |deleted| :: deleted[a] != deleted[b])
  }

  /** No tower exceeds the list's level, and the level is used unless the list is empty. */
  ghost predicate TopLevel(ns: seq<Node>, level: nat)
    requires |ns| >= 2
  {
    && level < MAX_LEVEL
    && (forall a | 0 < a < |ns| - 1 :: ns[a].nodeLevel <= level)
    && (level > 0 ==> NextAt(ns, level, 0) < |ns| - 1)
  }

  ghost predicate Stores(ns: seq<Node>, entries: seq<Entry>)
    requires |ns| >= 2
    reads ns
  {
    && |entries| == |ns| - 2
    && forall k | 0 <= k < |entries| :: entries[k] == Entry(ns[k + 1].key, ns[k + 1].value)
  }
}
