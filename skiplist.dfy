/**
 * The skip-list map of `src/lib.rs`: a head node plus entry nodes, each with
 * an array of forward links, one per level the node takes part in.
 *
 * The abstract state is a ghost View in level-0 order: the entry nodes,
 * their keys, values and levels, the map they denote and the objects the
 * list owns. Valid(m) ties every forward link in the heap to the index
 * function NextIdx of module SkipListSpec, so the links at every level are
 * fully determined by m.levels.
 */
module SkipListNodes {
  import opened SkipListSpec

  /** A node: the head (no key, no value) or an entry; fwd[l] is its level-l successor. */
  class Node<V> {
    const key: Option<int>
    var val: Option<V>
    var fwd: array<Node?<V>>

    /** `Node::head`: no key, no value, `maxLevels` empty links. */
    constructor Head(maxLevels: nat)
      ensures key == None && val == None
      ensures fresh(fwd) && fwd.Length == maxLevels
      ensures forall l :: 0 <= l < maxLevels ==> fwd[l] == null
    {
      key := None;
      val := None;
      fwd := new Node?<V>[maxLevels](_ => null);
    }

    /** `Node::entry`: the key, the value and `level` empty links. */
    constructor Entry(k: int, v: V, level: nat)
      ensures key == Some(k) && val == Some(v)
      ensures fresh(fwd) && fwd.Length == level
      ensures forall l :: 0 <= l < level ==> fwd[l] == null
    {
      key := Some(k);
      val := Some(v);
      fwd := new Node?<V>[level](_ => null);
    }

    /**
     * Push empty links until there are `n` of them (the vector may move,
     * so the array is replaced by a fresh one holding the old links first).
     */
    method Extend(n: nat)
      requires fwd.Length <= n
      modifies this`fwd
      ensures fresh(fwd) && fwd.Length == n
      ensures forall l :: 0 <= l < old(fwd.Length) ==> fwd[l] == old(fwd[l])
      ensures forall l :: old(fwd.Length) <= l < n ==> fwd[l] == null
    {
      var grown := new Node?<V>[n];
      var i := 0;
      while i < fwd.Length
        modifies grown
        invariant 0 <= i <= fwd.Length
        invariant forall l :: 0 <= l < i ==> grown[l] == fwd[l]
      {
        grown[i] := fwd[i];
        i := i + 1;
      }
      while i < n
        modifies grown
        invariant fwd.Length <= i <= n
        invariant forall l :: 0 <= l < fwd.Length ==> grown[l] == fwd[l]
        invariant forall l :: fwd.Length <= l < i ==> grown[l] == null
      {
        grown[i] := null;
        i := i + 1;
      }
      fwd := grown;
    }
  }

  /**
   * The ghost view of a list in level-0 order: its entry nodes, their keys,
   * values and levels, the map they denote, and the objects the list owns.
   */
  datatype View<V> = View(nodes: seq<Node<V>>, keys: seq<int>, vals: seq<V>, levels: seq<nat>,
                          contents: map<int, V>, repr: set<object>)

  /** Position q in level-0 order: 0 is the head, q > 0 is entry q - 1. */
  ghost function Pos<V>(head: Node<V>, nodes: seq<Node<V>>, q: nat): Node<V>
    requires q <= |nodes|
  {
    if q == 0 then head else nodes[q - 1]
  }

  /** Entry r as a link target; r == |nodes| stands for "no successor". */
  ghost function Target<V>(nodes: seq<Node<V>>, r: nat): Node?<V>
    requires r <= |nodes|
  {
    if r < |nodes| then nodes[r] else null
  }

  /**
   * Inserting an entry with a key not yet present at its rank keeps the
   * shape; v' is the view with the entry added.
   */
  lemma ShapeInsert<V>(head: Node<V>, max: nat, len: nat, v: View<V>, node: Node<V>, key: int, value: V)
      returns (v': View<V>)
    requires ShapeOf(head, max, len, v)
    requires node !in v.repr && node.fwd !in v.repr
    requires node.key == Some(key) && node.val == Some(value) && 1 <= node.fwd.Length <= max
    requires key !in v.keys
    ensures var p := Rank(v.keys, key);
      && v'.nodes == InsertAt(v.nodes, p, node) && v'.keys == InsertAt(v.keys, p, key)
      && v'.vals == InsertAt(v.vals, p, value) && v'.levels == InsertAt(v.levels, p, node.fwd.Length)
      && v'.contents == v.contents[key := value] && v'.repr == v.repr + {node, node.fwd}
    ensures ShapeOf(head, max, len + 1, v')
  {
    var p := Rank(v.keys, key);
    v' := View(InsertAt(v.nodes, p, node), InsertAt(v.keys, p, key), InsertAt(v.vals, p, value),
               InsertAt<nat>(v.levels, p, node.fwd.Length), v.contents[key := value], v.repr + {node, node.fwd});
    SortedInsert(v.keys, key);
    ToMapInsert(v.keys, v.vals, p, key, value);
    EntriesInsert(v.nodes, v.keys, v.vals, v.levels, max, v.repr, node, p, key, value);
    forall q | 0 <= q <= |v.nodes| ensures Pos(head, v.nodes, q).fwd != node.fwd {
      if q > 0 {
        assert v.nodes[q - 1].fwd in v.repr;
      }
    }
    DistinctInsert(head, v.nodes, node, p);
  }

  /**
   * Splicing an entry of level `height` in at index p, as seen from a
   * position q at or before p: its old level-l link (redirected to the new
   * entry when q is the recorded predecessor u at that level) is its
   * successor in the new list.
   */
  lemma SpliceBefore<V>(oldNodes: seq<Node<V>>, oldLevels: seq<nat>, node: Node<V>, height: nat,
                        p: nat, u: nat, q: nat, l: nat)
    requires |oldNodes| == |oldLevels| && p <= |oldNodes| && q <= p && u <= p
    requires l < height ==> forall m :: u <= m < p ==> oldLevels[m] <= l
    requires l < height && u > 0 ==> oldLevels[u - 1] > l
    requires q > 0 ==> oldLevels[q - 1] > l
    ensures (if l < height && q == u then node else Target(oldNodes, NextIdx(oldLevels, q, l))) ==
      Target(InsertAt(oldNodes, p, node), NextIdx(InsertAt(oldLevels, p, height), q, l))
  {
    NextIdxSplice(oldLevels, p, height, u, q, l);
  }

  /**
   * The new entry's level-l link, copied from its predecessor u, is its
   * successor in the new list.
   */
  lemma SpliceAt<V>(oldNodes: seq<Node<V>>, oldLevels: seq<nat>, node: Node<V>, height: nat,
                    p: nat, u: nat, l: nat)
    requires |oldNodes| == |oldLevels| && u <= p <= |oldNodes|
    requires forall m :: u <= m < p ==> oldLevels[m] <= l
    ensures Target(oldNodes, NextIdx(oldLevels, u, l)) ==
      Target(InsertAt(oldNodes, p, node), NextIdx(InsertAt(oldLevels, p, height), p + 1, l))
  {
    NextIdxSkip(oldLevels, u, p, l);
    NextIdxInsert(oldLevels, p, height, p, l);
  }

  /** The links of the entries after the new one are untouched and still right. */
  lemma SpliceAfter<V>(oldNodes: seq<Node<V>>, oldLevels: seq<nat>, node: Node<V>, height: nat,
                       p: nat, q: nat, l: nat)
    requires |oldNodes| == |oldLevels| && p <= q <= |oldNodes|
    ensures Target(oldNodes, NextIdx(oldLevels, q, l)) ==
      Target(InsertAt(oldNodes, p, node), NextIdx(InsertAt(oldLevels, p, height), q + 1, l))
  {
    NextIdxInsert(oldLevels, p, height, q, l);
  }

  /**
   * The links while the splice loop of `insert` is at level i: below i,
   * the predecessor ups[l] points to `node` and `node` to that
   * predecessor's old successor; every other link is the one NextIdx gives.
   */
  ghost predicate PartLinks<V>(head: Node<V>, nodes: seq<Node<V>>, levels: seq<nat>,
                               node: Node<V>, ups: seq<nat>, i: nat)
    reads head, nodes, node, node.fwd, set q | 0 <= q <= |nodes| :: Pos(head, nodes, q).fwd
  {
    && |levels| == |nodes| && i <= node.fwd.Length && i <= |ups|
    && (forall q, l :: 0 <= q <= |nodes| && 0 <= l < Pos(head, nodes, q).fwd.Length ==>
         Pos(head, nodes, q).fwd[l] ==
           if l < i && q == ups[l] then node else Target(nodes, NextIdx(levels, q, l)))
    && (forall l :: 0 <= l < i ==> ups[l] <= |nodes| && node.fwd[l] == Target(nodes, NextIdx(levels, ups[l], l)))
  }

  /** The requirements of SpliceLinks: the heap right after the splice loop. */
  ghost predicate Spliced<V>(head: Node<V>, oldNodes: seq<Node<V>>, oldLevels: seq<nat>,
                             node: Node<V>, p: nat, ups: seq<nat>)
    reads head, oldNodes, node, node.fwd, set q | 0 <= q <= |oldNodes| :: Pos(head, oldNodes, q).fwd
  {
    && |oldNodes| == |oldLevels| && p <= |oldNodes|
    && |ups| >= node.fwd.Length
    && (forall i :: 0 <= i < |oldNodes| ==> oldNodes[i].fwd.Length == oldLevels[i])
    && (forall l :: 0 <= l < node.fwd.Length ==>
         && ups[l] <= p
         && l < Pos(head, oldNodes, ups[l]).fwd.Length
         && (forall m :: ups[l] <= m < p ==> oldLevels[m] <= l))
    && PartLinks(head, oldNodes, oldLevels, node, ups, node.fwd.Length)
  }

  /** A link of the spliced list at a position before the new entry. */
  lemma LinkBefore<V>(head: Node<V>, oldNodes: seq<Node<V>>, oldLevels: seq<nat>,
                      node: Node<V>, p: nat, ups: seq<nat>, q: nat, l: nat)
    requires Spliced(head, oldNodes, oldLevels, node, p, ups)
    requires q <= p && l < Pos(head, oldNodes, q).fwd.Length
    ensures Pos(head, oldNodes, q).fwd[l] ==
      Target(InsertAt(oldNodes, p, node), NextIdx(InsertAt(oldLevels, p, node.fwd.Length), q, l))
  {
    var height := node.fwd.Length;
    var u := if l < height then ups[l] else 0;
    assert l < height && u > 0 ==> l < oldNodes[u - 1].fwd.Length;
    SpliceBefore(oldNodes, oldLevels, node, height, p, u, q, l);
  }

  /** A link of the new entry. */
  lemma LinkNew<V>(head: Node<V>, oldNodes: seq<Node<V>>, oldLevels: seq<nat>,
                   node: Node<V>, p: nat, ups: seq<nat>, l: nat)
    requires Spliced(head, oldNodes, oldLevels, node, p, ups)
    requires l < node.fwd.Length
    ensures node.fwd[l] ==
      Target(InsertAt(oldNodes, p, node), NextIdx(InsertAt(oldLevels, p, node.fwd.Length), p + 1, l))
  {
    SpliceAt(oldNodes, oldLevels, node, node.fwd.Length, p, ups[l], l);
  }

  /** A link of the spliced list at a position after the new entry. */
  lemma LinkAfter<V>(head: Node<V>, oldNodes: seq<Node<V>>, oldLevels: seq<nat>,
                     node: Node<V>, p: nat, ups: seq<nat>, q: nat, l: nat)
    requires Spliced(head, oldNodes, oldLevels, node, p, ups)
    requires p < q <= |oldNodes| && l < Pos(head, oldNodes, q).fwd.Length
    ensures Pos(head, oldNodes, q).fwd[l] ==
      Target(InsertAt(oldNodes, p, node), NextIdx(InsertAt(oldLevels, p, node.fwd.Length), q + 1, l))
  {
    SpliceAfter(oldNodes, oldLevels, node, node.fwd.Length, p, q, l);
  }

  /** One link of the spliced list: see SpliceLinks. */
  lemma SpliceLinkAt<V>(head: Node<V>, oldNodes: seq<Node<V>>, oldLevels: seq<nat>,
                        node: Node<V>, p: nat, ups: seq<nat>, q: nat, l: nat)
    requires Spliced(head, oldNodes, oldLevels, node, p, ups)
    requires q <= |oldNodes| + 1 && l < Pos(head, InsertAt(oldNodes, p, node), q).fwd.Length
    ensures Pos(head, InsertAt(oldNodes, p, node), q).fwd[l] ==
      Target(InsertAt(oldNodes, p, node), NextIdx(InsertAt(oldLevels, p, node.fwd.Length), q, l))
  {
    var nodes := InsertAt(oldNodes, p, node);
    if q <= p {
      assert Pos(head, nodes, q) == Pos(head, oldNodes, q);
      LinkBefore(head, oldNodes, oldLevels, node, p, ups, q, l);
    } else if q == p + 1 {
      assert Pos(head, nodes, q) == node;
      LinkNew(head, oldNodes, oldLevels, node, p, ups, l);
    } else {
      assert Pos(head, nodes, q) == Pos(head, oldNodes, q - 1);
      LinkAfter(head, oldNodes, oldLevels, node, p, ups, q - 1, l);
    }
  }

  /**
   * The links of `nodes` (behind `head`) after an entry of level
   * node.fwd.Length was spliced in at index p: each predecessor ups[l]
   * recorded by the search now points to the new entry at level l, the new
   * entry points to their old successors, and every other link is the old
   * one. Then the links agree with NextIdx on the new levels.
   */
  lemma SpliceLinks<V>(head: Node<V>, oldNodes: seq<Node<V>>, oldLevels: seq<nat>,
                       node: Node<V>, p: nat, ups: seq<nat>)
    requires Spliced(head, oldNodes, oldLevels, node, p, ups)
    ensures LinksOf(head, InsertAt(oldNodes, p, node), InsertAt(oldLevels, p, node.fwd.Length))
  {
    forall q, l | 0 <= q <= |oldNodes| + 1 && 0 <= l < Pos(head, InsertAt(oldNodes, p, node), q).fwd.Length
      ensures Pos(head, InsertAt(oldNodes, p, node), q).fwd[l] ==
        Target(InsertAt(oldNodes, p, node), NextIdx(InsertAt(oldLevels, p, node.fwd.Length), q, l))
    {
      SpliceLinkAt(head, oldNodes, oldLevels, node, p, ups, q, l);
    }
  }

  /**
   * Entry i of level 0 is nodes[i]: it holds keys[i], has levels[i] links
   * (at least one, at most max), and it and its link array belong to repr.
   */
  ghost predicate Entries<V>(nodes: seq<Node<V>>, keys: seq<int>, levels: seq<nat>,
                             max: nat, repr: set<object>)
    reads nodes
  {
    && |keys| == |nodes| && |levels| == |nodes|
    && forall i :: 0 <= i < |nodes| ==>
         && nodes[i] in repr && nodes[i].fwd in repr
         && nodes[i].key == Some(keys[i])
         && nodes[i].fwd.Length == levels[i] && 1 <= levels[i] <= max
  }

  /** Entry i of level 0 holds the value vals[i]. */
  ghost predicate Holds<V>(nodes: seq<Node<V>>, vals: seq<V>)
    reads nodes
  {
    |vals| == |nodes| && forall i :: 0 <= i < |nodes| ==> nodes[i].val == Some(vals[i])
  }

  /** No two nodes share a link array. */
  ghost predicate DistinctLinks<V>(head: Node<V>, nodes: seq<Node<V>>)
    reads head, nodes
  {
    forall q1, q2 :: 0 <= q1 < q2 <= |nodes| ==> Pos(head, nodes, q1).fwd != Pos(head, nodes, q2).fwd
  }

  /**
   * The list apart from its links: an empty head with max links, len
   * entries in ascending key order with link arrays of their own, and
   * contents the map the keys and values denote.
   */
  ghost predicate ShapeOf<V>(head: Node<V>, max: nat, len: nat, v: View<V>)
    reads head, v.nodes
  {
    && head in v.repr && head.fwd in v.repr
    && head.key == None && head.val == None && head.fwd.Length == max
    && len == |v.nodes|
    && Entries(v.nodes, v.keys, v.levels, max, v.repr)
    && Holds(v.nodes, v.vals)
    && Sorted(v.keys)
    && DistinctLinks(head, v.nodes)
    && v.contents == ToMap(v.keys, v.vals)
  }

  /** The forward links of the head and the entries agree with NextIdx on `levels`. */
  ghost predicate LinksOf<V>(head: Node<V>, nodes: seq<Node<V>>, levels: seq<nat>)
    reads head, head.fwd, nodes, set i | 0 <= i < |nodes| :: nodes[i].fwd
  {
    && |levels| == |nodes|
    && forall q, l :: 0 <= q <= |nodes| && 0 <= l < Pos(head, nodes, q).fwd.Length ==>
         Pos(head, nodes, q).fwd[l] == Target(nodes, NextIdx(levels, q, l))
  }

  /**
   * Walking level l in the heap: the head's level-l link reaches the first
   * entry of Chain(levels, 0, l), each entry on the chain links to the next
   * one, and the last links to nothing.
   */
  lemma ChainLinks<V>(head: Node<V>, nodes: seq<Node<V>>, levels: seq<nat>, l: nat)
    requires LinksOf(head, nodes, levels) && l < head.fwd.Length
    requires forall i :: 0 <= i < |nodes| ==> nodes[i].fwd.Length == levels[i]
    ensures var c := Chain(levels, 0, l);
      && head.fwd[l] == (if |c| == 0 then null else nodes[c[0]])
      && forall i :: 0 <= i < |c| ==>
           && l < nodes[c[i]].fwd.Length
           && nodes[c[i]].fwd[l] == (if i + 1 < |c| then nodes[c[i + 1]] else null)
  {
    var c := Chain(levels, 0, l);
    assert head.fwd[l] == Target(nodes, NextIdx(levels, 0, l)) by {
      assert Pos(head, nodes, 0) == head;
    }
    forall i | 0 <= i < |c|
      ensures l < nodes[c[i]].fwd.Length
      ensures nodes[c[i]].fwd[l] == (if i + 1 < |c| then nodes[c[i + 1]] else null)
    {
      assert c[i] in c;
      ChainStep(levels, 0, l, i);
      assert Pos(head, nodes, c[i] + 1) == nodes[c[i]];
    }
  }

  /**
   * A position c recorded by the search at level l brackets `key`: the
   * node there is the head or has a smaller key, and its level-l successor
   * is absent or has a key at least `key`.
   */
  lemma PredecessorKeys<V>(head: Node<V>, max: nat, len: nat, v: View<V>, key: int, c: nat, l: nat)
    requires ShapeOf(head, max, len, v) && LinksOf(head, v.nodes, v.levels)
    requires c <= |v.nodes| && l < Pos(head, v.nodes, c).fwd.Length
    requires Searched(v.keys, v.levels, key, c, l)
    ensures Pos(head, v.nodes, c) == head || Pos(head, v.nodes, c).key.value < key
    ensures Pos(head, v.nodes, c).fwd[l] == null || Pos(head, v.nodes, c).fwd[l].key.value >= key
  {
    var n := NextIdx(v.levels, c, l);
    if n < |v.nodes| {
      assert v.nodes[n].key == Some(v.keys[n]);
    }
  }

  /** Entries and their values survive the insertion of a well-formed entry. */
  lemma EntriesInsert<V>(nodes: seq<Node<V>>, keys: seq<int>, vals: seq<V>, levels: seq<nat>,
                         max: nat, repr: set<object>, node: Node<V>, p: nat, key: int, value: V)
    requires Entries(nodes, keys, levels, max, repr) && Holds(nodes, vals) && p <= |nodes|
    requires node.key == Some(key) && node.val == Some(value) && 1 <= node.fwd.Length <= max
    ensures Entries(InsertAt(nodes, p, node), InsertAt(keys, p, key),
                    InsertAt(levels, p, node.fwd.Length), max, repr + {node, node.fwd})
    ensures Holds(InsertAt(nodes, p, node), InsertAt(vals, p, value))
  {
  }

  /** A node with a link array of its own keeps the link arrays distinct. */
  lemma DistinctInsert<V>(head: Node<V>, nodes: seq<Node<V>>, node: Node<V>, p: nat)
    requires DistinctLinks(head, nodes) && p <= |nodes|
    requires forall q :: 0 <= q <= |nodes| ==> Pos(head, nodes, q).fwd != node.fwd
    ensures DistinctLinks(head, InsertAt(nodes, p, node))
  {
    var nodes' := InsertAt(nodes, p, node);
    forall q1, q2 | 0 <= q1 < q2 <= |nodes'|
      ensures Pos(head, nodes', q1).fwd != Pos(head, nodes', q2).fwd
    {
      var o1 := if q1 <= p then q1 else q1 - 1;
      var o2 := if q2 <= p then q2 else q2 - 1;
      assert q1 != p + 1 ==> Pos(head, nodes', q1) == Pos(head, nodes, o1);
      assert q2 != p + 1 ==> Pos(head, nodes', q2) == Pos(head, nodes, o2);
    }
  }
}

/** The list itself: the operations of `SkipList` over the nodes of SkipListNodes. */
module SkipListCore {
  import opened SkipListSpec
  import opened SkipListNodes

  /**
   * The effect of `insert(key, value)` taking the list from view m (len0
   * entries, max0 levels) to view m' (len1, max1), returning r: an existing
   * key keeps its node, place and level, gets the new value, and its old
   * value is returned; a missing key becomes a new entry node of height lvl
   * at its rank, every other node staying in place, and the level count
   * becomes the larger of the old one and `optimal_levels` of the new
   * length. The level count never shrinks.
   */
  ghost predicate Upserted<V>(m: View<V>, m': View<V>, key: int, value: V, lvl: nat, r: Option<V>,
                              len0: nat, len1: nat, max0: nat, max1: nat)
    requires Sorted(m.keys) && |m.vals| == |m.keys| && |m.levels| == |m.keys| && |m.nodes| == |m.keys|
  {
    && m'.contents == m.contents[key := value]
    && max1 >= max0
    && var p := Rank(m.keys, key);
       if key in m.contents then
         && r == Some(m.contents[key])
         && len1 == len0 && max1 == max0
         && m'.nodes == m.nodes && m'.keys == m.keys && m'.levels == m.levels
         && p < |m.vals| && m'.vals == m.vals[p := value] && m'.repr == m.repr
       else
         && r == None
         && len1 == len0 + 1 && max1 == Max(max0, OptimalLevels(len1))
         && |m'.nodes| == |m.nodes| + 1 && m'.nodes == InsertAt(m.nodes, p, m'.nodes[p])
         && m'.keys == InsertAt(m.keys, p, key)
         && m'.vals == InsertAt(m.vals, p, value)
         && m'.levels == InsertAt(m.levels, p, lvl)
  }

  /**
   * After an upsert every entry node of the old list is still an entry node,
   * in the same order: an existing key leaves the nodes as they were, and
   * a new key adds exactly one node, at its rank.
   */
  lemma UpsertKeepsNodes<V>(m: View<V>, m': View<V>, key: int, value: V, lvl: nat, r: Option<V>,
                            len0: nat, len1: nat, max0: nat, max1: nat)
    requires Sorted(m.keys) && |m.vals| == |m.keys| && |m.levels| == |m.keys| && |m.nodes| == |m.keys|
    requires Upserted(m, m', key, value, lvl, r, len0, len1, max0, max1)
    ensures key in m.contents ==> m'.nodes == m.nodes
    ensures key !in m.contents ==>
      var p := Rank(m.keys, key);
      p < |m'.nodes| && m'.nodes[..p] + m'.nodes[p + 1..] == m.nodes
    ensures forall i :: 0 <= i < |m.nodes| ==> m.nodes[i] in m'.nodes
  {
    if key !in m.contents {
      var p := Rank(m.keys, key);
      assert m'.nodes[..p] + m'.nodes[p + 1..] == m.nodes;
      forall i | 0 <= i < |m.nodes| ensures m.nodes[i] in m'.nodes {
        var i' := if i < p then i else i + 1;
        assert m'.nodes[i'] == m.nodes[i];
      }
    }
  }

  /**
   * The list: `SkipList<K, V>` with integer keys. Its abstract state is a
   * View, which every operation takes as a ghost argument and, when it
   * changes the list, returns updated.
   */
  class SkipList<V> {
    const head: Node<V>
    var max: nat
    var len: nat

    /** m is the list apart from the contents of the forward-link arrays. */
    ghost predicate Shape(m: View<V>)
      reads this, head, m.nodes
    {
      this in m.repr && ShapeOf(head, max, len, m)
    }

    /**
     * m is the list, and every forward link of the head and of every entry
     * points to the next entry (in level-0 order) that takes part in that
     * level, or is empty.
     */
    ghost predicate Valid(m: View<V>)
      reads this, head, m.nodes, m.repr
    {
      Shape(m) && LinksOf(head, m.nodes, m.levels)
    }

    /** The view of the list with no entries. */
    ghost function Empty(): View<V>
      reads this, head
    {
      View([], [], [], [], map[], {this, head, head.fwd})
    }

    /** `with_params`: an empty list with `initialMax` levels (the probability is not modelled). */
    constructor WithParams(initialMax: nat)
      ensures Valid(Empty()) && fresh(head) && fresh(head.fwd)
      ensures max == initialMax && len == 0
      ensures head.key == None && head.val == None && head.fwd.Length == initialMax
      ensures forall l :: 0 <= l < initialMax ==> head.fwd[l] == null
    {
      head := new Node.Head(initialMax);
      max := initialMax;
      len := 0;
    }

    /** `new`: `with_params(4, 0.5)`. */
    constructor New()
      ensures Valid(Empty()) && fresh(head) && fresh(head.fwd)
      ensures max == 4 && len == 0
    {
      head := new Node.Head(4);
      max := 4;
      len := 0;
    }

    /** `len`: the number of distinct keys stored. */
    function Len(ghost m: View<V>): (n: nat)
      reads this, head, m.nodes, m.repr
      requires Valid(m)
      ensures n == |m.contents|
    {
      ToMapSize(m.keys, m.vals);
      len
    }

    /** `is_empty`. */
    function IsEmpty(ghost m: View<V>): (b: bool)
      reads this, head, m.nodes, m.repr
      requires Valid(m)
      ensures b <==> m.contents == map[]
    {
      ToMapSize(m.keys, m.vals);
      assert m.contents == map[] <==> |m.contents| == 0;
      len == 0
    }

    /** `grow`: extend the head's links to `newMax` levels with empty slots. */
    method Grow(newMax: nat, ghost m: View<V>) returns (ghost m': View<V>)
      requires Valid(m) && max <= newMax
      modifies this, head`fwd
      ensures Valid(m') && m' == m.(repr := m.repr + {head.fwd}) && fresh(head.fwd)
      ensures max == newMax && len == old(len) && head.fwd.Length == newMax
      ensures forall l :: 0 <= l < old(max) ==> head.fwd[l] == old(head.fwd[l])
      ensures forall l :: old(max) <= l < newMax ==> head.fwd[l] == null
    {
      head.Extend(newMax);
      max := newMax;
      m' := m.(repr := m.repr + {head.fwd});
      assert forall i :: 0 <= i < |m.nodes| ==> m.nodes[i] != head && m.nodes[i].fwd == old(m.nodes[i].fwd);
      assert Shape(m');
      forall q, l | 0 <= q <= |m'.nodes| && 0 <= l < Pos(head, m'.nodes, q).fwd.Length
        ensures Pos(head, m'.nodes, q).fwd[l] == Target(m'.nodes, NextIdx(m'.levels, q, l))
      {
        if q == 0 && l >= old(max) {
          assert NextIdx(m'.levels, 0, l) == |m'.levels|;
        } else {
          assert Pos(head, m'.nodes, q) == Pos(head, m.nodes, q);
        }
      }
    }

    /** `resize`: grow to `optimal_levels` when that exceeds the current level count. */
    method Resize(ghost m: View<V>) returns (ghost m': View<V>)
      requires Valid(m)
      modifies this, head`fwd
      ensures Valid(m') && m' == m.(repr := m.repr + {head.fwd})
      ensures head.fwd == old(head.fwd) || fresh(head.fwd)
      ensures max == Max(old(max), OptimalLevels(len))
      ensures max >= old(max) && max >= OptimalLevels(len)
      ensures len == old(len)
    {
      var optimal := OptimalLevels(len);
      if optimal > max {
        m' := Grow(optimal, m);
      } else {
        m' := m;
        assert m.repr + {head.fwd} == m.repr;
      }
    }

    /**
     * `random_level`: start at level 1 and go one level up for every
     * successful draw, stopping at the first failed draw or at `max`.
     */
    method RandomLevel(flips: seq<bool>) returns (lvl: nat)
      ensures lvl == DrawLevel(flips, max)
    {
      lvl := 1;
      while lvl - 1 < |flips| && flips[lvl - 1] && lvl < max
        invariant 1 <= lvl && Heads(flips, lvl - 1)
        invariant DrawFrom(flips, lvl, max) == DrawLevel(flips, max)
        decreases max - lvl
      {
        lvl := lvl + 1;
      }
    }

    /**
     * One level of the search phase of `insert`: from `start` (position
     * c0), follow the level-`level` links while the successor's key is
     * below `key`.
     */
    method WalkBelow(key: int, level: nat, start: Node<V>, ghost c0: nat, ghost m: View<V>)
      returns (curr: Node<V>, ghost c: nat)
      requires Valid(m)
      requires c0 <= |m.nodes| && start == Pos(head, m.nodes, c0) && level < start.fwd.Length
      requires Searched(m.keys, m.levels, key, c0, level + 1)
      ensures c0 <= c <= |m.nodes| && curr == Pos(head, m.nodes, c) && level < curr.fwd.Length
      ensures Searched(m.keys, m.levels, key, c, level)
      ensures curr.fwd[level] == null || (curr.fwd[level].key.Some? && curr.fwd[level].key.value >= key)
    {
      curr, c := start, c0;
      while true
        invariant c0 <= c <= |m.nodes| && curr == Pos(head, m.nodes, c) && level < curr.fwd.Length
        invariant Searched(m.keys, m.levels, key, c, level + 1)
        decreases |m.nodes| - c
      {
        var next := curr.fwd[level];
        ghost var n := NextIdx(m.levels, c, level);
        assert next == Target(m.nodes, n);
        if next == null {
          SearchStop(m.keys, m.levels, key, c, level);
          return;
        }
        if next.key.value < key {
          curr := next;
          c := n + 1;
        } else {
          SearchStop(m.keys, m.levels, key, c, level);
          return;
        }
      }
    }

    /**
     * The search phase of `insert`: walking down from the top level, record
     * for every level the last node whose key is below `key`.
     */
    method FindPredecessors(key: int, ghost m: View<V>) returns (update: seq<Node<V>>, ghost ups: seq<nat>)
      requires Valid(m)
      ensures |update| == max && |ups| == max
      ensures forall l :: 0 <= l < max ==>
        && ups[l] <= |m.nodes| && update[l] == Pos(head, m.nodes, ups[l])
        && l < update[l].fwd.Length
        && Searched(m.keys, m.levels, key, ups[l], l)
      ensures forall l1, l2 :: 0 <= l1 <= l2 < max ==> ups[l2] <= ups[l1]
    {
      var h := head;
      update := seq(max, _ => h);
      ups := seq(max, _ => 0);
      var curr := head;
      ghost var c: nat := 0;
      var level: nat := max;
      while level > 0
        invariant level <= max && |update| == max && |ups| == max
        invariant c <= |m.nodes| && curr == Pos(head, m.nodes, c) && level <= curr.fwd.Length
        invariant Searched(m.keys, m.levels, key, c, level)
        invariant forall l :: level <= l < max ==>
          && ups[l] <= c && update[l] == Pos(head, m.nodes, ups[l])
          && l < update[l].fwd.Length
          && Searched(m.keys, m.levels, key, ups[l], l)
        invariant forall l1, l2 :: level <= l1 <= l2 < max ==> ups[l2] <= ups[l1]
      {
        level := level - 1;
        curr, c := WalkBelow(key, level, curr, c, m);
        update := update[level := curr];
        ups := ups[level := c];
      }
    }

    /**
     * One step of the splice loop of `insert`: `node` takes over the
     * level-i successor of `prev` (the predecessor ups[i]) and becomes it.
     */
    method LinkLevel(node: Node<V>, prev: Node<V>, i: nat, ghost ups: seq<nat>, ghost m: View<V>)
      requires |m.levels| == |m.nodes| && DistinctLinks(head, m.nodes)
      requires forall q :: 0 <= q <= |m.nodes| ==> Pos(head, m.nodes, q).fwd != node.fwd
      requires i < node.fwd.Length && i < |ups| && ups[i] <= |m.nodes|
      requires prev == Pos(head, m.nodes, ups[i]) && i < prev.fwd.Length
      requires PartLinks(head, m.nodes, m.levels, node, ups, i)
      modifies node.fwd, prev.fwd
      ensures PartLinks(head, m.nodes, m.levels, node, ups, i + 1)
    {
      node.fwd[i] := prev.fwd[i];
      prev.fwd[i] := node;
      forall q, l | 0 <= q <= |m.nodes| && 0 <= l < Pos(head, m.nodes, q).fwd.Length
        ensures Pos(head, m.nodes, q).fwd[l] ==
          if l < i + 1 && q == ups[l] then node else Target(m.nodes, NextIdx(m.levels, q, l))
      {
        var a := Pos(head, m.nodes, q).fwd;
        if l != i || q != ups[i] {
          assert q != ups[i] ==> a != prev.fwd;
          assert a[l] == old(a[l]);
        }
      }
      forall l | 0 <= l < i + 1
        ensures node.fwd[l] == Target(m.nodes, NextIdx(m.levels, ups[l], l))
      {
        if l < i {
          assert node.fwd[l] == old(node.fwd[l]);
        }
      }
    }

    /**
     * The splice loop of `insert`: at every level below the new entry's
     * height, the new entry takes over the successor of the predecessor
     * recorded for that level and becomes that predecessor's successor.
     */
    method LinkIn(node: Node<V>, update: seq<Node<V>>, ghost ups: seq<nat>, ghost p: nat, ghost m: View<V>)
      requires |m.levels| == |m.nodes| && LinksOf(head, m.nodes, m.levels) && DistinctLinks(head, m.nodes)
      requires forall i :: 0 <= i < |m.nodes| ==> m.nodes[i].fwd.Length == m.levels[i]
      requires forall q :: 0 <= q <= |m.nodes| ==> Pos(head, m.nodes, q).fwd != node.fwd
      requires node.fwd.Length <= |update| && node.fwd.Length <= |ups| && p <= |m.nodes|
      requires forall l :: 0 <= l < node.fwd.Length ==>
        && ups[l] <= p && update[l] == Pos(head, m.nodes, ups[l]) && l < update[l].fwd.Length
        && (forall j :: ups[l] <= j < p ==> m.levels[j] <= l)
      modifies node.fwd, set l | 0 <= l < node.fwd.Length :: update[l].fwd
      ensures LinksOf(head, InsertAt(m.nodes, p, node), InsertAt(m.levels, p, node.fwd.Length))
    {
      LinkLevels(node, update, ups, m);
      SpliceLinks(head, m.nodes, m.levels, node, p, ups);
    }

    /**
     * The loop of LinkIn on its own: after it, the links are those of the
     * list with `node` spliced in below its height.
     */
    method LinkLevels(node: Node<V>, update: seq<Node<V>>, ghost ups: seq<nat>, ghost m: View<V>)
      requires |m.levels| == |m.nodes| && LinksOf(head, m.nodes, m.levels) && DistinctLinks(head, m.nodes)
      requires forall q :: 0 <= q <= |m.nodes| ==> Pos(head, m.nodes, q).fwd != node.fwd
      requires node.fwd.Length <= |update| && node.fwd.Length <= |ups|
      requires forall l :: 0 <= l < node.fwd.Length ==>
        && ups[l] <= |m.nodes| && update[l] == Pos(head, m.nodes, ups[l]) && l < update[l].fwd.Length
      modifies node.fwd, set l | 0 <= l < node.fwd.Length :: update[l].fwd
      ensures PartLinks(head, m.nodes, m.levels, node, ups, node.fwd.Length)
    {
      var i := 0;
      while i < node.fwd.Length
        invariant 0 <= i <= node.fwd.Length
        invariant PartLinks(head, m.nodes, m.levels, node, ups, i)
      {
        LinkLevel(node, update[i], i, ups, m);
        i := i + 1;
      }
    }

    /**
     * `self.len += 1` of `insert`, once `node` is linked in at index p of
     * level 0: the entry joins the nodes, keys, values and levels of the
     * view at p.
     */
    method Adopt(node: Node<V>, key: int, value: V, ghost p: nat, ghost m: View<V>) returns (ghost m': View<V>)
      requires Shape(m)
      requires node !in m.repr && node.fwd !in m.repr
      requires node.key == Some(key) && node.val == Some(value) && 1 <= node.fwd.Length <= max
      requires key !in m.keys && p == Rank(m.keys, key)
      requires LinksOf(head, InsertAt(m.nodes, p, node), InsertAt(m.levels, p, node.fwd.Length))
      modifies this`len
      ensures Valid(m') && len == old(len) + 1
      ensures m'.nodes == InsertAt(m.nodes, p, node)
      ensures m'.keys == InsertAt(m.keys, p, key) && m'.vals == InsertAt(m.vals, p, value)
      ensures m'.levels == InsertAt(m.levels, p, node.fwd.Length)
      ensures m'.contents == m.contents[key := value]
      ensures m'.repr == m.repr + {node, node.fwd}
    {
      len := len + 1;
      m' := ShapeInsert(head, max, len - 1, m, node, key, value);
    }

    /**
     * The upsert branch of `insert`: entry p holds `key`; it gets the new
     * value and its old value is returned.
     */
    method Replace(node: Node<V>, ghost p: nat, key: int, value: V, ghost m: View<V>)
      returns (r: Option<V>, ghost m': View<V>)
      requires Valid(m) && p < |m.nodes| && node == m.nodes[p] && m.keys[p] == key
      modifies node`val
      ensures Valid(m') && r == Some(m.vals[p])
      ensures m' == m.(vals := m.vals[p := value], contents := m.contents[key := value])
    {
      r := node.val;
      node.val := Some(value);
      m' := m.(vals := m.vals[p := value], contents := m.contents[key := value]);
      ToMapUpdate(m.keys, m.vals, p, value);
      assert Holds(m'.nodes, m'.vals);
      assert Entries(m'.nodes, m'.keys, m'.levels, max, m'.repr);
      assert DistinctLinks(head, m'.nodes);
      assert LinksOf(head, m'.nodes, m'.levels) by {
        forall q, l | 0 <= q <= |m.nodes| && 0 <= l < Pos(head, m.nodes, q).fwd.Length
          ensures Pos(head, m.nodes, q).fwd[l] == Target(m.nodes, NextIdx(m.levels, q, l))
        {
          assert Pos(head, m.nodes, q).fwd == old(Pos(head, m.nodes, q).fwd);
        }
      }
    }

    /**
     * Create an entry of level `lvl` and splice it in at index p of level 0,
     * after the predecessors recorded for each of its levels.
     */
    method NewEntry(key: int, value: V, lvl: nat, update: seq<Node<V>>, ghost ups: seq<nat>, ghost p: nat,
                    ghost m: View<V>) returns (node: Node<V>, ghost added: set<object>)
      requires Valid(m) && p <= |m.nodes|
      requires lvl <= |update| && lvl <= |ups|
      requires forall l :: 0 <= l < lvl ==>
        && ups[l] <= p && update[l] == Pos(head, m.nodes, ups[l]) && l < update[l].fwd.Length
        && (forall j :: ups[l] <= j < p ==> m.levels[j] <= l)
      modifies set l | 0 <= l < lvl :: update[l].fwd
      ensures Shape(m) && added == {node, node.fwd} && fresh(added) && node !in m.repr && node.fwd !in m.repr
      ensures node.key == Some(key) && node.val == Some(value) && node.fwd.Length == lvl
      ensures LinksOf(head, InsertAt(m.nodes, p, node), InsertAt(m.levels, p, lvl))
    {
      node := new Node.Entry(key, value, lvl);
      added := {node, node.fwd};
      assert forall q :: 0 <= q <= |m.nodes| ==> Pos(head, m.nodes, q).fwd in m.repr;
      LinkIn(node, update, ups, p, m);
    }

    /** The new entry of `insert`: create it, splice it in at index p and count it. */
    method AddEntry(key: int, value: V, lvl: nat, update: seq<Node<V>>, ghost ups: seq<nat>, ghost p: nat,
                    ghost m: View<V>) returns (ghost m': View<V>, ghost added: set<object>)
      requires Valid(m) && 1 <= lvl <= max && key !in m.keys && p == Rank(m.keys, key)
      requires lvl <= |update| && lvl <= |ups|
      requires forall l :: 0 <= l < lvl ==>
        && ups[l] <= p && update[l] == Pos(head, m.nodes, ups[l]) && l < update[l].fwd.Length
        && (forall j :: ups[l] <= j < p ==> m.levels[j] <= l)
      modifies this`len, set l | 0 <= l < lvl :: update[l].fwd
      ensures Valid(m') && len == old(len) + 1
      ensures m'.repr == m.repr + added && fresh(added)
      ensures |m'.nodes| == |m.nodes| + 1 && m'.nodes == InsertAt(m.nodes, p, m'.nodes[p])
      ensures m'.keys == InsertAt(m.keys, p, key) && m'.vals == InsertAt(m.vals, p, value)
      ensures m'.levels == InsertAt(m.levels, p, lvl)
      ensures m'.contents == m.contents[key := value]
    {
      var node;
      node, added := NewEntry(key, value, lvl, update, ups, p, m);
      m' := Adopt(node, key, value, p, m);
    }

    /**
     * The new-key branch of `insert`: draw a level from `flips`, splice a
     * new entry in after the predecessors the search recorded, count it
     * and grow the head if the list outgrew its levels.
     */
    method InsertNew(key: int, value: V, flips: seq<bool>, update: seq<Node<V>>, ghost ups: seq<nat>,
                     ghost p: nat, ghost m: View<V>) returns (ghost m': View<V>)
      requires Valid(m) && max >= 1 && key !in m.keys && p == Rank(m.keys, key)
      requires |update| == max && |ups| == max
      requires forall l :: 0 <= l < max ==>
        && ups[l] <= p && update[l] == Pos(head, m.nodes, ups[l]) && l < update[l].fwd.Length
        && (forall j :: ups[l] <= j < p ==> m.levels[j] <= l)
      modifies m.repr
      ensures Valid(m') && fresh(m'.repr - m.repr)
      ensures Upserted(m, m', key, value, DrawLevel(flips, old(max)), None, old(len), len, old(max), max)
    {
      assert key !in m.contents;
      var lvl := RandomLevel(flips);
      ghost var m1, added := AddEntry(key, value, lvl, update, ups, p, m);
      label Added:
      m' := Resize(m1);
      forall o | o in m'.repr && o !in m.repr ensures fresh(o) {
        if o !in added {
          assert o == head.fwd && fresh@Added(o);
        }
      }
    }

    /**
     * `insert`: replace the value of an existing key in place and return the
     * old one, or splice a new entry in at a level drawn from `flips` and
     * return None.
     */
    method Insert(key: int, value: V, flips: seq<bool>, ghost m: View<V>) returns (r: Option<V>, ghost m': View<V>)
      requires Valid(m) && max >= 1
      modifies m.repr
      ensures Valid(m') && fresh(m'.repr - m.repr)
      ensures Upserted(m, m', key, value, DrawLevel(flips, old(max)), r, old(len), len, old(max), max)
    {
      var update, ups := Locate(key, m);
      r, m' := Place(key, value, flips, update, ups, m);
    }

    /**
     * The search loop of `insert`, read for what it leaves behind: update[0]
     * sits just before the rank of `key`, and the predecessor at each level l
     * is at or before it with only entries below level l in between.
     */
    method Locate(key: int, ghost m: View<V>) returns (update: seq<Node<V>>, ghost ups: seq<nat>)
      requires Valid(m) && max >= 1
      ensures |update| == max && |ups| == max
      ensures ups[0] == Rank(m.keys, key)
      ensures forall l :: 0 <= l < max ==>
        && ups[l] <= ups[0] && update[l] == Pos(head, m.nodes, ups[l]) && l < update[l].fwd.Length
        && (forall j :: ups[l] <= j < ups[0] ==> m.levels[j] <= l)
    {
      update, ups := FindPredecessors(key, m);
      assert forall j :: 0 <= j < |m.levels| ==> m.levels[j] >= 1;
      SearchedLevels(m.keys, m.levels, key, ups);
    }

    /**
     * The existence check of `insert`, once the search has recorded the
     * predecessors update (positions ups) of `key` at every level: the
     * level-0 successor of update[0] (entry p, the rank of `key`) either
     * holds `key` and gets the new value, or a new entry is spliced in at
     * index p.
     */
    method Place(key: int, value: V, flips: seq<bool>, update: seq<Node<V>>, ghost ups: seq<nat>, ghost m: View<V>)
        returns (r: Option<V>, ghost m': View<V>)
      requires Valid(m) && max >= 1 && |update| == max && |ups| == max
      requires ups[0] == Rank(m.keys, key)
      requires forall l :: 0 <= l < max ==>
        && ups[l] <= ups[0] && update[l] == Pos(head, m.nodes, ups[l]) && l < update[l].fwd.Length
        && (forall j :: ups[l] <= j < ups[0] ==> m.levels[j] <= l)
      modifies m.repr
      ensures Valid(m') && fresh(m'.repr - m.repr)
      ensures Upserted(m, m', key, value, DrawLevel(flips, old(max)), r, old(len), len, old(max), max)
    {
      ghost var p := ups[0];
      var first := update[0].fwd[0];
      assert first == Target(m.nodes, p) by {
        assert p < |m.levels| ==> m.levels[p] >= 1;
      }
      if first != null && first.key == Some(key) {
        assert m.keys[p] == key && key in m.contents && m.contents[key] == m.vals[p] by {
          ToMapAt(m.keys, m.vals, p);
        }
        r, m' := Replace(first, p, key, value, m);
      } else {
        assert key !in m.keys by {
          RankMiss(m.keys, key);
        }
        m' := InsertNew(key, value, flips, update, ups, p, m);
        r := None;
      }
    }

    /**
     * One level of `get`: from `start` (position c0), follow the
     * level-`level` links while the successor's key is below `key`; a
     * successor holding `key` ends the search with its value.
     */
    method SeekLevel(key: int, level: nat, start: Node<V>, ghost c0: nat, ghost m: View<V>)
      returns (curr: Node<V>, ghost c: nat, hit: Option<V>)
      requires Valid(m)
      requires c0 <= |m.nodes| && start == Pos(head, m.nodes, c0) && level < start.fwd.Length
      requires Searched(m.keys, m.levels, key, c0, level + 1)
      ensures hit.Some? ==> key in m.contents && hit.value == m.contents[key]
      ensures hit.None? ==>
        && c0 <= c <= |m.nodes| && curr == Pos(head, m.nodes, c) && level < curr.fwd.Length
        && Searched(m.keys, m.levels, key, c, level)
        && (NextIdx(m.levels, c, level) == |m.nodes| || m.keys[NextIdx(m.levels, c, level)] > key)
    {
      curr, c, hit := start, c0, None;
      while true
        invariant c0 <= c <= |m.nodes| && curr == Pos(head, m.nodes, c) && level < curr.fwd.Length
        invariant Searched(m.keys, m.levels, key, c, level + 1)
        decreases |m.nodes| - c
      {
        var next := curr.fwd[level];
        ghost var n := NextIdx(m.levels, c, level);
        assert next == Target(m.nodes, n);
        if next == null {
          SearchStop(m.keys, m.levels, key, c, level);
          return;
        }
        if next.key == Some(key) {
          ToMapAt(m.keys, m.vals, n);
          hit := next.val;
          return;
        } else if next.key.Some? && next.key.value < key {
          curr := next;
          c := n + 1;
        } else {
          SearchStop(m.keys, m.levels, key, c, level);
          return;
        }
      }
    }

    /** `get`: the value stored under `key`, if any. */
    method Get(key: int, ghost m: View<V>) returns (r: Option<V>)
      requires Valid(m)
      ensures r == if key in m.contents then Some(m.contents[key]) else None
    {
      var curr := head;
      ghost var c: nat := 0;
      var level: nat := max;
      while level > 0
        invariant level <= max
        invariant c <= |m.nodes| && curr == Pos(head, m.nodes, c) && level <= curr.fwd.Length
        invariant Searched(m.keys, m.levels, key, c, level)
        invariant level < max ==>
          NextIdx(m.levels, c, level) == |m.nodes| || m.keys[NextIdx(m.levels, c, level)] > key
      {
        level := level - 1;
        var hit;
        curr, c, hit := SeekLevel(key, level, curr, c, m);
        if hit.Some? {
          return hit;
        }
      }
      assert |m.nodes| > 0 ==> m.levels[0] <= max;
      SearchMiss(m.keys, m.levels, key, c);
      r := None;
    }

    /** `contains_key`: whether `get` finds the key. */
    method ContainsKey(key: int, ghost m: View<V>) returns (b: bool)
      requires Valid(m)
      ensures b <==> key in m.contents
    {
      var v := Get(key, m);
      b := v.Some?;
    }
  }

  /** A list fresh from `new` is empty, has length 0, and neither `get` nor `contains_key` finds a key in it. */
  method NewIsEmpty<V>(key: int) returns (empty: bool, n: nat, r: Option<V>, found: bool)
    ensures empty && n == 0 && r == None && !found
  {
    var s := new SkipList<V>.New();
    empty := s.IsEmpty(s.Empty());
    n := s.Len(s.Empty());
    r := s.Get(key, s.Empty());
    found := s.ContainsKey(key, s.Empty());
  }

  /**
   * `insert` followed by `get`: the inserted key yields the new value, every
   * other key what it held before.
   */
  method InsertThenGet<V>(s: SkipList<V>, key: int, value: V, other: int, flips: seq<bool>, ghost m: View<V>)
      returns (r: Option<V>)
    requires s.Valid(m) && s.max >= 1
    modifies m.repr
    ensures r == if other == key then Some(value) else if other in m.contents then Some(m.contents[other]) else None
  {
    var previous;
    ghost var m';
    previous, m' := s.Insert(key, value, flips, m);
    assert m'.contents == m.contents[key := value];
    r := s.Get(other, m');
  }
}
