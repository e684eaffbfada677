/**
 * Value-level vocabulary for the skip-list map of `src/lib.rs`.
 *
 * The heap structure (nodes with forward-link arrays) is described in module
 * SkipListNodes by ghost sequences kept in level-0 order, among them the keys,
 * the values and the level of every entry node. This module holds the
 * functions over those sequences that the heap invariant is phrased in, and
 * the lemmas about them:
 *   - NextIdx: the entry a level-l forward link must point to,
 *   - Chain: the entries met by following level-l links,
 *   - Rank and ToMap: where a key sits in level 0 and the map the list denotes,
 *   - DrawLevel: the level `random_level` produces from a run of coin flips,
 *   - CeilLog2 and OptimalLevels: the level count the list grows to.
 */
module SkipListSpec {

  datatype Option<T> = None | Some(value: T)

  /** Keys in strictly ascending order (so also without duplicates). */
  predicate Sorted(ks: seq<int>)
  {
    forall i, j :: 0 <= i < j < |ks| ==> ks[i] < ks[j]
  }

  /** `s` with `x` placed at index `p`. */
  function InsertAt<T>(s: seq<T>, p: nat, x: T): (r: seq<T>)
    requires p <= |s|
    ensures |r| == |s| + 1 && r[p] == x
    ensures forall i {:trigger r[i]} :: 0 <= i < p ==> r[i] == s[i]
    ensures forall i :: p < i < |r| ==> r[i] == s[i - 1]
  {
    s[..p] + [x] + s[p..]
  }

  // ---------------------------------------------------------------------------
  // Forward links as indices
  // ---------------------------------------------------------------------------

  /**
   * Entries are numbered 0 .. |lv|-1 in level-0 order; lv[m] is the level
   * (number of forward slots) of entry m. A node whose followers are the
   * entries from index q on has, at level l, the successor NextIdx(lv, q, l):
   * the first entry from q on that takes part in level l, or |lv| (no
   * successor) when there is none.
   */
  function NextIdx(lv: seq<nat>, q: nat, l: nat): (r: nat)
    requires q <= |lv|
    ensures q <= r <= |lv|
    ensures r < |lv| ==> lv[r] > l
    ensures forall m :: q <= m < r ==> lv[m] <= l
    decreases |lv| - q
  {
    if q == |lv| then |lv|
    else if lv[q] > l then q
    else NextIdx(lv, q + 1, l)
  }

  /** The three properties of NextIdx determine it. */
  lemma NextIdxUnique(lv: seq<nat>, q: nat, l: nat, r: nat)
    requires q <= r <= |lv|
    requires r < |lv| ==> lv[r] > l
    requires forall m :: q <= m < r ==> lv[m] <= l
    ensures NextIdx(lv, q, l) == r
  {
  }

  /** Entries below level l+1 between q1 and q2 are invisible at level l. */
  lemma NextIdxSkip(lv: seq<nat>, q1: nat, q2: nat, l: nat)
    requires q1 <= q2 <= |lv|
    requires forall m :: q1 <= m < q2 ==> lv[m] <= l
    ensures NextIdx(lv, q1, l) == NextIdx(lv, q2, l)
  {
    var r2 := NextIdx(lv, q2, l);
    NextIdxUnique(lv, q1, l, r2);
  }

  /**
   * Splicing an entry of level L in at index p changes the level-l successor
   * of the nodes before it only when l < L and their old successor lay at or
   * after p (then the new entry is their successor); every other successor
   * is the same entry as before, shifted by one when it lies after p.
   */
  lemma NextIdxInsert(lv: seq<nat>, p: nat, lvl: nat, q: nat, l: nat)
    requires p <= |lv| && q <= |lv|
    ensures q <= p ==>
      NextIdx(InsertAt(lv, p, lvl), q, l) ==
        (if NextIdx(lv, q, l) < p then NextIdx(lv, q, l)
         else if l < lvl then p
         else NextIdx(lv, q, l) + 1)
    ensures p <= q ==> NextIdx(InsertAt(lv, p, lvl), q + 1, l) == NextIdx(lv, q, l) + 1
  {
    var lv' := InsertAt(lv, p, lvl);
    var r := NextIdx(lv, q, l);
    if q <= p {
      if r < p {
        NextIdxUnique(lv', q, l, r);
      } else if l < lvl {
        NextIdxUnique(lv', q, l, p);
      } else {
        NextIdxUnique(lv', q, l, r + 1);
      }
    }
    if p <= q {
      NextIdxUnique(lv', q + 1, l, r + 1);
    }
  }

  /**
   * The successor after a splice, for a node at or before the splice point p
   * (q <= p): u is the node the search recorded for level l, so the entries
   * between u and p are below level l + 1. At the levels the new entry takes
   * part in, u's successor becomes the new entry and every other node keeps
   * its successor; above them every node keeps its successor.
   */
  lemma NextIdxSplice(lv: seq<nat>, p: nat, height: nat, u: nat, q: nat, l: nat)
    requires p <= |lv| && q <= p && u <= p
    requires l < height ==> forall m :: u <= m < p ==> lv[m] <= l
    requires l < height && u > 0 ==> lv[u - 1] > l
    requires q > 0 ==> lv[q - 1] > l
    ensures NextIdx(InsertAt(lv, p, height), q, l) ==
      (if l < height && q == u then p
       else if NextIdx(lv, q, l) < p then NextIdx(lv, q, l)
       else NextIdx(lv, q, l) + 1)
  {
    NextIdxInsert(lv, p, height, q, l);
    if l < height {
      if q == u {
        NextIdxSkip(lv, u, p, l);
      } else {
        assert q < u ==> NextIdx(lv, q, l) <= u - 1;
      }
    }
  }

  /**
   * The entries met by following level-l links from a node whose followers
   * start at index q.
   */
  function Chain(lv: seq<nat>, q: nat, l: nat): (c: seq<nat>)
    requires q <= |lv|
    ensures forall m :: m in c <==> q <= m < |lv| && lv[m] > l
    ensures forall i :: 0 <= i < |c| ==> q <= c[i] < |lv|
    ensures forall i, j :: 0 <= i < j < |c| ==> c[i] < c[j]
    decreases |lv| - q
  {
    var r := NextIdx(lv, q, l);
    if r == |lv| then [] else [r] + Chain(lv, r + 1, l)
  }

  /** When every entry takes part in level l, the chain visits each entry once, in order. */
  lemma {:induction false} ChainAll(lv: seq<nat>, q: nat, l: nat)
    requires q <= |lv|
    requires forall m :: 0 <= m < |lv| ==> lv[m] > l
    ensures |Chain(lv, q, l)| == |lv| - q
    ensures forall i :: 0 <= i < |lv| - q ==> Chain(lv, q, l)[i] == q + i
    decreases |lv| - q
  {
    if q < |lv| {
      assert NextIdx(lv, q, l) == q;
      ChainAll(lv, q + 1, l);
    }
  }

  /**
   * The chain is what repeated NextIdx steps produce: each element is
   * followed by the successor after it, and the last one has none.
   */
  lemma ChainStep(lv: seq<nat>, q: nat, l: nat, i: nat)
    requires q <= |lv| && i < |Chain(lv, q, l)|
    ensures NextIdx(lv, Chain(lv, q, l)[i] + 1, l) ==
      (if i + 1 < |Chain(lv, q, l)| then Chain(lv, q, l)[i + 1] else |lv|)
  {
    var c := Chain(lv, q, l);
    var r := if i + 1 < |c| then c[i + 1] else |lv|;
    forall m | c[i] + 1 <= m < r ensures lv[m] <= l {
      ChainGap(lv, q, l, i, m);
    }
    NextIdxUnique(lv, c[i] + 1, l, r);
  }

  /** An entry between two neighbours on the level-l chain, or after its last one, is below level l. */
  lemma ChainGap(lv: seq<nat>, q: nat, l: nat, i: nat, m: nat)
    requires q <= |lv| && i < |Chain(lv, q, l)|
    requires Chain(lv, q, l)[i] < m < |lv|
    requires i + 1 < |Chain(lv, q, l)| ==> m < Chain(lv, q, l)[i + 1]
    ensures lv[m] <= l
  {
    var c := Chain(lv, q, l);
    forall k | 0 <= k < |c| ensures c[k] != m {
      if k <= i {
        assert c[k] <= c[i];
      } else {
        assert c[i + 1] <= c[k];
      }
    }
  }

  /** The keys met along any level, in the order the links visit them, ascend. */
  lemma ChainSorted(ks: seq<int>, lv: seq<nat>, q: nat, l: nat)
    requires Sorted(ks) && |lv| == |ks| && q <= |lv|
    ensures forall i, j :: 0 <= i < j < |Chain(lv, q, l)| ==> ks[Chain(lv, q, l)[i]] < ks[Chain(lv, q, l)[j]]
  {
  }

  /**
   * Splicing an entry of level `lvl` in at index p: at level l the new entry
   * is on the chain exactly when l < lvl, and every old entry (shifted by one
   * after p) is on it exactly when it was before.
   */
  lemma ChainInsert(lv: seq<nat>, p: nat, lvl: nat, l: nat)
    requires p <= |lv|
    ensures p in Chain(InsertAt(lv, p, lvl), 0, l) <==> l < lvl
    ensures forall m :: 0 <= m < p ==> (m in Chain(InsertAt(lv, p, lvl), 0, l) <==> m in Chain(lv, 0, l))
    ensures forall m :: p <= m < |lv| ==> (m + 1 in Chain(InsertAt(lv, p, lvl), 0, l) <==> m in Chain(lv, 0, l))
  {
  }

  // ---------------------------------------------------------------------------
  // Searching: what the top-down walk has established
  // ---------------------------------------------------------------------------

  /**
   * After the walk for `key` has finished every level >= l standing at
   * position c (0: the head, c > 0: entry c-1): the node it stands on is the
   * head or has a key below `key`, and every entry between it and the place
   * of `key` in level 0 is below level l.
   */
  predicate Searched(ks: seq<int>, lv: seq<nat>, key: int, c: nat, l: nat)
  {
    && |lv| == |ks|
    && c <= |ks|
    && (c > 0 ==> ks[c - 1] < key)
    && forall m :: c <= m < |ks| && ks[m] < key ==> lv[m] <= l
  }

  /**
   * The walk stops at level l when the successor is absent or not below the
   * key; it has then established Searched for level l.
   */
  lemma SearchStop(ks: seq<int>, lv: seq<nat>, key: int, c: nat, l: nat)
    requires Sorted(ks) && Searched(ks, lv, key, c, l + 1)
    requires NextIdx(lv, c, l) == |lv| || ks[NextIdx(lv, c, l)] >= key
    ensures Searched(ks, lv, key, c, l)
  {
  }

  /**
   * The search of `insert` records a predecessor position per level: the
   * one of level 0 is the rank of the key, and between the predecessor of
   * level l and that rank no entry reaches above level l.
   */
  lemma SearchedLevels(ks: seq<int>, lv: seq<nat>, key: int, ups: seq<nat>)
    requires Sorted(ks) && |lv| == |ks| && |ups| > 0
    requires forall m :: 0 <= m < |lv| ==> lv[m] >= 1
    requires forall l :: 0 <= l < |ups| ==> Searched(ks, lv, key, ups[l], l)
    ensures ups[0] == Rank(ks, key) <= |ks|
    ensures forall l :: 0 <= l < |ups| ==> forall m :: ups[l] <= m < ups[0] ==> lv[m] <= l
  {
    assert Searched(ks, lv, key, ups[0], 0);
    SearchedBottom(ks, lv, key, ups[0]);
    forall l | 0 <= l < |ups|
      ensures forall m :: ups[l] <= m < ups[0] ==> lv[m] <= l
    {
      assert Searched(ks, lv, key, ups[l], l);
    }
  }

  /** A key is absent when the entry at its rank holds a different key. */
  lemma RankMiss(ks: seq<int>, key: int)
    requires Sorted(ks)
    requires Rank(ks, key) == |ks| || ks[Rank(ks, key)] != key
    ensures key !in ks
  {
    var p := Rank(ks, key);
    forall m | p < m < |ks|
      ensures ks[m] != key
    {
      assert ks[p] < ks[m];
    }
  }

  /**
   * A walk that ends at level 0 with a successor that is absent or above
   * the key has shown that the key is not stored.
   */
  lemma SearchMiss(ks: seq<int>, lv: seq<nat>, key: int, c: nat)
    requires Sorted(ks) && Searched(ks, lv, key, c, 0)
    requires forall m :: 0 <= m < |lv| ==> lv[m] >= 1
    requires NextIdx(lv, c, 0) == |lv| || ks[NextIdx(lv, c, 0)] > key
    ensures key !in ks
  {
    SearchedBottom(ks, lv, key, c);
    assert c < |lv| ==> NextIdx(lv, c, 0) == c;
    forall m | c < m < |ks|
      ensures ks[m] > key
    {
      assert ks[c] < ks[m];
    }
  }

  /** At level 0 the walk stands right before the place of `key` in level 0. */
  lemma SearchedBottom(ks: seq<int>, lv: seq<nat>, key: int, c: nat)
    requires Sorted(ks) && Searched(ks, lv, key, c, 0)
    requires forall m :: 0 <= m < |lv| ==> lv[m] >= 1
    ensures forall m :: 0 <= m < c ==> ks[m] < key
    ensures forall m :: c <= m < |ks| ==> ks[m] >= key
    ensures c == Rank(ks, key)
  {
    forall m | 0 <= m < c
      ensures ks[m] < key
    {
      if m < c - 1 { assert ks[m] < ks[c - 1]; }
    }
    RankUnique(ks, key, c);
  }

  // ---------------------------------------------------------------------------
  // Keys and the map they denote
  // ---------------------------------------------------------------------------

  /** The number of keys below `key`: the index `key` has, or would get, in level 0. */
  function Rank(ks: seq<int>, key: int): (n: nat)
    requires Sorted(ks)
    ensures n <= |ks|
    ensures forall i :: 0 <= i < n ==> ks[i] < key
    ensures forall i :: n <= i < |ks| ==> ks[i] >= key
  {
    if ks == [] || ks[0] >= key then 0 else 1 + Rank(ks[1..], key)
  }

  lemma RankUnique(ks: seq<int>, key: int, c: nat)
    requires Sorted(ks) && c <= |ks|
    requires forall i :: 0 <= i < c ==> ks[i] < key
    requires forall i :: c <= i < |ks| ==> ks[i] >= key
    ensures Rank(ks, key) == c
  {
    if c > 0 {
      assert ks[0] < key;
      assert Sorted(ks[1..]);
      RankUnique(ks[1..], key, c - 1);
    }
  }

  /** A fresh key placed at its rank keeps the keys ascending. */
  lemma SortedInsert(ks: seq<int>, key: int)
    requires Sorted(ks) && key !in ks
    ensures Sorted(InsertAt(ks, Rank(ks, key), key))
  {
    var p := Rank(ks, key);
    var r := InsertAt(ks, p, key);
    forall i, j | 0 <= i < j < |r|
      ensures r[i] < r[j]
    {
      if j == p {
      } else if i == p {
        assert ks[j - 1] >= key && ks[j - 1] != key;
      } else if i < p && p < j {
        assert r[i] < key;
        assert ks[j - 1] >= key;
      }
    }
  }

  /**
   * The map held by entries with keys `ks` and values `vs`; an earlier
   * entry wins over a later one with the same key (which a sorted key
   * sequence never has).
   */
  function ToMap<V>(ks: seq<int>, vs: seq<V>): (m: map<int, V>)
    requires |ks| == |vs|
    ensures forall k :: k in m <==> k in ks
  {
    if ks == [] then map[] else ToMap(ks[1..], vs[1..])[ks[0] := vs[0]]
  }

  /** In a sorted list, the value stored under ks[i] is vs[i]. */
  lemma {:induction false} ToMapAt<V>(ks: seq<int>, vs: seq<V>, i: nat)
    requires |ks| == |vs| && Sorted(ks) && i < |ks|
    ensures ks[i] in ToMap(ks, vs) && ToMap(ks, vs)[ks[i]] == vs[i]
  {
    if i > 0 {
      assert Sorted(ks[1..]);
      ToMapAt(ks[1..], vs[1..], i - 1);
      assert ks[0] < ks[i];
    }
  }

  lemma UpdateCommute<V>(m: map<int, V>, a: int, va: V, b: int, vb: V)
    requires a != b
    ensures m[a := va][b := vb] == m[b := vb][a := va]
  {
  }

  /** Replacing the value of entry i replaces the value stored under its key. */
  lemma {:induction false} ToMapUpdate<V>(ks: seq<int>, vs: seq<V>, i: nat, v: V)
    requires |ks| == |vs| && Sorted(ks) && i < |ks|
    ensures ToMap(ks, vs[i := v]) == ToMap(ks, vs)[ks[i] := v]
  {
    var vs' := vs[i := v];
    if i > 0 {
      assert Sorted(ks[1..]);
      assert vs'[1..] == vs[1..][i - 1 := v];
      ToMapUpdate(ks[1..], vs[1..], i - 1, v);
      assert ks[0] < ks[i];
      UpdateCommute(ToMap(ks[1..], vs[1..]), ks[i], v, ks[0], vs[0]);
    } else {
      assert vs'[1..] == vs[1..];
    }
  }

  /** Adding an entry with a fresh key anywhere adds that key to the map. */
  lemma {:induction false} ToMapInsert<V>(ks: seq<int>, vs: seq<V>, p: nat, k: int, v: V)
    requires |ks| == |vs| && p <= |ks| && k !in ks
    ensures ToMap(InsertAt(ks, p, k), InsertAt(vs, p, v)) == ToMap(ks, vs)[k := v]
  {
    if p == 0 {
      assert InsertAt(ks, p, k)[1..] == ks;
      assert InsertAt(vs, p, v)[1..] == vs;
    } else {
      assert InsertAt(ks, p, k)[1..] == InsertAt(ks[1..], p - 1, k);
      assert InsertAt(vs, p, v)[1..] == InsertAt(vs[1..], p - 1, v);
      ToMapInsert(ks[1..], vs[1..], p - 1, k, v);
      assert ks[0] != k;
    }
  }

  /** A sorted list holds exactly as many keys as it has entries. */
  lemma {:induction false} ToMapSize<V>(ks: seq<int>, vs: seq<V>)
    requires |ks| == |vs| && Sorted(ks)
    ensures |ToMap(ks, vs)| == |ks|
  {
    if ks != [] {
      assert Sorted(ks[1..]);
      ToMapSize(ks[1..], vs[1..]);
      assert ks[0] !in ks[1..] by {
        forall j | 0 <= j < |ks| - 1 ensures ks[1..][j] != ks[0] {
          assert ks[0] < ks[j + 1];
        }
      }
    }
  }

  // ---------------------------------------------------------------------------
  // Level generation
  // ---------------------------------------------------------------------------

  /** The first n draws all came up. */
  predicate Heads(flips: seq<bool>, n: nat)
  {
    n <= |flips| && forall i :: 0 <= i < n ==> flips[i]
  }

  /**
   * The level `random_level` returns when its successive draws come out as
   * `flips` (true: the biased coin came up, go one level higher) and the
   * list has `max` levels. Running out of flips counts as a failed draw.
   */
  function DrawLevel(flips: seq<bool>, max: nat): (lvl: nat)
    ensures 1 <= lvl
    ensures max >= 1 ==> lvl <= max
    ensures Heads(flips, lvl - 1)
    ensures lvl < max ==> lvl - 1 >= |flips| || !flips[lvl - 1]
  {
    DrawFrom(flips, 1, max)
  }

  /** The rest of the draw once the candidate level has reached `lvl`. */
  function DrawFrom(flips: seq<bool>, lvl: nat, max: nat): (r: nat)
    requires 1 <= lvl
    requires Heads(flips, lvl - 1)
    ensures lvl <= r
    ensures lvl <= max ==> r <= max
    ensures Heads(flips, r - 1)
    ensures r < max ==> r - 1 >= |flips| || !flips[r - 1]
    decreases max - lvl
  {
    if lvl - 1 < |flips| && flips[lvl - 1] && lvl < max then DrawFrom(flips, lvl + 1, max)
    else lvl
  }

  // ---------------------------------------------------------------------------
  // Level count
  // ---------------------------------------------------------------------------

  function Pow2(e: nat): (r: nat)
    ensures r >= 1
  {
    if e == 0 then 1 else 2 * Pow2(e - 1)
  }

  lemma {:induction false} Pow2Monotone(a: nat, b: nat)
    requires a <= b
    ensures Pow2(a) <= Pow2(b)
    decreases b
  {
    if a < b {
      Pow2Monotone(a, b - 1);
    }
  }

  /** ceil(log2(n)) for n >= 1: the least c with n <= 2^c. */
  function CeilLog2(n: nat): (c: nat)
    requires n >= 1
    ensures n <= Pow2(c)
    ensures c > 0 ==> Pow2(c - 1) < n
    decreases n
  {
    if n == 1 then 0 else 1 + CeilLog2((n + 1) / 2)
  }

  lemma CeilLog2Monotone(a: nat, b: nat)
    requires 1 <= a <= b
    ensures CeilLog2(a) <= CeilLog2(b)
  {
    var ca, cb := CeilLog2(a), CeilLog2(b);
    if ca > cb {
      Pow2Monotone(cb, ca - 1);
    }
  }

  function Max(a: nat, b: nat): nat
  {
    if a >= b then a else b
  }

  /**
   * The level count `optimal_levels` asks for with `len` entries:
   * 1 when empty, otherwise ceil(log2(len)) + 2, never below 1.
   */
  function OptimalLevels(len: nat): (r: nat)
    ensures r >= 1
    ensures len == 0 ==> r == 1
    ensures len > 0 ==> r >= 2 && len <= Pow2(r - 2) && (r > 2 ==> Pow2(r - 3) < len)
  {
    if len == 0 then 1
    else
      var optimal := CeilLog2(len) + 2;
      Max(optimal, 1)
  }

  /** More entries never ask for fewer levels. */
  lemma OptimalLevelsMonotone(a: nat, b: nat)
    requires a <= b
    ensures OptimalLevels(a) <= OptimalLevels(b)
  {
    if a > 0 {
      CeilLog2Monotone(a, b);
    }
  }
}
