# skiplist-rs in Dafny

This project models the ordered key-value map of `src/lib.rs`, `SkipList<K, V>`,
and proves the properties below about the model. The map is a skip list: a head node with one
forward link per level, and entry nodes each holding a key, a value and a
`fwd` array of forward links, one per level the entry takes part in. It covers
how a list is built (`Node::head`, `Node::entry`, `with_params`, `new`),
`len` and `is_empty`, the automatic level growth (`optimal_levels`, `resize`, `grow`),
`random_level`, `insert`, `get` and `contains_key`.

Two files, three modules:

- `skiplist_spec.dfy`, module `SkipListSpec`: functions on plain
  sequences that the heap invariant is stated in, with the lemmas about
  them.
  - `NextIdx(levels, q, l)`: the entry that a level-`l` link from position `q` must reach.
  - `Chain`: the entries reached by following level-`l` links.
  - `Rank`: where a key sits in level 0.
  - `ToMap`: the map the keys and values denote.
  - `DrawLevel`: the level `random_level` draws.
  - `CeilLog2` and `OptimalLevels`: the level count the list grows to.
- `skiplist.dfy`, module `SkipListNodes`: the `Node` class and the ghost
  `View` of a list. The view lists, in level-0 order, the entry nodes, their
  keys, values and levels, the map they denote, and the objects the list owns.
  This module also holds the predicates `ShapeOf` and `LinksOf` and the splice
  lemmas.
- `skiplist.dfy`, module `SkipListCore`: the `SkipList` class itself, with
  fields `head`, `max` and `len`, and its operations as methods. It also holds
  `Upserted`, the postcondition of `insert`, and two client methods that
  replay scenarios from `tests/basic_tests.rs`.

`SkipList.Valid(m)` says that the heap matches the view `m`:
- the head has no key and `max` links;
- there are `len` entries, keys strictly ascending in level 0;
- every entry has between 1 and `max` levels;
- no two nodes share a link array;
- `m.contents` is the map of the keys and values;
- every link points where `NextIdx` says. Its level-`l` link goes to the next
  entry in level-0 order whose level exceeds `l`, or is empty.

So the whole link structure is determined by the sequence of entry levels.
Every operation takes the current view as a ghost argument, and an operation
that changes the list returns the new view.

The model follows the Rust control flow step by step:
- both search loops, the top-down walk with its inner `loop`;
- the existence check on `update[0].fwd[0]`;
- the splice loop `for level in 0..new_level`;
- `len += 1` followed by `resize`;
- the `while` loop of `grow`.

Keys are `int`, and the order on `K` is the order on integers. The randomness of
`random_level` is a parameter: `flips`, the sequence of results of
`gen_bool(p)`.

## Model

| member | source | states |
|---|---|---|
| SkipListNodes.Node.Head | src/lib.rs:44-50 | the head node has no key and no value, and a fresh link array of `max_levels` empty links |
| SkipListNodes.Node.Entry | src/lib.rs:53-59 | an entry node holds the key and the value, and a fresh link array of `level` empty links |
| SkipListNodes.Node.Extend | src/lib.rs:177-181 | the head's links are lengthened to `n`: the existing links are kept and only empty links are appended |
| SkipListCore.SkipList.WithParams | src/lib.rs:119-126 | a list with `initial_max` empty head links, `max == initial_max`, `len == 0`, valid for the empty view |
| SkipListCore.SkipList.New | src/lib.rs:101-103 | `new` gives a valid empty list with 4 levels |
| SkipListCore.SkipList.Len | src/lib.rs:141-143 | `len` is the number of keys in the map the list denotes |
| SkipListCore.SkipList.IsEmpty | src/lib.rs:155-157 | `is_empty` holds exactly when the map is empty, that is when `len` is 0 |
| SkipListSpec.ToMapSize | src/lib.rs:141-143 | with strictly ascending keys, the denoted map has as many keys as there are entries, so the `len` counter is the map's size |
| SkipListSpec.CeilLog2 | src/lib.rs:164 | the least `c` with `n <= 2^c`, the exact ceiling of log2 `n`, which is what `(n as f64).log2().ceil()` computes up to floating-point rounding |
| SkipListSpec.OptimalLevels | src/lib.rs:160-166 | 1 for an empty list, otherwise `ceil(log2 len) + 2` (`r - 2` is the least `e >= 0` with `len <= 2^e`), and never below 1 |
| SkipListSpec.OptimalLevelsMonotone | src/lib.rs:160-166 | more entries never give fewer optimal levels |
| SkipListSpec.CeilLog2Monotone | src/lib.rs:164 | `ceil(log2 n)` is monotone in `n` |
| SkipListCore.SkipList.Grow | src/lib.rs:177-183 | `max` becomes `new_max`, the head gets `new_max` links, the old links are kept and the new ones are empty; the list and its map are unchanged |
| SkipListCore.SkipList.Resize | src/lib.rs:169-174 | `max` becomes the larger of the old `max` and `optimal_levels(len)`, so it never shrinks and ends at least optimal; entries, map and `len` are unchanged |
| SkipListSpec.DrawLevel | src/lib.rs:186-193 | the drawn level is at least 1 and at most `max` when `max >= 1`; all draws below it came up, and it stops below `max` only on a failed or missing draw |
| SkipListCore.SkipList.RandomLevel | src/lib.rs:186-193 | the loop returns exactly `DrawLevel(flips, max)` |
| SkipListCore.SkipList.WalkBelow | src/lib.rs:231-252 | the inner search loop stops on a node that is the head or holds a key below `key`, whose level-`level` successor is absent or holds a key at least `key`; no skipped entry of that level is below `key` |
| SkipListCore.SkipList.FindPredecessors | src/lib.rs:226-254 | for every level `l < max`, `update[l]` is the last node at level `l` before the place of `key`; the positions never increase as the level rises |
| SkipListNodes.PredecessorKeys | src/lib.rs:230-254 | a recorded predecessor is the head or holds a key below `key`, and its successor on that level is absent or holds a key at least `key` |
| SkipListSpec.SearchedLevels | src/lib.rs:253-257 | after the search, `update[0]` sits just before the rank of `key` in level 0; between `update[l]` and that rank every entry is below level `l` |
| SkipListCore.SkipList.Locate | src/lib.rs:226-254 | the search phase of `insert` leaves `update[0]` at the rank of `key`, and each `update[l]` at or before it with only lower entries in between |
| SkipListSpec.RankMiss | src/lib.rs:257-264 | if the entry at the rank of `key` is missing or holds another key, `key` is not in the list |
| SkipListSpec.ToMapAt | src/lib.rs:257-261 | with ascending keys, the entry at index `i` is where the map finds its key and value |
| SkipListCore.SkipList.Place | src/lib.rs:256-278 | after the search, the full effect of `insert` (`Upserted`, as in the `Insert` row): an existing key has its value replaced in place and the old one returned; a missing key is spliced in as a new node at its rank |
| SkipListCore.SkipList.Replace | src/lib.rs:258-262 | the value of an existing entry is replaced in place and the old value returned; nodes, keys, levels and links are untouched, and the map maps `key` to the new value |
| SkipListSpec.ToMapUpdate | src/lib.rs:261 | replacing the value of entry `i` updates the map at `ks[i]` and nowhere else |
| SkipListCore.SkipList.Insert | src/lib.rs:222-279 | the map becomes `old[key := value]`, the level count never shrinks, and either (existing key) `Some(old value)` is returned with `len`, `max`, nodes, keys and levels unchanged, with the value replaced at the key's index and the owned objects unchanged, or (new key) `None` is returned, `len` grows by 1, `max` becomes `max(old max, optimal_levels(len))`, and one new node with the key, value and drawn level is inserted at the key's rank, every old node staying in order; in both cases the keys stay ascending and the links exact |
| SkipListCore.UpsertKeepsNodes | src/lib.rs:256-276 | `insert` never drops or reorders an entry node: an existing key leaves the nodes as they were, and a new key adds exactly one node, at its rank |
| SkipListCore.SkipList.InsertNew | src/lib.rs:266-278 | a missing key becomes a new node at its rank, every old node staying in order, with the level drawn from `flips`; `len` grows by 1 and `max` becomes `max(old max, optimal_levels(len))`; the result is a valid list whose new objects are fresh |
| SkipListCore.SkipList.AddEntry | src/lib.rs:267-276 | a new entry of the drawn level is built and linked in at the key's rank: nodes, keys, values and levels gain the new element at that index, `len` grows by 1, the map gains `key` |
| SkipListCore.SkipList.NewEntry | src/lib.rs:268-274 | a fresh node of the drawn level holding key and value, and after the splice loop every link agrees with `NextIdx` on the levels with the new one inserted |
| SkipListCore.SkipList.LinkIn | src/lib.rs:270-274 | the splice loop leaves every link of the head and every entry, the new one included, pointing at the next entry of its level |
| SkipListCore.SkipList.LinkLevels | src/lib.rs:270-274 | after the loop, levels `0..new_level` of the new node and of its predecessors are spliced, and no other link has moved |
| SkipListCore.SkipList.LinkLevel | src/lib.rs:271-273 | one splice step: the new node takes over the level-`i` successor of `update[i]` and becomes it; every other link is unchanged |
| SkipListNodes.SpliceLinks | src/lib.rs:270-274 | the links produced by the splice are exactly the links of the list with the new entry inserted at its rank |
| SkipListSpec.NextIdxInsert | src/lib.rs:270-274 | inserting an entry of level `L` at index `p`: a position at or before `p` keeps a level-`l` successor lying before `p`, and otherwise gets the new entry when `l < L` or its old successor shifted by one; every position after `p` keeps its successor, shifted by one |
| SkipListSpec.NextIdxSplice | src/lib.rs:270-274 | a predecessor recorded by the search gets the new node as its successor on every level the node takes part in; other positions keep their successor, shifted past the insertion |
| SkipListCore.SkipList.Adopt | src/lib.rs:276 | `len += 1`: the list with the spliced node is valid for the view with key, value and level inserted at the rank, and the map gains `key := value` |
| SkipListNodes.ShapeInsert | src/lib.rs:266-276 | inserting a node with a new key at its rank keeps the keys ascending, the entry levels within `1..max`, the link arrays distinct, and the map equal to the keys and values |
| SkipListSpec.SortedInsert | src/lib.rs:266-274 | inserting a missing key at its rank keeps the keys strictly ascending |
| SkipListSpec.ToMapInsert | src/lib.rs:266-276 | inserting a missing key and its value at the same index adds exactly that key to the map |
| SkipListSpec.Chain | src/lib.rs:270-274 | the positions reached along level `l` are exactly the entries above level `l`, visited in ascending order |
| SkipListSpec.ChainSorted | tests/basic_tests.rs:101-137 | following any level visits keys in strictly ascending order |
| SkipListSpec.ChainAll | src/lib.rs:270-274 | level 0 visits every entry, since every entry has at least one level |
| SkipListSpec.ChainInsert | src/lib.rs:270-274 | after an insert the new entry is on exactly the levels below its drawn level, and every other entry is on the same levels as before |
| SkipListSpec.ChainStep | src/lib.rs:270-274 | along level `l`, each entry of the chain is followed by the next entry above level `l`, and the last entry by none |
| SkipListNodes.ChainLinks | src/lib.rs:270-274 | in the heap, the head's level-`l` link reaches the first entry of the level-`l` chain, each entry on it links to the next one, and the last links to nothing |
| SkipListCore.SkipList.SeekLevel | src/lib.rs:309-332 | one level of `get`: a hit returns the value the map holds for `key`; otherwise the walk stops before the first entry of that level whose key is not below `key`, and that entry's key is above `key` |
| SkipListSpec.SearchMiss | src/lib.rs:327-334 | if the level-0 walk stops before a missing or larger key, `key` is not in the list |
| SkipListCore.SkipList.Get | src/lib.rs:302-335 | `get` returns `Some(v)` exactly when the map holds `key -> v`, and `None` exactly when `key` is absent |
| SkipListCore.SkipList.ContainsKey | src/lib.rs:350-355 | `contains_key` holds exactly when the key is in the map |
| SkipListCore.NewIsEmpty | tests/basic_tests.rs:92-99 | a new list is empty with length 0; `get` returns `None` and `contains_key` is false |
| SkipListCore.InsertThenGet | tests/basic_tests.rs:22-35 | after `insert(key, value)`, `get(key)` returns `value` and `get` on any other key returns what it held before |

## Left out

- Concurrency is not modelled. Each node sits behind `Arc<RwLock<…>>`, but the model is single-threaded. Lock acquisition and the `unwrap` of a poisoned lock are not modelled, and neither is `tests/concurrent_tests.rs`.
- The probability `p: f64` and `rand::thread_rng` are not modelled. `random_level` reads the results of `gen_bool(p)` from the parameter `flips`. If the flips run out, that counts as a failed draw. The distribution of levels is not modelled.
- SkipListSpec.CeilLog2: `(len as f64).log2().ceil()` is modelled as the exact integer ceiling of log2. Floating-point rounding is not modelled. It matters for very large lengths: from 2^49 + 1 on, the rounded `log2` can come out as an exact integer, and then `optimal_levels` is one less than the model's.
- `max`, `len` and the level counts are `nat`. Overflow of `usize` is not modelled.
- Keys are `int`. The generic `K: Ord` and `V: Clone` bounds are not modelled.
- SkipListCore.SkipList.Insert requires `max >= 1`. With `initial_max == 0` the Rust code indexes `update[0]` of an empty vector and panics.
- SkipListNodes.Node.Extend: `Vec::push` on the head's `fwd` is modelled as a fresh, longer array. It keeps the old links and appends empty ones. Reallocation identity is not modelled.
- The abstract state (the ghost `View`) is not stored in the class. Each operation takes it as a ghost argument and returns the new one.
- SkipListCore.SkipList.FindPredecessors: its `ensures` states where each predecessor sits, as positions. That it holds a key below `key` and that its successor does not is the separate lemma SkipListNodes.PredecessorKeys.
- Not modelled: `Default`, the wrapper in `src/skiplist.rs`, and the demo in `src/main.rs`.
- `SkipList` has no removal or iteration, so none is modelled.
