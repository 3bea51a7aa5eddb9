/**
 * The merging half of LALR1Table.build(): group the canonical LR(1) states
 * by kernel, union the lookaheads of each group into one LALR(1) state, map
 * every canonical state id to a merged state id, and carry the canonical
 * transitions over to the merged ids.
 *
 * HashMap and HashSet iteration becomes a choice with `:|`, so nothing
 * proved here depends on an iteration order.
 */
module LalrMerge {
  import opened Grammar

  /** (state id, symbol) -> state id, as `Map<Integer, Map<Symbol, Integer>>`. */
  type Transitions = map<int, map<Symbol, int>>

  // ------------------------------------------------------------------
  // Kernel grouping
  // ------------------------------------------------------------------

  /** The distinct kernels of the canonical states. */
  ghost function Kernels(states: seq<set<Item>>): set<set<KernelEntry>>
  {
    set s | 0 <= s < |states| :: KernelOf(states[s])
  }

  /** There are never more kernels than states. */
  lemma {:induction false} KernelCount(states: seq<set<Item>>)
    ensures |Kernels(states)| <= |states|
    decreases |states|
  {
    if states != [] {
      var n := |states| - 1;
      var init := states[..n];
      KernelCount(init);
      assert Kernels(states) == Kernels(init) + {KernelOf(states[n])} by {
        forall k | k in Kernels(states) ensures k in Kernels(init) + {KernelOf(states[n])} {
          var s :| 0 <= s < |states| && KernelOf(states[s]) == k;
          if s < n { assert init[s] == states[s]; }
        }
        forall k | k in Kernels(init) ensures k in Kernels(states) {
          var s :| 0 <= s < |init| && KernelOf(init[s]) == k;
          assert states[s] == init[s];
        }
      }
    }
  }

  /** The loop over one state's items that builds its kernel. */
  method KernelOfState(state: set<Item>) returns (kernel: set<KernelEntry>)
    ensures kernel == KernelOf(state)
  {
    kernel := {};
    var rest := state;
    while rest != {}
      invariant rest <= state
      invariant kernel == KernelOf(state - rest)
      decreases rest
    {
      var item :| item in rest;
      rest := rest - {item};
      kernel := kernel + {KernelEntry(item.prod, item.dot)};
      assert state - rest == (state - (rest + {item})) + {item};
    }
    assert state - rest == state;
  }

  predicate Increasing(ids: seq<int>)
  {
    forall i, j :: 0 <= i < j < |ids| ==> ids[i] < ids[j]
  }

  /** groups holds, per key, the increasing positions of exactly the
      entries among the first n of keys equal to it. */
  ghost predicate GroupsOf<K>(keys: seq<K>, n: nat, groups: map<K, seq<int>>)
    requires n <= |keys|
  {
    && (forall k :: k in groups ==> groups[k] != [] && Increasing(groups[k]))
    && (forall k, i :: k in groups && 0 <= i < |groups[k]| ==> 0 <= groups[k][i] < n && keys[groups[k][i]] == k)
    && (forall t :: 0 <= t < n ==> keys[t] in groups && t in groups[keys[t]])
  }

  /** Appending position n to the group of its key extends GroupsOf. */
  lemma GroupsOfStep<K>(keys: seq<K>, n: nat, groups: map<K, seq<int>>, ids: seq<int>)
    requires n < |keys|
    requires GroupsOf(keys, n, groups)
    requires ids == if keys[n] in groups then groups[keys[n]] else []
    ensures GroupsOf(keys, n + 1, groups[keys[n] := ids + [n]])
  {
    var g := groups[keys[n] := ids + [n]];
    assert forall i :: 0 <= i < |ids| ==> ids[i] < n;
    assert Increasing(ids + [n]);
    forall t | 0 <= t < n + 1 ensures keys[t] in g && t in g[keys[t]] {
      if t < n && keys[t] == keys[n] {
        assert t in ids;
      }
    }
  }

  /** The kernel of every state, in state order. */
  ghost function KernelSeq(states: seq<set<Item>>): (ks: seq<set<KernelEntry>>)
    ensures |ks| == |states| && forall t :: 0 <= t < |states| ==> ks[t] == KernelOf(states[t])
  {
    seq(|states|, t requires 0 <= t < |states| => KernelOf(states[t]))
  }

  /** Step 2a: kernel -> the ids of the states with that kernel, in
      increasing order, so that two states share a group exactly when
      their kernels are equal. */
  method GroupByKernel(states: seq<set<Item>>) returns (groups: map<set<KernelEntry>, seq<int>>)
    ensures groups.Keys == Kernels(states)
    ensures forall k :: k in groups ==> groups[k] != [] && Increasing(groups[k])
    ensures forall k, i :: k in groups && 0 <= i < |groups[k]| ==>
      0 <= groups[k][i] < |states| && KernelOf(states[groups[k][i]]) == k
    ensures forall t :: 0 <= t < |states| ==> t in groups[KernelOf(states[t])]
  {
    ghost var ks := KernelSeq(states);
    groups := map[];
    var s := 0;
    while s < |states|
      invariant 0 <= s <= |states|
      invariant GroupsOf(ks, s, groups)
    {
      var kernel := KernelOfState(states[s]);
      var ids := if kernel in groups then groups[kernel] else [];
      GroupsOfStep(ks, s, groups, ids);
      groups := groups[kernel := ids + [s]];
      s := s + 1;
    }
    forall k | k in groups ensures k in Kernels(states) {
      assert ks[groups[k][0]] == k;
    }
    forall t | 0 <= t < |states| ensures t in groups[KernelOf(states[t])] {
      assert ks[t] in groups;
    }
  }

  // ------------------------------------------------------------------
  // Lookahead union
  // ------------------------------------------------------------------

  /** The LALR(1) state for kernel k: every item of every canonical state
      whose kernel is k. */
  ghost function MergedState(states: seq<set<Item>>, k: set<KernelEntry>): set<Item>
  {
    set s, it | 0 <= s < |states| && KernelOf(states[s]) == k && it in states[s] :: it
  }

  /** The merged state of a kernel has that kernel: merging only unions
      lookaheads. */
  lemma MergedStateKernel(states: seq<set<Item>>, k: set<KernelEntry>)
    requires k in Kernels(states)
    ensures KernelOf(MergedState(states, k)) == k
  {
    var m := MergedState(states, k);
    var s0 :| 0 <= s0 < |states| && KernelOf(states[s0]) == k;
    forall e | e in k ensures e in KernelOf(m) {
      var it :| it in states[s0] && KernelEntry(it.prod, it.dot) == e;
      assert it in m;
    }
    forall e | e in KernelOf(m) ensures e in k {
      var it :| it in m && KernelEntry(it.prod, it.dot) == e;
      var s :| 0 <= s < |states| && KernelOf(states[s]) == k && it in states[s];
      assert e in KernelOf(states[s]);
    }
  }

  /** The lookaheads carried by kernel entry e in items. */
  function LookaheadsOf(items: set<Item>, e: KernelEntry): set<Symbol>
  {
    set it | it in items && it.prod == e.prod && it.dot == e.dot :: it.lookahead
  }

  /** The items of the states listed in ids. */
  ghost function GroupItems(states: seq<set<Item>>, ids: seq<int>): set<Item>
  {
    set i, it | i in ids && 0 <= i < |states| && it in states[i] :: it
  }

  /** merged maps exactly the kernel entries of seen to their lookaheads. */
  ghost predicate LookaheadMap(merged: map<KernelEntry, set<Symbol>>, seen: set<Item>)
  {
    merged.Keys == KernelOf(seen) && forall e :: e in merged ==> merged[e] == LookaheadsOf(seen, e)
  }

  /** Adding one item's lookahead under its kernel entry keeps LookaheadMap. */
  lemma LookaheadMapAdd(merged: map<KernelEntry, set<Symbol>>, seen: set<Item>, item: Item)
    requires LookaheadMap(merged, seen)
    ensures var key := KernelEntry(item.prod, item.dot);
      LookaheadMap(merged[key := (if key in merged then merged[key] else {}) + {item.lookahead}], seen + {item})
  {
    var key := KernelEntry(item.prod, item.dot);
    var merged' := merged[key := (if key in merged then merged[key] else {}) + {item.lookahead}];
    forall e | e in merged' ensures merged'[e] == LookaheadsOf(seen + {item}, e) {
      if e == key {
        assert LookaheadsOf(seen + {item}, e) == LookaheadsOf(seen, e) + {item.lookahead};
      } else {
        assert LookaheadsOf(seen + {item}, e) == LookaheadsOf(seen, e);
      }
    }
  }

  /** The inner loop of the first loop of step 2b: the items of one state. */
  method AddLookaheads(merged0: map<KernelEntry, set<Symbol>>, ghost seen0: set<Item>, state: set<Item>)
    returns (merged: map<KernelEntry, set<Symbol>>)
    requires LookaheadMap(merged0, seen0)
    ensures LookaheadMap(merged, seen0 + state)
  {
    merged := merged0;
    ghost var seen := seen0;
    var rest := state;
    while rest != {}
      invariant rest <= state
      invariant seen == seen0 + (state - rest)
      invariant LookaheadMap(merged, seen)
      decreases rest
    {
      var item :| item in rest;
      rest := rest - {item};
      var key := KernelEntry(item.prod, item.dot);
      var las := if key in merged then merged[key] else {};
      LookaheadMapAdd(merged, seen, item);
      merged := merged[key := las + {item.lookahead}];
      seen := seen + {item};
    }
  }

  /** The items of one more state of the group. */
  lemma GroupItemsSnoc(states: seq<set<Item>>, ids: seq<int>, j: int)
    requires 0 <= j < |ids| && 0 <= ids[j] < |states|
    ensures GroupItems(states, ids[..j + 1]) == GroupItems(states, ids[..j]) + states[ids[j]]
  {
    assert ids[..j + 1] == ids[..j] + [ids[j]];
    assert forall i :: i in ids[..j + 1] <==> i in ids[..j] || i == ids[j];
  }

  /** The first loop of step 2b: kernel entry -> union of its lookaheads
      over the states of the group. */
  method CollectLookaheads(states: seq<set<Item>>, ids: seq<int>) returns (merged: map<KernelEntry, set<Symbol>>)
    requires forall i :: i in ids ==> 0 <= i < |states|
    ensures merged.Keys == KernelOf(GroupItems(states, ids))
    ensures forall e :: e in merged ==> merged[e] == LookaheadsOf(GroupItems(states, ids), e)
  {
    merged := map[];
    var j := 0;
    assert GroupItems(states, ids[..0]) == {};
    while j < |ids|
      invariant 0 <= j <= |ids|
      invariant LookaheadMap(merged, GroupItems(states, ids[..j]))
    {
      assert ids[j] in ids;
      merged := AddLookaheads(merged, GroupItems(states, ids[..j]), states[ids[j]]);
      GroupItemsSnoc(states, ids, j);
      j := j + 1;
    }
    assert ids[..j] == ids;
  }

  /** The items (e.prod, e.dot, a) for every entry e and lookahead a. */
  ghost function ItemsOf(merged: map<KernelEntry, set<Symbol>>): set<Item>
  {
    set e, a | e in merged && a in merged[e] :: Item(e.prod, e.dot, a)
  }

  /** The second loop of step 2b: one item per (kernel entry, lookahead). */
  method BuildState(merged: map<KernelEntry, set<Symbol>>) returns (state: set<Item>)
    ensures state == ItemsOf(merged)
  {
    state := {};
    var keys := merged.Keys;
    while keys != {}
      invariant keys <= merged.Keys
      invariant state == ItemsOf(merged - keys)
      decreases keys
    {
      var e :| e in keys;
      var las := merged[e];
      var done: set<Symbol> := {};
      while las != {}
        invariant las + done == merged[e]
        invariant las !! done
        invariant state == ItemsOf(merged - keys) + (set a | a in done :: Item(e.prod, e.dot, a))
        decreases las
      {
        var look :| look in las;
        state := state + {Item(e.prod, e.dot, look)};
        las := las - {look};
        done := done + {look};
      }
      keys := keys - {e};
      assert ItemsOf(merged - keys) == ItemsOf(merged - (keys + {e})) + (set a | a in merged[e] :: Item(e.prod, e.dot, a));
    }
    assert merged - keys == merged;
  }

  /** Step 2b for one group: the merged LALR(1) state holds (p, d, a)
      exactly when some state of the group holds it. */
  method MergeGroup(states: seq<set<Item>>, ids: seq<int>) returns (state: set<Item>)
    requires forall i :: i in ids ==> 0 <= i < |states|
    ensures forall it :: it in state <==> exists i :: i in ids && it in states[i]
  {
    var merged := CollectLookaheads(states, ids);
    state := BuildState(merged);
    var u := GroupItems(states, ids);
    forall it | it in state ensures it in u {
      var e, a :| e in merged && a in merged[e] && it == Item(e.prod, e.dot, a);
      assert a in LookaheadsOf(u, e);
    }
    forall it | it in u ensures it in state {
      var e := KernelEntry(it.prod, it.dot);
      assert e in KernelOf(u);
      assert it.lookahead in merged[e];
    }
  }

  // ------------------------------------------------------------------
  // Old -> new state ids
  // ------------------------------------------------------------------

  /** The last merged state id whose items include all of st, or -1. */
  function LastContaining(st: set<Item>, lalr: seq<set<Item>>): (j: int)
    ensures -1 <= j < |lalr|
    decreases |lalr|
  {
    if lalr == [] then -1
    else if st <= lalr[|lalr| - 1] then |lalr| - 1
    else LastContaining(st, lalr[..|lalr| - 1])
  }

  /** LastContaining finds a containing state exactly when there is one,
      and no later state contains st. */
  lemma {:induction false} LastContainingIsLast(st: set<Item>, lalr: seq<set<Item>>)
    ensures var j := LastContaining(st, lalr);
      && (j >= 0 ==> st <= lalr[j])
      && (forall k :: 0 <= k < |lalr| && st <= lalr[k] ==> k <= j)
    decreases |lalr|
  {
    if lalr != [] && !(st <= lalr[|lalr| - 1]) {
      var init := lalr[..|lalr| - 1];
      LastContainingIsLast(st, init);
      forall k | 0 <= k < |lalr| && st <= lalr[k] ensures k <= LastContaining(st, lalr) {
        assert k < |lalr| - 1;
        assert init[k] == lalr[k];
      }
    }
  }

  /** The o -> new id map: every canonical state with a merged state
      containing it, mapped to the last such merged state. */
  ghost function StateMap(states: seq<set<Item>>, lalr: seq<set<Item>>): map<int, int>
  {
    map o | 0 <= o < |states| && LastContaining(states[o], lalr) >= 0 :: LastContaining(states[o], lalr)
  }

  /** The id map sends a canonical state to a merged state containing it,
      no later merged state contains it, and every canonical state that
      some merged state contains has an image. */
  lemma StateMapFacts(states: seq<set<Item>>, lalr: seq<set<Item>>)
    ensures var m := StateMap(states, lalr);
      && (forall o :: o in m ==> 0 <= o < |states| && 0 <= m[o] < |lalr| && states[o] <= lalr[m[o]])
      && (forall o, k :: o in m && m[o] < k < |lalr| ==> !(states[o] <= lalr[k]))
      && (forall o, k :: 0 <= o < |states| && 0 <= k < |lalr| && states[o] <= lalr[k] ==> o in m)
  {
    var m := StateMap(states, lalr);
    forall o | o in m ensures 0 <= o < |states| && states[o] <= lalr[m[o]] {
      LastContainingIsLast(states[o], lalr);
    }
    forall o, k | o in m && m[o] < k < |lalr| ensures !(states[o] <= lalr[k]) {
      LastContainingIsLast(states[o], lalr);
    }
    forall o, k | 0 <= o < |states| && 0 <= k < |lalr| && states[o] <= lalr[k] ensures o in m {
      LastContainingIsLast(states[o], lalr);
    }
  }

  /** The map for one more canonical state. */
  lemma StateMapStep(states: seq<set<Item>>, lalr: seq<set<Item>>, o: int)
    requires 0 <= o < |states|
    ensures StateMap(states[..o + 1], lalr) ==
      if LastContaining(states[o], lalr) >= 0
      then StateMap(states[..o], lalr)[o := LastContaining(states[o], lalr)]
      else StateMap(states[..o], lalr)
  {
  }

  /** The inner loop of step 2c for canonical state o: every merged state
      containing st overwrites the entry of o, so the last one stays. */
  method ScanMerged(st: set<Item>, lalr: seq<set<Item>>, m0: map<int, int>, o: int) returns (m: map<int, int>)
    requires o !in m0
    ensures LastContaining(st, lalr) >= 0 ==> m == m0[o := LastContaining(st, lalr)]
    ensures LastContaining(st, lalr) < 0 ==> m == m0
  {
    m := m0;
    var newIndex := 0;
    while newIndex < |lalr|
      invariant 0 <= newIndex <= |lalr|
      invariant LastContaining(st, lalr[..newIndex]) >= 0 ==> m == m0[o := LastContaining(st, lalr[..newIndex])]
      invariant LastContaining(st, lalr[..newIndex]) < 0 ==> m == m0
    {
      assert lalr[..newIndex + 1][..newIndex] == lalr[..newIndex];
      if st <= lalr[newIndex] {
        m := m[o := newIndex];
      }
      newIndex := newIndex + 1;
    }
    assert lalr[..newIndex] == lalr;
  }

  /** Step 2c: for every canonical state, scan all merged states and keep
      the last one that contains all of its items. */
  method MapStates(states: seq<set<Item>>, lalr: seq<set<Item>>) returns (m: map<int, int>)
    ensures m == StateMap(states, lalr)
  {
    m := map[];
    var oldIndex := 0;
    while oldIndex < |states|
      invariant 0 <= oldIndex <= |states|
      invariant m == StateMap(states[..oldIndex], lalr)
    {
      m := ScanMerged(states[oldIndex], lalr, m, oldIndex);
      StateMapStep(states, lalr, oldIndex);
      oldIndex := oldIndex + 1;
    }
    assert states[..oldIndex] == states;
  }

  /** Once a merged state per kernel follows the first base merged states,
      every canonical state has an image. */
  lemma EveryStateMapped(states: seq<set<Item>>, lalr: seq<set<Item>>, base: nat, kernels: seq<set<KernelEntry>>)
    requires Elems(kernels) == Kernels(states)
    requires |lalr| == base + |kernels|
    requires forall i :: 0 <= i < |kernels| ==> lalr[base + i] == MergedState(states, kernels[i])
    ensures forall s :: 0 <= s < |states| ==> s in StateMap(states, lalr)
  {
    forall s | 0 <= s < |states| ensures s in StateMap(states, lalr) {
      var k := KernelOf(states[s]);
      assert k in Elems(kernels);
      var i :| 0 <= i < |kernels| && kernels[i] == k;
      assert states[s] <= lalr[base + i];
      LastContainingIsLast(states[s], lalr);
    }
  }

  // ------------------------------------------------------------------
  // Transition remapping
  // ------------------------------------------------------------------

  /** The canonical transitions as (state id, symbol) pairs. */
  ghost function Pairs(trans: Transitions): set<(int, Symbol)>
  {
    set s, x | s in trans && x in trans[s] :: (s, x)
  }

  /** Every id the canonical transitions out of the states of ss mention
      has an image. */
  ghost predicate IdsMappedOn(trans: Transitions, m: map<int, int>, ss: set<int>)
  {
    forall s :: s in trans && s in ss ==> s in m && forall x :: x in trans[s] ==> trans[s][x] in m
  }

  /** Every id the canonical transitions mention has an image. */
  ghost predicate IdsMapped(trans: Transitions, m: map<int, int>)
  {
    IdsMappedOn(trans, m, trans.Keys)
  }

  /** Every pair of order is a canonical transition whose ids have images. */
  ghost predicate ValidPairs(trans: Transitions, m: map<int, int>, order: seq<(int, Symbol)>)
  {
    forall i :: 0 <= i < |order| ==>
      order[i].0 in trans && order[i].0 in m && order[i].1 in trans[order[i].0] && trans[order[i].0][order[i].1] in m
  }

  /** computeIfAbsent(l).put(x, t) */
  function Put(r: Transitions, l: int, x: Symbol, t: int): (r': Transitions)
    ensures r'.Keys == r.Keys + {l}
    ensures r'[l].Keys == (if l in r then r[l].Keys else {}) + {x} && r'[l][x] == t
    ensures forall y :: y in r'[l] && y != x ==> r'[l][y] == r[l][y]
    ensures forall k :: k in r && k != l ==> r'[k] == r[k]
    ensures forall k, y :: k in r && y in r[k] ==> k in r' && y in r'[k]
  {
    r[l := (if l in r then r[l] else map[])[x := t]]
  }

  /** acc after writing m(s) -x-> m(t) for each pair (s, x) of order, in
      order. */
  ghost function RemapAlong(trans: Transitions, m: map<int, int>, acc: Transitions, order: seq<(int, Symbol)>): Transitions
    requires ValidPairs(trans, m, order)
    decreases |order|
  {
    if order == [] then acc
    else
      var n := |order| - 1;
      var s := order[n].0;
      var x := order[n].1;
      Put(RemapAlong(trans, m, acc, order[..n]), m[s], x, m[trans[s][x]])
  }

  /** Pair i of order lands on merged entry (l, x). */
  ghost predicate Lands(m: map<int, int>, order: seq<(int, Symbol)>, i: int, l: int, x: Symbol)
    requires 0 <= i < |order| && order[i].0 in m
  {
    m[order[i].0] == l && order[i].1 == x
  }

  /** Entry (l, x) of r holds the image of the target of pair i, and no
      later pair lands on (l, x). */
  ghost predicate LastWrite(trans: Transitions, m: map<int, int>, order: seq<(int, Symbol)>, r: Transitions, l: int, x: Symbol, i: int)
    requires ValidPairs(trans, m, order)
    requires l in r && x in r[l]
  {
    && 0 <= i < |order| && Lands(m, order, i, l, x) && r[l][x] == m[trans[order[i].0][x]]
    && forall j :: i < j < |order| ==> !Lands(m, order, j, l, x)
  }

  /** The fold creates an entry for every visited pair. */
  lemma {:induction false} RemapAlongPresent(trans: Transitions, m: map<int, int>, acc: Transitions, order: seq<(int, Symbol)>)
    requires ValidPairs(trans, m, order)
    ensures var r := RemapAlong(trans, m, acc, order);
      forall i :: 0 <= i < |order| ==> m[order[i].0] in r && order[i].1 in r[m[order[i].0]]
    decreases |order|
  {
    if order != [] {
      var n := |order| - 1;
      var init := order[..n];
      assert ValidPairs(trans, m, init);
      RemapAlongPresent(trans, m, acc, init);
      forall i | 0 <= i < n ensures order[i] == init[i] { }
    }
  }

  /** The fold keeps every entry of acc. */
  lemma {:induction false} RemapAlongKeeps(trans: Transitions, m: map<int, int>, acc: Transitions, order: seq<(int, Symbol)>)
    requires ValidPairs(trans, m, order)
    ensures var r := RemapAlong(trans, m, acc, order);
      forall l, x :: l in acc && x in acc[l] ==> l in r && x in r[l]
    decreases |order|
  {
    if order != [] {
      var n := |order| - 1;
      assert ValidPairs(trans, m, order[..n]);
      RemapAlongKeeps(trans, m, acc, order[..n]);
    }
  }

  /** Some pair of order starts at a state whose image is l. */
  ghost predicate Visits(m: map<int, int>, order: seq<(int, Symbol)>, l: int)
    requires forall i :: 0 <= i < |order| ==> order[i].0 in m
  {
    exists i :: 0 <= i < |order| && m[order[i].0] == l
  }

  /** The fold creates exactly the rows of acc and of the images of the
      visited states. */
  lemma {:induction false} RemapAlongRows(trans: Transitions, m: map<int, int>, acc: Transitions, order: seq<(int, Symbol)>)
    requires ValidPairs(trans, m, order)
    ensures forall l :: l in RemapAlong(trans, m, acc, order) <==> l in acc || Visits(m, order, l)
    decreases |order|
  {
    if order != [] {
      var n := |order| - 1;
      var init := order[..n];
      assert ValidPairs(trans, m, init);
      RemapAlongRows(trans, m, acc, init);
      forall i | 0 <= i < n ensures order[i] == init[i] { }
      forall l ensures Visits(m, order, l) <==> Visits(m, init, l) || m[order[n].0] == l {
        if Visits(m, order, l) {
          var i :| 0 <= i < |order| && m[order[i].0] == l;
          if i < n { assert m[init[i].0] == l; }
        }
      }
    }
  }

  /** Every entry of the fold is either the last write of a pair landing
      on it, or acc's entry when no pair lands on it. */
  lemma {:induction false} RemapAlongValues(trans: Transitions, m: map<int, int>, acc: Transitions, order: seq<(int, Symbol)>, l: int, x: Symbol)
    requires ValidPairs(trans, m, order)
    requires l in RemapAlong(trans, m, acc, order) && x in RemapAlong(trans, m, acc, order)[l]
    ensures var r := RemapAlong(trans, m, acc, order);
      || (exists i :: LastWrite(trans, m, order, r, l, x, i))
      || (&& (forall i :: 0 <= i < |order| ==> !Lands(m, order, i, l, x))
          && l in acc && x in acc[l] && r[l][x] == acc[l][x])
    decreases |order|
  {
    if order != [] {
      var r := RemapAlong(trans, m, acc, order);
      var n := |order| - 1;
      var init := order[..n];
      assert ValidPairs(trans, m, init);
      var r0 := RemapAlong(trans, m, acc, init);
      var s := order[n].0;
      var x0 := order[n].1;
      if m[s] == l && x0 == x {
        assert LastWrite(trans, m, order, r, l, x, n);
      } else {
        assert !Lands(m, order, n, l, x);
        assert l in r0 && x in r0[l] && r[l][x] == r0[l][x];
        RemapAlongValues(trans, m, acc, init, l, x);
        if i :| LastWrite(trans, m, init, r0, l, x, i) {
          LastWriteSnoc(trans, m, order, r0, r, l, x, i);
        } else {
          NoLandsSnoc(m, order, init, l, x);
        }
      }
    }
  }

  /** A last write in all but the final pair stays the last write when the
      final pair lands elsewhere. */
  lemma LastWriteSnoc(trans: Transitions, m: map<int, int>, order: seq<(int, Symbol)>,
                      r0: Transitions, r: Transitions, l: int, x: Symbol, i: int)
    requires order != [] && ValidPairs(trans, m, order)
    requires ValidPairs(trans, m, order[..|order| - 1])
    requires l in r0 && x in r0[l] && l in r && x in r[l] && r[l][x] == r0[l][x]
    requires LastWrite(trans, m, order[..|order| - 1], r0, l, x, i)
    requires !Lands(m, order, |order| - 1, l, x)
    ensures LastWrite(trans, m, order, r, l, x, i)
  {
    var init := order[..|order| - 1];
    assert order[i] == init[i];
    forall j | i < j < |order| ensures !Lands(m, order, j, l, x) {
      if j < |init| { assert order[j] == init[j]; assert !Lands(m, init, j, l, x); }
    }
  }

  /** No pair landing on (l, x) in all but the final pair, nor in it. */
  lemma NoLandsSnoc(m: map<int, int>, order: seq<(int, Symbol)>, init: seq<(int, Symbol)>, l: int, x: Symbol)
    requires order != [] && init == order[..|order| - 1] && forall i :: 0 <= i < |order| ==> order[i].0 in m
    requires forall i :: 0 <= i < |init| ==> !Lands(m, init, i, l, x)
    requires !Lands(m, order, |order| - 1, l, x)
    ensures forall i :: 0 <= i < |order| ==> !Lands(m, order, i, l, x)
  {
    forall i | 0 <= i < |order| ensures !Lands(m, order, i, l, x) {
      if i < |init| { assert order[i] == init[i]; assert !Lands(m, init, i, l, x); }
    }
  }

  /** Some canonical transition s -x-> _ lands on merged pair (l, x). */
  ghost predicate Written(trans: Transitions, m: map<int, int>, l: int, x: Symbol)
  {
    exists s :: s in trans && s in m && m[s] == l && x in trans[s]
  }

  /** r is acc with every canonical transition s -x-> t written as
      m(s) -x-> m(t):
      - every canonical transition has an entry at (m(s), x);
      - an entry some canonical transition lands on holds m(t) for one of
        them;
      - every other entry is acc's;
      - a row exists for every row of acc and every image of a canonical
        state with outgoing transitions. */
  ghost predicate RemapOk(trans: Transitions, m: map<int, int>, acc: Transitions, r: Transitions)
  {
    && (forall s, x :: s in trans && x in trans[s] ==> s in m && m[s] in r && x in r[m[s]])
    && (forall l :: l in r <==> l in acc || exists s, x :: s in trans && s in m && m[s] == l && x in trans[s])
    && (forall l, x :: l in r && x in r[l] && Written(trans, m, l, x) ==>
          exists s :: s in trans && s in m && m[s] == l && x in trans[s] && trans[s][x] in m && r[l][x] == m[trans[s][x]])
    && (forall l, x :: l in r && x in r[l] && !Written(trans, m, l, x) ==>
          l in acc && x in acc[l] && r[l][x] == acc[l][x])
    && (forall l, x :: l in acc && x in acc[l] ==> l in r && x in r[l])
  }

  /** A pair of a full enumeration lands on (l, x) exactly when a
      canonical transition does. */
  lemma LandsIffWritten(trans: Transitions, m: map<int, int>, order: seq<(int, Symbol)>, l: int, x: Symbol)
    requires ValidPairs(trans, m, order)
    requires Elems(order) == Pairs(trans)
    ensures Written(trans, m, l, x) <==> exists i :: 0 <= i < |order| && Lands(m, order, i, l, x)
  {
    if Written(trans, m, l, x) {
      var s :| s in trans && s in m && m[s] == l && x in trans[s];
      assert (s, x) in Pairs(trans);
      var i :| 0 <= i < |order| && order[i] == (s, x);
      assert Lands(m, order, i, l, x);
    }
    if i :| 0 <= i < |order| && Lands(m, order, i, l, x) {
      var s := order[i].0;
      assert s in trans && s in m && m[s] == l && x in trans[s];
    }
  }

  /** Folding over any enumeration of all the canonical transitions gives a
      table RemapOk describes. */
  lemma RemapAlongOk(trans: Transitions, m: map<int, int>, acc: Transitions, order: seq<(int, Symbol)>)
    requires ValidPairs(trans, m, order)
    requires Elems(order) == Pairs(trans)
    ensures RemapOk(trans, m, acc, RemapAlong(trans, m, acc, order))
  {
    var r := RemapAlong(trans, m, acc, order);
    RemapAlongPresent(trans, m, acc, order);
    RemapAlongKeeps(trans, m, acc, order);
    RemapAlongRows(trans, m, acc, order);
    forall s, x | s in trans && x in trans[s] ensures s in m && m[s] in r && x in r[m[s]] {
      assert (s, x) in Pairs(trans);
      var i :| 0 <= i < |order| && order[i] == (s, x);
    }
    forall l, x | l in r && x in r[l] && Written(trans, m, l, x)
      ensures exists s :: s in trans && s in m && m[s] == l && x in trans[s] && trans[s][x] in m && r[l][x] == m[trans[s][x]]
    {
      LandsIffWritten(trans, m, order, l, x);
      RemapAlongValues(trans, m, acc, order, l, x);
      var i :| LastWrite(trans, m, order, r, l, x, i);
      var s := order[i].0;
    }
    forall l, x | l in r && x in r[l] && !Written(trans, m, l, x)
      ensures l in acc && x in acc[l] && r[l][x] == acc[l][x]
    {
      LandsIffWritten(trans, m, order, l, x);
      RemapAlongValues(trans, m, acc, order, l, x);
    }
    forall l | l in r ensures l in acc || exists s, x :: s in trans && s in m && m[s] == l && x in trans[s] {
      if l !in acc {
        assert Visits(m, order, l);
        var i :| 0 <= i < |order| && m[order[i].0] == l;
        assert order[i].1 in trans[order[i].0];
      }
    }
    forall l | l in acc || exists s, x :: s in trans && s in m && m[s] == l && x in trans[s] ensures l in r {
      if l !in acc {
        var s, x :| s in trans && s in m && m[s] == l && x in trans[s];
        assert (s, x) in Pairs(trans);
        var i :| 0 <= i < |order| && order[i] == (s, x);
        assert Visits(m, order, l);
      }
    }
  }

  /** The canonical transitions out of the states of ss, as pairs. */
  ghost function PairsFrom(trans: Transitions, ss: set<int>): set<(int, Symbol)>
  {
    set s, x | s in trans && s in ss && x in trans[s] :: (s, x)
  }

  lemma PairsFromAdd(trans: Transitions, ss: set<int>, s: int)
    ensures PairsFrom(trans, ss + {s}) == PairsFrom(trans, ss) + PairsFrom(trans, {s})
  {
  }

  lemma PairsFromAll(trans: Transitions)
    ensures PairsFrom(trans, trans.Keys) == Pairs(trans)
  {
  }

  /** The pairs (s, x) for x in xs. */
  ghost function Tagged(s: int, xs: set<Symbol>): set<(int, Symbol)>
  {
    set x | x in xs :: (s, x)
  }

  lemma TaggedAdd(s: int, xs: set<Symbol>, x: Symbol)
    ensures Tagged(s, xs + {x}) == Tagged(s, xs) + {(s, x)}
  {
  }

  /** Visiting one more valid pair writes one more entry. */
  lemma RemapAlongSnoc(trans: Transitions, m: map<int, int>, acc: Transitions, order: seq<(int, Symbol)>, s: int, x: Symbol)
    requires ValidPairs(trans, m, order)
    requires s in trans && s in m && x in trans[s] && trans[s][x] in m
    ensures ValidPairs(trans, m, order + [(s, x)])
    ensures RemapAlong(trans, m, acc, order + [(s, x)]) == Put(RemapAlong(trans, m, acc, order), m[s], x, m[trans[s][x]])
    ensures Elems(order + [(s, x)]) == Elems(order) + {(s, x)}
  {
    assert (order + [(s, x)])[..|order|] == order;
  }

  /** The inner loop's invariant: the symbols xs of src's row are written,
      their pairs appended to order0 to give order, and cur is the fold. */
  ghost predicate RowDone(trans: Transitions, m: map<int, int>, acc: Transitions, src: int,
                          order0: seq<(int, Symbol)>, order: seq<(int, Symbol)>, xs: set<Symbol>, cur: Transitions)
    requires src in trans
  {
    && xs <= trans[src].Keys
    && (forall x :: x in xs ==> trans[src][x] in m)
    && ValidPairs(trans, m, order)
    && Elems(order) == Elems(order0) + Tagged(src, xs)
    && cur == RemapAlong(trans, m, acc, order)
  }

  /** One more symbol of src's row written keeps RowDone. */
  lemma RowDoneStep(trans: Transitions, m: map<int, int>, acc: Transitions, src: int,
                    order0: seq<(int, Symbol)>, order: seq<(int, Symbol)>, xs: set<Symbol>, cur: Transitions, x: Symbol)
    requires src in trans && src in m && x in trans[src] && trans[src][x] in m
    requires RowDone(trans, m, acc, src, order0, order, xs, cur)
    ensures RowDone(trans, m, acc, src, order0, order + [(src, x)], xs + {x}, Put(cur, m[src], x, m[trans[src][x]]))
  {
    RemapAlongSnoc(trans, m, acc, order, src, x);
    TaggedAdd(src, xs, x);
  }

  /** The inner loop of step 3 for canonical state src: write every
      transition out of src, in hash order, extending the visiting order. */
  method RemapRow(trans: Transitions, m: map<int, int>, acc: Transitions, src: int,
                  out0: Transitions, ghost order0: seq<(int, Symbol)>)
    returns (out: Option<Transitions>, ghost order: seq<(int, Symbol)>)
    requires src in trans && src in m
    requires ValidPairs(trans, m, order0) && out0 == RemapAlong(trans, m, acc, order0)
    ensures out.None? <==> exists x :: x in trans[src] && trans[src][x] !in m
    ensures out.Some? ==> && ValidPairs(trans, m, order)
                          && Elems(order) == Elems(order0) + PairsFrom(trans, {src})
                          && out.value == RemapAlong(trans, m, acc, order)
  {
    var leftIndex := m[src];
    var row := trans[src];
    var syms := row.Keys;
    var cur := out0;
    order := order0;
    ghost var xs: set<Symbol> := {};
    assert Tagged(src, xs) == {};
    while syms != {}
      invariant syms <= row.Keys && xs == row.Keys - syms
      invariant RowDone(trans, m, acc, src, order0, order, xs, cur)
      decreases syms
    {
      var x := Pick(syms);
      if row[x] !in m {
        return None, order;
      }
      var rightIndex := m[row[x]];
      RowDoneStep(trans, m, acc, src, order0, order, xs, cur, x);
      cur := Put(cur, leftIndex, x, rightIndex);
      order := order + [(src, x)];
      syms := syms - {x};
      xs := xs + {x};
    }
    assert Tagged(src, xs) == PairsFrom(trans, {src});
    out := Some(cur);
  }

  /** The outer loop's invariant: the states done are mapped, with all
      their pairs visited in order, and out is the fold. */
  ghost predicate StatesDone(trans: Transitions, m: map<int, int>, acc: Transitions,
                             done: set<int>, order: seq<(int, Symbol)>, out: Transitions)
  {
    && IdsMappedOn(trans, m, done)
    && ValidPairs(trans, m, order)
    && Elems(order) == PairsFrom(trans, done)
    && out == RemapAlong(trans, m, acc, order)
  }

  /** Writing every transition out of one more state keeps StatesDone. */
  lemma StatesDoneStep(trans: Transitions, m: map<int, int>, acc: Transitions, done: set<int>,
                       order: seq<(int, Symbol)>, out: Transitions, order': seq<(int, Symbol)>, src: int, out': Transitions)
    requires src in trans && src in m && forall x :: x in trans[src] ==> trans[src][x] in m
    requires StatesDone(trans, m, acc, done, order, out)
    requires ValidPairs(trans, m, order') && Elems(order') == Elems(order) + PairsFrom(trans, {src})
    requires out' == RemapAlong(trans, m, acc, order')
    ensures StatesDone(trans, m, acc, done + {src}, order', out')
  {
    PairsFromAdd(trans, done, src);
  }

  /** Step 3: for every canonical s -x-> t, put m(s) -x-> m(t) into the
      merged transitions acc (computeIfAbsent then put), visiting states
      and symbols in hash order. None where a canonical id has no image:
      the Java code unboxes a null there and throws. */
  method RemapTransitions(trans: Transitions, m: map<int, int>, acc: Transitions) returns (r: Option<Transitions>)
    ensures r.None? <==> !IdsMapped(trans, m)
    ensures r.Some? ==> RemapOk(trans, m, acc, r.value)
  {
    var out := acc;
    ghost var order: seq<(int, Symbol)> := [];
    var keys := trans.Keys;
    ghost var done: set<int> := {};
    assert PairsFrom(trans, {}) == {};
    while keys != {}
      invariant keys <= trans.Keys && done == trans.Keys - keys
      invariant StatesDone(trans, m, acc, done, order, out)
      decreases keys
    {
      var src := Pick(keys);
      if src !in m {
        return None;
      }
      ghost var order0 := order;
      var next;
      next, order := RemapRow(trans, m, acc, src, out, order);
      if next.None? {
        return None;
      }
      StatesDoneStep(trans, m, acc, done, order0, out, order, src, next.value);
      out := next.value;
      keys := keys - {src};
      done := done + {src};
    }
    assert done == trans.Keys;
    assert IdsMapped(trans, m);
    PairsFromAll(trans);
    RemapAlongOk(trans, m, acc, order);
    r := Some(out);
  }
}
