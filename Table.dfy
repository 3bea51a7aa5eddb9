/**
 * LALR1Table: merges the canonical LR(1) collection into LALR(1) states
 * and fills the ACTION and GOTO tables from them.
 *
 * The canonical collection (states and transitions), the augmented
 * production and the end marker `$` are what the LR(1) automaton hands
 * over; they are fixed at construction.
 */
module Table {
  import opened Grammar
  import opened ActionGoto
  import M = LalrMerge

  /** How build() ends: normally, or where the Java code unboxes a null
      (no merged state for canonical state 0, or a transition whose
      source or target has no merged state). */
  datatype BuildStatus = Built | NoInitialState | UnmappedTransition

  /** A sequence without repetitions has as many elements as its set. */
  lemma {:induction false} DistinctCard<T>(q: seq<T>)
    requires Distinct(q)
    ensures |Elems(q)| == |q|
    decreases |q|
  {
    if q != [] {
      var n := |q| - 1;
      DistinctCard(q[..n]);
      assert Elems(q) == Elems(q[..n]) + {q[n]} by {
        assert q == q[..n] + [q[n]];
      }
      assert q[n] !in Elems(q[..n]);
    }
  }

  /** The inner loop of the GOTO fill: the non-terminal transitions of
      one state, visited in hash order. */
  method NonTerminalRow(transitions: map<Symbol, int>) returns (row: map<Symbol, int>)
    ensures row == NonTerminalPart(transitions)
  {
    row := map[];
    var rest := transitions.Keys;
    while rest != {}
      invariant rest <= transitions.Keys
      invariant row == NonTerminalPart(transitions - rest)
      decreases rest
    {
      var symbol := Pick(rest);
      assert transitions - (rest - {symbol}) == (transitions - rest)[symbol := transitions[symbol]];
      if symbol.kind == NonTerminal {
        row := row[symbol := transitions[symbol]];
      }
      rest := rest - {symbol};
    }
    assert transitions - rest == transitions;
  }

  /** The GOTO table of one more state. */
  lemma GotoOfStep(s: int, trans: M.Transitions)
    requires 0 <= s
    ensures GotoOf(s + 1, trans) ==
      if s in trans then GotoOf(s, trans)[s := NonTerminalPart(trans[s])] else GotoOf(s, trans)
  {
  }

  class LALR1Table {
    const lr1States: seq<set<Item>>
    const lr1Transitions: M.Transitions
    const augmented: Production
    const dollar: Symbol

    var lalrStates: seq<set<Item>>
    var lalrTransitions: M.Transitions
    var action: ActionTable
    var gotoTable: M.Transitions
    var conflicts: seq<Conflict>
    var initialState: int
    /** The hash order the items of each merged state were visited in by
        the last fill. */
    ghost var itemOrders: seq<seq<Item>>

    constructor (lr1States: seq<set<Item>>, lr1Transitions: M.Transitions, augmented: Production, dollar: Symbol)
      ensures this.lr1States == lr1States && this.lr1Transitions == lr1Transitions
      ensures this.augmented == augmented && this.dollar == dollar
      ensures lalrStates == [] && lalrTransitions == map[]
      ensures action == map[] && gotoTable == map[] && conflicts == [] && initialState == 0
    {
      this.lr1States := lr1States;
      this.lr1Transitions := lr1Transitions;
      this.augmented := augmented;
      this.dollar := dollar;
      lalrStates := [];
      lalrTransitions := map[];
      action := map[];
      gotoTable := map[];
      conflicts := [];
      initialState := 0;
      itemOrders := [];
    }

    /** ACTION and conflicts are the fill of the merged states in some
        hash order of each, and GOTO is the non-terminal part of the merged
        transitions. */
    ghost predicate Filled()
      reads this
    {
      && |itemOrders| == |lalrStates|
      && (forall s :: 0 <= s < |lalrStates| ==> Elems(itemOrders[s]) == lalrStates[s] && Distinct(itemOrders[s]))
      && Tables(action, conflicts) == FillStates(itemOrders, lalrTransitions, augmented, dollar)
      && gotoTable == GotoOf(|lalrStates|, lalrTransitions)
    }

    /** Step 4 for one item of state s. */
    method FillItem(s: int, item: Item)
      modifies this`action, this`conflicts
      ensures Tables(action, conflicts) == ItemStep(old(Tables(action, conflicts)), s, item, lalrTransitions, augmented, dollar)
    {
      var x := SymbolAfterDot(item);
      if x.Some? && x.value.kind == Terminal {
        var t: Option<int> := None;
        if s in lalrTransitions && x.value in lalrTransitions[s] {
          t := Some(lalrTransitions[s][x.value]);
        }
        if t.None? {
          return;
        }
        var row := if s in action then action[s] else map[];
        if x.value in row {
          conflicts := conflicts + [ShiftConflict(s, x.value)];
          if row[x.value].Reduce? {
            row := row[x.value := Shift(t.value)];
          }
        } else {
          row := row[x.value := Shift(t.value)];
        }
        action := action[s := row];
      }
      if x.None? {
        var row := if s in action then action[s] else map[];
        if item.prod == augmented && item.lookahead == dollar {
          row := row[dollar := Accept];
        } else if item.lookahead in row {
          var existing := row[item.lookahead];
          conflicts := conflicts + [ReduceConflict(s, item.lookahead, TypeOf(existing), item.prod)];
        } else {
          row := row[item.lookahead := Reduce(item.prod)];
        }
        action := action[s := row];
      }
    }

    /** Step 4 for merged state s: visit its items in hash order. */
    method FillState(s: int) returns (ghost order: seq<Item>)
      requires 0 <= s < |lalrStates|
      modifies this`action, this`conflicts
      ensures Elems(order) == lalrStates[s] && Distinct(order)
      ensures Tables(action, conflicts) == FillItems(old(Tables(action, conflicts)), s, order, lalrTransitions, augmented, dollar)
    {
      var rest := lalrStates[s];
      order := [];
      while rest != {}
        invariant rest <= lalrStates[s]
        invariant Elems(order) == lalrStates[s] - rest && Distinct(order)
        invariant Tables(action, conflicts) == FillItems(old(Tables(action, conflicts)), s, order, lalrTransitions, augmented, dollar)
        decreases rest
      {
        var item := Pick(rest);
        FillItem(s, item);
        assert (order + [item])[..|order|] == order;
        assert Elems(order + [item]) == Elems(order) + {item};
        order := order + [item];
        rest := rest - {item};
      }
    }

    /** Step 4, GOTO part: for every merged state with transitions, a row
        holding its transitions on non-terminals. */
    method FillGoto()
      requires gotoTable == map[]
      modifies this`gotoTable
      ensures gotoTable == GotoOf(|lalrStates|, lalrTransitions)
    {
      var s := 0;
      while s < |lalrStates|
        invariant 0 <= s <= |lalrStates|
        invariant gotoTable == GotoOf(s, lalrTransitions)
      {
        GotoOfStep(s, lalrTransitions);
        if s in lalrTransitions {
          // Each state is visited once, so computeIfAbsent always creates
          // the row here.
          var row := NonTerminalRow(lalrTransitions[s]);
          gotoTable := gotoTable[s := row];
        }
        s := s + 1;
      }
    }

    /** fillActionGoto(): clear the tables, visit every merged state in
        index order, then fill GOTO. What the filled tables hold cell by
        cell is FillStatesSound's conclusion about FillStates. */
    method FillActionGoto()
      modifies this`action, this`gotoTable, this`conflicts, this`itemOrders
      ensures Filled()
    {
      action := map[];
      gotoTable := map[];
      conflicts := [];
      itemOrders := [];
      var s := 0;
      while s < |lalrStates|
        invariant 0 <= s <= |lalrStates| && |itemOrders| == s
        invariant forall k :: 0 <= k < s ==> Elems(itemOrders[k]) == lalrStates[k] && Distinct(itemOrders[k])
        invariant Tables(action, conflicts) == FillStates(itemOrders, lalrTransitions, augmented, dollar)
        invariant gotoTable == map[]
      {
        var order := FillState(s);
        assert (itemOrders + [order])[..s] == itemOrders;
        itemOrders := itemOrders + [order];
        s := s + 1;
      }
      FillGoto();
    }

    /** Step 2b: one merged state per kernel, appended to lalrStates in
        hash order of the kernels. */
    method MergeStates(groups: map<set<KernelEntry>, seq<int>>) returns (ghost kernels: seq<set<KernelEntry>>)
      requires forall k, i :: k in groups && 0 <= i < |groups[k]| ==>
        0 <= groups[k][i] < |lr1States| && KernelOf(lr1States[groups[k][i]]) == k
      requires forall t :: 0 <= t < |lr1States| ==> KernelOf(lr1States[t]) in groups && t in groups[KernelOf(lr1States[t])]
      modifies this`lalrStates
      ensures Elems(kernels) == groups.Keys && Distinct(kernels)
      ensures |lalrStates| == |old(lalrStates)| + |kernels| && lalrStates[..|old(lalrStates)|] == old(lalrStates)
      ensures forall i :: 0 <= i < |kernels| ==> lalrStates[|old(lalrStates)| + i] == M.MergedState(lr1States, kernels[i])
    {
      var pending := groups.Keys;
      kernels := [];
      while pending != {}
        invariant pending <= groups.Keys
        invariant Elems(kernels) == groups.Keys - pending && Distinct(kernels)
        invariant |lalrStates| == |old(lalrStates)| + |kernels| && lalrStates[..|old(lalrStates)|] == old(lalrStates)
        invariant forall i :: 0 <= i < |kernels| ==> lalrStates[|old(lalrStates)| + i] == M.MergedState(lr1States, kernels[i])
        decreases pending
      {
        var kernel := Pick(pending);
        var ids := groups[kernel];
        forall i | i in ids ensures 0 <= i < |lr1States| {
          var j :| 0 <= j < |ids| && ids[j] == i;
        }
        var merged := M.MergeGroup(lr1States, ids);
        forall it ensures it in merged <==> it in M.MergedState(lr1States, kernel) {
          if it in M.MergedState(lr1States, kernel) {
            var s :| 0 <= s < |lr1States| && KernelOf(lr1States[s]) == kernel && it in lr1States[s];
            assert s in ids;
          }
          if it in merged {
            var i :| i in ids && it in lr1States[i];
            var j :| 0 <= j < |ids| && ids[j] == i;
            assert KernelOf(lr1States[i]) == kernel;
          }
        }
        lalrStates := lalrStates + [merged];
        assert Elems(kernels + [kernel]) == Elems(kernels) + {kernel};
        kernels := kernels + [kernel];
        pending := pending - {kernel};
      }
    }

    /** lalrStates is base followed by one merged state per kernel of the
        canonical collection, each kernel once. */
    ghost predicate Merged(base: seq<set<Item>>, kernels: seq<set<KernelEntry>>)
      reads this`lalrStates
    {
      && Elems(kernels) == M.Kernels(lr1States) && Distinct(kernels)
      && |lalrStates| == |base| + |kernels| && lalrStates[..|base|] == base
      && forall i :: 0 <= i < |kernels| ==> lalrStates[|base| + i] == M.MergedState(lr1States, kernels[i])
    }

    /** The outcome of steps 2c, 3 and 4 from the given earlier field values:
        no canonical states means no initial state and nothing written; a
        transition into an unmapped id stops before anything is written;
        otherwise the transitions are remapped and the tables filled. */
    ghost predicate Connected(status: BuildStatus, transitions0: M.Transitions, action0: ActionTable,
                              goto0: M.Transitions, conflicts0: seq<Conflict>, initial0: int)
      reads this
    {
      var stateMap := M.StateMap(lr1States, lalrStates);
      && (status == NoInitialState <==> lr1States == [])
      && (status == UnmappedTransition <==> lr1States != [] && !M.IdsMapped(lr1Transitions, stateMap))
      && (status == NoInitialState ==> initialState == initial0)
      && (status != NoInitialState ==> 0 in stateMap && initialState == stateMap[0])
      && (status == Built ==> M.RemapOk(lr1Transitions, stateMap, transitions0, lalrTransitions) && Filled())
      && (status != Built ==>
            && lalrTransitions == transitions0 && action == action0 && gotoTable == goto0
            && conflicts == conflicts0)
    }

    /** Step 3 and the call to fillActionGoto() under the id map m: carry
        the transitions over, or stop before writing anything when some
        canonical id has no image. */
    method Rewire(m: map<int, int>) returns (status: BuildStatus)
      modifies this`lalrTransitions, this`action, this`gotoTable, this`conflicts, this`itemOrders
      ensures status != NoInitialState
      ensures status == UnmappedTransition <==> !M.IdsMapped(lr1Transitions, m)
      ensures status == Built ==> M.RemapOk(lr1Transitions, m, old(lalrTransitions), lalrTransitions) && Filled()
      ensures status != Built ==>
        && lalrTransitions == old(lalrTransitions) && action == old(action) && gotoTable == old(gotoTable)
        && conflicts == old(conflicts)
    {
      var remapped := M.RemapTransitions(lr1Transitions, m, lalrTransitions);
      if remapped.None? {
        return UnmappedTransition;
      }
      lalrTransitions := remapped.value;
      FillActionGoto();
      status := Built;
    }

    /** Steps 2c and 3 and the call to fillActionGoto(): map every canonical
        id to the last merged state containing it, carry the transitions
        over and fill the tables. */
    method Connect() returns (status: BuildStatus)
      requires forall s :: 0 <= s < |lr1States| ==> s in M.StateMap(lr1States, lalrStates)
      modifies this`initialState, this`lalrTransitions, this`action, this`gotoTable, this`conflicts, this`itemOrders
      ensures Connected(status, old(lalrTransitions), old(action), old(gotoTable), old(conflicts), old(initialState))
    {
      var oldToNew := M.MapStates(lr1States, lalrStates);
      if 0 !in oldToNew {
        return NoInitialState;
      }
      initialState := oldToNew[0];
      status := Rewire(oldToNew);
    }

    /** build(): merge the canonical states by kernel (appending to
        lalrStates), then connect them and fill the tables. There are never
        more new merged states than canonical ones. */
    method Build() returns (status: BuildStatus, ghost kernels: seq<set<KernelEntry>>)
      modifies this
      ensures Merged(old(lalrStates), kernels) && |kernels| <= |lr1States|
      ensures forall s :: 0 <= s < |lr1States| ==> s in M.StateMap(lr1States, lalrStates)
      ensures Connected(status, old(lalrTransitions), old(action), old(gotoTable), old(conflicts), old(initialState))
    {
      var groups := M.GroupByKernel(lr1States);
      kernels := MergeStates(groups);
      DistinctCard(kernels);
      M.KernelCount(lr1States);
      M.EveryStateMapped(lr1States, lalrStates, |old(lalrStates)|, kernels);
      assert Merged(old(lalrStates), kernels);
      status := Connect();
    }
  }
}
