/**
 * What LALR1Table.fillActionGoto() writes, as functions of the merged
 * states, the order each state's items are visited in, and the merged
 * transitions; and what the resulting ACTION and GOTO tables contain
 * whatever that order is.
 *
 * The fill is asymmetric: a SHIFT replaces an existing REDUCE, an ACCEPT
 * is written over anything, and a REDUCE only goes into an empty cell.
 * Every clash with an existing entry, except ACCEPT's, is recorded as a
 * conflict.
 */
module ActionGoto {
  import opened Grammar
  import LalrMerge

  type Transitions = LalrMerge.Transitions

  datatype Action = Shift(target: int) | Reduce(prod: Production) | Accept

  datatype ActionType = SHIFT | REDUCE | ACCEPT

  function TypeOf(a: Action): ActionType
  {
    match a
    case Shift(_) => SHIFT
    case Reduce(_) => REDUCE
    case Accept => ACCEPT
  }

  /** The two conflict reports: a shift meeting a filled cell, and a reduce
      meeting a filled cell (with the type of the entry it met). The report
      text is not modelled. */
  datatype Conflict =
    | ShiftConflict(state: int, symbol: Symbol)
    | ReduceConflict(state: int, symbol: Symbol, existing: ActionType, prod: Production)

  /** state -> terminal -> action */
  type ActionTable = map<int, map<Symbol, Action>>

  datatype Tables = Tables(action: ActionTable, conflicts: seq<Conflict>)

  function RowOf(action: ActionTable, s: int): map<Symbol, Action>
  {
    if s in action then action[s] else map[]
  }

  // ------------------------------------------------------------------
  // One item
  // ------------------------------------------------------------------

  /** The completed augmented item with lookahead `$`. */
  predicate IsAcceptItem(it: Item, augmented: Production, dollar: Symbol)
  {
    IsCompleted(it) && it.prod == augmented && it.lookahead == dollar
  }

  /** it asks for SHIFT on terminal a in state s: a follows the dot and
      state s has a transition on a. */
  predicate ShiftsOn(it: Item, s: int, a: Symbol, trans: Transitions)
  {
    SymbolAfterDot(it) == Some(a) && a.kind == Terminal && s in trans && a in trans[s]
  }

  /** it asks for REDUCE on its lookahead a. */
  predicate ReducesOn(it: Item, a: Symbol, augmented: Production, dollar: Symbol)
  {
    IsCompleted(it) && !IsAcceptItem(it, augmented, dollar) && it.lookahead == a
  }

  /** it writes (or tries to write) cell a of its state's row. */
  predicate Writes(it: Item, s: int, a: Symbol, trans: Transitions, augmented: Production, dollar: Symbol)
  {
    ShiftsOn(it, s, a, trans) || ReducesOn(it, a, augmented, dollar) || (a == dollar && IsAcceptItem(it, augmented, dollar))
  }

  /** it makes the fill create row s (computeIfAbsent). */
  predicate OpensRow(it: Item, s: int, trans: Transitions)
  {
    IsCompleted(it) || (SymbolAfterDot(it).Some? && ShiftsOn(it, s, SymbolAfterDot(it).value, trans))
  }

  /** The effect of visiting item it of state s. */
  function ItemStep(t: Tables, s: int, it: Item, trans: Transitions, augmented: Production, dollar: Symbol): Tables
  {
    match SymbolAfterDot(it)
    case Some(x) =>
      if x.kind == Terminal && s in trans && x in trans[s] then
        var row := RowOf(t.action, s);
        var target := trans[s][x];
        if x in row then
          Tables(t.action[s := if row[x].Reduce? then row[x := Shift(target)] else row],
                 t.conflicts + [ShiftConflict(s, x)])
        else
          Tables(t.action[s := row[x := Shift(target)]], t.conflicts)
      else
        t
    case None =>
      var row := RowOf(t.action, s);
      if it.prod == augmented && it.lookahead == dollar then
        Tables(t.action[s := row[dollar := Accept]], t.conflicts)
      else if it.lookahead in row then
        Tables(t.action[s := row],
               t.conflicts + [ReduceConflict(s, it.lookahead, TypeOf(row[it.lookahead]), it.prod)])
      else
        Tables(t.action[s := row[it.lookahead := Reduce(it.prod)]], t.conflicts)
  }

  // ------------------------------------------------------------------
  // The fold over items and states
  // ------------------------------------------------------------------

  /** Visiting the items of state s in the given order. */
  function FillItems(t: Tables, s: int, items: seq<Item>, trans: Transitions, augmented: Production, dollar: Symbol): Tables
    decreases |items|
  {
    if items == [] then t
    else
      var n := |items| - 1;
      ItemStep(FillItems(t, s, items[..n], trans, augmented, dollar), s, items[n], trans, augmented, dollar)
  }

  /** Visiting states 0, 1, ..., each in its own item order, from empty
      tables. */
  function FillStates(orders: seq<seq<Item>>, trans: Transitions, augmented: Production, dollar: Symbol): Tables
    decreases |orders|
  {
    if orders == [] then Tables(map[], [])
    else
      var n := |orders| - 1;
      FillItems(FillStates(orders[..n], trans, augmented, dollar), n, orders[n], trans, augmented, dollar)
  }

  // ------------------------------------------------------------------
  // What ends up in a cell
  // ------------------------------------------------------------------

  ghost predicate HasAccept(items: set<Item>, augmented: Production, dollar: Symbol)
  {
    exists it :: it in items && IsAcceptItem(it, augmented, dollar)
  }

  /** Cell (s, a) of action after the items of S were visited in any order:
      - it is filled exactly when some item of S writes it;
      - it holds ACCEPT exactly when a is `$` and S holds the accept item;
      - it holds SHIFT exactly when it does not hold ACCEPT and some item of
        S shifts on a, and the target is the transition of s on a;
      - a REDUCE comes from an item of S reducing on a by that production. */
  ghost predicate CellOk(action: ActionTable, s: int, a: Symbol, S: set<Item>,
                         trans: Transitions, augmented: Production, dollar: Symbol)
  {
    && ((s in action && a in action[s]) <==> exists it :: it in S && Writes(it, s, a, trans, augmented, dollar))
    && (s in action && a in action[s] ==>
          && (action[s][a].Accept? <==> a == dollar && HasAccept(S, augmented, dollar))
          && (action[s][a].Shift? <==>
                !(a == dollar && HasAccept(S, augmented, dollar)) && exists it :: it in S && ShiftsOn(it, s, a, trans))
          && (action[s][a].Shift? ==> s in trans && a in trans[s] && action[s][a].target == trans[s][a])
          && (action[s][a].Reduce? ==>
                exists it :: it in S && ReducesOn(it, a, augmented, dollar) && it.prod == action[s][a].prod))
  }

  /** Visiting one more item keeps CellOk for the items visited so far. */
  lemma ItemStepCell(t: Tables, s: int, it: Item, a: Symbol, S: set<Item>,
                     trans: Transitions, augmented: Production, dollar: Symbol)
    requires CellOk(t.action, s, a, S, trans, augmented, dollar)
    ensures CellOk(ItemStep(t, s, it, trans, augmented, dollar).action, s, a, S + {it}, trans, augmented, dollar)
  {
    var t' := ItemStep(t, s, it, trans, augmented, dollar);
    var S' := S + {it};
    if Writes(it, s, a, trans, augmented, dollar) {
      assert exists w :: w in S' && Writes(w, s, a, trans, augmented, dollar);
    }
    if HasAccept(S', augmented, dollar) && !HasAccept(S, augmented, dollar) {
      assert IsAcceptItem(it, augmented, dollar);
    }
    if (exists w :: w in S' && ShiftsOn(w, s, a, trans)) && !(exists w :: w in S && ShiftsOn(w, s, a, trans)) {
      assert ShiftsOn(it, s, a, trans);
    }
    if !Writes(it, s, a, trans, augmented, dollar) {
      assert (s in t'.action && a in t'.action[s]) <==> (s in t.action && a in t.action[s]);
      if s in t.action && a in t.action[s] {
        assert t'.action[s][a] == t.action[s][a];
      }
      assert !(exists w :: w in S' && Writes(w, s, a, trans, augmented, dollar)
                 && !(exists v :: v in S && Writes(v, s, a, trans, augmented, dollar)));
    }
  }

  /** Visiting the items of state s from tables without row s. */
  lemma {:induction false} FillItemsCell(t: Tables, s: int, items: seq<Item>, a: Symbol,
                                         trans: Transitions, augmented: Production, dollar: Symbol)
    requires s !in t.action
    ensures CellOk(FillItems(t, s, items, trans, augmented, dollar).action, s, a, Elems(items), trans, augmented, dollar)
    decreases |items|
  {
    if items != [] {
      var n := |items| - 1;
      FillItemsCell(t, s, items[..n], a, trans, augmented, dollar);
      ItemStepCell(FillItems(t, s, items[..n], trans, augmented, dollar), s, items[n], a, Elems(items[..n]),
                   trans, augmented, dollar);
      assert Elems(items) == Elems(items[..n]) + {items[n]} by {
        assert items == items[..n] + [items[n]];
      }
    }
  }

  /** Visiting one item of state s creates row s exactly when the item
      opens it and changes no other row. It appends a conflict exactly when
      the item shifts or reduces on a cell already filled in row s, and
      then exactly one, naming s and that cell. */
  lemma ItemStepFrame(t: Tables, s: int, it: Item, trans: Transitions, augmented: Production, dollar: Symbol)
    ensures var f := ItemStep(t, s, it, trans, augmented, dollar);
      && (s in f.action <==> s in t.action || OpensRow(it, s, trans))
      && (forall r :: r != s ==> (r in f.action <==> r in t.action))
      && (forall r :: r != s && r in t.action ==> f.action[r] == t.action[r])
      && (if s in t.action && exists a :: Competes(it, s, a, trans, augmented, dollar) && a in t.action[s]
          then
            && |f.conflicts| == |t.conflicts| + 1 && f.conflicts[..|t.conflicts|] == t.conflicts
            && f.conflicts[|t.conflicts|].state == s
            && Competes(it, s, f.conflicts[|t.conflicts|].symbol, trans, augmented, dollar)
            && f.conflicts[|t.conflicts|].symbol in t.action[s]
          else
            f.conflicts == t.conflicts)
  {
  }

  /** Visiting the items of state s creates row s exactly when one of them
      opens it, leaves every other row alone, and only appends conflicts. */
  lemma {:induction false} FillItemsFrame(t: Tables, s: int, items: seq<Item>,
                                          trans: Transitions, augmented: Production, dollar: Symbol)
    ensures var f := FillItems(t, s, items, trans, augmented, dollar);
      && (s in f.action <==> s in t.action || exists it :: it in items && OpensRow(it, s, trans))
      && (forall r :: r != s ==> (r in f.action <==> r in t.action))
      && (forall r :: r != s && r in t.action ==> f.action[r] == t.action[r])
      && |t.conflicts| <= |f.conflicts| && f.conflicts[..|t.conflicts|] == t.conflicts
    decreases |items|
  {
    if items != [] {
      var n := |items| - 1;
      FillItemsFrame(t, s, items[..n], trans, augmented, dollar);
      assert items == items[..n] + [items[n]];
      forall it ensures it in items <==> it in items[..n] || it == items[n] { }
      var f0 := FillItems(t, s, items[..n], trans, augmented, dollar);
      var f := FillItems(t, s, items, trans, augmented, dollar);
      ItemStepFrame(f0, s, items[n], trans, augmented, dollar);
      assert f.conflicts[..|f0.conflicts|] == f0.conflicts;
      assert f0.conflicts[..|t.conflicts|] == t.conflicts;
      assert f.conflicts[..|t.conflicts|] == f.conflicts[..|f0.conflicts|][..|t.conflicts|];
    }
  }

  /** The rows of the filled table are the states with an item opening
      them. */
  lemma {:induction false} FillStatesRows(orders: seq<seq<Item>>, trans: Transitions, augmented: Production, dollar: Symbol)
    ensures forall s :: s in FillStates(orders, trans, augmented, dollar).action <==>
      0 <= s < |orders| && exists it :: it in orders[s] && OpensRow(it, s, trans)
    decreases |orders|
  {
    if orders != [] {
      var n := |orders| - 1;
      FillStatesRows(orders[..n], trans, augmented, dollar);
      FillItemsFrame(FillStates(orders[..n], trans, augmented, dollar), n, orders[n], trans, augmented, dollar);
      forall s | 0 <= s < n ensures orders[..n][s] == orders[s] { }
    }
  }

  /** Every cell of the filled table is as CellOk describes for the items
      of its state, whatever order they were visited in. */
  lemma {:induction false} FillStatesCell(orders: seq<seq<Item>>, s: int, a: Symbol,
                                          trans: Transitions, augmented: Production, dollar: Symbol)
    requires 0 <= s < |orders|
    ensures CellOk(FillStates(orders, trans, augmented, dollar).action, s, a, Elems(orders[s]), trans, augmented, dollar)
    decreases |orders|
  {
    var n := |orders| - 1;
    var prev := FillStates(orders[..n], trans, augmented, dollar);
    FillStatesRows(orders[..n], trans, augmented, dollar);
    FillItemsFrame(prev, n, orders[n], trans, augmented, dollar);
    if s == n {
      FillItemsCell(prev, n, orders[n], a, trans, augmented, dollar);
    } else {
      FillStatesCell(orders[..n], s, a, trans, augmented, dollar);
      assert orders[..n][s] == orders[s];
    }
  }

  // ------------------------------------------------------------------
  // Conflicts and determinism
  // ------------------------------------------------------------------

  /** it writes cell a by SHIFT or REDUCE (not ACCEPT). */
  predicate Competes(it: Item, s: int, a: Symbol, trans: Transitions, augmented: Production, dollar: Symbol)
  {
    ShiftsOn(it, s, a, trans) || ReducesOn(it, a, augmented, dollar)
  }

  ghost predicate ConflictAt(conflicts: seq<Conflict>, s: int, a: Symbol)
  {
    exists i :: 0 <= i < |conflicts| && conflicts[i].state == s && conflicts[i].symbol == a
  }

  /** An item shifting or reducing on a cell that an earlier item of the
      state already wrote (by SHIFT, REDUCE or ACCEPT) records a conflict. */
  lemma {:induction false} FillItemsConflict(t: Tables, s: int, items: seq<Item>, a: Symbol, i: int, j: int,
                                             trans: Transitions, augmented: Production, dollar: Symbol)
    requires s !in t.action
    requires 0 <= i < j < |items|
    requires Writes(items[i], s, a, trans, augmented, dollar) && Competes(items[j], s, a, trans, augmented, dollar)
    ensures ConflictAt(FillItems(t, s, items, trans, augmented, dollar).conflicts, s, a)
    decreases |items|
  {
    var n := |items| - 1;
    var init := items[..n];
    var f0 := FillItems(t, s, init, trans, augmented, dollar);
    var f := FillItems(t, s, items, trans, augmented, dollar);
    if j < n {
      FillItemsConflict(t, s, init, a, i, j, trans, augmented, dollar);
      FillItemsFrame(f0, s, [items[n]], trans, augmented, dollar);
      assert FillItems(f0, s, [items[n]], trans, augmented, dollar) == f by {
        assert [items[n]][..0] == [];
      }
      var k :| 0 <= k < |f0.conflicts| && f0.conflicts[k].state == s && f0.conflicts[k].symbol == a;
      assert f.conflicts[k] == f0.conflicts[k];
    } else {
      FillItemsCell(t, s, init, a, trans, augmented, dollar);
      assert init[i] in Elems(init);
      assert Writes(init[i], s, a, trans, augmented, dollar);
      assert s in f0.action && a in f0.action[s];
      assert f.conflicts[|f0.conflicts|].state == s && f.conflicts[|f0.conflicts|].symbol == a;
    }
  }

  /** Some item of the sequence writes cell a of state s and a later one
      shifts or reduces on it. */
  ghost predicate Clash(items: seq<Item>, s: int, a: Symbol, trans: Transitions, augmented: Production, dollar: Symbol)
  {
    exists i, j :: 0 <= i < j < |items| && Writes(items[i], s, a, trans, augmented, dollar)
                                         && Competes(items[j], s, a, trans, augmented, dollar)
  }

  /** Conversely, every conflict recorded while filling state s names s
      and a cell that an earlier item of s wrote and a later one shifted
      or reduced on: nothing is recorded for a write into an empty cell. */
  lemma {:induction false} FillItemsConflictSource(t: Tables, s: int, items: seq<Item>,
                                                   trans: Transitions, augmented: Production, dollar: Symbol)
    requires s !in t.action
    ensures forall k :: |t.conflicts| <= k < |FillItems(t, s, items, trans, augmented, dollar).conflicts| ==>
      var c := FillItems(t, s, items, trans, augmented, dollar).conflicts[k];
      c.state == s && Clash(items, s, c.symbol, trans, augmented, dollar)
    decreases |items|
  {
    if items != [] {
      var n := |items| - 1;
      var init := items[..n];
      var f0 := FillItems(t, s, init, trans, augmented, dollar);
      var f := FillItems(t, s, items, trans, augmented, dollar);
      FillItemsConflictSource(t, s, init, trans, augmented, dollar);
      ItemStepFrame(f0, s, items[n], trans, augmented, dollar);
      forall k | |t.conflicts| <= k < |f.conflicts|
        ensures f.conflicts[k].state == s && Clash(items, s, f.conflicts[k].symbol, trans, augmented, dollar)
      {
        if k < |f0.conflicts| {
          assert f.conflicts[k] == f0.conflicts[k];
          var a := f0.conflicts[k].symbol;
          assert f0.conflicts[k].state == s && Clash(init, s, a, trans, augmented, dollar);
          var i, j :| 0 <= i < j < |init| && Writes(init[i], s, a, trans, augmented, dollar)
                                           && Competes(init[j], s, a, trans, augmented, dollar);
          assert items[i] == init[i] && items[j] == init[j];
        } else {
          var a := f.conflicts[k].symbol;
          FillItemsCell(t, s, init, a, trans, augmented, dollar);
          var w :| w in Elems(init) && Writes(w, s, a, trans, augmented, dollar);
          assert w in init;
          var i :| 0 <= i < n && init[i] == w;
          assert items[i] == w;
        }
      }
    }
  }

  /** Every conflict in the report names a state and a cell of it where
      an earlier item wrote and a later one shifted or reduced. */
  lemma {:induction false} FillStatesConflictSource(orders: seq<seq<Item>>, trans: Transitions, augmented: Production, dollar: Symbol)
    ensures forall k :: 0 <= k < |FillStates(orders, trans, augmented, dollar).conflicts| ==>
      var c := FillStates(orders, trans, augmented, dollar).conflicts[k];
      0 <= c.state < |orders| && Clash(orders[c.state], c.state, c.symbol, trans, augmented, dollar)
    decreases |orders|
  {
    if orders != [] {
      var n := |orders| - 1;
      var prev := FillStates(orders[..n], trans, augmented, dollar);
      var f := FillStates(orders, trans, augmented, dollar);
      FillStatesConflictSource(orders[..n], trans, augmented, dollar);
      FillStatesRows(orders[..n], trans, augmented, dollar);
      FillItemsFrame(prev, n, orders[n], trans, augmented, dollar);
      FillItemsConflictSource(prev, n, orders[n], trans, augmented, dollar);
      forall k | 0 <= k < |f.conflicts|
        ensures 0 <= f.conflicts[k].state < |orders|
        ensures Clash(orders[f.conflicts[k].state], f.conflicts[k].state, f.conflicts[k].symbol, trans, augmented, dollar)
      {
        if k < |prev.conflicts| {
          assert f.conflicts[k] == prev.conflicts[k];
          var st := prev.conflicts[k].state;
          assert 0 <= st < n && Clash(orders[..n][st], st, prev.conflicts[k].symbol, trans, augmented, dollar);
          assert orders[..n][st] == orders[st];
        } else {
          assert f.conflicts[k].state == n;
        }
      }
    }
  }

  /** The conflict recorded while filling state s stays in the report
      after every later state is filled. */
  lemma FillStatesConflict(orders: seq<seq<Item>>, s: int, a: Symbol, i: int, j: int,
                           trans: Transitions, augmented: Production, dollar: Symbol)
    requires 0 <= s < |orders|
    requires 0 <= i < j < |orders[s]|
    requires Writes(orders[s][i], s, a, trans, augmented, dollar) && Competes(orders[s][j], s, a, trans, augmented, dollar)
    ensures ConflictAt(FillStates(orders, trans, augmented, dollar).conflicts, s, a)
    decreases |orders|
  {
    var n := |orders| - 1;
    var prev := FillStates(orders[..n], trans, augmented, dollar);
    var f := FillStates(orders, trans, augmented, dollar);
    FillItemsFrame(prev, n, orders[n], trans, augmented, dollar);
    if s == n {
      FillStatesRows(orders[..n], trans, augmented, dollar);
      FillItemsConflict(prev, n, orders[n], a, i, j, trans, augmented, dollar);
    } else {
      assert orders[..n][s] == orders[s];
      FillStatesConflict(orders[..n], s, a, i, j, trans, augmented, dollar);
      var k :| 0 <= k < |prev.conflicts| && prev.conflicts[k].state == s && prev.conflicts[k].symbol == a;
      assert f.conflicts[k] == prev.conflicts[k];
    }
  }

  /** The tables filled from any visiting order of the states' items:
      - every cell is as CellOk describes, and only the states have rows;
      - two distinct items shifting or reducing on one cell always leave a
        conflict report;
      - so does a SHIFT or REDUCE on `$` visited after the accept item,
        which never overwrites the ACCEPT;
      - and every report comes from such a clash: an item of a state wrote
        the cell and a later one shifted or reduced on it. */
  lemma FillStatesSound(orders: seq<seq<Item>>, states: seq<set<Item>>,
                        trans: Transitions, augmented: Production, dollar: Symbol)
    requires |orders| == |states|
    requires forall s :: 0 <= s < |states| ==> Elems(orders[s]) == states[s]
    ensures var f := FillStates(orders, trans, augmented, dollar);
      && (forall s, a :: 0 <= s < |states| ==> CellOk(f.action, s, a, states[s], trans, augmented, dollar))
      && (forall s :: s in f.action ==> 0 <= s < |states|)
      && (forall s, a, it1, it2 ::
            && 0 <= s < |states| && it1 in states[s] && it2 in states[s] && it1 != it2
            && Competes(it1, s, a, trans, augmented, dollar) && Competes(it2, s, a, trans, augmented, dollar)
            ==> ConflictAt(f.conflicts, s, a))
      && (forall s, i, j ::
            && 0 <= s < |states| && 0 <= i < j < |orders[s]|
            && IsAcceptItem(orders[s][i], augmented, dollar) && Competes(orders[s][j], s, dollar, trans, augmented, dollar)
            ==> ConflictAt(f.conflicts, s, dollar) && s in f.action && dollar in f.action[s] && f.action[s][dollar] == Accept)
      && (forall s, a :: ConflictAt(f.conflicts, s, a) ==>
            && 0 <= s < |states|
            && exists i, j :: 0 <= i < j < |orders[s]| && Writes(orders[s][i], s, a, trans, augmented, dollar)
                                                      && Competes(orders[s][j], s, a, trans, augmented, dollar))
  {
    var f := FillStates(orders, trans, augmented, dollar);
    forall s, a | 0 <= s < |states|
      ensures CellOk(f.action, s, a, states[s], trans, augmented, dollar)
    {
      FillStatesCell(orders, s, a, trans, augmented, dollar);
    }
    FillStatesRows(orders, trans, augmented, dollar);
    forall s, a, it1, it2 |
      && 0 <= s < |states| && it1 in states[s] && it2 in states[s] && it1 != it2
      && Competes(it1, s, a, trans, augmented, dollar) && Competes(it2, s, a, trans, augmented, dollar)
      ensures ConflictAt(f.conflicts, s, a)
    {
      assert it1 in Elems(orders[s]) && it2 in Elems(orders[s]);
      var i :| 0 <= i < |orders[s]| && orders[s][i] == it1;
      var j :| 0 <= j < |orders[s]| && orders[s][j] == it2;
      if i < j {
        FillStatesConflict(orders, s, a, i, j, trans, augmented, dollar);
      } else {
        FillStatesConflict(orders, s, a, j, i, trans, augmented, dollar);
      }
    }
    forall s, i, j |
      && 0 <= s < |states| && 0 <= i < j < |orders[s]|
      && IsAcceptItem(orders[s][i], augmented, dollar) && Competes(orders[s][j], s, dollar, trans, augmented, dollar)
      ensures ConflictAt(f.conflicts, s, dollar) && s in f.action && dollar in f.action[s] && f.action[s][dollar] == Accept
    {
      FillStatesConflict(orders, s, dollar, i, j, trans, augmented, dollar);
      FillStatesCell(orders, s, dollar, trans, augmented, dollar);
      assert orders[s][i] in states[s];
      assert Writes(orders[s][i], s, dollar, trans, augmented, dollar);
    }
    FillStatesConflictSource(orders, trans, augmented, dollar);
    forall s, a | ConflictAt(f.conflicts, s, a)
      ensures 0 <= s < |states| && Clash(orders[s], s, a, trans, augmented, dollar)
    {
      var k :| 0 <= k < |f.conflicts| && f.conflicts[k].state == s && f.conflicts[k].symbol == a;
    }
  }

  /** No two items of S reduce on a by different productions. */
  ghost predicate NoReduceReduce(S: set<Item>, a: Symbol, augmented: Production, dollar: Symbol)
  {
    forall it1, it2 :: it1 in S && it2 in S && ReducesOn(it1, a, augmented, dollar) && ReducesOn(it2, a, augmented, dollar)
      ==> it1.prod == it2.prod
  }

  /** Without reduce/reduce competition the ACTION table does not depend on
      the order the items of each state are visited in. */
  lemma FillDeterministic(orders1: seq<seq<Item>>, orders2: seq<seq<Item>>,
                          trans: Transitions, augmented: Production, dollar: Symbol)
    requires |orders1| == |orders2|
    requires forall s :: 0 <= s < |orders1| ==> Elems(orders1[s]) == Elems(orders2[s])
    requires forall s, a :: 0 <= s < |orders1| ==> NoReduceReduce(Elems(orders1[s]), a, augmented, dollar)
    ensures FillStates(orders1, trans, augmented, dollar).action == FillStates(orders2, trans, augmented, dollar).action
  {
    var a1: ActionTable := FillStates(orders1, trans, augmented, dollar).action;
    var a2: ActionTable := FillStates(orders2, trans, augmented, dollar).action;
    FillStatesRows(orders1, trans, augmented, dollar);
    FillStatesRows(orders2, trans, augmented, dollar);
    forall s | s in a1 ensures s in a2 {
      var it :| it in orders1[s] && OpensRow(it, s, trans);
      assert it in Elems(orders2[s]);
    }
    forall s | s in a2 ensures s in a1 {
      var it :| it in orders2[s] && OpensRow(it, s, trans);
      assert it in Elems(orders1[s]);
    }
    forall s | s in a1 ensures a1[s] == a2[s] {
      forall a ensures (a in a2[s] ==> a in a1[s]) && (a in a1[s] ==> a in a2[s] && a1[s][a] == a2[s][a]) {
        FillStatesCell(orders1, s, a, trans, augmented, dollar);
        FillStatesCell(orders2, s, a, trans, augmented, dollar);
        if a in a1[s] && a1[s][a].Reduce? && a2[s][a].Reduce? {
          assert NoReduceReduce(Elems(orders1[s]), a, augmented, dollar);
        }
      }
      assert a1[s].Keys == a2[s].Keys;
    }
    assert a1.Keys == a2.Keys;
  }

  // ------------------------------------------------------------------
  // GOTO
  // ------------------------------------------------------------------

  /** The GOTO table of states 0..n-1: the non-terminal part of each row
      of trans, with a (possibly empty) row for every state in trans. */
  function GotoOf(n: int, trans: Transitions): (g: Transitions)
    ensures forall s :: s in g <==> 0 <= s < n && s in trans
    ensures forall s, b :: s in g && b in g[s] <==> 0 <= s < n && s in trans && b in trans[s] && b.kind == NonTerminal
    ensures forall s, b :: s in g && b in g[s] ==> s in trans && b in trans[s] && g[s][b] == trans[s][b]
  {
    map s | s in trans && 0 <= s < n :: NonTerminalPart(trans[s])
  }

  function NonTerminalPart(row: map<Symbol, int>): map<Symbol, int>
  {
    map b | b in row && b.kind == NonTerminal :: row[b]
  }
}
