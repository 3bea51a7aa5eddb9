/**
 * The LR(1) closure/goto engine of LR1Automaton: FIRST of a symbol
 * sequence, the post-dot suffix of an item, CLOSURE and GOTO.
 *
 * CLOSURE, GOTO and FIRST-of-sequence each appear twice: once as the code
 * is written (ClosureAsWritten, GoToAsWritten, ComputeFirstOfSequence over
 * the scan FirstScan) and once as its documentation describes it (Closure,
 * GoTo, FirstOfSequence). The lemmas say where the two differ.
 */
module Automaton {
  import opened Grammar

  /** The FIRST map one closure() call shares among its FIRST-of-sequence
      computations. computeFirstOfSequence removes epsilon from the sets
      inside it, so it is state that the scan updates in place. */
  class FirstSets {
    var sets: map<Symbol, set<Symbol>>

    constructor (sets: map<Symbol, set<Symbol>>)
      ensures this.sets == sets
    {
      this.sets := sets;
    }
  }

  // ------------------------------------------------------------------
  // FIRST of a sequence, as documented
  // ------------------------------------------------------------------

  /** FIRST(x); a symbol the map does not know has an empty FIRST set. */
  function FirstOf(first: map<Symbol, set<Symbol>>, x: Symbol): set<Symbol>
  {
    if x in first then first[x] else {}
  }

  /** FIRST(X1..Xn): FIRST(Xi) minus epsilon for every Xi up to the first
      one whose FIRST lacks epsilon; epsilon itself when all are nullable. */
  function FirstOfSequence(first: map<Symbol, set<Symbol>>, s: seq<Symbol>, eps: Symbol): set<Symbol>
    decreases |s|
  {
    if s == [] then {eps}
    else
      (FirstOf(first, s[0]) - {eps})
      + (if eps in FirstOf(first, s[0]) then FirstOfSequence(first, s[1..], eps) else {})
  }

  /** Every one of the first n symbols of s can derive the empty string. */
  ghost predicate NullablePrefix(first: map<Symbol, set<Symbol>>, s: seq<Symbol>, eps: Symbol, n: nat)
    requires n <= |s|
  {
    forall j :: 0 <= j < n ==> eps in FirstOf(first, s[j])
  }

  /** Reference characterisation of FIRST(X1..Xn): b is in it exactly when
      b comes from some FIRST(Xi) with X1..X(i-1) nullable, and epsilon is in
      it exactly when the whole sequence is nullable. */
  lemma {:induction false} FirstOfSequenceMembers(first: map<Symbol, set<Symbol>>, s: seq<Symbol>, eps: Symbol, b: Symbol)
    ensures b in FirstOfSequence(first, s, eps) <==>
      (b == eps && NullablePrefix(first, s, eps, |s|)) ||
      (b != eps && exists i :: 0 <= i < |s| && b in FirstOf(first, s[i]) && NullablePrefix(first, s, eps, i))
  {
    if s == [] {
    } else {
      var x := s[0];
      var tail := s[1..];
      FirstOfSequenceMembers(first, tail, eps, b);
      var nullX := eps in FirstOf(first, x);
      // shifting the prefix by one symbol
      assert forall i :: 0 <= i < |tail| ==> tail[i] == s[i + 1];
      assert NullablePrefix(first, s, eps, |s|) <==> nullX && NullablePrefix(first, tail, eps, |tail|) by {
        if nullX && NullablePrefix(first, tail, eps, |tail|) {
          forall j | 0 <= j < |s| ensures eps in FirstOf(first, s[j]) {
            if j > 0 { assert s[j] == tail[j - 1]; }
          }
        }
      }
      if b != eps {
        if b in FirstOfSequence(first, s, eps) {
          if b in FirstOf(first, x) {
            assert NullablePrefix(first, s, eps, 0);
          } else {
            var i :| 0 <= i < |tail| && b in FirstOf(first, tail[i]) && NullablePrefix(first, tail, eps, i);
            assert s[i + 1] == tail[i];
            assert NullablePrefix(first, s, eps, i + 1) by {
              forall j | 0 <= j < i + 1 ensures eps in FirstOf(first, s[j]) {
                if j > 0 { assert s[j] == tail[j - 1]; }
              }
            }
          }
        }
        if exists i :: 0 <= i < |s| && b in FirstOf(first, s[i]) && NullablePrefix(first, s, eps, i) {
          var i :| 0 <= i < |s| && b in FirstOf(first, s[i]) && NullablePrefix(first, s, eps, i);
          if i > 0 {
            assert eps in FirstOf(first, s[0]);
            assert tail[i - 1] == s[i];
            assert NullablePrefix(first, tail, eps, i - 1) by {
              forall j | 0 <= j < i - 1 ensures eps in FirstOf(first, tail[j]) {
                assert tail[j] == s[j + 1];
              }
            }
          }
        }
      }
    }
  }

  /** Every symbol FIRST(X1..Xn) can hold is epsilon or a member of some
      FIRST set of the map: the lookaheads CLOSURE creates come from a
      finite pool. */
  function AllFirst(first: map<Symbol, set<Symbol>>): set<Symbol>
  {
    set x, b | x in first && b in first[x] :: b
  }

  lemma {:induction false} FirstOfSequenceBound(first: map<Symbol, set<Symbol>>, s: seq<Symbol>, eps: Symbol)
    ensures FirstOfSequence(first, s, eps) <= AllFirst(first) + {eps}
    decreases |s|
  {
    if s != [] {
      FirstOfSequenceBound(first, s[1..], eps);
      forall b | b in FirstOf(first, s[0]) ensures b in AllFirst(first) {
        assert s[0] in first;
      }
    }
  }

  // ------------------------------------------------------------------
  // FIRST of a sequence, as written: the scan mutates the FIRST map
  // ------------------------------------------------------------------

  /** computeFirstOfSequence as written, symbol by symbol: the result set
      and the FIRST map after the scan has removed epsilon from every set
      it looked at; None where a visited symbol has no FIRST entry (the
      Java code dereferences null there). */
  function FirstScan(first: map<Symbol, set<Symbol>>, s: seq<Symbol>, eps: Symbol)
    : Option<(set<Symbol>, map<Symbol, set<Symbol>>)>
    decreases |s|
  {
    if s == [] then Some(({eps}, first))
    else if s[0] !in first then None
    else
      var fx := first[s[0]];
      var first' := first[s[0] := fx - {eps}];
      if eps !in fx then Some((fx - {eps}, first'))
      else
        match FirstScan(first', s[1..], eps)
        case None => None
        case Some(rest) => Some(((fx - {eps}) + rest.0, rest.1))
  }

  /** The symbols whose FIRST sets the documented computation reads. */
  function Visited(first: map<Symbol, set<Symbol>>, s: seq<Symbol>, eps: Symbol): set<Symbol>
    decreases |s|
  {
    if s == [] then {}
    else {s[0]} + (if eps in FirstOf(first, s[0]) then Visited(first, s[1..], eps) else {})
  }

  /** The FIRST map with epsilon removed from the sets of the symbols in v. */
  function StripEpsilon(first: map<Symbol, set<Symbol>>, v: set<Symbol>, eps: Symbol): map<Symbol, set<Symbol>>
  {
    map x | x in first :: if x in v then first[x] - {eps} else first[x]
  }

  lemma {:induction false} VisitedWithin(first: map<Symbol, set<Symbol>>, s: seq<Symbol>, eps: Symbol)
    ensures Visited(first, s, eps) <= Elems(s)
    decreases |s|
  {
    if s != [] {
      VisitedWithin(first, s[1..], eps);
      assert Elems(s[1..]) <= Elems(s);
    }
  }

  /** FIRST(X1..Xn) and the visited symbols only depend on the FIRST sets of
      X1..Xn. */
  lemma {:induction false} FirstOfSequenceFrame(f: map<Symbol, set<Symbol>>, g: map<Symbol, set<Symbol>>, s: seq<Symbol>, eps: Symbol)
    requires forall i :: 0 <= i < |s| ==> FirstOf(f, s[i]) == FirstOf(g, s[i])
    ensures FirstOfSequence(f, s, eps) == FirstOfSequence(g, s, eps)
    ensures Visited(f, s, eps) == Visited(g, s, eps)
    decreases |s|
  {
    if s != [] {
      assert FirstOf(f, s[0]) == FirstOf(g, s[0]);
      FirstOfSequenceFrame(f, g, s[1..], eps);
    }
  }

  /** On a sequence without repeated symbols whose FIRST sets are all
      known, the scan returns the documented FIRST(X1..Xn) and leaves the
      map with epsilon removed from exactly the visited symbols' sets. */
  lemma {:induction false} FirstScanOnDistinct(first: map<Symbol, set<Symbol>>, s: seq<Symbol>, eps: Symbol)
    requires forall i :: 0 <= i < |s| ==> s[i] in first
    requires Distinct(s)
    ensures FirstScan(first, s, eps)
      == Some((FirstOfSequence(first, s, eps), StripEpsilon(first, Visited(first, s, eps), eps)))
    decreases |s|
  {
    if s == [] {
      assert StripEpsilon(first, {}, eps) == first;
    } else {
      var x := s[0];
      var fx := first[x];
      var first' := first[x := fx - {eps}];
      var tail := s[1..];
      if eps !in fx {
        assert fx - {eps} == fx;
        assert StripEpsilon(first, {x}, eps) == first';
        assert Visited(first, s, eps) == {x};
        assert FirstOfSequence(first, s, eps) == fx - {eps};
      } else {
        forall i | 0 <= i < |tail| ensures FirstOf(first', tail[i]) == FirstOf(first, tail[i]) {
          assert tail[i] == s[i + 1];
        }
        FirstOfSequenceFrame(first', first, tail, eps);
        FirstScanOnDistinct(first', tail, eps);
        var v := Visited(first, tail, eps);
        VisitedWithin(first, tail, eps);
        assert x !in Elems(tail) by {
          forall k | 0 <= k < |tail| ensures tail[k] != x {
            assert tail[k] == s[k + 1];
          }
        }
        assert StripEpsilon(first', v, eps) == StripEpsilon(first, {x} + v, eps);
      }
    }
  }

  /** The scan changes the FIRST map (epsilon leaves a nullable symbol's
      set), so a symbol that repeats in the sequence is no longer nullable
      the second time: FIRST(A A b) with A nullable comes out as FIRST(A)
      without epsilon, where the documented FIRST also holds b. */
  lemma RepeatedNullableSymbolCutsScan()
    ensures var eps := Symbol("epsilon", Terminal);
      var a := Symbol("A", NonTerminal);
      var x := Symbol("x", Terminal);
      var b := Symbol("b", Terminal);
      var first := map[a := {eps, x}, b := {b}];
      FirstScan(first, [a, a, b], eps) == Some(({x}, first[a := {x}]))
      && FirstOfSequence(first, [a, a, b], eps) == {x, b}
  {
    var eps := Symbol("epsilon", Terminal);
    var a := Symbol("A", NonTerminal);
    var x := Symbol("x", Terminal);
    var b := Symbol("b", Terminal);
    var first := map[a := {eps, x}, b := {b}];
    assert {eps, x} - {eps} == {x};
    var first' := first[a := {x}];
    assert [a, a, b][1..] == [a, b];
    assert {x} - {eps} == {x};
    assert {x} + {x} == {x};
    assert first'[a := {x}] == first';
    assert FirstScan(first', [a, b], eps) == Some(({x}, first'));
    assert [a, b][1..] == [b];
    assert FirstOfSequence(first, [b], eps) == {b};
    assert FirstOfSequence(first, [a, b], eps) == {x, b};
  }

  /** Because the scan mutates the shared map, computing FIRST of the same
      sequence twice gives two different answers. */
  lemma SecondScanDiffers()
    ensures var eps := Symbol("epsilon", Terminal);
      var a := Symbol("A", NonTerminal);
      var x := Symbol("x", Terminal);
      var b := Symbol("b", Terminal);
      var first := map[a := {eps, x}, b := {b}];
      var first' := first[a := {x}];
      FirstScan(first, [a, b], eps) == Some(({x, b}, first'))
      && FirstScan(first', [a, b], eps) == Some(({x}, first'))
  {
    var eps := Symbol("epsilon", Terminal);
    var a := Symbol("A", NonTerminal);
    var x := Symbol("x", Terminal);
    var b := Symbol("b", Terminal);
    var first := map[a := {eps, x}, b := {b}];
    var first' := first[a := {x}];
    assert {eps, x} - {eps} == {x};
    assert {b} - {eps} == {b};
    assert {x} - {eps} == {x};
    assert [a, b][1..] == [b];
    assert first'[b := {b}] == first';
    assert first'[a := {x}] == first';
    assert FirstScan(first', [b], eps) == Some(({b}, first'));
    assert FirstScan(first, [a, b], eps) == Some(({x} + {b}, first'));
    assert {x} + {b} == {x, b};
  }

  /** The scan never adds or drops keys of the FIRST map, and it fails only
      on a visited symbol without an entry. */
  lemma {:induction false} FirstScanKeys(first: map<Symbol, set<Symbol>>, s: seq<Symbol>, eps: Symbol)
    ensures FirstScan(first, s, eps).Some? ==> FirstScan(first, s, eps).value.1.Keys == first.Keys
    ensures (forall i :: 0 <= i < |s| ==> s[i] in first) ==> FirstScan(first, s, eps).Some?
    decreases |s|
  {
    if s != [] && s[0] in first {
      var first' := first[s[0] := first[s[0]] - {eps}];
      FirstScanKeys(first', s[1..], eps);
      assert first'.Keys == first.Keys;
      if forall i :: 0 <= i < |s| ==> s[i] in first {
        forall i | 0 <= i < |s[1..]| ensures s[1..][i] in first' {
          assert s[1..][i] == s[i + 1];
        }
      }
    }
  }

  function Prepend(res: set<Symbol>, o: Option<(set<Symbol>, map<Symbol, set<Symbol>>)>)
    : Option<(set<Symbol>, map<Symbol, set<Symbol>>)>
  {
    match o
    case None => None
    case Some(p) => Some((res + p.0, p.1))
  }

  lemma PrependTwice(r1: set<Symbol>, r2: set<Symbol>, o: Option<(set<Symbol>, map<Symbol, set<Symbol>>)>)
    ensures Prepend(r1, Prepend(r2, o)) == Prepend(r1 + r2, o)
    ensures Prepend({}, o) == o
  {
    match o {
      case None =>
      case Some(p) =>
        assert r1 + (r2 + p.0) == (r1 + r2) + p.0;
        assert {} + p.0 == p.0;
    }
  }

  /** computeFirstOfSequence: the loop over the sequence, removing epsilon
      from each visited FIRST set in the shared map. */
  method ComputeFirstOfSequence(s: seq<Symbol>, first: FirstSets, eps: Symbol) returns (r: Option<set<Symbol>>)
    modifies first
    ensures r.None? <==> FirstScan(old(first.sets), s, eps).None?
    ensures r.Some? ==> (r.value, first.sets) == FirstScan(old(first.sets), s, eps).value
    ensures r.Some? ==> first.sets.Keys == old(first.sets).Keys
    ensures (forall i :: 0 <= i < |s| ==> s[i] in old(first.sets)) ==> r.Some?
  {
    FirstScanKeys(first.sets, s, eps);
    if s == [] {
      return Some({eps});
    }
    ghost var first0 := first.sets;
    var res: set<Symbol> := {};
    var i := 0;
    PrependTwice({}, {}, FirstScan(first0, s, eps));
    while i < |s|
      invariant 0 <= i <= |s|
      invariant FirstScan(first0, s, eps) == Prepend(res, FirstScan(first.sets, s[i..], eps))
      invariant i == |s| ==> eps in res
    {
      var x := s[i];
      assert s[i..][0] == x && s[i..][1..] == s[i + 1..];
      if x !in first.sets {
        return None;
      }
      var fx := first.sets[x];
      var hasEpsilon := eps in fx;
      ghost var before := first.sets;
      first.sets := first.sets[x := fx - {eps}];
      ghost var resBefore := res;
      res := res + (fx - {eps});
      if !hasEpsilon {
        return Some(res);
      }
      assert FirstScan(before, s[i..], eps) == Prepend(fx - {eps}, FirstScan(first.sets, s[i + 1..], eps));
      PrependTwice(resBefore, fx - {eps}, FirstScan(first.sets, s[i + 1..], eps));
      if i + 1 == |s| {
        assert s[i + 1..] == [];
        assert res + {eps} + {eps} == res + {eps};
        res := res + {eps};
      }
      i := i + 1;
    }
    assert s[i..] == [];
    assert res + {eps} == res;
    return Some(res);
  }

  // ------------------------------------------------------------------
  // The suffix after the dot and the productions of a non-terminal
  // ------------------------------------------------------------------

  /** productionPostDot: right[dot..], empty when the dot is at or past the
      end. */
  method ProductionPostDot(it: Item) returns (r: seq<Symbol>)
    ensures |r| == if it.dot <= |it.prod.right| then |it.prod.right| - it.dot else 0
    ensures forall k :: 0 <= k < |r| ==> r[k] == it.prod.right[it.dot + k]
  {
    var right := it.prod.right;
    r := [];
    var i := it.dot;
    while i < |right|
      invariant it.dot <= i
      invariant i <= |right| || i == it.dot
      invariant |r| == i - it.dot
      invariant forall k :: 0 <= k < |r| ==> r[k] == right[it.dot + k]
    {
      r := r + [right[i]];
      i := i + 1;
    }
  }

  /** The productions of the grammar whose left side is b, in grammar order. */
  method ProductionsOf(prods: seq<Production>, b: Symbol) returns (ps: seq<Production>)
    ensures forall p :: p in ps <==> p in prods && p.left == b
  {
    ps := [];
    var j := 0;
    while j < |prods|
      invariant 0 <= j <= |prods|
      invariant forall p :: p in ps <==> p in prods[..j] && p.left == b
    {
      if prods[j].left == b {
        ps := ps + [prods[j]];
      }
      assert prods[..j + 1] == prods[..j] + [prods[j]];
      j := j + 1;
    }
  }

  /** Lists the elements of a set in some order (a Java collection built
      from a HashSet iterates it in hash order). */
  method Enumerate<T(==)>(s: set<T>) returns (q: seq<T>)
    ensures Elems(q) == s
    ensures Distinct(q)
  {
    q := [];
    var rest := s;
    while rest != {}
      invariant rest <= s
      invariant Elems(q) == s - rest
      invariant Distinct(q)
      decreases rest
    {
      var x :| x in rest;
      assert Elems(q + [x]) == Elems(q) + {x};
      q := q + [x];
      rest := rest - {x};
    }
  }

  // ------------------------------------------------------------------
  // CLOSURE as documented
  // ------------------------------------------------------------------

  /** [A -> alpha . B beta, a] generates [B -> . gamma, b] for every
      production B -> gamma and every terminal b other than epsilon in
      FIRST(beta a). */
  ghost predicate Generates(prods: seq<Production>, first: map<Symbol, set<Symbol>>, eps: Symbol, it: Item, g: Item)
  {
    && it.dot < |it.prod.right|
    && it.prod.right[it.dot].kind == NonTerminal
    && g.dot == 0
    && g.prod in prods
    && g.prod.left == it.prod.right[it.dot]
    && g.lookahead in FirstOfSequence(first, it.prod.right[it.dot + 1..] + [it.lookahead], eps)
    && g.lookahead.kind == Terminal
    && g.lookahead != eps
  }

  ghost predicate Closed(prods: seq<Production>, first: map<Symbol, set<Symbol>>, eps: Symbol, s: set<Item>)
  {
    forall it, g :: it in s && Generates(prods, first, eps, it, g) ==> g in s
  }

  /** r is the closure of items: the least closed superset, whose added
      items all have the dot at 0 and a terminal lookahead. */
  ghost predicate IsClosureOf(prods: seq<Production>, first: map<Symbol, set<Symbol>>, eps: Symbol, items: set<Item>, r: set<Item>)
  {
    && items <= r
    && Closed(prods, first, eps, r)
    && (forall g :: g in r && g !in items ==>
          g.dot == 0 && g.prod in prods && g.lookahead.kind == Terminal && g.lookahead != eps)
    && (forall x :: items <= x && Closed(prods, first, eps, x) ==> r <= x)
  }

  /** The closure of a closed set is the set itself: CLOSURE is idempotent. */
  lemma ClosureOfClosed(prods: seq<Production>, first: map<Symbol, set<Symbol>>, eps: Symbol, items: set<Item>, r: set<Item>)
    requires Closed(prods, first, eps, items)
    requires IsClosureOf(prods, first, eps, items, r)
    ensures r == items
  {
  }

  /** The closure of a set is unique. */
  lemma ClosureUnique(prods: seq<Production>, first: map<Symbol, set<Symbol>>, eps: Symbol, items: set<Item>, r1: set<Item>, r2: set<Item>)
    requires IsClosureOf(prods, first, eps, items, r1)
    requires IsClosureOf(prods, first, eps, items, r2)
    ensures r1 == r2
  {
  }

  /** The item universe CLOSURE of items stays within: finite. */
  function ClosureBound(prods: seq<Production>, first: map<Symbol, set<Symbol>>, items: set<Item>): set<Item>
  {
    items + set p, b | p in prods && b in AllFirst(first) :: Item(p, 0, b)
  }

  /** The items [p -> . gamma, b] for the terminals b other than epsilon
      among the lookaheads. */
  function LookaheadItems(p: Production, lookaheads: set<Symbol>, eps: Symbol): set<Item>
  {
    set b | b in lookaheads && b.kind == Terminal && b != eps :: Item(p, 0, b)
  }

  /** The innermost loop of CLOSURE: for every terminal b among the
      lookaheads, add [p -> . gamma, b] to the result and to the worklist
      when it is new. */
  method AddLookaheadItems(p: Production, lookaheads: set<Symbol>, eps: Symbol, closure: set<Item>, worklist: seq<Item>)
    returns (closure': set<Item>, worklist': seq<Item>)
    ensures closure' == closure + LookaheadItems(p, lookaheads, eps)
    ensures Elems(worklist') == Elems(worklist) + (closure' - closure)
    ensures closure' == closure ==> worklist' == worklist
  {
    closure', worklist' := closure, worklist;
    var remaining := lookaheads;
    while remaining != {}
      invariant remaining <= lookaheads
      invariant closure' == closure + LookaheadItems(p, lookaheads - remaining, eps)
      invariant Elems(worklist') == Elems(worklist) + (closure' - closure)
      invariant closure' == closure ==> worklist' == worklist
      decreases remaining
    {
      var symbol :| symbol in remaining;
      remaining := remaining - {symbol};
      if symbol.kind == Terminal && symbol != eps {
        var newItem := Item(p, 0, symbol);
        if newItem !in closure' {
          assert Elems(worklist' + [newItem]) == Elems(worklist') + {newItem};
          closure' := closure' + {newItem};
          worklist' := worklist' + [newItem];
        }
      }
      assert LookaheadItems(p, lookaheads - remaining, eps)
        == LookaheadItems(p, lookaheads - (remaining + {symbol}), eps)
           + (if symbol.kind == Terminal && symbol != eps then {Item(p, 0, symbol)} else {});
    }
    assert lookaheads - remaining == lookaheads;
  }

  /** Every item CLOSURE generates lies in the finite universe. */
  lemma GeneratedInBound(prods: seq<Production>, first: map<Symbol, set<Symbol>>, eps: Symbol, items: set<Item>, it: Item, g: Item)
    requires Generates(prods, first, eps, it, g)
    ensures g in ClosureBound(prods, first, items)
  {
    FirstOfSequenceBound(first, it.prod.right[it.dot + 1..] + [it.lookahead], eps);
  }

  /** The body of the worklist loop for one dequeued item: add (and enqueue)
      every new item it generates. */
  method ProcessItem(prods: seq<Production>, first: map<Symbol, set<Symbol>>, eps: Symbol, item: Item,
                     closure: set<Item>, worklist: seq<Item>)
    returns (closure': set<Item>, worklist': seq<Item>)
    ensures closure <= closure'
    ensures forall g :: g in closure' && g !in closure ==> Generates(prods, first, eps, item, g)
    ensures forall g :: Generates(prods, first, eps, item, g) ==> g in closure'
    ensures Elems(worklist') == Elems(worklist) + (closure' - closure)
    ensures closure' == closure ==> worklist' == worklist
  {
    closure', worklist' := closure, worklist;
    var b := SymbolAfterDot(item);
    if b.Some? && b.value.kind == NonTerminal {
      var productionsB := ProductionsOf(prods, b.value);
      var post := ProductionPostDot(item);
      assert post[1..] == item.prod.right[item.dot + 1..];
      var seqBetaA := post[1..] + [item.lookahead];
      var lookaheads := FirstOfSequence(first, seqBetaA, eps);
      var j := 0;
      while j < |productionsB|
        invariant 0 <= j <= |productionsB|
        invariant closure <= closure'
        invariant forall g :: g in closure' && g !in closure ==> Generates(prods, first, eps, item, g)
        invariant forall g :: Generates(prods, first, eps, item, g) && g.prod in productionsB[..j] ==> g in closure'
        invariant Elems(worklist') == Elems(worklist) + (closure' - closure)
        invariant closure' == closure ==> worklist' == worklist
      {
        var production := productionsB[j];
        closure', worklist' := AddLookaheadItems(production, lookaheads, eps, closure', worklist');
        assert productionsB[..j + 1] == productionsB[..j] + [production];
        j := j + 1;
      }
      assert productionsB[..j] == productionsB;
    }
  }

  /** The worklist loop's invariant: closure lies between items and the
      bound, holds the worklist, is closed except for the worklist's items,
      adds only items generated from productions, and lies inside every
      closed superset of items. */
  ghost predicate ClosureLoop(prods: seq<Production>, first: map<Symbol, set<Symbol>>, eps: Symbol,
                              items: set<Item>, bound: set<Item>, closure: set<Item>, worklist: seq<Item>)
  {
    && items <= closure <= bound
    && Elems(worklist) <= closure
    && (forall it, g :: it in closure && it !in worklist && Generates(prods, first, eps, it, g) ==> g in closure)
    && (forall g :: g in closure && g !in items ==>
          g.dot == 0 && g.prod in prods && g.lookahead.kind == Terminal && g.lookahead != eps)
    && (forall x :: items <= x && Closed(prods, first, eps, x) ==> closure <= x)
  }

  /** Processing the head of the worklist keeps the invariant. */
  lemma ClosureLoopStep(prods: seq<Production>, first: map<Symbol, set<Symbol>>, eps: Symbol,
                        items: set<Item>, closure0: set<Item>, worklist0: seq<Item>,
                        closure: set<Item>, worklist: seq<Item>)
    requires worklist0 != []
    requires ClosureLoop(prods, first, eps, items, ClosureBound(prods, first, items), closure0, worklist0)
    requires closure0 <= closure
    requires forall g :: g in closure && g !in closure0 ==> Generates(prods, first, eps, worklist0[0], g)
    requires forall g :: Generates(prods, first, eps, worklist0[0], g) ==> g in closure
    requires Elems(worklist) == Elems(worklist0[1..]) + (closure - closure0)
    ensures ClosureLoop(prods, first, eps, items, ClosureBound(prods, first, items), closure, worklist)
  {
    var item := worklist0[0];
    assert Elems(worklist0) == {item} + Elems(worklist0[1..]);
    forall g | g in closure && g !in closure0
      ensures g in ClosureBound(prods, first, items)
      ensures g.dot == 0 && g.prod in prods && g.lookahead.kind == Terminal && g.lookahead != eps
      ensures forall x :: items <= x && Closed(prods, first, eps, x) ==> g in x
    {
      GeneratedInBound(prods, first, eps, items, item, g);
    }
    forall it, g | it in closure && it !in worklist && Generates(prods, first, eps, it, g)
      ensures g in closure
    {
      if it != item {
        assert it in closure0 && it !in worklist0;
      }
    }
  }

  /** The worklist CLOSURE documented before closure(): an item is added to
      the result and enqueued only when it is new, which bounds the loop by
      the finite item universe. */
  method Closure(prods: seq<Production>, items: set<Item>, first: map<Symbol, set<Symbol>>, eps: Symbol)
    returns (r: set<Item>)
    ensures IsClosureOf(prods, first, eps, items, r)
  {
    ghost var bound := ClosureBound(prods, first, items);
    var closure := items;
    var worklist := Enumerate(items);
    while worklist != []
      invariant ClosureLoop(prods, first, eps, items, bound, closure, worklist)
      decreases bound - closure, |worklist|
    {
      var item := worklist[0];
      ghost var closure0, worklist0 := closure, worklist;
      worklist := worklist[1..];
      closure, worklist := ProcessItem(prods, first, eps, item, closure, worklist);
      ClosureLoopStep(prods, first, eps, items, closure0, worklist0, closure, worklist);
      if closure != closure0 {
        var g :| g in closure && g !in closure0;
        assert g in (bound - closure0) - (bound - closure);
        assert bound - closure < bound - closure0;
      }
    }
    r := closure;
  }

  // ------------------------------------------------------------------
  // CLOSURE as written: line 114 re-adds the dequeued item
  // ------------------------------------------------------------------

  /** The FIRST sets the as-written closure looks up for its items are all
      known (the FIRST(beta a) scan then never fails). */
  ghost predicate ScanCovered(first: map<Symbol, set<Symbol>>, items: set<Item>)
  {
    forall it :: it in items ==>
      it.lookahead in first && forall k :: it.dot < k < |it.prod.right| ==> it.prod.right[k] in first
  }

  /** closure() as written: the worklist loop adds and enqueues the dequeued
      `item` instead of `newItem`, so nothing is ever added and the result
      is the input. None stands for the null dereference of a FIRST lookup
      on a symbol the map does not know. Each call works on its own copy of
      the grammar's FIRST sets (the analyzer computes them afresh), so the
      epsilon removals of line 167 end with the call. */
  method ClosureAsWritten(prods: seq<Production>, items: set<Item>, firstSets: map<Symbol, set<Symbol>>, eps: Symbol)
    returns (r: Option<set<Item>>)
    ensures r.Some? ==> r.value == items
    ensures ScanCovered(firstSets, items) ==> r.Some?
  {
    var first := new FirstSets(firstSets);
    var closure := items;
    var worklist := Enumerate(items);
    while worklist != []
      invariant closure == items
      invariant forall q :: q in worklist ==> q in items
      invariant first.sets.Keys == firstSets.Keys
      decreases |worklist|
    {
      var item := worklist[0];
      worklist := worklist[1..];
      var b := SymbolAfterDot(item);
      if b.Some? && b.value.kind == NonTerminal {
        var productionsB := ProductionsOf(prods, b.value);
        ghost var worklist0 := worklist;
        var j := 0;
        while j < |productionsB|
          invariant closure == items
          invariant worklist == worklist0
          invariant first.sets.Keys == firstSets.Keys
        {
          var production := productionsB[j];
          var post := ProductionPostDot(item);
          var seqBetaA := post[1..] + [item.lookahead];
          var newLookahead := ComputeFirstOfSequence(seqBetaA, first, eps);
          if newLookahead.None? {
            assert !ScanCovered(firstSets, items) by {
              if ScanCovered(firstSets, items) {
                forall k | 0 <= k < |seqBetaA| ensures seqBetaA[k] in firstSets {
                  if k < |post| - 1 {
                    assert seqBetaA[k] == item.prod.right[item.dot + 1 + k];
                  }
                }
              }
            }
            return None;
          }
          var remaining := newLookahead.value;
          while remaining != {}
            invariant closure == items
            invariant worklist == worklist0
            decreases remaining
          {
            var symbol :| symbol in remaining;
            remaining := remaining - {symbol};
            if symbol.kind == Terminal {
              var newItem := Item(production, 0, symbol);
              // the set add of the dequeued item reports "already present"
              var added := item !in closure;
              closure := closure + {item};
              worklist := worklist + (if added then [item] else []);
            }
          }
          j := j + 1;
        }
      }
    }
    r := Some(closure);
  }

  /** A one-production grammar whose start item is not closed: the
      identity that ClosureAsWritten returns misses [S -> . a, $]. */
  lemma ClosureAsWrittenMissesItems()
    ensures var eps := Symbol("epsilon", Terminal);
      var dollar := Symbol("$", Terminal);
      var s := Symbol("S", NonTerminal);
      var a := Symbol("a", Terminal);
      var start := Production(Symbol("S'", NonTerminal), [s]);
      var prods := [Production(s, [a])];
      var first := map[s := {a}, a := {a}, dollar := {dollar}];
      var items := {Item(start, 0, dollar)};
      ScanCovered(first, items)
      && !Closed(prods, first, eps, items)
      && Generates(prods, first, eps, Item(start, 0, dollar), Item(Production(s, [a]), 0, dollar))
  {
    var eps := Symbol("epsilon", Terminal);
    var dollar := Symbol("$", Terminal);
    var s := Symbol("S", NonTerminal);
    var a := Symbol("a", Terminal);
    var start := Production(Symbol("S'", NonTerminal), [s]);
    var prods := [Production(s, [a])];
    var first := map[s := {a}, a := {a}, dollar := {dollar}];
    var it := Item(start, 0, dollar);
    var g := Item(Production(s, [a]), 0, dollar);
    assert start.right[1..] + [dollar] == [dollar];
    assert [dollar][1..] == [];
    assert FirstOfSequence(first, [dollar], eps) == {dollar};
    assert Generates(prods, first, eps, it, g);
  }

  // ------------------------------------------------------------------
  // GOTO
  // ------------------------------------------------------------------

  /** The items of state with the dot moved over x. */
  function Advance(state: set<Item>, x: Symbol): set<Item>
  {
    set it | it in state && SymbolAfterDot(it) == Some(x) :: Item(it.prod, it.dot + 1, it.lookahead)
  }

  /** Each moved item keeps its production and lookahead, has the dot one
      further, and comes from an item whose post-dot symbol is x. */
  lemma AdvanceMembers(state: set<Item>, x: Symbol, m: Item)
    ensures m in Advance(state, x) <==>
      exists it :: it in state && SymbolAfterDot(it) == Some(x)
                   && m.prod == it.prod && m.lookahead == it.lookahead && m.dot == it.dot + 1
    ensures m in Advance(state, x) ==> 0 < m.dot <= |m.prod.right| && m.prod.right[m.dot - 1] == x
  {
    if m in Advance(state, x) {
      var it :| it in state && SymbolAfterDot(it) == Some(x) && m == Item(it.prod, it.dot + 1, it.lookahead);
    }
  }

  /** The moving loop of goTo, skipping completed items. */
  method MoveDot(state: set<Item>, x: Symbol) returns (moved: set<Item>)
    ensures moved == Advance(state, x)
  {
    moved := {};
    var rest := state;
    while rest != {}
      invariant rest <= state
      invariant moved == Advance(state - rest, x)
      decreases rest
    {
      var item :| item in rest;
      rest := rest - {item};
      if SymbolAfterDot(item) == Some(x) {
        moved := moved + {Item(item.prod, item.dot + 1, item.lookahead)};
      }
      assert state - rest == (state - (rest + {item})) + {item};
    }
    assert state - rest == state;
  }

  /** GOTO(state, x) as documented: the closure of the moved items; empty
      when no item has x after its dot. */
  method GoTo(prods: seq<Production>, state: set<Item>, x: Symbol, first: map<Symbol, set<Symbol>>, eps: Symbol)
    returns (r: set<Item>)
    ensures IsClosureOf(prods, first, eps, Advance(state, x), r)
    ensures (forall it :: it in state ==> SymbolAfterDot(it) != Some(x)) ==> r == {}
  {
    var moved := MoveDot(state, x);
    r := Closure(prods, moved, first, eps);
    if forall it :: it in state ==> SymbolAfterDot(it) != Some(x) {
      assert moved == {};
      assert Closed(prods, first, eps, {});
    }
  }

  /** goTo() as written: it takes the first post-dot symbol of every item,
      which fails (None) on an item whose dot is at the end; otherwise it
      returns the moved items unchanged, since its closure is the
      identity. */
  method GoToAsWritten(prods: seq<Production>, state: set<Item>, x: Symbol, firstSets: map<Symbol, set<Symbol>>, eps: Symbol)
    returns (r: Option<set<Item>>)
    ensures (exists it :: it in state && IsCompleted(it)) ==> r.None?
    ensures r.Some? ==> r.value == Advance(state, x)
    ensures (forall it :: it in state ==> !IsCompleted(it)) && ScanCovered(firstSets, Advance(state, x)) ==> r.Some?
  {
    var moved: set<Item> := {};
    var rest := state;
    while rest != {}
      invariant rest <= state
      invariant moved == Advance(state - rest, x)
      invariant forall it :: it in state - rest ==> !IsCompleted(it)
      decreases rest
    {
      var item :| item in rest;
      rest := rest - {item};
      var postDot := ProductionPostDot(item);
      if postDot == [] {
        return None;
      }
      var symbol := postDot[0];
      if symbol == x {
        moved := moved + {Item(item.prod, item.dot + 1, item.lookahead)};
      }
      assert state - rest == (state - (rest + {item})) + {item};
    }
    assert state - rest == state;
    r := ClosureAsWritten(prods, moved, firstSets, eps);
  }

  /** A state with a completed item and an item that moves over a: the
      documented GOTO on a is non-empty, GoToAsWritten fails on it. */
  lemma GoToAsWrittenFailsOnCompletedItem()
    ensures var dollar := Symbol("$", Terminal);
      var a := Symbol("a", Terminal);
      var p := Production(Symbol("S", NonTerminal), [a]);
      var state := {Item(p, 0, dollar), Item(p, 1, dollar)};
      (exists it :: it in state && IsCompleted(it)) && Advance(state, a) == {Item(p, 1, dollar)}
  {
    var dollar := Symbol("$", Terminal);
    var a := Symbol("a", Terminal);
    var p := Production(Symbol("S", NonTerminal), [a]);
    var state := {Item(p, 0, dollar), Item(p, 1, dollar)};
    assert IsCompleted(Item(p, 1, dollar));
    assert Item(p, 1, dollar) in Advance(state, a);
  }
}
