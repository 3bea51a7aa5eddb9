/**
 * LALR1Parser.parse(): the table-driven shift/reduce loop over a token
 * list with `$` appended.
 *
 * The parser looks an ACTION entry up by comparing each row key's name
 * with the token's type, and never clears the action variable between
 * iterations: when no key matches, the previous iteration's action runs
 * again. Run models that; RunFixed is the loop with the action reset
 * every iteration and every exception turned into a rejection.
 *
 * The loop need not terminate, so both runs take a step budget (fuel).
 */
module Parser {
  import opened Grammar
  import opened ActionGoto

  /** What parse() reads from the table through its getters: the ACTION
      and GOTO maps and the initial state. */
  datatype ParseTable = ParseTable(action: ActionTable, gotoTable: map<int, map<Symbol, int>>, initialState: int)

  /** A lexer token: its type (matched against symbol names) and text. */
  datatype Token = Token(kind: string, text: string)

  /** The state stack (top last), the input position and the action
      variable carried from the previous iteration. */
  datatype Config = Config(stack: seq<int>, ip: nat, action: Option<Action>)

  /** Where the Java code throws instead of returning. */
  datatype Fault =
    | StackUnderflow   // EmptyStackException from pop() or peek()
    | InputOverrun     // IndexOutOfBoundsException from tokenList.get(ip)
    | NoActionRow      // NullPointerException on a missing ACTION row

  datatype StepResult = Continue(next: Config) | Halt(accepted: bool) | Crash(fault: Fault)

  datatype Outcome = Accepted | Rejected | Crashed(fault: Fault) | OutOfFuel

  const EndToken: Token := Token("$", "$")

  function Top(stack: seq<int>): int
    requires stack != []
  {
    stack[|stack| - 1]
  }

  /** The input with the end token appended. */
  function Input(tokens: seq<Token>): (input: seq<Token>)
    ensures |input| == |tokens| + 1 && input[..|tokens|] == tokens && input[|tokens|] == EndToken
  {
    tokens + [EndToken]
  }

  function Start(table: ParseTable): Config
  {
    Config([table.initialState], 0, None)
  }

  /** The number of states a reduce pops: the length of the right-hand
      side, except 0 for the right-hand side consisting of `epsilon`
      alone. */
  function PopCount(p: Production): (n: nat)
    ensures n <= |p.right|
    ensures n == 0 <==> p.right == [] || (|p.right| == 1 && p.right[0].name == "epsilon")
  {
    if |p.right| == 1 && p.right[0].name == "epsilon" then 0 else |p.right|
  }

  /** A key of row whose name is the token type, if there is one. */
  ghost function Lookup(row: map<Symbol, Action>, name: string): (r: Option<Symbol>)
    ensures r.Some? ==> r.value in row && r.value.name == name
    ensures r.None? <==> forall k :: k in row ==> k.name != name
  {
    if exists k :: k in row && k.name == name then
      var k :| k in row && k.name == name; Some(k)
    else
      None
  }

  /** No ACTION row has two keys with the same name. */
  ghost predicate NamesUnique(action: ActionTable)
  {
    forall s, k1, k2 :: s in action && k1 in action[s] && k2 in action[s] && k1.name == k2.name ==> k1 == k2
  }

  /** The scan over the row's keys, in hash order, stopping at the first
      whose name is the token type. */
  method FindSymbol(row: map<Symbol, Action>, name: string) returns (found: Option<Symbol>)
    ensures found.Some? ==> found.value in row && found.value.name == name
    ensures found.None? <==> forall k :: k in row ==> k.name != name
  {
    var keys := row.Keys;
    while keys != {}
      invariant keys <= row.Keys
      invariant forall k :: k in row && k !in keys ==> k.name != name
      decreases keys
    {
      var s := Pick(keys);
      if s.name == name {
        return Some(s);
      }
      keys := keys - {s};
    }
    return None;
  }

  /** One iteration of the loop as written. */
  ghost function Step(table: ParseTable, input: seq<Token>, c: Config): StepResult
  {
    if c.stack == [] then Crash(StackUnderflow)
    else if c.ip >= |input| then Crash(InputOverrun)
    else
      var state := Top(c.stack);
      if state !in table.action then Crash(NoActionRow)
      else
        var row := table.action[state];
        var found := Lookup(row, input[c.ip].kind);
        var act: Option<Action> := if found.Some? then Some(row[found.value]) else c.action;
        match act
        case None => Halt(false)
        case Some(Shift(t)) => Continue(Config(c.stack + [t], c.ip + 1, act))
        case Some(Reduce(p)) => ReduceStep(table, c.stack, p, c.ip)
        case Some(Accept) => Halt(true)
  }

  /** What one iteration does: a SHIFT pushes its target and consumes the
      token; a REDUCE pops the right-hand side's states, keeps at least one
      and pushes one; ACCEPT stops, and comes from the current row unless
      the carried action was itself ACCEPT. */
  lemma StepRules(table: ParseTable, input: seq<Token>, c: Config)
    ensures var r := Step(table, input, c);
      r.Continue? ==> r.next.stack != [] && r.next.action.Some? && !r.next.action.value.Accept?
    ensures var r := Step(table, input, c);
      r.Continue? && r.next.action.value.Shift? ==>
        r.next.ip == c.ip + 1 && r.next.stack == c.stack + [r.next.action.value.target]
    ensures var r := Step(table, input, c);
      r.Continue? && r.next.action.value.Reduce? ==>
        var n := PopCount(r.next.action.value.prod);
        && r.next.ip == c.ip && n < |c.stack|
        && r.next.stack[..|r.next.stack| - 1] == c.stack[..|c.stack| - n]
    ensures Step(table, input, c) == Halt(true) && c.action != Some(Accept) ==>
      && c.stack != [] && c.ip < |input| && Top(c.stack) in table.action
      && exists k :: k in table.action[Top(c.stack)] && k.name == input[c.ip].kind
                     && table.action[Top(c.stack)][k] == Accept
  {
  }

  /** The REDUCE branch: pop PopCount(p) states, then push the GOTO entry
      of the uncovered state on p's left-hand side. */
  function ReduceStep(table: ParseTable, stack: seq<int>, p: Production, ip: nat): StepResult
  {
    var n := PopCount(p);
    if n > |stack| then Crash(StackUnderflow)
    else
      var rest := stack[..|stack| - n];
      if rest == [] then Halt(false)
      else if Top(rest) !in table.gotoTable || p.left !in table.gotoTable[Top(rest)] then Halt(false)
      else Continue(Config(rest + [table.gotoTable[Top(rest)][p.left]], ip, Some(Reduce(p))))
  }

  /** Up to fuel iterations of the loop as written. */
  ghost function Run(table: ParseTable, input: seq<Token>, c: Config, fuel: nat): Outcome
    decreases fuel
  {
    if fuel == 0 then OutOfFuel
    else
      var r := Step(table, input, c);
      if r.Continue? then Run(table, input, r.next, fuel - 1) else Finish(r)
  }

  /** What parse() returns, or the exception it throws, when it stops. */
  function Finish(r: StepResult): Outcome
    requires !r.Continue?
  {
    if r.Halt? then (if r.accepted then Accepted else Rejected) else Crashed(r.fault)
  }

  /** parse(tokens), with at most fuel iterations. Where no row has two
      keys of the same name the result is the one Run gives. */
  method Parse(table: ParseTable, tokens: seq<Token>, fuel: nat) returns (outcome: Outcome)
    ensures NamesUnique(table.action) ==> outcome == Run(table, Input(tokens), Start(table), fuel)
  {
    var stack := [table.initialState];
    var input := Input(tokens);
    var ip: nat := 0;
    var action: Option<Action> := None;
    var remaining := fuel;
    ghost var unique := NamesUnique(table.action);
    ghost var goal := Run(table, Input(tokens), Start(table), fuel);
    while remaining > 0
      invariant unique ==> Run(table, input, Config(stack, ip, action), remaining) == goal
      decreases remaining
    {
      var r := Iterate(table, input, stack, ip, action);
      RunUnfold(table, input, Config(stack, ip, action), remaining, r, unique);
      if !r.Continue? {
        return Finish(r);
      }
      stack, ip, action := r.next.stack, r.next.ip, r.next.action;
      remaining := remaining - 1;
    }
    outcome := OutOfFuel;
  }

  /** Run takes one step, then stops or goes on with the rest of the fuel. */
  lemma RunUnfold(table: ParseTable, input: seq<Token>, c: Config, fuel: nat, r: StepResult, unique: bool)
    requires fuel > 0
    requires unique ==> r == Step(table, input, c)
    ensures unique ==>
      Run(table, input, c, fuel) == if r.Continue? then Run(table, input, r.next, fuel - 1) else Finish(r)
  {
  }

  /** One pass of the loop body of parse(). */
  method Iterate(table: ParseTable, input: seq<Token>, stack: seq<int>, ip: nat, action: Option<Action>)
    returns (r: StepResult)
    ensures NamesUnique(table.action) ==> r == Step(table, input, Config(stack, ip, action))
  {
    if stack == [] {
      return Crash(StackUnderflow);
    }
    var idState := stack[|stack| - 1];
    if ip >= |input| {
      return Crash(InputOverrun);
    }
    var a := input[ip];
    if idState !in table.action {
      return Crash(NoActionRow);
    }
    var row := table.action[idState];
    var lookupSymbol := FindSymbol(row, a.kind);
    var act := action;
    if lookupSymbol.Some? {
      act := Some(row[lookupSymbol.value]);
    }
    if NamesUnique(table.action) {
      LookupUnique(table.action, idState, a.kind, lookupSymbol);
    }
    if act.None? {
      return Halt(false);
    }
    match act.value {
      case Shift(t) =>
        return Continue(Config(stack + [t], ip + 1, act));
      case Reduce(p) =>
        r := PopAndGoto(table, stack, p, ip);
      case Accept =>
        return Halt(true);
    }
  }

  /** The REDUCE branch of parse(): pop one state per right-hand-side
      symbol, then push the GOTO target. */
  method PopAndGoto(table: ParseTable, stack: seq<int>, p: Production, ip: nat) returns (r: StepResult)
    ensures r == ReduceStep(table, stack, p, ip)
  {
    var sizeB := PopCount(p);
    var st := stack;
    var i := 0;
    while i < sizeB
      invariant 0 <= i <= sizeB && i <= |stack|
      invariant st == stack[..|stack| - i]
    {
      if st == [] {
        return Crash(StackUnderflow);
      }
      st := st[..|st| - 1];
      i := i + 1;
    }
    if st == [] {
      return Halt(false);
    }
    var newS := st[|st| - 1];
    if newS !in table.gotoTable || p.left !in table.gotoTable[newS] {
      return Halt(false);
    }
    return Continue(Config(st + [table.gotoTable[newS][p.left]], ip, Some(Reduce(p))));
  }

  /** With unique names per row, the scan finds what Lookup names. */
  lemma LookupUnique(action: ActionTable, s: int, name: string, found: Option<Symbol>)
    requires NamesUnique(action) && s in action
    requires found.Some? ==> found.value in action[s] && found.value.name == name
    requires found.None? <==> forall k :: k in action[s] ==> k.name != name
    ensures found == Lookup(action[s], name)
  {
  }

  // ------------------------------------------------------------------
  // The intended loop
  // ------------------------------------------------------------------

  /** One iteration with the action looked up afresh and every Java
      exception turned into a rejection. */
  ghost function StepFixed(table: ParseTable, input: seq<Token>, c: Config): StepResult
  {
    if c.stack == [] then Halt(false)
    else if c.ip >= |input| then Halt(false)
    else
      var state := Top(c.stack);
      if state !in table.action then Halt(false)
      else
        var row := table.action[state];
        var found := Lookup(row, input[c.ip].kind);
        var act: Option<Action> := if found.Some? then Some(row[found.value]) else None;
        match act
        case None => Halt(false)
        case Some(Shift(t)) => Continue(Config(c.stack + [t], c.ip + 1, act))
        case Some(Reduce(p)) => ReduceFixed(table, c.stack, p, c.ip)
        case Some(Accept) => Halt(true)
  }

  /** The intended REDUCE branch: a reduce that would pop every state, or
      a missing GOTO entry, is a syntax error. */
  function ReduceFixed(table: ParseTable, stack: seq<int>, p: Production, ip: nat): StepResult
  {
    var n := PopCount(p);
    if n >= |stack| then Halt(false)
    else
      var rest := stack[..|stack| - n];
      if Top(rest) !in table.gotoTable || p.left !in table.gotoTable[Top(rest)] then Halt(false)
      else Continue(Config(rest + [table.gotoTable[Top(rest)][p.left]], ip, Some(Reduce(p))))
  }

  /** The intended step never throws, and it goes on or accepts only on an
      entry of the current row for the token, which it then carries. */
  lemma StepFixedRules(table: ParseTable, input: seq<Token>, c: Config)
    ensures var r := StepFixed(table, input, c);
      && !r.Crash?
      && (r.Continue? || r == Halt(true) ==>
            && c.stack != [] && c.ip < |input| && Top(c.stack) in table.action
            && exists k :: k in table.action[Top(c.stack)] && k.name == input[c.ip].kind
                           && (r.Continue? ==> r.next.action == Some(table.action[Top(c.stack)][k])))
  {
  }

  ghost function RunFixed(table: ParseTable, input: seq<Token>, c: Config, fuel: nat): Outcome
    decreases fuel
  {
    if fuel == 0 then OutOfFuel
    else
      var r := StepFixed(table, input, c);
      if r.Continue? then RunFixed(table, input, r.next, fuel - 1) else Finish(r)
  }

  /** The intended loop accepts or rejects; it never throws. */
  lemma {:induction false} RunFixedNeverCrashes(table: ParseTable, input: seq<Token>, c: Config, fuel: nat)
    ensures !RunFixed(table, input, c, fuel).Crashed?
    decreases fuel
  {
    if fuel > 0 {
      var r := StepFixed(table, input, c);
      StepFixedRules(table, input, c);
      if r.Continue? {
        RunFixedNeverCrashes(table, input, r.next, fuel - 1);
      }
    }
  }

  /** RunFixed takes one step, then stops or goes on with the rest of the
      fuel. */
  lemma RunFixedUnfold(table: ParseTable, input: seq<Token>, c: Config, fuel: nat, r: StepResult)
    requires fuel > 0
    requires r == StepFixed(table, input, c)
    ensures !r.Continue? ==> RunFixed(table, input, c, fuel) == Finish(r)
    ensures r.Continue? ==> RunFixed(table, input, c, fuel) == RunFixed(table, input, r.next, fuel - 1)
  {
  }

  /** One pass of the intended loop body: the action is looked up afresh,
      and a missing row, a missing entry or a reduce that would empty the
      stack is a syntax error. The action carried in the configuration
      plays no part. */
  method IterateFixed(table: ParseTable, input: seq<Token>, c: Config) returns (r: StepResult)
    ensures !r.Crash?
    ensures NamesUnique(table.action) ==> r == StepFixed(table, input, c)
  {
    var stack, ip := c.stack, c.ip;
    if stack == [] || ip >= |input| || stack[|stack| - 1] !in table.action {
      return Halt(false);
    }
    var row := table.action[stack[|stack| - 1]];
    var lookupSymbol := FindSymbol(row, input[ip].kind);
    if NamesUnique(table.action) {
      LookupUnique(table.action, stack[|stack| - 1], input[ip].kind, lookupSymbol);
    }
    if lookupSymbol.None? {
      return Halt(false);
    }
    var act := row[lookupSymbol.value];
    match act {
      case Shift(t) =>
        return Continue(Config(stack + [t], ip + 1, Some(act)));
      case Reduce(p) =>
        var n := PopCount(p);
        if n >= |stack| {
          return Halt(false);
        }
        var rest := stack[..|stack| - n];
        var newS := rest[|rest| - 1];
        if newS !in table.gotoTable || p.left !in table.gotoTable[newS] {
          return Halt(false);
        }
        return Continue(Config(rest + [table.gotoTable[newS][p.left]], ip, Some(act)));
      case Accept =>
        return Halt(true);
    }
  }

  /** parse(tokens) as intended, with at most fuel iterations: it accepts,
      rejects or runs out of fuel, and never throws. Where no row has two
      keys of the same name the result is the one RunFixed gives. */
  method ParseFixed(table: ParseTable, tokens: seq<Token>, fuel: nat) returns (outcome: Outcome)
    ensures !outcome.Crashed?
    ensures NamesUnique(table.action) ==> outcome == RunFixed(table, Input(tokens), Start(table), fuel)
  {
    outcome := RunFrom(table, Input(tokens), Start(table), fuel);
  }

  /** The intended loop from configuration c, one pass per unit of fuel,
      written as recursion on the remaining fuel. */
  method RunFrom(table: ParseTable, input: seq<Token>, c: Config, fuel: nat) returns (outcome: Outcome)
    ensures !outcome.Crashed?
    ensures NamesUnique(table.action) ==> outcome == RunFixed(table, input, c, fuel)
    decreases fuel
  {
    if fuel == 0 {
      return OutOfFuel;
    }
    var r := IterateFixed(table, input, c);
    if NamesUnique(table.action) {
      RunFixedUnfold(table, input, c, fuel, r);
    }
    if !r.Continue? {
      return Finish(r);
    }
    outcome := RunFrom(table, input, r.next, fuel - 1);
  }

  /** Both loops agree on every step where the current row has an entry
      for the token and the stack holds more states than the reduce pops. */
  lemma StepAgrees(table: ParseTable, input: seq<Token>, c: Config)
    requires c.stack != [] && c.ip < |input| && Top(c.stack) in table.action
    requires Lookup(table.action[Top(c.stack)], input[c.ip].kind).Some?
    requires var act := table.action[Top(c.stack)][Lookup(table.action[Top(c.stack)], input[c.ip].kind).value];
      act.Reduce? ==> PopCount(act.prod) < |c.stack|
    ensures Step(table, input, c) == StepFixed(table, input, c)
  {
  }

  // ------------------------------------------------------------------
  // Inputs on which the loop as written goes wrong
  // ------------------------------------------------------------------

  const A := Symbol("a", Terminal)
  const Dollar := Symbol("$", Terminal)
  const L := Symbol("L", NonTerminal)
  const ListOne := Production(L, [A])
  const ListMore := Production(L, [A, L])

  /** The LALR(1) table of L -> a L | a, with L the start symbol:
      0 --a--> 2 (L -> a . L, L -> a .), 2 --a--> 2, 2 --L--> 3,
      0 --L--> 1 (accepting). */
  const ListTable := ParseTable(
    map[0 := map[A := Shift(2)],
        1 := map[Dollar := Accept],
        2 := map[A := Shift(2), Dollar := Reduce(ListOne)],
        3 := map[Dollar := Reduce(ListMore)]],
    map[0 := map[L := 1], 2 := map[L := 3]],
    0)

  /** The input `a x $`. */
  const StaleInput := Input([Token("a", "a"), Token("x", "x")])

  /** A row with exactly one key of the given name. */
  lemma LookupOnly(row: map<Symbol, Action>, k: Symbol)
    requires k in row
    requires forall k' :: k' in row && k'.name == k.name ==> k' == k
    ensures Lookup(row, k.name) == Some(k)
  {
  }

  /** The configurations the loop as written passes through on `a x $`. */
  const AfterA := Config([0, 2], 1, Some(Shift(2)))
  const AfterX := Config([0, 2, 2], 2, Some(Shift(2)))
  const AfterInner := Config([0, 2, 3], 2, Some(Reduce(ListOne)))
  const AfterOuter := Config([0, 1], 2, Some(Reduce(ListMore)))

  lemma ShiftA()
    ensures Step(ListTable, StaleInput, Start(ListTable)) == Continue(AfterA)
    ensures StepFixed(ListTable, StaleInput, Start(ListTable)) == Continue(AfterA)
  {
    assert StaleInput[0] == Token("a", "a");
    LookupOnly(ListTable.action[0], A);
  }

  lemma ReplayOnX()
    ensures Step(ListTable, StaleInput, AfterA) == Continue(AfterX)
    ensures StepFixed(ListTable, StaleInput, AfterA) == Halt(false)
  {
    assert StaleInput[1] == Token("x", "x");
    assert Lookup(ListTable.action[2], "x") == None by {
      assert forall k :: k in ListTable.action[2] ==> k == A || k == Dollar;
    }
  }

  lemma ReduceOne()
    ensures Step(ListTable, StaleInput, AfterX) == Continue(AfterInner)
  {
    assert StaleInput[2] == EndToken;
    assert forall k :: k in ListTable.action[2] ==> k == A || k == Dollar;
    LookupOnly(ListTable.action[2], Dollar);
    assert [0, 2, 2][..2] == [0, 2];
  }

  lemma ReduceMore()
    ensures Step(ListTable, StaleInput, AfterInner) == Continue(AfterOuter)
  {
    assert StaleInput[2] == EndToken;
    LookupOnly(ListTable.action[3], Dollar);
    assert [0, 2, 3][..1] == [0];
  }

  lemma AcceptAtEnd()
    ensures Step(ListTable, StaleInput, AfterOuter) == Halt(true)
  {
    assert StaleInput[2] == EndToken;
    LookupOnly(ListTable.action[1], Dollar);
  }

  /** `a x`: x is no terminal of the grammar, but the loop as written
      replays the SHIFT it did for `a` and accepts, as if the input were
      `a a`; the intended loop rejects. */
  lemma StaleActionAccepts()
    ensures Run(ListTable, StaleInput, Start(ListTable), 5) == Accepted
    ensures RunFixed(ListTable, StaleInput, Start(ListTable), 5) == Rejected
  {
    ShiftA();
    ReplayOnX();
    AcceptAtEnd();
    assert Run(ListTable, StaleInput, AfterOuter, 1) == Accepted;
    ReduceMore();
    assert Run(ListTable, StaleInput, AfterInner, 2) == Accepted;
    ReduceOne();
    assert Run(ListTable, StaleInput, AfterX, 3) == Accepted;
    assert Run(ListTable, StaleInput, AfterA, 4) == Accepted;
    assert RunFixed(ListTable, StaleInput, AfterA, 4) == Rejected;
  }

  /** A state without an ACTION row (here: a table with no rows at all)
      makes the loop as written throw instead of rejecting. */
  lemma MissingRowThrows()
    ensures Run(ParseTable(map[], map[], 0), Input([]), Start(ParseTable(map[], map[], 0)), 1) == Crashed(NoActionRow)
    ensures RunFixed(ParseTable(map[], map[], 0), Input([]), Start(ParseTable(map[], map[], 0)), 1) == Rejected
  {
  }

  /** A REDUCE whose right-hand side is longer than the stack pops past
      the bottom and throws before the emptiness check is reached. */
  lemma PopPastBottomThrows()
    ensures var t := ParseTable(map[0 := map[A := Reduce(ListMore)]], map[], 0);
      && Run(t, Input([Token("a", "a")]), Start(t), 1) == Crashed(StackUnderflow)
      && RunFixed(t, Input([Token("a", "a")]), Start(t), 1) == Rejected
  {
    var t := ParseTable(map[0 := map[A := Reduce(ListMore)]], map[], 0);
    var input := Input([Token("a", "a")]);
    assert input[0] == Token("a", "a");
    assert Lookup(t.action[0], "a") == Some(A) by {
      assert A in t.action[0];
    }
  }
}
