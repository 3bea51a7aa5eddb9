/**
 * The grammar vocabulary the LR(1)/LALR(1) pipeline works over: symbols,
 * productions, LR(1) items and their lookahead-free kernels. These are the
 * value objects of the grammar package; equality is structural, as their
 * equals/hashCode over all fields make it.
 */
module Grammar {

  datatype Option<T> = None | Some(value: T)

  datatype SymbolType = Terminal | NonTerminal

  /** A grammar symbol: identity is (name, kind). */
  datatype Symbol = Symbol(name: string, kind: SymbolType)

  /** A production `left -> right`. */
  datatype Production = Production(left: Symbol, right: seq<Symbol>)

  /** An LR(1) item `[left -> right[..dot] . right[dot..], lookahead]`. */
  datatype Item = Item(prod: Production, dot: nat, lookahead: Symbol)

  /** An item without its lookahead: the grouping key of LALR merging. */
  datatype KernelEntry = KernelEntry(prod: Production, dot: nat)

  /** The symbol right after the dot, or None when the dot is at the end. */
  function SymbolAfterDot(it: Item): Option<Symbol>
  {
    if it.dot < |it.prod.right| then Some(it.prod.right[it.dot]) else None
  }

  predicate IsCompleted(it: Item)
  {
    it.dot >= |it.prod.right|
  }

  /** The set of (production, dot) pairs of a state. */
  function KernelOf(state: set<Item>): set<KernelEntry>
  {
    set it | it in state :: KernelEntry(it.prod, it.dot)
  }

  /** The next element of a hash-ordered iteration: any element not yet
      visited. */
  method Pick<T>(pending: set<T>) returns (x: T)
    requires pending != {}
    ensures x in pending
  {
    x :| x in pending;
  }

  /** The set of the elements of a sequence. */
  function Elems<T>(s: seq<T>): set<T>
  {
    set x | x in s
  }

  /** No element occurs twice. */
  predicate Distinct<T(==)>(s: seq<T>)
  {
    forall i, j :: 0 <= i < j < |s| ==> s[i] != s[j]
  }
}
