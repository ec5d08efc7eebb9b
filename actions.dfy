/** The closed sets of actions a lexer or a parser may take in one table cell. */
module Actions {
  import opened Grammar

  /** What the lexer does in one cell. */
  datatype LexAction =
    | Error                      // no token can be recognised here
    | Advance(state: nat)        // keep consuming input, go to `state`
    | Accept(symbol: Symbol)     // the input so far is the token `symbol`

  /** The precedences justifying a shift: never empty, since a shift is
      demanded by at least one grammar item. */
  type PrecedenceSet = s: set<int> | s != {} witness {0}

  /** A step the solver does not take by itself when its other facts clash:
      a precedence set has an element. */
  lemma HasElement(s: PrecedenceSet)
    ensures exists p :: p in s
  {
    if forall p :: p !in s {
      assert false;
    }
  }

  /** What the parser does in one cell. */
  datatype ParseAction =
    | Error
    | Shift(state: nat, precedences: PrecedenceSet)
    | Reduce(symbol: Symbol, childCount: nat, precedence: int)
}
