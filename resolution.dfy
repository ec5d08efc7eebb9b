/** The resolution policy: which of two competing actions survives in a table
    cell, and which ambiguities are reported to the grammar author. Everything
    here is a pure function of the grammar, the display names and the two
    actions; the manager class applies it to its conflict list. */
module Resolution {
  import opened Grammar
  import opened Actions
  import opened Conflicts

  datatype Option<T> = None | Some(value: T)

  // ---------------------------------------------------------------------------
  // Lexical conflicts

  /** True iff `candidate` replaces `existing` in a lex table cell. A non-error
      beats an error; of two accepted tokens the one declared earlier in the
      lexical grammar wins; a state that can still consume input beats
      accepting a shorter token. Two advances and two errors keep the
      existing action. */
  function ResolveLex(lexGrammar: PreparedGrammar, existing: LexAction, candidate: LexAction): (r: bool)
    ensures existing == LexAction.Error && candidate != LexAction.Error ==> r
    ensures candidate == LexAction.Error ==> !r
    ensures existing.Accept? && candidate.Accept? ==>
              (r <==> DeclaredBefore(lexGrammar, candidate.symbol, existing.symbol))
    ensures existing.Accept? && candidate.Advance? ==> r
    ensures existing.Advance? && !candidate.Error? ==> !r
  {
    match (existing, candidate)
    case (Error, Error) => false
    case (Error, _) => true
    case (_, Error) => false
    case (Accept(kept), Accept(offered)) => OrderOf(lexGrammar, offered) < OrderOf(lexGrammar, kept)
    case (Accept(_), Advance(_)) => true
    case (Advance(_), _) => false
  }

  /** Two actions whose lexical resolution is fully determined: distinct, not
      two advances, and not two accepts of tokens with the same declaration
      index. */
  predicate LexDecisive(lexGrammar: PreparedGrammar, a: LexAction, b: LexAction)
  {
    && a != b
    && !(a.Advance? && b.Advance?)
    && !(a.Accept? && b.Accept? && OrderOf(lexGrammar, a.symbol) == OrderOf(lexGrammar, b.symbol))
  }

  /** Lexical resolution never replaces in both call orders, and when the
      decision is determined it picks the same winner in either order. */
  lemma LexOrderIndependent(lexGrammar: PreparedGrammar, a: LexAction, b: LexAction)
    ensures !(ResolveLex(lexGrammar, a, b) && ResolveLex(lexGrammar, b, a))
    ensures LexDecisive(lexGrammar, a, b) ==> ResolveLex(lexGrammar, a, b) != ResolveLex(lexGrammar, b, a)
  {
  }

  // ---------------------------------------------------------------------------
  // Syntactic conflicts

  /** Every precedence of the shift is above the reduce's: the shift wins. */
  predicate ShiftDominates(shiftPrecedences: set<int>, reducePrecedence: int)
  {
    forall p :: p in shiftPrecedences ==> p > reducePrecedence
  }

  /** Every precedence of the shift is below the reduce's: the reduce wins. */
  predicate ReduceDominates(shiftPrecedences: set<int>, reducePrecedence: int)
  {
    forall p :: p in shiftPrecedences ==> p < reducePrecedence
  }

  /** Neither side dominates: precedence does not decide the shift/reduce
      conflict. */
  predicate ShiftReduceAmbiguous(shiftPrecedences: set<int>, reducePrecedence: int)
  {
    !ShiftDominates(shiftPrecedences, reducePrecedence)
    && !ReduceDominates(shiftPrecedences, reducePrecedence)
  }

  /** A shift/reduce conflict is ambiguous exactly when one of the shift's
      precedences equals the reduce's, or the shift's precedences lie on both
      sides of it. */
  lemma AmbiguousMeansTiedOrStraddling(s: PrecedenceSet, r: int)
    ensures ShiftReduceAmbiguous(s, r) <==>
              r in s || exists lo, hi :: lo in s && hi in s && lo < r < hi
  {
  }

  /** True iff `candidate` replaces `existing` in a parse table cell. */
  function ResolveParse(parseGrammar: PreparedGrammar, existing: ParseAction, candidate: ParseAction): (r: bool)
    // a non-error beats an error, from either side
    ensures existing == ParseAction.Error && candidate != ParseAction.Error ==> r
    ensures candidate == ParseAction.Error ==> !r
    // shift/reduce: the reduce wins only when it dominates every shift precedence
    ensures existing.Shift? && candidate.Reduce? ==>
              (r <==> ReduceDominates(existing.precedences, candidate.precedence))
    ensures existing.Reduce? && candidate.Shift? ==>
              (r <==> !ReduceDominates(candidate.precedences, existing.precedence))
    // reduce/reduce: higher precedence wins, then the earlier-declared symbol
    ensures existing.Reduce? && candidate.Reduce? && existing.precedence != candidate.precedence ==>
              (r <==> candidate.precedence > existing.precedence)
    ensures existing.Reduce? && candidate.Reduce? && existing.precedence == candidate.precedence ==>
              (r <==> DeclaredBefore(parseGrammar, candidate.symbol, existing.symbol))
    // two shifts keep the existing one
    ensures existing.Shift? && candidate.Shift? ==> !r
  {
    match (existing, candidate)
    case (Error, Error) => false
    case (Error, _) => true
    case (_, Error) => false
    case (Shift(_, s), Reduce(_, _, p)) => ReduceDominates(s, p)
    case (Reduce(_, _, p), Shift(_, s)) => !ReduceDominates(s, p)
    case (Shift(_, _), Shift(_, _)) => false
    case (Reduce(kept, _, p), Reduce(offered, _, q)) =>
      if p != q then q > p else OrderOf(parseGrammar, offered) < OrderOf(parseGrammar, kept)
  }

  /** The ambiguity a resolution reports, if any: a shift/reduce pair that
      precedence does not decide (named the same way from either side), or two
      reduces of equal precedence (candidate named first). */
  function Ambiguity(names: map<Symbol, string>, lookahead: Symbol,
                     existing: ParseAction, candidate: ParseAction): (r: Option<Conflict>)
    // reported exactly when precedence leaves the decision open
    ensures r.Some? <==>
              || (existing.Shift? && candidate.Reduce?
                  && ShiftReduceAmbiguous(existing.precedences, candidate.precedence))
              || (existing.Reduce? && candidate.Shift?
                  && ShiftReduceAmbiguous(candidate.precedences, existing.precedence))
              || (existing.Reduce? && candidate.Reduce? && existing.precedence == candidate.precedence)
    ensures r.Some? ==> r.value.lookahead == DisplayName(names, lookahead)
    // a shift/reduce record names the reduce and both sides' precedences
    ensures r.Some? && existing.Reduce? && candidate.Shift? ==>
              r.value == ShiftReduce(r.value.lookahead, candidate.precedences,
                                     DisplayName(names, existing.symbol), existing.precedence)
    ensures r.Some? && existing.Shift? && candidate.Reduce? ==>
              r.value == ShiftReduce(r.value.lookahead, existing.precedences,
                                     DisplayName(names, candidate.symbol), candidate.precedence)
    // a reduce/reduce record names the candidate first
    ensures r.Some? && existing.Reduce? && candidate.Reduce? ==>
              r.value == ReduceReduce(r.value.lookahead,
                                      DisplayName(names, candidate.symbol), candidate.precedence,
                                      DisplayName(names, existing.symbol), existing.precedence)
  {
    match (existing, candidate)
    case (Shift(_, s), Reduce(sym, _, p)) =>
      if ShiftReduceAmbiguous(s, p)
      then Some(ShiftReduce(DisplayName(names, lookahead), s, DisplayName(names, sym), p))
      else None
    case (Reduce(sym, _, p), Shift(_, s)) =>
      if ShiftReduceAmbiguous(s, p)
      then Some(ShiftReduce(DisplayName(names, lookahead), s, DisplayName(names, sym), p))
      else None
    case (Reduce(kept, _, p), Reduce(offered, _, q)) =>
      if p == q
      then Some(ReduceReduce(DisplayName(names, lookahead), DisplayName(names, offered), q,
                             DisplayName(names, kept), p))
      else None
    case _ => None
  }

  /** Some entry of `log` already reads exactly as `c`. */
  predicate AlreadyReported(log: seq<Conflict>, c: Conflict)
  {
    exists i :: 0 <= i < |log| && Render(log[i]) == Render(c)
  }

  /** The conflict list after reporting `found`: a shift/reduce text already in
      the list is not added again; a reduce/reduce record is always added. */
  function Record(log: seq<Conflict>, found: Option<Conflict>): (r: seq<Conflict>)
    ensures found.None? ==> r == log
    ensures found.Some? && found.value.ReduceReduce? ==> r == log + [found.value]
    ensures found.Some? && found.value.ShiftReduce? ==>
              (r == log <==> AlreadyReported(log, found.value))
    ensures found.Some? && found.value.ShiftReduce? && !AlreadyReported(log, found.value) ==>
              r == log + [found.value]
  {
    match found
    case None => log
    case Some(c) =>
      if c.ShiftReduce? && AlreadyReported(log, c) then log else log + [c]
  }

  /** The texts of a conflict list, as the grammar author reads them. */
  function Texts(log: seq<Conflict>): (r: seq<string>)
    ensures |r| == |log| && forall i :: 0 <= i < |log| ==> r[i] == Render(log[i])
  {
    if log == [] then [] else [Render(log[0])] + Texts(log[1..])
  }

  /** The conflict list is append-only: reporting keeps every earlier entry in
      place, adds at most one, and afterwards the reported text is present. */
  lemma RecordAppendsOnly(log: seq<Conflict>, found: Option<Conflict>)
    ensures |log| <= |Record(log, found)| <= |log| + 1
    ensures Record(log, found)[..|log|] == log
    ensures found.Some? ==> AlreadyReported(Record(log, found), found.value)
  {
    if found.Some? && !AlreadyReported(log, found.value) {
      var after := Record(log, found);
      assert Render(after[|log|]) == Render(found.value);
    }
  }

  /** Two actions whose syntactic resolution is fully determined: distinct, not
      two shifts, and not two equal-precedence reduces of symbols with the
      same declaration index. */
  predicate ParseDecisive(parseGrammar: PreparedGrammar, a: ParseAction, b: ParseAction)
  {
    && a != b
    && !(a.Shift? && b.Shift?)
    && !(a.Reduce? && b.Reduce? && a.precedence == b.precedence
         && OrderOf(parseGrammar, a.symbol) == OrderOf(parseGrammar, b.symbol))
  }

  /** Parse resolution never replaces in both call orders, and when the
      decision is determined it picks the same winner in either order. */
  lemma ParseOrderIndependent(parseGrammar: PreparedGrammar, a: ParseAction, b: ParseAction)
    ensures !(ResolveParse(parseGrammar, a, b) && ResolveParse(parseGrammar, b, a))
    ensures ParseDecisive(parseGrammar, a, b) ==>
              ResolveParse(parseGrammar, a, b) != ResolveParse(parseGrammar, b, a)
  {
  }

  /** An action never replaces itself, and only a reduce reports an ambiguity
      against itself: offering a reduce against itself grows the conflict list
      by one record, any other action leaves it as it was. */
  lemma ParseSelfResolution(parseGrammar: PreparedGrammar, names: map<Symbol, string>,
                            lookahead: Symbol, log: seq<Conflict>, a: ParseAction)
    ensures !ResolveParse(parseGrammar, a, a)
    ensures !a.Reduce? ==> Ambiguity(names, lookahead, a, a) == None
    ensures !a.Reduce? ==> Record(log, Ambiguity(names, lookahead, a, a)) == log
    ensures a.Reduce? ==> |Record(log, Ambiguity(names, lookahead, a, a))| == |log| + 1
  {
  }

  /** A non-error action beats an error action from either side, and nothing is
      reported. */
  lemma ParseErrorLoses(parseGrammar: PreparedGrammar, names: map<Symbol, string>,
                        lookahead: Symbol, a: ParseAction)
    requires a != ParseAction.Error
    ensures ResolveParse(parseGrammar, ParseAction.Error, a)
    ensures !ResolveParse(parseGrammar, a, ParseAction.Error)
    ensures Ambiguity(names, lookahead, ParseAction.Error, a) == None
    ensures Ambiguity(names, lookahead, a, ParseAction.Error) == None
  {
  }

  /** When every shift precedence is above the reduce's, the shift wins from
      either side and probing both orders leaves the conflict list as it was. */
  lemma ShiftAboveReduce(parseGrammar: PreparedGrammar, names: map<Symbol, string>, lookahead: Symbol,
                         log: seq<Conflict>, shift: ParseAction, reduce: ParseAction)
    requires shift.Shift? && reduce.Reduce?
    requires ShiftDominates(shift.precedences, reduce.precedence)
    ensures !ResolveParse(parseGrammar, shift, reduce)
    ensures ResolveParse(parseGrammar, reduce, shift)
    ensures Ambiguity(names, lookahead, shift, reduce) == None
    ensures Ambiguity(names, lookahead, reduce, shift) == None
    ensures Record(Record(log, Ambiguity(names, lookahead, shift, reduce)),
                   Ambiguity(names, lookahead, reduce, shift)) == log
  {
    var s := shift.precedences;
    HasElement(s);
    var p :| p in s;
    assert !ReduceDominates(s, reduce.precedence);
  }

  /** When every shift precedence is below the reduce's, the reduce wins from
      either side and probing both orders leaves the conflict list as it was. */
  lemma ReduceAboveShift(parseGrammar: PreparedGrammar, names: map<Symbol, string>, lookahead: Symbol,
                         log: seq<Conflict>, shift: ParseAction, reduce: ParseAction)
    requires shift.Shift? && reduce.Reduce?
    requires ReduceDominates(shift.precedences, reduce.precedence)
    ensures ResolveParse(parseGrammar, shift, reduce)
    ensures !ResolveParse(parseGrammar, reduce, shift)
    ensures Ambiguity(names, lookahead, shift, reduce) == None
    ensures Ambiguity(names, lookahead, reduce, shift) == None
    ensures Record(Record(log, Ambiguity(names, lookahead, shift, reduce)),
                   Ambiguity(names, lookahead, reduce, shift)) == log
  {
  }

  /** When precedence does not decide a shift/reduce conflict, the shift wins
      from either side, and probing both orders (in either sequence) adds the
      one canonical record, unless its text was already reported. */
  lemma AmbiguousShiftReduceRecordedOnce(names: map<Symbol, string>, lookahead: Symbol,
                                         log: seq<Conflict>, shift: ParseAction, reduce: ParseAction)
    requires shift.Shift? && reduce.Reduce?
    requires ShiftReduceAmbiguous(shift.precedences, reduce.precedence)
    ensures
      var c := ShiftReduce(DisplayName(names, lookahead), shift.precedences,
                           DisplayName(names, reduce.symbol), reduce.precedence);
      var expected := if AlreadyReported(log, c) then log else log + [c];
      && Record(Record(log, Ambiguity(names, lookahead, shift, reduce)),
                Ambiguity(names, lookahead, reduce, shift)) == expected
      && Record(Record(log, Ambiguity(names, lookahead, reduce, shift)),
                Ambiguity(names, lookahead, shift, reduce)) == expected
  {
    var c := ShiftReduce(DisplayName(names, lookahead), shift.precedences,
                         DisplayName(names, reduce.symbol), reduce.precedence);
    assert Ambiguity(names, lookahead, shift, reduce) == Some(c);
    assert Ambiguity(names, lookahead, reduce, shift) == Some(c);
    RecordAppendsOnly(log, Some(c));
  }

  /** A shift/reduce conflict is resolved in favour of the shift whenever
      precedence does not decide it. */
  lemma AmbiguousShiftReduceFavorsShift(parseGrammar: PreparedGrammar, shift: ParseAction, reduce: ParseAction)
    requires shift.Shift? && reduce.Reduce?
    requires ShiftReduceAmbiguous(shift.precedences, reduce.precedence)
    ensures !ResolveParse(parseGrammar, shift, reduce)
    ensures ResolveParse(parseGrammar, reduce, shift)
  {
  }

  /** Two reduces of different precedence: the higher one wins from either side
      and nothing is reported. */
  lemma ReduceReduceByPrecedence(parseGrammar: PreparedGrammar, names: map<Symbol, string>,
                                 lookahead: Symbol, low: ParseAction, high: ParseAction)
    requires low.Reduce? && high.Reduce? && low.precedence < high.precedence
    ensures ResolveParse(parseGrammar, low, high)
    ensures !ResolveParse(parseGrammar, high, low)
    ensures Ambiguity(names, lookahead, low, high) == None
    ensures Ambiguity(names, lookahead, high, low) == None
  {
  }

  /** Two reduces of equal precedence: every call reports one record naming
      its candidate first, whatever the declaration order of the two symbols
      (two productions of one rule, or undeclared symbols, included). Probing
      both orders therefore adds two records in call order. */
  lemma ReduceReduceTieRecorded(names: map<Symbol, string>, lookahead: Symbol,
                                log: seq<Conflict>, a: ParseAction, b: ParseAction)
    requires a.Reduce? && b.Reduce? && a.precedence == b.precedence
    ensures
      var la, p := DisplayName(names, lookahead), a.precedence;
      Record(log, Ambiguity(names, lookahead, a, b))
        == log + [ReduceReduce(la, DisplayName(names, b.symbol), p, DisplayName(names, a.symbol), p)]
    ensures
      var la, p := DisplayName(names, lookahead), a.precedence;
      var x, y := DisplayName(names, a.symbol), DisplayName(names, b.symbol);
      Record(Record(log, Ambiguity(names, lookahead, a, b)), Ambiguity(names, lookahead, b, a))
        == log + [ReduceReduce(la, y, p, x, p), ReduceReduce(la, x, p, y, p)]
  {
  }

  /** Two reduces of equal precedence: the symbol declared earlier wins from
      either side. */
  lemma ReduceReduceTie(parseGrammar: PreparedGrammar, first: ParseAction, second: ParseAction)
    requires first.Reduce? && second.Reduce? && first.precedence == second.precedence
    requires DeclaredBefore(parseGrammar, first.symbol, second.symbol)
    ensures ResolveParse(parseGrammar, second, first)
    ensures !ResolveParse(parseGrammar, first, second)
  {
  }
}
