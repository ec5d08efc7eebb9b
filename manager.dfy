/** The conflict manager: bound to a syntax grammar, a lexical grammar and a
    display-name table at construction, it answers whether a candidate action
    replaces the action already in a table cell, and keeps the list of
    ambiguous parse decisions it has met. */
module Manager {
  import opened Grammar
  import opened Actions
  import opened Conflicts
  import opened Resolution

  class ConflictManager {
    const parseGrammar: PreparedGrammar
    const lexGrammar: PreparedGrammar
    const names: map<Symbol, string>
    /** The recorded conflicts, oldest first; only ever appended to. */
    var conflicts: seq<Conflict>

    constructor (parseGrammar: PreparedGrammar, lexGrammar: PreparedGrammar, names: map<Symbol, string>)
      ensures this.parseGrammar == parseGrammar && this.lexGrammar == lexGrammar && this.names == names
      ensures conflicts == []
    {
      this.parseGrammar := parseGrammar;
      this.lexGrammar := lexGrammar;
      this.names := names;
      conflicts := [];
    }

    /** Whether `candidate` replaces `existing` in a lex table cell; records
        nothing. */
    function ResolveLexAction(existing: LexAction, candidate: LexAction): (r: bool)
      ensures existing == LexAction.Error && candidate != LexAction.Error ==> r
      ensures candidate == LexAction.Error ==> !r
      ensures existing.Accept? && candidate.Accept? ==>
                (r <==> DeclaredBefore(lexGrammar, candidate.symbol, existing.symbol))
      ensures existing.Accept? && candidate.Advance? ==> r
      ensures existing.Advance? && !candidate.Error? ==> !r
    {
      ResolveLex(lexGrammar, existing, candidate)
    }

    /** Whether `candidate` replaces `existing` in the parse table cell for
        `lookahead`; reports the ambiguity, if any, to the conflict list. */
    method ResolveParseAction(lookahead: Symbol, existing: ParseAction, candidate: ParseAction)
      returns (replace: bool)
      modifies this
      ensures replace == ResolveParse(parseGrammar, existing, candidate)
      ensures conflicts == Record(old(conflicts), Ambiguity(names, lookahead, existing, candidate))
    {
      replace := ResolveParse(parseGrammar, existing, candidate);
      var found := Ambiguity(names, lookahead, existing, candidate);
      if found.Some? {
        var c := found.value;
        if c.ReduceReduce? || !AlreadyReported(conflicts, c) {
          conflicts := conflicts + [c];
        }
      }
    }
  }

  // ---------------------------------------------------------------------------
  // The texts the unit tests expect. Each text is matched in two halves, cut
  // after ") / reduce ", so that every step joins two literals.

  lemma SmallIntTexts()
    ensures IntToString(0) == "0" && IntToString(1) == "1"
    ensures IntToString(2) == "2" && IntToString(3) == "3"
  {
  }

  /** The record for shift {0} against reduce rule2 at precedence 0. */
  lemma EqualPrecedenceText()
    ensures Render(ShiftReduce("rule1", {0}, "rule2", 0))
              == "rule1: shift (precedence 0) / reduce rule2 (precedence 0)"
  {
    SmallIntTexts();
    SortedElementsOf({0}, [0]);
    EqualPrecedenceHead();
    EqualPrecedenceTail();
  }

  lemma EqualPrecedenceHead()
    ensures "rule1" + ": shift (precedence " + "0" + ") / reduce "
            == "rule1: shift (precedence 0) / reduce "
  {
    assert "rule1" + ": shift (precedence " == "rule1: shift (precedence ";
    assert "rule1: shift (precedence " + "0" == "rule1: shift (precedence 0";
  }

  lemma EqualPrecedenceTail()
    ensures "rule1: shift (precedence 0) / reduce " + "rule2" + " (precedence " + "0" + ")"
            == "rule1: shift (precedence 0) / reduce rule2 (precedence 0)"
  {
    assert "rule1: shift (precedence 0) / reduce " + "rule2" == "rule1: shift (precedence 0) / reduce rule2";
    assert "rule1: shift (precedence 0) / reduce rule2" + " (precedence " == "rule1: shift (precedence 0) / reduce rule2 (precedence ";
    assert "rule1: shift (precedence 0) / reduce rule2 (precedence " + "0" == "rule1: shift (precedence 0) / reduce rule2 (precedence 0";
  }

  /** The precedences 0, 1, 3 in ascending order, as listed in a record. */
  lemma AscendingPrecedencesText()
    ensures JoinInts(SortedElements({0, 1, 3})) == "0, 1, 3"
  {
    AscendingPrecedences();
    JoinedPrecedences();
  }

  lemma AscendingPrecedences()
    ensures SortedElements({0, 1, 3}) == [0, 1, 3]
  {
    assert StrictlyIncreasing([0, 1, 3]);
    assert forall x :: x in [0, 1, 3] <==> x in {0, 1, 3};
    SortedElementsOf({0, 1, 3}, [0, 1, 3]);
  }

  lemma JoinedPrecedences()
    ensures JoinInts([0, 1, 3]) == "0, 1, 3"
  {
    SmallIntTexts();
    assert JoinInts([3]) == "3";
    assert JoinInts([1, 3]) == "1, 3" by {
      assert [1, 3][1..] == [3];
      assert "1" + ", " + "3" == "1, 3";
    }
    assert [0, 1, 3][1..] == [1, 3];
    assert "0" + ", " + "1, 3" == "0, 1, 3";
  }

  /** The record for shift {0, 1, 3} against reduce rule2 at precedence 2. */
  lemma StraddlingPrecedenceText()
    ensures Render(ShiftReduce("rule1", {0, 1, 3}, "rule2", 2))
              == "rule1: shift (precedence 0, 1, 3) / reduce rule2 (precedence 2)"
  {
    AscendingPrecedencesText();
    SmallIntTexts();
    StraddlingPrecedenceHead();
    StraddlingPrecedenceTail();
  }

  lemma StraddlingPrecedenceHead()
    ensures "rule1" + ": shift (precedence " + "0, 1, 3" + ") / reduce "
            == "rule1: shift (precedence 0, 1, 3) / reduce "
  {
    assert "rule1" + ": shift (precedence " == "rule1: shift (precedence ";
    assert "rule1: shift (precedence " + "0, 1, 3" == "rule1: shift (precedence 0, 1, 3";
  }

  lemma StraddlingPrecedenceTail()
    ensures "rule1: shift (precedence 0, 1, 3) / reduce " + "rule2" + " (precedence " + "2" + ")"
            == "rule1: shift (precedence 0, 1, 3) / reduce rule2 (precedence 2)"
  {
    assert "rule1: shift (precedence 0, 1, 3) / reduce " + "rule2" == "rule1: shift (precedence 0, 1, 3) / reduce rule2";
    assert "rule1: shift (precedence 0, 1, 3) / reduce rule2" + " (precedence " == "rule1: shift (precedence 0, 1, 3) / reduce rule2 (precedence ";
    assert "rule1: shift (precedence 0, 1, 3) / reduce rule2 (precedence " + "2" == "rule1: shift (precedence 0, 1, 3) / reduce rule2 (precedence 2";
  }

  /** The record for a reduce of rule2 offered against a reduce of rule1, both
      at precedence 0: the candidate is named first. */
  lemma LaterReduceText()
    ensures Render(ReduceReduce("rule1", "rule2", 0, "rule1", 0))
              == "rule1: reduce rule2 (precedence 0) / reduce rule1 (precedence 0)"
  {
    SmallIntTexts();
    LaterReduceHead();
    LaterReduceTail();
  }

  lemma LaterReduceHead()
    ensures "rule1" + ": reduce " + "rule2" + " (precedence " + "0" + ") / reduce "
            == "rule1: reduce rule2 (precedence 0) / reduce "
  {
    assert "rule1" + ": reduce " == "rule1: reduce ";
    assert "rule1: reduce " + "rule2" == "rule1: reduce rule2";
    assert "rule1: reduce rule2" + " (precedence " == "rule1: reduce rule2 (precedence ";
    assert "rule1: reduce rule2 (precedence " + "0" == "rule1: reduce rule2 (precedence 0";
  }

  lemma LaterReduceTail()
    ensures "rule1: reduce rule2 (precedence 0) / reduce " + "rule1" + " (precedence " + "0" + ")"
            == "rule1: reduce rule2 (precedence 0) / reduce rule1 (precedence 0)"
  {
    assert "rule1: reduce rule2 (precedence 0) / reduce " + "rule1" == "rule1: reduce rule2 (precedence 0) / reduce rule1";
    assert "rule1: reduce rule2 (precedence 0) / reduce rule1" + " (precedence " == "rule1: reduce rule2 (precedence 0) / reduce rule1 (precedence ";
    assert "rule1: reduce rule2 (precedence 0) / reduce rule1 (precedence " + "0" == "rule1: reduce rule2 (precedence 0) / reduce rule1 (precedence 0";
  }

  /** The record for a reduce of rule1 offered against a reduce of rule2, both
      at precedence 0. */
  lemma EarlierReduceText()
    ensures Render(ReduceReduce("rule1", "rule1", 0, "rule2", 0))
              == "rule1: reduce rule1 (precedence 0) / reduce rule2 (precedence 0)"
  {
    SmallIntTexts();
    EarlierReduceHead();
    EarlierReduceTail();
  }

  lemma EarlierReduceHead()
    ensures "rule1" + ": reduce " + "rule1" + " (precedence " + "0" + ") / reduce "
            == "rule1: reduce rule1 (precedence 0) / reduce "
  {
    assert "rule1" + ": reduce " == "rule1: reduce ";
    assert "rule1: reduce " + "rule1" == "rule1: reduce rule1";
    assert "rule1: reduce rule1" + " (precedence " == "rule1: reduce rule1 (precedence ";
    assert "rule1: reduce rule1 (precedence " + "0" == "rule1: reduce rule1 (precedence 0";
  }

  lemma EarlierReduceTail()
    ensures "rule1: reduce rule1 (precedence 0) / reduce " + "rule2" + " (precedence " + "0" + ")"
            == "rule1: reduce rule1 (precedence 0) / reduce rule2 (precedence 0)"
  {
    assert "rule1: reduce rule1 (precedence 0) / reduce " + "rule2" == "rule1: reduce rule1 (precedence 0) / reduce rule2";
    assert "rule1: reduce rule1 (precedence 0) / reduce rule2" + " (precedence " == "rule1: reduce rule1 (precedence 0) / reduce rule2 (precedence ";
    assert "rule1: reduce rule1 (precedence 0) / reduce rule2 (precedence " + "0" == "rule1: reduce rule1 (precedence 0) / reduce rule2 (precedence 0";
  }

  // ---------------------------------------------------------------------------
  // The unit-test grammar and its scenarios, one method per innermost block

  /** Display names for the test grammar: every symbol under its own name. */
  function TestNames(): map<Symbol, string>
  {
    map[Symbol("rule1") := "rule1", Symbol("rule2") := "rule2",
        Symbol("token1") := "token1", Symbol("token2") := "token2"]
  }

  /** The test's table shows every symbol under its declared name. */
  lemma TestNamesAreDeclaredNames()
    ensures forall s :: DisplayName(TestNames(), s) == s.name
  {
    forall s ensures DisplayName(TestNames(), s) == s.name {
      DisplayNameOfIdentityTable(TestNames(), s);
    }
  }

  /** A fresh manager for the syntax grammar `rule1 -> rule2 token2`,
      `rule2 -> token1` and the lexical grammar `token1`, `token2`. */
  method NewTestManager() returns (m: ConflictManager)
    ensures fresh(m)
    ensures m.parseGrammar == PreparedGrammar(["rule1", "rule2"])
    ensures m.lexGrammar == PreparedGrammar(["token1", "token2"])
    ensures m.names == TestNames()
    ensures m.conflicts == []
  {
    m := new ConflictManager(PreparedGrammar(["rule1", "rule2"]),
                             PreparedGrammar(["token1", "token2"]),
                             TestNames());
  }

  method LexFavorsNonErrors() returns (errorThenAdvance: bool, advanceThenError: bool)
    ensures errorThenAdvance && !advanceThenError
  {
    var m := NewTestManager();
    errorThenAdvance := m.ResolveLexAction(LexAction.Error, Advance(2));
    advanceThenError := m.ResolveLexAction(Advance(2), LexAction.Error);
  }

  method LexPrefersEarlierTokens() returns (firstThenSecond: bool, secondThenFirst: bool)
    ensures !firstThenSecond && secondThenFirst
  {
    var m := NewTestManager();
    firstThenSecond := m.ResolveLexAction(Accept(Symbol("token1")), Accept(Symbol("token2")));
    secondThenFirst := m.ResolveLexAction(Accept(Symbol("token2")), Accept(Symbol("token1")));
  }

  method ParseFavorsNonErrors() returns (errorThenShift: bool, shiftThenError: bool)
    ensures errorThenShift && !shiftThenError
  {
    var m := NewTestManager();
    errorThenShift := m.ResolveParseAction(Symbol("rule1"), ParseAction.Error, Shift(2, {0}));
    shiftThenError := m.ResolveParseAction(Symbol("rule1"), Shift(2, {0}), ParseAction.Error);
  }

  /** Calls the manager with `existing`/`candidate` and then with the two
      swapped; returns both answers and the texts recorded. */
  method ProbeBothOrders(existing: ParseAction, candidate: ParseAction)
    returns (forward: bool, backward: bool, texts: seq<string>)
    ensures forward == ResolveParse(PreparedGrammar(["rule1", "rule2"]), existing, candidate)
    ensures backward == ResolveParse(PreparedGrammar(["rule1", "rule2"]), candidate, existing)
    ensures texts == Texts(Record(Record([], Ambiguity(TestNames(), Symbol("rule1"), existing, candidate)),
                                  Ambiguity(TestNames(), Symbol("rule1"), candidate, existing)))
  {
    var m := NewTestManager();
    forward := m.ResolveParseAction(Symbol("rule1"), existing, candidate);
    backward := m.ResolveParseAction(Symbol("rule1"), candidate, existing);
    texts := Texts(m.conflicts);
  }

  method ShiftWithHigherPrecedence() returns (shiftThenReduce: bool, reduceThenShift: bool, texts: seq<string>)
    ensures !shiftThenReduce && reduceThenShift
    ensures texts == []
  {
    var shift, reduce := Shift(2, {3}), Reduce(Symbol("rule2"), 1, 1);
    shiftThenReduce, reduceThenShift, texts := ProbeBothOrders(shift, reduce);
    ShiftAboveReduce(PreparedGrammar(["rule1", "rule2"]), TestNames(), Symbol("rule1"), [], shift, reduce);
  }

  method ReduceWithHigherPrecedence() returns (reduceThenShift: bool, shiftThenReduce: bool, texts: seq<string>)
    ensures !reduceThenShift && shiftThenReduce
    ensures texts == []
  {
    var shift, reduce := Shift(2, {1}), Reduce(Symbol("rule2"), 1, 3);
    reduceThenShift, shiftThenReduce, texts := ProbeBothOrders(reduce, shift);
    ReduceAboveShift(PreparedGrammar(["rule1", "rule2"]), TestNames(), Symbol("rule1"), [], shift, reduce);
  }

  method ShiftReduceWithEqualPrecedence() returns (reduceThenShift: bool, shiftThenReduce: bool, texts: seq<string>)
    ensures reduceThenShift && !shiftThenReduce
    ensures texts == ["rule1: shift (precedence 0) / reduce rule2 (precedence 0)"]
  {
    var shift, reduce := Shift(2, {0}), Reduce(Symbol("rule2"), 1, 0);
    reduceThenShift, shiftThenReduce, texts := ProbeBothOrders(reduce, shift);
    EqualRecordedOnce();
    var c := ShiftReduce("rule1", {0}, "rule2", 0);
    assert Texts([c]) == [Render(c)];
    EqualPrecedenceText();
  }

  method ShiftReduceWithStraddlingPrecedences() returns (reduceThenShift: bool, shiftThenReduce: bool, texts: seq<string>)
    ensures reduceThenShift && !shiftThenReduce
    ensures texts == ["rule1: shift (precedence 0, 1, 3) / reduce rule2 (precedence 2)"]
  {
    var shift, reduce := Shift(2, {0, 1, 3}), Reduce(Symbol("rule2"), 1, 2);
    reduceThenShift, shiftThenReduce, texts := ProbeBothOrders(reduce, shift);
    StraddlingRecordedOnce();
    var c := ShiftReduce("rule1", {0, 1, 3}, "rule2", 2);
    assert Texts([c]) == [Render(c)];
    StraddlingPrecedenceText();
  }

  /** Shift {0, 1, 3} against reduce rule2 at 2, probed both ways on an empty
      list, leaves exactly one record. */
  lemma StraddlingRecordedOnce()
    ensures
      var shift, reduce := Shift(2, {0, 1, 3}), Reduce(Symbol("rule2"), 1, 2);
      Record(Record([], Ambiguity(TestNames(), Symbol("rule1"), reduce, shift)),
             Ambiguity(TestNames(), Symbol("rule1"), shift, reduce))
        == [ShiftReduce("rule1", {0, 1, 3}, "rule2", 2)]
  {
    var shift, reduce := Shift(2, {0, 1, 3}), Reduce(Symbol("rule2"), 1, 2);
    assert ShiftReduceAmbiguous({0, 1, 3}, 2) by {
      assert 0 in {0, 1, 3} && 3 in {0, 1, 3};
    }
    TestNamesAreDeclaredNames();
    AmbiguousShiftReduceRecordedOnce(TestNames(), Symbol("rule1"), [], shift, reduce);
  }

  method ReduceReduceWithDifferentPrecedence() returns (lowThenHigh: bool, highThenLow: bool, texts: seq<string>)
    ensures lowThenHigh && !highThenLow
    ensures texts == []
  {
    var low, high := Reduce(Symbol("rule2"), 1, 0), Reduce(Symbol("rule2"), 1, 3);
    lowThenHigh, highThenLow, texts := ProbeBothOrders(low, high);
  }

  method ReduceReduceWithEqualPrecedence() returns (laterThenEarlier: bool, earlierThenLater: bool, texts: seq<string>)
    ensures laterThenEarlier && !earlierThenLater
    ensures texts == ["rule1: reduce rule2 (precedence 0) / reduce rule1 (precedence 0)",
                      "rule1: reduce rule1 (precedence 0) / reduce rule2 (precedence 0)"]
  {
    var earlier, later := Reduce(Symbol("rule1"), 1, 0), Reduce(Symbol("rule2"), 1, 0);
    earlierThenLater, laterThenEarlier, texts := ProbeBothOrders(earlier, later);
    ReduceReduceTie(PreparedGrammar(["rule1", "rule2"]), earlier, later);
    TieRecordedTwice();
    var first := ReduceReduce("rule1", "rule2", 0, "rule1", 0);
    var second := ReduceReduce("rule1", "rule1", 0, "rule2", 0);
    assert Texts([first, second]) == [Render(first), Render(second)];
    LaterReduceText();
    EarlierReduceText();
  }

  /** Reduces of rule1 and rule2 at precedence 0, called in the test's order on
      an empty list, leave one record per call, each naming its candidate first. */
  lemma TieRecordedTwice()
    ensures
      var earlier, later := Reduce(Symbol("rule1"), 1, 0), Reduce(Symbol("rule2"), 1, 0);
      Record(Record([], Ambiguity(TestNames(), Symbol("rule1"), earlier, later)),
             Ambiguity(TestNames(), Symbol("rule1"), later, earlier))
        == [ReduceReduce("rule1", "rule2", 0, "rule1", 0), ReduceReduce("rule1", "rule1", 0, "rule2", 0)]
  {
    var earlier, later := Reduce(Symbol("rule1"), 1, 0), Reduce(Symbol("rule2"), 1, 0);
    TestNamesAreDeclaredNames();
    ReduceReduceTieRecorded(TestNames(), Symbol("rule1"), [], earlier, later);
  }

  /** Reduce rule2 at 0 and shift {0}, called in the test's order on an empty
      list, leave exactly the one record for rule1. */
  lemma EqualRecordedOnce()
    ensures
      var shift, reduce := Shift(2, {0}), Reduce(Symbol("rule2"), 1, 0);
      Record(Record([], Ambiguity(TestNames(), Symbol("rule1"), reduce, shift)),
             Ambiguity(TestNames(), Symbol("rule1"), shift, reduce))
        == [ShiftReduce("rule1", {0}, "rule2", 0)]
  {
    var shift, reduce := Shift(2, {0}), Reduce(Symbol("rule2"), 1, 0);
    TestNamesAreDeclaredNames();
    AmbiguousShiftReduceRecordedOnce(TestNames(), Symbol("rule1"), [], shift, reduce);
  }
}
