# Conflict manager of the parse/lex table generator

This project models the conflict resolver of tree-sitter's table generator. The
table builder sometimes finds two candidate actions for one cell of a lex table
or a parse table. It then asks the `ConflictManager` whether the candidate
replaces the action already in the cell. The manager decides using:
- the precedences carried by the actions;
- the declaration order of the grammar's rules and tokens.

It also keeps an append-only list of the parse decisions that precedence did
not settle, as text for the grammar author.

The model follows the behaviour that the component's unit test,
`spec/compiler/build_tables/conflict_manager_spec.cc`, asserts: its return
values and its conflict texts. The implementation file
`compiler/build_tables/conflict_manager.h` is not modelled.

Modules, one per component:

- `Grammar` (`grammar.dfy`): symbols, and a prepared grammar reduced to its
  rule names in declaration order. `IndexOf` gives a name's declaration index.
  It is the position of the name's first definition, or the number of rules
  when the name is undeclared.
- `Actions` (`actions.dfy`): `LexAction` (`Error`, `Advance(state)`,
  `Accept(symbol)`) and `ParseAction` (`Error`, `Shift(state, precedences)`,
  `Reduce(symbol, childCount, precedence)`). A shift's precedence set is never
  empty, and a reduce's child count is never negative.
- `Conflicts` (`conflicts.dfy`): the conflict record, a shift/reduce or a
  reduce/reduce ambiguity described by display names and precedences. `Render`
  produces its text, with the shift's precedences in ascending order separated
  by `", "`. Integer text and sorting come with their inverses and uniqueness
  proofs.
- `Resolution` (`resolution.dfy`): the policy as pure functions.
  - `ResolveLex` and `ResolveParse` answer "does the candidate replace the
    existing action".
  - `Ambiguity` gives the record a call reports.
  - `Record` is the conflict list after reporting it. A shift/reduce text
    already present is not added again; a reduce/reduce record always is.
- `Manager` (`manager.dfy`): the `ConflictManager` class.
  - It holds the two grammars and the display-name table as constants, and
    `conflicts` as a field.
  - `ResolveParseAction` changes only `conflicts`, in the way `Record` states.
  - One method per innermost `describe` block of the unit test (one per `it`
    for the lexical conflicts and parse errors) builds a fresh manager for the
    test grammar and makes that block's calls.
  - The three `it` methods (`LexFavorsNonErrors`, `LexPrefersEarlierTokens`,
    `ParseFavorsNonErrors`) return the two answers only.
  - The six shift/reduce and reduce/reduce methods call the manager once in
    each order and return both answers and the conflict texts. Each covers
    both `it` cases of its block, reading the "favors ..." answers from the
    same two calls.
  - In three blocks the "favors ..." case calls in the other order from the
    "records ..." case: equal shift/reduce precedences, straddling shift
    precedences, and equal reduce precedences. Reading both answers from the
    same two calls is sound because `ResolveParse` does not read the conflict
    list.

## Model

| member | source | states |
|---|---|---|
| Grammar.IndexOf | spec/compiler/build_tables/conflict_manager_spec.cc:13-21 | the declaration index is the position of the first definition of the name: every earlier rule has another name, and the index is the rule count exactly when the name is undeclared |
| Grammar.DisplayName | spec/compiler/build_tables/conflict_manager_spec.cc:24-29 | a symbol is shown under the name the table gives it, and under its declared name when the table has none |
| Grammar.DisplayNameOfIdentityTable | spec/compiler/build_tables/conflict_manager_spec.cc:24-29 | with a table that lists every symbol under its own name, as the test's does, every symbol is shown under its declared name |
| Grammar.IndexOfDeclared | spec/compiler/build_tables/conflict_manager_spec.cc:13-21 | a name is declared iff its index is below the rule count |
| Grammar.DeclaredBeforeIsStrictTotal | spec/compiler/build_tables/conflict_manager_spec.cc:13-21 | "declared earlier" is irreflexive and transitive, and it orders any two distinct declared names |
| Resolution.ResolveLex | spec/compiler/build_tables/conflict_manager_spec.cc:40-54 | a non-error beats an error from either side; of two accepts, the candidate wins iff its token is declared earlier; advance beats accept |
| Resolution.LexOrderIndependent | spec/compiler/build_tables/conflict_manager_spec.cc:40-54 | lexical resolution never replaces in both call orders; when the pair is decidable, exactly one order replaces, so the winner does not depend on call order |
| Resolution.ResolveParse | spec/compiler/build_tables/conflict_manager_spec.cc:61-163 | a non-error beats an error; in a shift/reduce pair the reduce wins iff every shift precedence is below it; two reduces are decided by higher precedence, then by earlier declaration; two shifts keep the existing one |
| Resolution.Ambiguity | spec/compiler/build_tables/conflict_manager_spec.cc:102-171 | a call reports a record exactly when precedence leaves it open: an undecided shift/reduce, or two reduces of equal precedence; the record carries the lookahead's display name, a shift/reduce record names the reduce and both sides' precedences whichever side is the candidate, and a reduce/reduce record names the candidate first |
| Resolution.Record | spec/compiler/build_tables/conflict_manager_spec.cc:106-171 | with nothing reported the list is unchanged; a reduce/reduce record is always appended; a shift/reduce record leaves the list unchanged exactly when its text is already in it, and is appended otherwise |
| Resolution.ParseErrorLoses | spec/compiler/build_tables/conflict_manager_spec.cc:61-67 | a non-error parse action beats an error from either side, and nothing is reported |
| Resolution.ParseOrderIndependent | spec/compiler/build_tables/conflict_manager_spec.cc:61-163 | parse resolution never replaces in both call orders; when the pair is decidable, exactly one order replaces |
| Resolution.ParseSelfResolution | spec/compiler/build_tables/conflict_manager_spec.cc:61-163 | an action never replaces itself; any action other than a reduce reports nothing against itself and leaves the conflict list unchanged, while a reduce offered against itself adds exactly one record |
| Resolution.ShiftAboveReduce | spec/compiler/build_tables/conflict_manager_spec.cc:70-84 | when every shift precedence is above the reduce's, the shift wins from either side, neither call reports anything, and calling in both orders leaves the conflict list unchanged |
| Resolution.ReduceAboveShift | spec/compiler/build_tables/conflict_manager_spec.cc:86-100 | when every shift precedence is below the reduce's, the reduce wins from either side, neither call reports anything, and calling in both orders leaves the conflict list unchanged |
| Resolution.AmbiguousMeansTiedOrStraddling | spec/compiler/build_tables/conflict_manager_spec.cc:102-136 | precedence leaves a shift/reduce undecided exactly when a shift precedence equals the reduce's or the shift precedences lie on both sides of it |
| Resolution.AmbiguousShiftReduceFavorsShift | spec/compiler/build_tables/conflict_manager_spec.cc:114-135 | an undecided shift/reduce is resolved for the shift, from either side |
| Resolution.AmbiguousShiftReduceRecordedOnce | spec/compiler/build_tables/conflict_manager_spec.cc:106-129 | calling an undecided shift/reduce in both orders, in either sequence, adds the one canonical record, or nothing when its text is already present |
| Resolution.ReduceReduceByPrecedence | spec/compiler/build_tables/conflict_manager_spec.cc:140-153 | of two reduces with different precedence the higher one wins from either side, and nothing is reported |
| Resolution.ReduceReduceTie | spec/compiler/build_tables/conflict_manager_spec.cc:156-163 | of two reduces with equal precedence the earlier-declared symbol wins from either side |
| Resolution.ReduceReduceTieRecorded | spec/compiler/build_tables/conflict_manager_spec.cc:165-171 | for any two reduces of equal precedence, whatever their declaration order (two productions of one rule included), each call appends one record naming its candidate first, so calling in both orders appends two records in call order |
| Resolution.RecordAppendsOnly | spec/compiler/build_tables/conflict_manager_spec.cc:106-111 | reporting keeps every earlier entry in place and adds at most one; afterwards the reported text is in the list |
| Conflicts.Render | spec/compiler/build_tables/conflict_manager_spec.cc:106-171 | a record's text opens with the lookahead and then ": shift (precedence " or ": reduce " and the candidate's name, and closes with ")" |
| Conflicts.NatToString | spec/compiler/build_tables/conflict_manager_spec.cc:110 | a precedence's text is a non-empty string of decimal digits with no leading zero |
| Conflicts.NatToStringRoundTrip | spec/compiler/build_tables/conflict_manager_spec.cc:110 | reading the digits back gives the number |
| Conflicts.IntToStringRoundTrip | spec/compiler/build_tables/conflict_manager_spec.cc:128 | reading a rendered precedence back, sign included, gives the precedence |
| Conflicts.IntToStringInjective | spec/compiler/build_tables/conflict_manager_spec.cc:128 | distinct precedences never render alike |
| Conflicts.JoinIntsShape | spec/compiler/build_tables/conflict_manager_spec.cc:128 | a precedence list's text is empty only for no precedences, holds no ")", shows the first precedence up to its first ",", and holds a "," exactly when it lists more than one precedence |
| Conflicts.JoinIntsInjective | spec/compiler/build_tables/conflict_manager_spec.cc:128 | distinct precedence lists are never written alike |
| Conflicts.ShiftReduceTextInjective | spec/compiler/build_tables/conflict_manager_spec.cc:106-129 | for one lookahead and one reduce symbol, two shift/reduce records with the same text have the same shift precedences and the same reduce precedence, so de-duplicating by text merges only identical records |
| Conflicts.SortedElements | spec/compiler/build_tables/conflict_manager_spec.cc:128 | the listed shift precedences are strictly ascending and are exactly the elements of the set |
| Conflicts.StrictlyIncreasingUnique | spec/compiler/build_tables/conflict_manager_spec.cc:128 | only one strictly ascending sequence lists a given set, so the listed precedences depend on the set alone |
| Conflicts.SortedElementsOf | spec/compiler/build_tables/conflict_manager_spec.cc:128 | any strictly ascending listing of a set is the one the record shows |
| Manager.ConflictManager.constructor | spec/compiler/build_tables/conflict_manager_spec.cc:23-30 | a new manager is bound to the syntax grammar, the lexical grammar and the display names, and has no conflicts |
| Manager.ConflictManager.ResolveLexAction | spec/compiler/build_tables/conflict_manager_spec.cc:40-54 | against the manager's lexical grammar: a non-error beats an error from either side, of two accepts the candidate wins iff its token is declared earlier, and advance beats accept |
| Manager.ConflictManager.ResolveParseAction | spec/compiler/build_tables/conflict_manager_spec.cc:61-171 | the answer is the policy's, and the conflict list becomes the old list with the reported ambiguity recorded |
| Manager.NewTestManager | spec/compiler/build_tables/conflict_manager_spec.cc:13-30 | the test's manager: rules rule1, rule2; tokens token1, token2; every symbol shown under its own name; no conflicts |
| Manager.TestNamesAreDeclaredNames | spec/compiler/build_tables/conflict_manager_spec.cc:24-29 | the test's display-name table shows every symbol under its declared name |
| Manager.EqualPrecedenceText | spec/compiler/build_tables/conflict_manager_spec.cc:110 | the record for shift {0} against reduce rule2 at 0 reads exactly as the test expects |
| Manager.AscendingPrecedencesText | spec/compiler/build_tables/conflict_manager_spec.cc:128 | the set {0, 1, 3} is shown as "0, 1, 3" |
| Manager.EqualRecordedOnce | spec/compiler/build_tables/conflict_manager_spec.cc:106-111 | reduce rule2 at 0 and shift {0}, called in the test's order on an empty list, leave exactly the one record for rule1 |
| Manager.StraddlingPrecedenceText | spec/compiler/build_tables/conflict_manager_spec.cc:128 | the record for shift {0, 1, 3} against reduce rule2 at 2 reads exactly as the test expects |
| Manager.StraddlingRecordedOnce | spec/compiler/build_tables/conflict_manager_spec.cc:124-129 | reduce rule2 at 2 and shift {0, 1, 3}, called in the test's order on an empty list, leave exactly the one record for rule1 |
| Manager.LaterReduceText | spec/compiler/build_tables/conflict_manager_spec.cc:169 | the record for reduce rule2 offered against reduce rule1 reads exactly as the test expects |
| Manager.TieRecordedTwice | spec/compiler/build_tables/conflict_manager_spec.cc:165-171 | reduces of rule1 and rule2 at 0, called in the test's order on an empty list, leave two records, each naming its call's candidate first |
| Manager.EarlierReduceText | spec/compiler/build_tables/conflict_manager_spec.cc:170 | the record for reduce rule1 offered against reduce rule2 reads exactly as the test expects |
| Manager.LexFavorsNonErrors | spec/compiler/build_tables/conflict_manager_spec.cc:40-46 | error then advance replaces; advance then error does not |
| Manager.LexPrefersEarlierTokens | spec/compiler/build_tables/conflict_manager_spec.cc:48-54 | accepting token2 does not replace token1, and token1 replaces token2 |
| Manager.ParseFavorsNonErrors | spec/compiler/build_tables/conflict_manager_spec.cc:61-67 | error then shift replaces; shift then error does not |
| Manager.ShiftWithHigherPrecedence | spec/compiler/build_tables/conflict_manager_spec.cc:70-84 | shift {3} against reduce at 1: the shift wins from both sides and no conflict is recorded |
| Manager.ReduceWithHigherPrecedence | spec/compiler/build_tables/conflict_manager_spec.cc:86-100 | shift {1} against reduce at 3: the reduce wins from both sides and no conflict is recorded |
| Manager.ShiftReduceWithEqualPrecedence | spec/compiler/build_tables/conflict_manager_spec.cc:102-118 | shift {0} against reduce at 0: the shift wins from both sides and exactly one record is kept, with the test's text |
| Manager.ShiftReduceWithStraddlingPrecedences | spec/compiler/build_tables/conflict_manager_spec.cc:120-136 | shift {0, 1, 3} against reduce at 2: the shift wins from both sides and exactly one record is kept, with the test's text |
| Manager.ReduceReduceWithDifferentPrecedence | spec/compiler/build_tables/conflict_manager_spec.cc:140-154 | reduce at 3 beats reduce at 0 from both sides, and no conflict is recorded |
| Manager.ReduceReduceWithEqualPrecedence | spec/compiler/build_tables/conflict_manager_spec.cc:156-173 | between reduces of rule1 and rule2 at 0, rule1 wins from both sides; the list holds both records in call order, with the test's texts |

## Left out

- The implementation header `compiler/build_tables/conflict_manager.h` is not part of this model. Every rule above is taken from what the unit test asserts, plus the design choices below.
- Rule bodies and regular-expression patterns of `PreparedGrammar`, and the auxiliary rule list: only the order of rule names matters to resolution.
- The kind of a symbol (rule or token): a lexical decision looks names up in the lexical grammar and a syntactic one in the syntax grammar, so the kind is never consulted.
- The test harness (`describe`, `it`, `before_each`, `after_each`) and the heap allocation and deletion of the manager: each innermost `describe` block (or lone `it` case) is a method that builds one fresh manager.
- Table construction, item-set closure, code generation and the command-line pipeline, which call or surround the manager.
- C++ `std::string` and stream formatting: a conflict is kept as a structured record, and `Render` gives its text.
- Cases the unit test never exercises get documented defaults. A lexical advance beats an accept, because a state that can consume more input wins (maximal munch). Two advances, two errors and two shifts keep the existing action.
- Display names: a symbol missing from the display-name table is shown under its declared name rather than being rejected.
- Resolution.ParseSelfResolution: a reduce offered against itself still records a conflict, so the list grows by one on each such call. Nothing visible in the source checks whether the two actions are the same, and equal-precedence reduce/reduce records are always appended. So the model does not promise that resolving an action against itself leaves the conflict list unchanged; that holds only for actions other than a reduce.
