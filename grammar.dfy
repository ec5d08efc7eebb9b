/** The grammar catalogue the conflict manager is bound to: symbols, and the
    declaration order of the named rules (syntax) and named patterns (lexical).
    Only the order of the names matters to conflict resolution; rule bodies and
    regular expressions are not modelled. */
module Grammar {

  /** A grammar symbol, identified by its declared name. */
  datatype Symbol = Symbol(name: string)

  /** A prepared grammar reduced to what the resolver reads: the names of its
      rules, in the order they were declared. */
  datatype PreparedGrammar = PreparedGrammar(ruleNames: seq<string>)

  /** The declaration-order index of `name`: the position of its first
      definition, or the number of rules when it is not declared at all (so two
      undeclared names compare equal and neither is "earlier"). */
  function IndexOf(names: seq<string>, name: string): (r: nat)
    ensures r <= |names|
    ensures r < |names| ==> names[r] == name
    ensures forall j :: 0 <= j < r ==> names[j] != name
  {
    if names == [] then 0
    else if names[0] == name then 0
    else 1 + IndexOf(names[1..], name)
  }

  /** The declaration index of symbol `s` in grammar `g`. */
  function OrderOf(g: PreparedGrammar, s: Symbol): nat
  {
    IndexOf(g.ruleNames, s.name)
  }

  /** True iff `a` is declared strictly before `b` in `g`. */
  predicate DeclaredBefore(g: PreparedGrammar, a: Symbol, b: Symbol)
  {
    OrderOf(g, a) < OrderOf(g, b)
  }

  /** A declared name is found, and at the position of its first definition. */
  lemma IndexOfDeclared(names: seq<string>, name: string)
    ensures name in names <==> IndexOf(names, name) < |names|
  {
  }

  /** "Declared earlier" is a strict order on the declared names of a grammar:
      it is irreflexive and transitive, and any two distinct declared names are
      comparable. */
  lemma DeclaredBeforeIsStrictTotal(g: PreparedGrammar, a: Symbol, b: Symbol, c: Symbol)
    ensures !DeclaredBefore(g, a, a)
    ensures DeclaredBefore(g, a, b) && DeclaredBefore(g, b, c) ==> DeclaredBefore(g, a, c)
    ensures a.name in g.ruleNames && b.name in g.ruleNames && a != b ==>
              DeclaredBefore(g, a, b) || DeclaredBefore(g, b, a)
  {
  }

  /** Display names supplied at construction; a symbol without one is shown
      under its declared name. */
  function DisplayName(names: map<Symbol, string>, s: Symbol): (r: string)
    ensures s in names ==> r == names[s]
    ensures s !in names ==> r == s.name
  {
    if s in names then names[s] else s.name
  }

  /** A table that lists every symbol under its own name changes no name, so a
      record built from it shows the names as declared. */
  lemma DisplayNameOfIdentityTable(names: map<Symbol, string>, s: Symbol)
    requires forall t :: t in names ==> names[t] == t.name
    ensures DisplayName(names, s) == s.name
  {
  }
}
