/**
 Scripts on which the analyser leaves variables in its values, changes the meaning of an expression,
 stores a bare entry, and raises an exception.
 */
module SymbolicWitnesses {
  import opened Wrappers
  import opened Terms
  import opened Substitution
  import opened DataFlow
  import opened SymbolicResolution
  import opened SymbolicExtension

  /** Names for the scripts: two sources, six other variables. */
  datatype Names = Names(a: Name, b: Name, x: Name, y: Name, z: Name, u: Name, w: Name, v: Name)

  ghost predicate Apt(n: Names) {
    && n.a.Prog? && IsSource(n.a) && n.b.Prog? && IsSource(n.b) && n.a != n.b
    && n.x.Prog? && !IsSource(n.x)
    && n.y.Prog? && !IsSource(n.y)
    && n.z.Prog? && !IsSource(n.z)
    && n.u.Prog? && !IsSource(n.u)
    && n.w.Prog? && !IsSource(n.w)
    && n.v.Prog? && !IsSource(n.v)
    && n.x != n.y && n.x != n.z && n.x != n.u && n.x != n.w && n.x != n.v
    && n.y != n.z && n.y != n.u && n.y != n.w && n.y != n.v && n.z != n.u
    && n.z != n.w && n.z != n.v && n.u != n.w && n.u != n.v && n.w != n.v
  }

  lemma NamesAreThere() returns (n: Names)
    ensures Apt(n)
  {
    n := Names(Prog("$_POST_a"), Prog("$_POST_b"), Prog("x"), Prog("y"), Prog("z"), Prog("u"), Prog("w"), Prog("v"));
    assert n.a.s[1..] == "_POST_a" && n.b.s[1..] == "_POST_b" && MARK <= n.a.s[1..] && MARK <= n.b.s[1..];
    assert Contains(n.a.s[1..], MARK) && Contains(n.b.s[1..], MARK);
    assert n.a.s[7] == 'a' && n.b.s[7] == 'b';
    assert n.x.s[1..] == "" && n.y.s[1..] == "" && n.z.s[1..] == "" && n.u.s[1..] == "" && n.w.s[1..] == "" && n.v.s[1..] == "";
    assert n.x.s[0] == 'x' && n.y.s[0] == 'y' && n.z.s[0] == 'z' && n.u.s[0] == 'u' && n.w.s[0] == 'w' && n.v.s[0] == 'v';
  }

  function F1(op: string, t: Term): Term {
    App(op, [t])
  }

  // ----- the variables of short terms -----

  lemma OneMore(v: Name, occs: seq<Name>)
    ensures VarsOf(Var(v), occs) == if v in occs then occs else occs + [v]
  {
  }

  lemma VarsOfCons(t: Term, ts: seq<Term>, occs: seq<Name>)
    ensures VarsOfAll([t] + ts, occs) == VarsOfAll(ts, VarsOf(t, occs))
  {
    assert ([t] + ts)[1..] == ts;
  }

  lemma VarsOfTwo(op: string, a: Term, b: Term, occs: seq<Name>)
    ensures VarsOf(App(op, [a, b]), occs) == VarsOf(b, VarsOf(a, occs))
  {
    assert [a, b] == [a] + [b] && [b] == [b] + [];
    VarsOfCons(a, [b], occs);
    VarsOfCons(b, [], VarsOf(a, occs));
  }

  lemma VarsOfOne(op: string, v: Name, occs: seq<Name>)
    ensures VarsOf(F1(op, Var(v)), occs) == (if v in occs then occs else occs + [v])
    ensures op != EQ ==> EquationsOf(F1(op, Var(v))) == []
  {
    assert [Var(v)] == [Var(v)] + [];
    VarsOfCons(Var(v), [], occs);
    EquationsCons(Var(v), []);
  }

  lemma OccsSnoc(rv: Values, e: Term, occs: seq<Name>, v: Name)
    ensures SubstOccs(rv, e, occs + [v]) == SubstStep(rv, SubstOccs(rv, e, occs), v)
  {
    assert (occs + [v])[..|occs|] == occs;
  }

  // ----- one substitution -----

  /** A variable with two values: the copy made for the second still holds the variable. */
  lemma VariableStays(n: Names, rv: Values)
    requires Apt(n)
    requires n.x in rv && rv[n.x] == [Var(Arg(0)), Var(Arg(1))]
    ensures Substituted(rv, F1("f", Var(n.x))) == [F1("f", Var(Arg(0))), F1("f", Var(n.x))]
  {
    var e := F1("f", Var(n.x));
    VarsOfOne("f", n.x, []);
    assert VarsOf(e, []) == [] + [n.x];
    OccsSnoc(rv, e, [], n.x);
    Replaced1("f", Var(n.x), Var(n.x), Var(Arg(0)));
    Replaced1("f", Var(n.x), Var(Arg(0)), Var(Arg(1)));
    OneCopy(e, Var(Arg(0)), Var(Arg(1)));
    assert rv[n.x][1..] == [Var(Arg(1))];
  }

  lemma Replaced1(op: string, t: Term, key: Term, val: Term)
    requires key.Var?
    ensures Replace(F1(op, t), key, val) == F1(op, Replace(t, key, val))
  {
    assert [t][1..] == [];
  }

  lemma Replaced2(op: string, a: Term, b: Term, key: Term, val: Term)
    requires key.Var?
    ensures Replace(App(op, [a, b]), key, val) == App(op, [Replace(a, key, val), Replace(b, key, val)])
  {
    assert ReplaceAll([a, b], key, val) == [Replace(a, key, val), Replace(b, key, val)];
  }

  lemma OneCopy(e: Term, key: Term, val: Term)
    ensures Copies([e], key, [val]) == [Replace(e, key, val)]
  {
    assert [val][..0] == [] && [e][1..] == [];
  }

  /** The first value of y is `tmp`, and so is what stands for w: the copy made for the second value
      of y gets that value in the place of w, and keeps y. */
  lemma TmpIsTaken(n: Names, rv: Values)
    requires Apt(n)
    requires n.w !in rv && n.y in rv && rv[n.y] == [Var(Tmp), Var(Arg(0))]
    ensures Substituted(rv, App("f", [Var(n.w), Var(n.y)]))
         == [App("f", [Var(Tmp), Var(Tmp)]), App("f", [Var(Arg(0)), Var(n.y)])]
  {
    var e := App("f", [Var(n.w), Var(n.y)]);
    VarsOfTwo("f", Var(n.w), Var(n.y), []);
    assert VarsOf(e, []) == [n.w] + [n.y] && [n.w] == [] + [n.w];
    OccsSnoc(rv, e, [], n.w);
    OccsSnoc(rv, e, [n.w], n.y);
    Replaced2("f", Var(n.w), Var(n.y), Var(n.w), Var(Tmp));
    var e1 := App("f", [Var(Tmp), Var(n.y)]);
    assert SubstOccs(rv, e, [n.w]) == [e1];
    Replaced2("f", Var(Tmp), Var(n.y), Var(n.y), Var(Tmp));
    Replaced2("f", Var(Tmp), Var(n.y), Var(Tmp), Var(Arg(0)));
    OneCopy(e1, Var(Tmp), Var(Arg(0)));
    assert rv[n.y][1..] == [Var(Arg(0))];
  }

  /** A variable alone. */
  lemma VariableAlone(rv: Values, v: Name)
    requires v in rv ==> |rv[v]| <= 1
    ensures Substituted(rv, Var(v)) == [First(rv, v)]
  {
    var e := Var(v);
    assert VarsOf(e, []) == [] + [v];
    OccsSnoc(rv, e, [], v);
  }

  // ----- what is collected from a script, equation by equation -----

  /** A script of equations, its variables in order, and what is sorted out with these sources. */
  ghost predicate Shown(script: seq<Term>, sources: seq<Name>, vars: seq<Name>, f: Facts) {
    && WellFormed(script) && AllEquations(script) == script && AllVars(script) == vars
    && SortedAll(sources, Facts(SourceExprs(sources), []), script) == f
  }

  lemma ShownNone(sources: seq<Name>)
    ensures Shown([], sources, [], Facts(SourceExprs(sources), []))
  {
  }

  lemma ShownMore(script: seq<Term>, sources: seq<Name>, vars: seq<Name>, f: Facts, t: Term)
    requires Shown(script, sources, vars, f) && ScriptTerm(t) && IsEquation(t) && EquationsOf(t) == [t]
    ensures Shown(script + [t], sources, VarsOf(t, vars), Sorted(sources, f, t))
  {
    hide EquationsOf, VarsOf, ScriptTerm, IsEquation, Sorted, AllEquations, AllVars, SortedAll;
    AllSnoc(script, t);
    SortedSnoc(sources, Facts(SourceExprs(sources), []), script, t);
  }

  /** One more equation that defines a variable. */
  lemma Defines(script: seq<Term>, sources: seq<Name>, vars: seq<Name>, f: Facts, v: Name, t: Term)
    requires Shown(script, sources, vars, f) && v.Prog? && v !in sources && ScriptTerm(t) && EquationsOf(t) == []
    ensures Shown(script + [Equals(Var(v), t)], sources, VarsOf(t, if v in vars then vars else vars + [v]),
                  Facts(Note(f.exprs, v, t), f.pairs + [(VarsOf(t, []), [v])]))
  {
    hide Shown, EquationsOf, VarsOf, ScriptTerm, Sorted, Note;
    Defining(v, t);
    ShownMore(script, sources, vars, f, Equals(Var(v), t));
    VarsOfTwo(EQ, Var(v), t, vars);
    OneMore(v, vars);
    SortedVar(sources, f, v, t);
  }

  lemma ShownCollected(script: seq<Term>, sources: seq<Name>, vars: seq<Name>, f: Facts)
    requires Shown(script, sources, vars, f) && SourcesOf(vars) == sources
    ensures WellFormed(script) && SourcesOf(AllVars(script)) == sources && Collected(script) == f
    ensures AllEquations(script) == script
  {
  }

  lemma SourceExprsAre(s: Name, t: Name)
    ensures SourceExprs([]) == map[] && SourceExprs([s]) == map[s := [Var(s)]]
    ensures SourceExprs([s, t]) == map[s := [Var(s)], t := [Var(t)]]
  {
    assert [s][..0] == [] && [s, t][..1] == [s];
    assert SourceExprs([s]) == map[s := [Var(s)]];
  }

  lemma Noted(exprs: Exprs, v: Name, e: Term, d: Term)
    requires v !in exprs
    ensures Note(exprs, v, e) == exprs[v := [e]] && Note(exprs[v := [e]], v, d) == exprs[v := [e, d]]
  {
    assert [] + [e] == [e] && [e] + [d] == [e, d];
  }

  // ----- scripts without cycles -----

  /** Every recorded flow grows along the given ranks. */
  ghost predicate Grows(pairs: seq<(seq<Name>, seq<Name>)>, rank: map<Name, nat>) {
    forall u, v :: Flows(pairs, u, v) ==> u in rank && v in rank && rank[u] < rank[v]
  }

  lemma GrowsIsRanked(pairs: seq<(seq<Name>, seq<Name>)>, sources: seq<Name>, rank: map<Name, nat>) returns (all: map<Name, nat>)
    requires Grows(pairs, rank)
    ensures Ranked(BuildGraph(pairs), sources, all)
  {
    var g := BuildGraph(pairs);
    BuildGraphMeaning(pairs);
    all := map v | v in g.ine :: if v in rank then rank[v] else 0;
    forall u, v | Edge(g, u, v) && u in g.ine
      ensures u in all && v in all && all[u] < all[v]
    {
      assert Flows(pairs, u, v);
    }
  }

  /** A script whose flow has no cycle: no cycle is broken, nothing is bare, no exception is raised. */
  lemma AcyclicScript(script: seq<Term>, rank: map<Name, nat>)
    requires WellFormed(script) && Grows(Collected(script).pairs, rank)
    ensures Analysed(script).broken == [] && !Analysed(script).crashed
    ensures Computed(Collected(script).exprs, SourcesOf(AllVars(script)), Analysed(script))
  {
    var f, sources := Collected(script), SourcesOf(AllVars(script));
    var all := GrowsIsRanked(f.pairs, sources, rank);
    BuildGraphMeaning(f.pairs);
    CollectedIsSound(script);
    AnalysisKeeps(script);
    BreaksOnlyCycles(BuildGraph(f.pairs), f.exprs, sources);
    hide Collected, AllVars, SourcesOf, Order, Layered, Computed, BuildGraph;
    AnalysisCrashesIff(script);
  }

  /** The values of a script without cycles: of its sources, of variables into which something flows,
      and of others. */
  lemma AcyclicValues(script: seq<Term>, rank: map<Name, nat>)
    requires WellFormed(script) && Grows(Collected(script).pairs, rank)
    ensures var f, sources, r := Collected(script), SourcesOf(AllVars(script)), Analysed(script);
      && !r.crashed
      && (forall k :: 0 <= k < |sources| ==> sources[k] in r.rv && r.rv[sources[k]] == [Var(Arg(k))])
      && (forall u, v :: Flows(f.pairs, u, v) && v !in sources && v in f.exprs ==>
            v in r.rv && r.rv[v] == ValuesOf(r.rv, f.exprs[v]))
      && (forall v :: v !in sources && v !in f.exprs ==> v !in r.rv)
  {
    var f, sources, r := Collected(script), SourcesOf(AllVars(script)), Analysed(script);
    AcyclicScript(script, rank);
    AnalysisKeeps(script);
    BuildGraphMeaning(f.pairs);
    hide Collected, Analysed, BuildGraph, Order, Layered, ValuesInv, AllVars, SourcesOf, WellFormed, ValuesOf;
    forall v | v in r.done && v !in sources
      ensures Settled(f.exprs, r, v)
    {
    }
    forall u, v | Flows(f.pairs, u, v)
      ensures v in r.done
    {
      assert Edge(BuildGraph(f.pairs), u, v);
      assert v in BuildGraph(f.pairs).keys;
    }
  }

  lemma OneExpr(rv: Values, e: Term)
    ensures ValuesOf(rv, [e]) == Substituted(rv, e)
  {
    assert [e][..0] == [];
    assert ValuesOf(rv, []) == [];
  }

  lemma TwoExprs(rv: Values, e: Term, d: Term)
    ensures ValuesOf(rv, [e, d]) == Substituted(rv, e) + Substituted(rv, d)
  {
    assert [e, d][..1] == [e];
    OneExpr(rv, e);
  }

  lemma TwoVariables(rv: Values, u: Name, v: Name)
    requires !Several(rv, u) && !Several(rv, v)
    ensures ValuesOf(rv, [Var(u), Var(v)]) == [First(rv, u), First(rv, v)]
  {
    TwoExprs(rv, Var(u), Var(v));
    VariableAlone(rv, u);
    VariableAlone(rv, v);
  }

  /** A variable, or an operator on one, as the right-hand side of a definition. */
  lemma RightSide(op: string, v: Name, occs: seq<Name>)
    requires v.Prog? && op != EQ
    ensures ScriptTerm(Var(v)) && EquationsOf(Var(v)) == [] && VarsOf(Var(v), []) == [v]
    ensures VarsOf(Var(v), occs) == if v in occs then occs else occs + [v]
    ensures ScriptTerm(F1(op, Var(v))) && EquationsOf(F1(op, Var(v))) == [] && VarsOf(F1(op, Var(v)), []) == [v]
    ensures VarsOf(F1(op, Var(v)), occs) == if v in occs then occs else occs + [v]
  {
    hide EquationsOf;
    VarsOfOne(op, v, occs);
    VarsOfOne(op, v, []);
    NoneInVar(v);
  }

  // ----- a variable stays in a value -----

  /** `(= x $_POST_a) (= x $_POST_b) (= y (f x))` */
  function TwiceDefined(n: Names): seq<Term> {
    [Equals(Var(n.x), Var(n.a))] + [Equals(Var(n.x), Var(n.b))] + [Equals(Var(n.y), F1("f", Var(n.x)))]
  }

  /** Two definitions of x by the sources. */
  lemma TwiceDefinedShown(n: Names)
    requires Apt(n)
    ensures Shown([Equals(Var(n.x), Var(n.a))] + [Equals(Var(n.x), Var(n.b))], [n.a, n.b], [n.x, n.a, n.b],
                  Facts(map[n.a := [Var(n.a)], n.b := [Var(n.b)], n.x := [Var(n.a), Var(n.b)]],
                        [([n.a], [n.x]), ([n.b], [n.x])]))
  {
    hide Shown, Equals, F1, VarsOf, Note, SourceExprs, EquationsOf, IsSource, ScriptTerm;
    var e1, s, exprs := [Equals(Var(n.x), Var(n.a))], [n.a, n.b], map[n.a := [Var(n.a)], n.b := [Var(n.b)]];
    var f1 := Facts(exprs[n.x := [Var(n.a)]], [([n.a], [n.x])]);
    SourceExprsAre(n.a, n.b);
    ShownNone(s);
    RightSide("f", n.a, [n.x]);
    RightSide("f", n.b, [n.x, n.a]);
    Noted(exprs, n.x, Var(n.a), Var(n.b));
    assert [] + [n.x] == [n.x] && [n.x] + [n.a] == [n.x, n.a] && [n.x, n.a] + [n.b] == [n.x, n.a, n.b];
    assert [] + f1.pairs == f1.pairs && f1.pairs + [([n.b], [n.x])] == [([n.a], [n.x]), ([n.b], [n.x])];
    Defines([], s, [], Facts(exprs, []), n.x, Var(n.a));
    assert [] + e1 == e1;
    Defines(e1, s, [n.x, n.a], f1, n.x, Var(n.b));
  }

  lemma TwiceDefinedFacts(n: Names) returns (f: Facts)
    requires Apt(n)
    ensures WellFormed(TwiceDefined(n)) && SourcesOf(AllVars(TwiceDefined(n))) == [n.a, n.b]
    ensures f == Collected(TwiceDefined(n)) && f.pairs == [([n.a], [n.x]), ([n.b], [n.x]), ([n.x], [n.y])]
    ensures f.exprs == map[n.a := [Var(n.a)], n.b := [Var(n.b)], n.x := [Var(n.a), Var(n.b)], n.y := [F1("f", Var(n.x))]]
  {
    hide Shown, Equals, F1, VarsOf, Note, SourceExprs, EquationsOf, IsSource, ScriptTerm, SourcesOf;
    var exprs := map[n.a := [Var(n.a)], n.b := [Var(n.b)], n.x := [Var(n.a), Var(n.b)]];
    var pairs := [([n.a], [n.x]), ([n.b], [n.x])];
    TwiceDefinedShown(n);
    RightSide("f", n.x, [n.x, n.a, n.b, n.y]);
    Noted(exprs, n.y, F1("f", Var(n.x)), Var(n.x));
    Defines([Equals(Var(n.x), Var(n.a))] + [Equals(Var(n.x), Var(n.b))], [n.a, n.b], [n.x, n.a, n.b], Facts(exprs, pairs),
            n.y, F1("f", Var(n.x)));
    assert [n.x, n.a, n.b] + [n.y] == [n.x, n.a, n.b, n.y];
    f := Facts(exprs[n.y := [F1("f", Var(n.x))]], pairs + [([n.x], [n.y])]);
    TwoSources(n.x, n.a, n.b, n.y);
    ShownCollected(TwiceDefined(n), [n.a, n.b], [n.x, n.a, n.b, n.y], f);
  }

  lemma TwoSources(x: Name, a: Name, b: Name, y: Name)
    requires !IsSource(x) && IsSource(a) && IsSource(b) && !IsSource(y)
    ensures SourcesOf([x, a, b, y]) == [a, b]
  {
    hide IsSource;
    NoNewSources([], [x]);
    assert [] + [x] == [x] && [x] + [a] == [x, a] && [x, a] + [b] == [x, a, b] && [x, a, b] + [y] == [x, a, b, y];
    SourcesSnoc([x], a);
    SourcesSnoc([x, a], b);
    SourcesSnoc([x, a, b], y);
  }

  /** The second value of y is `(f x)`: it is not over `$A`s and `tmp`. */
  lemma ValueHoldsVariable(n: Names)
    requires Apt(n)
    ensures WellFormed(TwiceDefined(n)) && !Analysed(TwiceDefined(n)).crashed
    ensures n.y in Analysed(TwiceDefined(n)).rv
         && Analysed(TwiceDefined(n)).rv[n.y] == [F1("f", Var(Arg(0))), F1("f", Var(n.x))]
  {
    hide TwiceDefined, Analysed, AllVars, SourcesOf, WellFormed, Substituted, ValuesOf, IsSource, F1, Collected;
    var f := TwiceDefinedFacts(n);
    var rank := map[n.a := 0, n.b := 0, n.x := 1, n.y := 2];
    assert Grows(f.pairs, rank);
    AcyclicValues(TwiceDefined(n), rank);
    var rv := Analysed(TwiceDefined(n)).rv;
    assert [n.a, n.b][0] == n.a && [n.a, n.b][1] == n.b;
    assert Flows(f.pairs, n.b, n.x) by { assert n.b in f.pairs[1].0 && n.x in f.pairs[1].1; }
    assert Flows(f.pairs, n.x, n.y) by { assert n.x in f.pairs[2].0 && n.y in f.pairs[2].1; }
    TwoVariables(rv, n.a, n.b);
    VariableStays(n, rv);
    OneExpr(rv, F1("f", Var(n.x)));
  }

  // ----- a value of another meaning -----

  /** `(= y u) (= y $_POST_a) (= z (f w y))` */
  function HalfResolved(n: Names): seq<Term> {
    [Equals(Var(n.y), Var(n.u))] + [Equals(Var(n.y), Var(n.a))] + [Equals(Var(n.z), App("f", [Var(n.w), Var(n.y)]))]
  }

  /** Two definitions of y, one by a source. */
  lemma HalfResolvedShown(n: Names)
    requires Apt(n)
    ensures Shown([Equals(Var(n.y), Var(n.u))] + [Equals(Var(n.y), Var(n.a))], [n.a], [n.y, n.u, n.a],
                  Facts(map[n.a := [Var(n.a)], n.y := [Var(n.u), Var(n.a)]], [([n.u], [n.y]), ([n.a], [n.y])]))
  {
    hide Shown, Equals, F1, VarsOf, Note, SourceExprs, EquationsOf, IsSource, ScriptTerm;
    var e1, s, exprs := [Equals(Var(n.y), Var(n.u))], [n.a], map[n.a := [Var(n.a)]];
    var f1 := Facts(exprs[n.y := [Var(n.u)]], [([n.u], [n.y])]);
    SourceExprsAre(n.a, n.b);
    ShownNone(s);
    RightSide("f", n.u, [n.y]);
    RightSide("f", n.a, [n.y, n.u]);
    Noted(exprs, n.y, Var(n.u), Var(n.a));
    assert [] + [n.y] == [n.y] && [n.y] + [n.u] == [n.y, n.u] && [n.y, n.u] + [n.a] == [n.y, n.u, n.a];
    assert [] + f1.pairs == f1.pairs && f1.pairs + [([n.a], [n.y])] == [([n.u], [n.y]), ([n.a], [n.y])];
    Defines([], s, [], Facts(exprs, []), n.y, Var(n.u));
    assert [] + e1 == e1;
    Defines(e1, s, [n.y, n.u], f1, n.y, Var(n.a));
  }

  lemma TwoOperands(op: string, w: Name, y: Name, occs: seq<Name>)
    requires w.Prog? && y.Prog? && w != y && op != EQ
    ensures var t := App(op, [Var(w), Var(y)]);
      && ScriptTerm(t) && EquationsOf(t) == [] && VarsOf(t, []) == [w, y]
      && (w !in occs && y in occs ==> VarsOf(t, occs) == occs + [w])
  {
    hide EquationsOf;
    NoneInVar(w);
    NoneInVar(y);
    EquationsOfTwo(op, Var(w), Var(y));
    VarsOfTwo(op, Var(w), Var(y), []);
    VarsOfTwo(op, Var(w), Var(y), occs);
    assert [] + [w] == [w] && [w] + [y] == [w, y];
  }

  lemma HalfResolvedFacts(n: Names) returns (f: Facts)
    requires Apt(n)
    ensures WellFormed(HalfResolved(n)) && SourcesOf(AllVars(HalfResolved(n))) == [n.a]
    ensures AllEquations(HalfResolved(n)) == HalfResolved(n)
    ensures f == Collected(HalfResolved(n)) && f.pairs == [([n.u], [n.y]), ([n.a], [n.y]), ([n.w, n.y], [n.z])]
    ensures f.exprs == map[n.a := [Var(n.a)], n.y := [Var(n.u), Var(n.a)], n.z := [App("f", [Var(n.w), Var(n.y)])]]
  {
    hide Shown, Equals, VarsOf, Note, SourceExprs, EquationsOf, IsSource, ScriptTerm, SourcesOf;
    var t, exprs := App("f", [Var(n.w), Var(n.y)]), map[n.a := [Var(n.a)], n.y := [Var(n.u), Var(n.a)]];
    var pairs := [([n.u], [n.y]), ([n.a], [n.y])];
    HalfResolvedShown(n);
    TwoOperands("f", n.w, n.y, [n.y, n.u, n.a, n.z]);
    Noted(exprs, n.z, t, t);
    Defines([Equals(Var(n.y), Var(n.u))] + [Equals(Var(n.y), Var(n.a))], [n.a], [n.y, n.u, n.a], Facts(exprs, pairs), n.z, t);
    assert [n.y, n.u, n.a] + [n.z] == [n.y, n.u, n.a, n.z] && [n.y, n.u, n.a, n.z] + [n.w] == [n.y, n.u, n.a, n.z, n.w];
    f := Facts(exprs[n.z := [t]], pairs + [([n.w, n.y], [n.z])]);
    OneSource(n);
    ShownCollected(HalfResolved(n), [n.a], [n.y, n.u, n.a, n.z, n.w], f);
  }

  lemma OneSource(n: Names)
    requires Apt(n)
    ensures SourcesOf([n.y, n.u, n.a, n.z, n.w]) == [n.a]
  {
    hide IsSource;
    NoNewSources([], [n.y, n.u]);
    SourcesSnoc([n.y, n.u], n.a);
    NoNewSources([n.y, n.u, n.a], [n.z, n.w]);
    assert [] + [n.y, n.u] == [n.y, n.u] && [n.y, n.u] + [n.a] == [n.y, n.u, n.a];
    assert [n.y, n.u, n.a] + [n.z, n.w] == [n.y, n.u, n.a, n.z, n.w];
  }

  lemma HalfResolvedValues(n: Names)
    requires Apt(n)
    ensures WellFormed(HalfResolved(n)) && !Analysed(HalfResolved(n)).crashed
    ensures n.y in Analysed(HalfResolved(n)).rv && Analysed(HalfResolved(n)).rv[n.y] == [Var(Tmp), Var(Arg(0))]
    ensures n.z in Analysed(HalfResolved(n)).rv
         && Analysed(HalfResolved(n)).rv[n.z] == [App("f", [Var(Tmp), Var(Tmp)]), App("f", [Var(Arg(0)), Var(n.y)])]
  {
    hide HalfResolved, Analysed, AllVars, SourcesOf, WellFormed, Substituted, ValuesOf, IsSource, Collected, AllEquations;
    var f := HalfResolvedFacts(n);
    var rank := map[n.a := 0, n.u := 0, n.w := 0, n.y := 1, n.z := 2];
    assert Grows(f.pairs, rank);
    AcyclicValues(HalfResolved(n), rank);
    var rv := Analysed(HalfResolved(n)).rv;
    assert [n.a][0] == n.a;
    assert Flows(f.pairs, n.u, n.y) by { assert n.u in f.pairs[0].0 && n.y in f.pairs[0].1; }
    assert Flows(f.pairs, n.w, n.z) by { assert n.w in f.pairs[2].0 && n.z in f.pairs[2].1; }
    TwoVariables(rv, n.u, n.a);
    TmpIsTaken(n, rv);
    OneExpr(rv, App("f", [Var(n.w), Var(n.y)]));
  }

  /** w and z are true, everything else false, and an operator gives its first argument. */
  function WAndZ(n: Names): Interp<bool> {
    Interp(m => m == n.w || m == n.z, (_, xs) => |xs| > 0 && xs[0])
  }

  lemma DefinitionHolds(n: Names, v: Name, t: Term)
    requires Eval(WAndZ(n), t) == WAndZ(n).env(v)
    ensures IsEquation(Equals(Var(v), t)) && Holds(WAndZ(n), Equals(Var(v), t))
  {
  }

  lemma FirstOperand(n: Names, op: string, a: Term, b: Term)
    ensures Eval(WAndZ(n), App(op, [a, b])) == Eval(WAndZ(n), a)
  {
  }

  lemma WAndZSatisfies(n: Names)
    requires Apt(n)
    ensures WellFormed(HalfResolved(n)) && Satisfies(WAndZ(n), HalfResolved(n))
  {
    hide Collected, AllVars, SourcesOf, AllEquations, WellFormed, IsSource, Equals, Holds, IsEquation;
    var f := HalfResolvedFacts(n);
    DefinitionHolds(n, n.y, Var(n.u));
    DefinitionHolds(n, n.y, Var(n.a));
    FirstOperand(n, "f", Var(n.w), Var(n.y));
    DefinitionHolds(n, n.z, App("f", [Var(n.w), Var(n.y)]));
    assert forall e :: 0 <= e < |HalfResolved(n)| ==> Holds(WAndZ(n), HalfResolved(n)[e]);
  }

  /** The second value of z, `(f $A0 y)`, is free of `tmp`, but under an interpretation that satisfies
      the script it does not mean z. */
  lemma ValueChangesMeaning(n: Names)
    requires Apt(n)
    ensures WellFormed(HalfResolved(n)) && !Analysed(HalfResolved(n)).crashed && Satisfies(WAndZ(n), HalfResolved(n))
    ensures n.z in Analysed(HalfResolved(n)).rv && |Analysed(HalfResolved(n)).rv[n.z]| == 2
    ensures NoTmp(Analysed(HalfResolved(n)).rv[n.z][1])
    ensures !FirstFits(Analysed(HalfResolved(n)).rv, n.y)
    ensures Eval(WAndZ(n), Analysed(HalfResolved(n)).rv[n.z][1]) != WAndZ(n).env(n.z)
  {
    hide Analysed, HalfResolved, WellFormed, IsSource, Satisfies;
    HalfResolvedValues(n);
    WAndZSatisfies(n);
    assert NoTmp(Analysed(HalfResolved(n)).rv[n.y][1]);
  }

  // ----- a bare entry, and an exception -----

  /** `(= (f u) (g v))` */
  function Compare(u: Name, v: Name): Term {
    Equals(F1("f", Var(u)), F1("g", Var(v)))
  }

  /** `(= (f x) (g v)) (= (f v) (g x))` */
  function Circular(n: Names): seq<Term> {
    [Compare(n.x, n.v)] + [Compare(n.v, n.x)]
  }

  /** The same and `(= y (h x))`. */
  function UsesCircular(n: Names): seq<Term> {
    Circular(n) + [Equals(Var(n.y), F1("h", Var(n.x)))]
  }

  /** One more equation between two applications to a variable. */
  lemma Compares(script: seq<Term>, vars: seq<Name>, f: Facts, u: Name, v: Name)
    requires Shown(script, [], vars, f) && u.Prog? && v.Prog?
    ensures Shown(script + [Compare(u, v)], [], VarsOf(Var(v), VarsOf(Var(u), vars)), Facts(f.exprs, f.pairs + [([u], [v])]))
  {
    hide EquationsOf, ScriptTerm, Shown;
    var a, b := F1("f", Var(u)), F1("g", Var(v));
    RightSide("f", u, vars);
    RightSide("g", v, VarsOf(Var(u), vars));
    EquationsOfTwo(EQ, a, b);
    VarsOfTwo(EQ, a, b, vars);
    BothScript(a, b);
    ShownMore(script, [], vars, f, Equals(a, b));
  }

  lemma BothScript(a: Term, b: Term)
    requires ScriptTerm(a) && ScriptTerm(b)
    ensures ScriptTerm(Equals(a, b))
  {
  }

  lemma CircularShown(n: Names)
    requires Apt(n)
    ensures Shown(Circular(n), [], [n.x, n.v], Facts(map[], [([n.x], [n.v]), ([n.v], [n.x])]))
  {
    hide Shown, IsSource, Compare, VarsOf;
    var f1 := Facts(map[], [([n.x], [n.v])]);
    SourceExprsAre(n.a, n.b);
    ShownNone([]);
    OneMore(n.x, []);
    OneMore(n.v, [n.x]);
    assert [] + [n.x] == [n.x] && [n.x] + [n.v] == [n.x, n.v] && [] + f1.pairs == f1.pairs;
    Compares([], [], Facts(map[], []), n.x, n.v);
    assert [] + [Compare(n.x, n.v)] == [Compare(n.x, n.v)];
    OneMore(n.v, [n.x, n.v]);
    OneMore(n.x, [n.x, n.v]);
    assert f1.pairs + [([n.v], [n.x])] == [([n.x], [n.v]), ([n.v], [n.x])];
    Compares([Compare(n.x, n.v)], [n.x, n.v], f1, n.v, n.x);
  }

  lemma CircularCollected(n: Names)
    requires Apt(n)
    ensures WellFormed(Circular(n)) && SourcesOf(AllVars(Circular(n))) == []
    ensures Collected(Circular(n)) == Facts(map[], [([n.x], [n.v]), ([n.v], [n.x])])
  {
    hide Shown, IsSource, Circular;
    CircularShown(n);
    NoNewSources([], [n.x, n.v]);
    assert [] + [n.x, n.v] == [n.x, n.v];
    ShownCollected(Circular(n), [], [n.x, n.v], Facts(map[], [([n.x], [n.v]), ([n.v], [n.x])]));
  }

  lemma UsesCircularCollected(n: Names)
    requires Apt(n)
    ensures WellFormed(UsesCircular(n)) && SourcesOf(AllVars(UsesCircular(n))) == []
    ensures Collected(UsesCircular(n))
         == Facts(map[n.y := [F1("h", Var(n.x))]], [([n.x], [n.v]), ([n.v], [n.x]), ([n.x], [n.y])])
  {
    hide Shown, IsSource, Circular, F1, Equals, VarsOf, EquationsOf, ScriptTerm, Note;
    var t, f := F1("h", Var(n.x)), Facts(map[], [([n.x], [n.v]), ([n.v], [n.x])]);
    CircularShown(n);
    RightSide("h", n.x, [n.x, n.v, n.y]);
    Noted(map[], n.y, t, t);
    Defines(Circular(n), [], [n.x, n.v], f, n.y, t);
    assert [n.x, n.v] + [n.y] == [n.x, n.v, n.y] && [] + [n.x, n.v, n.y] == [n.x, n.v, n.y];
    assert f.pairs + [([n.x], [n.y])] == [([n.x], [n.v]), ([n.v], [n.x]), ([n.x], [n.y])];
    NoNewSources([], [n.x, n.v, n.y]);
    ShownCollected(UsesCircular(n), [], [n.x, n.v, n.y], Facts(map[n.y := [t]], f.pairs + [([n.x], [n.y])]));
  }

  lemma ThreeEdges(x: Name, v: Name, y: Name)
    requires x != v && x != y && v != y
    ensures AddEdge(Graph([], map[]), x, v) == Graph([x, v], map[x := [], v := [x]])
    ensures AddEdge(Graph([x, v], map[x := [], v := [x]]), v, x) == Graph([x, v], map[x := [v], v := [x]])
    ensures AddEdge(Graph([x, v], map[x := [v], v := [x]]), x, y) == Graph([x, v, y], map[x := [v], v := [x], y := [x]])
  {
    assert [] + [x] == [x] && [] + [v] == [v] && [x] + [v] == [x, v] && [x, v] + [y] == [x, v, y];
  }

  lemma PairEdge(pairs: seq<(seq<Name>, seq<Name>)>, u: Name, v: Name)
    ensures BuildGraph(pairs + [([u], [v])]) == AddEdge(BuildGraph(pairs), u, v)
  {
    var g := BuildGraph(pairs);
    BuildStep(pairs, [u], v);
    assert [u][..0] == [] && [v][..0] == [];
    assert AddPair(g, [], [v]) == g && AddRow(g, u, []) == g && AddRow(g, u, [v]) == AddEdge(g, u, v);
  }

  lemma CircularGraph(n: Names)
    requires Apt(n)
    ensures BuildGraph([([n.x], [n.v]), ([n.v], [n.x])]) == Graph([n.x, n.v], map[n.x := [n.v], n.v := [n.x]])
    ensures BuildGraph([([n.x], [n.v]), ([n.v], [n.x]), ([n.x], [n.y])])
         == Graph([n.x, n.v, n.y], map[n.x := [n.v], n.v := [n.x], n.y := [n.x]])
  {
    assert BuildGraph([]) == Graph([], map[]);
    hide BuildGraph, AddEdge, IsSource;
    var p1, p2, p3 := [([n.x], [n.v])], [([n.v], [n.x])], [([n.x], [n.y])];
    assert [] + p1 == p1 && p1 + p2 == [([n.x], [n.v]), ([n.v], [n.x])];
    assert p1 + p2 + p3 == [([n.x], [n.v]), ([n.v], [n.x]), ([n.x], [n.y])];
    PairEdge([], n.x, n.v);
    PairEdge(p1, n.v, n.x);
    PairEdge(p1 + p2, n.x, n.y);
    ThreeEdges(n.x, n.v, n.y);
  }

  /** Without sources, where every key depends on something, a cycle is broken at the first key. */
  lemma FirstKeyBreaks(script: seq<Term>, g: Graph)
    requires WellFormed(script) && SourcesOf(AllVars(script)) == [] && g == BuildGraph(Collected(script).pairs)
    requires g.keys != [] && forall v :: v in g.ine ==> g.ine[v] != []
    ensures Analysed(script).done != [] && Analysed(script).done[0] == g.keys[0] && g.keys[0] in Analysed(script).broken
  {
    hide Collected, Analysed, BuildGraph, AllVars, SourcesOf, ValuesInv, Layered;
    AnalysisKeeps(script);
    var r := Analysed(script);
    assert g.keys[0] in r.done;
    var v := r.done[0];
    assert r.done[..0] == [];
    assert Edge(g, g.ine[v][0], v);
    assert !PredecessorsIn(g, v, []);
    assert BreaksAt(g, [], v);
  }


  /** The entry of x is bare in the end. */
  lemma EntryIsBare(n: Names)
    requires Apt(n)
    ensures WellFormed(Circular(n)) && !Analysed(Circular(n)).crashed && n.x in Analysed(Circular(n)).bare
  {
    hide Collected, Analysed, BuildGraph, AllVars, SourcesOf, WellFormed, Circular, IsSource, Order, Layered;
    CircularCollected(n);
    CircularGraph(n);
    FirstKeyBreaks(Circular(n), BuildGraph(Collected(Circular(n)).pairs));
    AnalysisCrashesIff(Circular(n));
    AnalysisKeeps(Circular(n));
  }

  /** Evaluating y asks for the length of the bare entry of x. */
  lemma BareEntryRaises(n: Names)
    requires Apt(n)
    ensures WellFormed(UsesCircular(n)) && Analysed(UsesCircular(n)).crashed
  {
    hide Collected, Analysed, BuildGraph, AllVars, SourcesOf, WellFormed, UsesCircular, IsSource;
    UsesCircularCollected(n);
    CircularGraph(n);
    var script := UsesCircular(n);
    var g := BuildGraph(Collected(script).pairs);
    FirstKeyBreaks(script, g);
    YIsEvaluated(n, script, g);
    RightSide("h", n.x, []);
    assert F1("h", Var(n.x)) in Collected(script).exprs[n.y];
    assert ScriptUses(script, n.y, F1("h", Var(n.x)), n.x);
    AnalysisCrashesIff(script);
  }

  lemma YIsEvaluated(n: Names, script: seq<Term>, g: Graph)
    requires Apt(n)
    requires WellFormed(script) && SourcesOf(AllVars(script)) == [] && g == BuildGraph(Collected(script).pairs)
    requires g == Graph([n.x, n.v, n.y], map[n.x := [n.v], n.v := [n.x], n.y := [n.x]]) && n.y in Collected(script).exprs
    requires Analysed(script).done != [] && Analysed(script).done[0] == n.x
    ensures Evaluated(Collected(script).exprs, [], Analysed(script), n.y)
  {
    hide Collected, Analysed, BuildGraph, AllVars, SourcesOf, ValuesInv, Layered;
    AnalysisKeeps(script);
    var r := Analysed(script);
    assert g.keys[2] == n.y && n.y in r.done;
    var j :| 0 <= j < |r.done| && r.done[j] == n.y;
    assert r.done[..j][0] == n.x && n.y !in r.done[..j];
    assert Ready(g, r.done[..j], g.keys[2]);
    assert !BreaksAt(g, r.done[..j], n.y);
  }

  // ----- names -----

  /** There are such scripts: the four witnesses for names that are there. */
  lemma WitnessesAreThere() returns (n: Names)
    ensures Apt(n)
    ensures WellFormed(TwiceDefined(n)) && !Analysed(TwiceDefined(n)).crashed && !ValuesClosed(Analysed(TwiceDefined(n)).rv)
    ensures WellFormed(HalfResolved(n)) && Satisfies(WAndZ(n), HalfResolved(n))
    ensures exists v, k :: v in Analysed(HalfResolved(n)).rv && 0 <= k < |Analysed(HalfResolved(n)).rv[v]|
              && NoTmp(Analysed(HalfResolved(n)).rv[v][k]) && Eval(WAndZ(n), Analysed(HalfResolved(n)).rv[v][k]) != WAndZ(n).env(v)
    ensures WellFormed(Circular(n)) && Analysed(Circular(n)).bare != []
    ensures WellFormed(UsesCircular(n)) && Analysed(UsesCircular(n)).crashed
  {
    hide Analysed, TwiceDefined, HalfResolved, Circular, UsesCircular, WellFormed, Satisfies, WAndZ, Apt, Eval;
    n := NamesAreThere();
    ValueHoldsVariable(n);
    ValueChangesMeaning(n);
    EntryIsBare(n);
    BareEntryRaises(n);
    YIsOpen(n);
    assert !Closed(Analysed(TwiceDefined(n)).rv[n.y][1]);
  }

  lemma YIsOpen(n: Names)
    requires Apt(n)
    ensures !Closed(F1("f", Var(n.x)))
  {
    assert !Closed(F1("f", Var(n.x)).args[0]);
  }
}
