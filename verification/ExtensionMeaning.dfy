/**
 When extending a script by a defining equation keeps the meaning of what is found for the new
 variable: exactly if no variable of the script has a tmp-free value behind a first one with `tmp`.
 */
module ExtensionMeaning {
  import opened Terms
  import opened Substitution
  import opened DataFlow
  import opened SymbolicResolution
  import opened SymbolicExtension

  // ----- the condition carries over -----

  lemma FreeFits(h: Graph, more: Exprs, sources: seq<Name>, q: Progress, u: Name)
    requires Solved(h, more, sources, q) && u !in sources && u in h.ine && h.ine[u] == []
    ensures FirstFits(q.rv, u)
  {
    if Evaluated(more, sources, q, u) {
      EvaluatedValues(h, more, sources, q, u);
      if more[u] != [] {
        ValuesOfFirst(q.rv, more[u]);
        assert forall x :: x in VarsOf(more[u][0], []) ==> Edge(h, x, u);
        assert forall x :: !Edge(h, x, u);
        FirstResultNoTmp(q.rv, more[u][0]);
      }
    } else {
      OtherValues(h, more, sources, q, u);
    }
  }

  lemma KnownFits(g: Graph, h: Graph, exprs: Exprs, more: Exprs, sources: seq<Name>, p: Progress, q: Progress,
      z: Name, e: Term, u: Name)
    requires Adds(g, h, exprs, more, sources, z, e) && Alike(g, sources, p, q)
    requires Solved(g, exprs, sources, p) && Solved(h, more, sources, q)
    requires Known(g, sources, u) && u in q.done && (u in p.rv ==> FirstFits(p.rv, u))
    ensures FirstFits(q.rv, u)
  {
    hide Solved, GraphOk, Layered, ExprsScript;
    assert forall v :: Known(g, sources, v) ==> v != z;
    SameValues(g, h, exprs, more, sources, p, q, u);
  }

  /** If the first values of the script fit, those of the extension do. */
  lemma FitsStay(g: Graph, h: Graph, exprs: Exprs, more: Exprs, sources: seq<Name>, p: Progress, q: Progress,
      z: Name, e: Term)
    requires Adds(g, h, exprs, more, sources, z, e) && Alike(g, sources, p, q)
    requires Solved(g, exprs, sources, p) && Solved(h, more, sources, q)
    requires forall v :: v in p.rv ==> FirstFits(p.rv, v)
    ensures FirstsFit(more, sources, q)
  {
    hide Solved, Adds, Alike, FirstFits, VarsOf;
    forall v, d, u | Uses(more, sources, q, v, d, u)
      ensures FirstFits(q.rv, u)
    {
      UsedIsEarlier(h, more, sources, q, v, d, u);
      if Known(g, sources, u) {
        KnownFits(g, h, exprs, more, sources, p, q, z, e, u);
      } else {
        UnknownIsFree(g, h, exprs, more, sources, z, e, v, d, u);
        FreeFits(h, more, sources, q, u);
      }
    }
  }

  // ----- terms without equations, over given names -----

  /** No equation inside. */
  predicate Plain(t: Term) {
    match t
    case Var(_) => true
    case App(op, args) => op != EQ && forall i :: 0 <= i < |args| ==> Plain(args[i])
  }

  /** No equations inside, and over variables in vars, the first m `$A`s, and `tmp`. */
  predicate Tidy(t: Term, vars: seq<Name>, m: nat) {
    match t
    case Var(n) => (n.Prog? ==> n in vars) && (n.Arg? ==> n.k < m)
    case App(op, args) => op != EQ && forall i :: 0 <= i < |args| ==> Tidy(args[i], vars, m)
  }

  lemma {:induction false} PlainIsTidy(t: Term, vars: seq<Name>, m: nat)
    requires ScriptTerm(t) && Plain(t) && forall n :: Mentions(t, n) ==> n in vars
    ensures Tidy(t, vars, m)
  {
    match t
    case Var(n) => assert Mentions(t, n);
    case App(_, args) =>
      forall k | 0 <= k < |args|
        ensures Tidy(args[k], vars, m)
      {
        forall n | Mentions(args[k], n)
          ensures n in vars
        {
          assert Mentions(t, n);
        }
        PlainIsTidy(args[k], vars, m);
      }
  }

  lemma {:induction false} PlainHasNone(t: Term)
    requires Plain(t)
    ensures EquationsOf(t) == []
    decreases t, 0
  {
    if t.App? {
      PlainHaveNone(t.args);
    }
  }

  lemma {:induction false} PlainHaveNone(ts: seq<Term>)
    requires forall k :: 0 <= k < |ts| ==> Plain(ts[k])
    ensures EquationsOfAll(ts) == []
    decreases ts
  {
    if ts != [] {
      PlainHasNone(ts[0]);
      PlainHaveNone(ts[1..]);
    }
  }

  lemma {:induction false} TidyUnresolved(t: Term, vars: seq<Name>, sources: seq<Name>, w: Name)
    requires Tidy(t, vars, |sources|)
    ensures ArgsBelow(t, |sources|) && Plain(Unresolved(t, sources, w))
    ensures w.Prog? && w !in vars ==> !Mentions(t, w)
  {
    if t.App? {
      var r := UnresolvedAll(t.args, sources, w);
      forall k | 0 <= k < |t.args|
        ensures ArgsBelow(t.args[k], |sources|) && Plain(r[k]) && (w.Prog? && w !in vars ==> !Mentions(t.args[k], w))
      {
        TidyUnresolved(t.args[k], vars, sources, w);
      }
    }
  }

  lemma {:induction false} TidyReplace(t: Term, key: Term, val: Term, vars: seq<Name>, m: nat)
    requires Tidy(t, vars, m) && Tidy(val, vars, m)
    ensures Tidy(Replace(t, key, val), vars, m)
  {
    if t != key && t.App? {
      var r := ReplaceAll(t.args, key, val);
      forall k | 0 <= k < |t.args|
        ensures Tidy(r[k], vars, m)
      {
        TidyReplace(t.args[k], key, val, vars, m);
      }
    }
  }

  ghost predicate TidyValues(rv: Values, v: Name, vars: seq<Name>, m: nat) {
    v in rv ==> forall k :: 0 <= k < |rv[v]| ==> Tidy(rv[v][k], vars, m)
  }

  lemma StepTidy(rv: Values, es: seq<Term>, v: Name, r: Term, vars: seq<Name>, m: nat)
    requires es != [] && r in SubstStep(rv, es, v) && TidyValues(rv, v, vars, m)
    requires forall e :: e in es ==> Tidy(e, vars, m)
    ensures Tidy(r, vars, m)
  {
    if r !in es[1..] {
      if Resolved(rv, v) {
        var key, others := rv[v][0], rv[v][1..];
        if r == Replace(es[0], Var(v), key) {
          TidyReplace(es[0], Var(v), key, vars, m);
        } else {
          CopiesOrigin(es, key, others, r);
          var e, val :| e in es && val in others && r == Replace(e, key, val);
          var k :| 0 <= k < |others| && others[k] == val;
          assert val == rv[v][k + 1];
          TidyReplace(e, key, val, vars, m);
        }
      } else {
        TidyReplace(es[0], Var(v), Var(Tmp), vars, m);
      }
    }
  }

  lemma {:induction false} OccsTidy(rv: Values, expr: Term, occs: seq<Name>, r: Term, vars: seq<Name>, m: nat)
    requires Tidy(expr, vars, m) && r in SubstOccs(rv, expr, occs) && forall v :: v in occs ==> TidyValues(rv, v, vars, m)
    ensures Tidy(r, vars, m)
  {
    hide Tidy, SubstStep, TidyValues;
    if occs != [] {
      var n := |occs| - 1;
      var es := SubstOccs(rv, expr, occs[..n]);
      forall e | e in es
        ensures Tidy(e, vars, m)
      {
        OccsTidy(rv, expr, occs[..n], e, vars, m);
      }
      assert occs[n] in occs;
      StepTidy(rv, es, occs[n], r, vars, m);
    }
  }

  lemma {:induction false} ValuesTidy(g: Graph, exprs: Exprs, sources: seq<Name>, p: Progress, vars: seq<Name>, v: Name)
    requires Solved(g, exprs, sources, p) && v in p.done
    requires forall x, e :: x in exprs && e in exprs[x] ==> Tidy(e, vars, |sources|)
    ensures TidyValues(p.rv, v, vars, |sources|)
    decreases if v in p.done then IndexOf(p.done, v) else 0
  {
    hide Solved, VarsOf, Substituted;
    if Evaluated(exprs, sources, p, v) {
      EvaluatedValues(g, exprs, sources, p, v);
      forall k | 0 <= k < |p.rv[v]|
        ensures Tidy(p.rv[v][k], vars, |sources|)
      {
        ValuesOfOrigin(p.rv, exprs[v], p.rv[v][k]);
        var e :| e in exprs[v] && p.rv[v][k] in Substituted(p.rv, e);
        forall u | u in VarsOf(e, [])
          ensures TidyValues(p.rv, u, vars, |sources|)
        {
          assert Uses(exprs, sources, p, v, e, u);
          UsedIsEarlier(g, exprs, sources, p, v, e, u);
          ValuesTidy(g, exprs, sources, p, vars, u);
        }
        ResultTidy(p.rv, e, p.rv[v][k], vars, |sources|);
      }
    } else if v in sources {
      var k := SourceValues(g, exprs, sources, p, v);
    } else {
      OtherValues(g, exprs, sources, p, v);
    }
  }

  lemma ResultTidy(rv: Values, e: Term, r: Term, vars: seq<Name>, m: nat)
    requires Tidy(e, vars, m) && r in Substituted(rv, e) && forall u :: u in VarsOf(e, []) ==> TidyValues(rv, u, vars, m)
    ensures Tidy(r, vars, m)
  {
    OccsTidy(rv, e, VarsOf(e, []), r, vars, m);
  }

  // ----- scripts whose equations are not nested -----

  predicate Flat(script: seq<Term>)
    requires WellFormed(script)
  {
    forall k :: 0 <= k < |AllEquations(script)| ==>
      Plain(AllEquations(script)[k].args[0]) && Plain(AllEquations(script)[k].args[1])
  }

  ghost predicate ExprsPlain(exprs: Exprs) {
    forall v, e :: v in exprs && e in exprs[v] ==> Plain(e)
  }

  lemma {:induction false} SortedPlain(sources: seq<Name>, f: Facts, eqs: seq<Term>)
    requires forall k :: 0 <= k < |eqs| ==> IsEquation(eqs[k]) && Plain(eqs[k].args[0]) && Plain(eqs[k].args[1])
    requires ExprsPlain(f.exprs)
    ensures ExprsPlain(SortedAll(sources, f, eqs).exprs)
  {
    hide Plain, VarsOf;
    if eqs != [] {
      SortedPlain(sources, f, eqs[..|eqs| - 1]);
    }
  }

  lemma CollectedTidy(script: seq<Term>)
    requires WellFormed(script) && Flat(script)
    ensures forall x, e :: x in Collected(script).exprs && e in Collected(script).exprs[x] ==>
              Tidy(e, AllVars(script), |SourcesOf(AllVars(script))|)
  {
    var f, sources, vars := Collected(script), SourcesOf(AllVars(script)), AllVars(script);
    SourceExprsAreVars(sources);
    SortedPlain(sources, Facts(SourceExprs(sources), []), AllEquations(script));
    CollectedIsSound(script);
    CollectedWithin(script);
    hide Collected, AllVars, SourcesOf;
    forall x, e | x in f.exprs && e in f.exprs[x]
      ensures Tidy(e, vars, |sources|)
    {
      var k :| 0 <= k < |f.exprs[x]| && f.exprs[x][k] == e;
      PlainIsTidy(e, vars, |sources|);
    }
  }

  // ----- an extension that loses its meaning -----

  lemma TidyFirsts(rv: Values, vars: seq<Name>, sources: seq<Name>, w: Name)
    requires forall v :: v in rv ==> TidyValues(rv, v, vars, |sources|)
    requires w.Prog? && w !in vars
    ensures forall v, k :: v in rv && 0 <= k < |rv[v]| ==> !Mentions(rv[v][k], w)
    ensures forall v :: Resolved(rv, v) ==> ArgsBelow(rv[v][0], |sources|) && Plain(Unresolved(rv[v][0], sources, w))
  {
    forall v, k | v in rv && 0 <= k < |rv[v]|
      ensures ArgsBelow(rv[v][k], |sources|) && Plain(Unresolved(rv[v][k], sources, w)) && !Mentions(rv[v][k], w)
    {
      TidyUnresolved(rv[v][k], vars, sources, w);
    }
  }

  lemma FlatTidy(script: seq<Term>, v: Name)
    requires WellFormed(script) && Flat(script) && !Analysed(script).crashed && v in Analysed(script).rv
    ensures TidyValues(Analysed(script).rv, v, AllVars(script), |SourcesOf(AllVars(script))|)
  {
    CollectedTidy(script);
    AnalysisSolved(script);
    NamesAreScripts(script);
    hide Collected, Analysed, AllVars, SourcesOf, BuildGraph, WellFormed, IsSource, Flat, Solved, TidyValues, Tidy;
    var g, f, sources, r := BuildGraph(Collected(script).pairs), Collected(script), SourcesOf(AllVars(script)), Analysed(script);
    SolvedNames(g, f.exprs, sources, r);
    ValuesTidy(g, f.exprs, sources, r, AllVars(script), v);
  }

  lemma FlatSourced(script: seq<Term>)
    requires WellFormed(script) && !Analysed(script).crashed
    ensures var sources, rv := SourcesOf(AllVars(script)), Analysed(script).rv;
      && (forall k :: 0 <= k < |sources| ==> sources[k].Prog? && sources[k] in rv && rv[sources[k]] == [Var(Arg(k))])
      && (forall v :: Resolved(rv, v) ==> v.Prog? && Closed(rv[v][0]))
  {
    AnalysisSolved(script);
    NamesAreScripts(script);
    hide Collected, Analysed, AllVars, SourcesOf, BuildGraph, WellFormed, IsSource, Solved, Closed;
    SolvedNames(BuildGraph(Collected(script).pairs), Collected(script).exprs, SourcesOf(AllVars(script)), Analysed(script));
  }

  /** The values of a flat script: first ones over its sources, and none mentions a new variable. */
  lemma FlatValues(script: seq<Term>, w: Name)
    requires WellFormed(script) && Flat(script) && !Analysed(script).crashed && New(script, w)
    ensures Sourced(Analysed(script).rv, SourcesOf(AllVars(script))) && Fresh(Analysed(script).rv, w)
    ensures forall v :: Resolved(Analysed(script).rv, v) ==>
              Plain(Unresolved(Analysed(script).rv[v][0], SourcesOf(AllVars(script)), w))
  {
    FlatSourced(script);
    NewHasNoValue(script, w);
    hide Collected, Analysed, AllVars, SourcesOf, BuildGraph, WellFormed, IsSource, Flat, TidyValues;
    hide Plain, Unresolved, ArgsBelow, Closed, Mentions;
    var rv := Analysed(script).rv;
    forall v | v in rv
      ensures TidyValues(rv, v, AllVars(script), |SourcesOf(AllVars(script))|)
    {
      FlatTidy(script, v);
    }
    TidyFirsts(rv, AllVars(script), SourcesOf(AllVars(script)), w);
  }

  lemma NamesAreScripts(script: seq<Term>)
    requires WellFormed(script)
    ensures forall s :: s in SourcesOf(AllVars(script)) ==> s.Prog? && IsSource(s) && s in AllVars(script)
  {
    AllVarsAreScript(script);
    SourcesAreVars(AllVars(script));
  }

  lemma SolvedNames(g: Graph, exprs: Exprs, sources: seq<Name>, r: Progress)
    requires Solved(g, exprs, sources, r) && forall s :: s in sources ==> s.Prog?
    ensures forall v :: v in r.rv ==> v in r.done
    ensures forall k :: 0 <= k < |sources| ==> sources[k].Prog? && sources[k] in r.rv && r.rv[sources[k]] == [Var(Arg(k))]
    ensures forall v :: Resolved(r.rv, v) ==> v.Prog? && Closed(r.rv[v][0])
  {
    forall v | Resolved(r.rv, v)
      ensures v.Prog?
    {
      if v !in sources {
        assert Settled(exprs, r, v);
      }
    }
  }

  lemma NewHasNoValue(script: seq<Term>, w: Name)
    requires WellFormed(script) && !Analysed(script).crashed && New(script, w)
    ensures w !in Analysed(script).rv
  {
    hide Analysed, AllVars, SourcesOf, BuildGraph, WellFormed, Solved, New, Collected;
    NewIsUndefined(script, w);
    AnalysisSolved(script);
    NoExprNoValue(BuildGraph(Collected(script).pairs), Collected(script).exprs, SourcesOf(AllVars(script)), Analysed(script), w);
  }

  lemma TrapExtends(script: seq<Term>, z: Name, w: Name, v: Name)
    requires WellFormed(script) && Flat(script) && !Analysed(script).crashed
    requires New(script, z) && New(script, w) && z != w && Several(Analysed(script).rv, v)
    ensures Extends(script, z, Trap(Analysed(script).rv, SourcesOf(AllVars(script)), w, v))
    ensures forall x :: x in VarsOf(Trap(Analysed(script).rv, SourcesOf(AllVars(script)), w, v), []) ==>
              x == w || x in SourcesOf(AllVars(script)) || x == v
    ensures v in VarsOf(Trap(Analysed(script).rv, SourcesOf(AllVars(script)), w, v), []) && v in AllVars(script)
  {
    var sources, rv := SourcesOf(AllVars(script)), Analysed(script).rv;
    FlatValues(script, w);
    NamesAreScripts(script);
    ValuesAreScripts(script, v);
    hide Analysed, AllVars, SourcesOf, WellFormed, IsSource, Flat, Unresolved, Sourced, Fresh;
    var e, u := Trap(rv, sources, w, v), Unresolved(rv[v][0], sources, w);
    var occs := TrapVars(rv, sources, w, v);
    assert forall x :: x in occs + [v] <==> x in occs || x == v;
    VarsCover(e, []);
    PlainHasNone(u);
    EquationsOfTwo("", u, Var(v));
  }

  lemma ValuesAreScripts(script: seq<Term>, v: Name)
    requires WellFormed(script) && !Analysed(script).crashed && Several(Analysed(script).rv, v)
    ensures Evaluated(Collected(script).exprs, SourcesOf(AllVars(script)), Analysed(script), v)
    ensures v in AllVars(script) && !IsSource(v) && v.Prog?
  {
    AnalysisSolved(script);
    CollectedWithin(script);
    AllVarsAreScript(script);
    SourcesAreVars(AllVars(script));
    hide Collected, Analysed, AllVars, SourcesOf, BuildGraph, WellFormed, IsSource, Solved;
    var g, f, sources, r := BuildGraph(Collected(script).pairs), Collected(script), SourcesOf(AllVars(script)), Analysed(script);
    if !Evaluated(f.exprs, sources, r, v) {
      AtMostOneValue(g, f.exprs, sources, r, v);
    }
  }

  // ----- an interpretation for it -----

  function Lefts<V>(xs: seq<(V, bool)>): (r: seq<V>)
    ensures |r| == |xs| && forall k :: 0 <= k < |xs| ==> r[k] == xs[k].0
  {
    if xs == [] then [] else [xs[0].0] + Lefts(xs[1..])
  }

  predicate AnyRight<V>(xs: seq<(V, bool)>) {
    exists k :: 0 <= k < |xs| && xs[k].1
  }

  /** i, telling beside whether w occurs; z has a value of its own. */
  function Marked<V>(i: Interp<V>, w: Name, z: Name, value: (V, bool)): Interp<(V, bool)> {
    Interp(n => if n == z then value else (i.env(n), n == w), (op, xs) => (i.op(op, Lefts(xs)), AnyRight(xs)))
  }

  lemma {:induction false} MarkedEval<V>(i: Interp<V>, w: Name, z: Name, value: (V, bool), t: Term)
    requires !Mentions(t, z)
    ensures Eval(Marked(i, w, z, value), t) == (Eval(i, t), Mentions(t, w))
  {
    if t.App? {
      var xs := EvalAll(Marked(i, w, z, value), t.args);
      forall k | 0 <= k < |t.args|
        ensures xs[k] == (Eval(i, t.args[k]), Mentions(t.args[k], w))
      {
        assert !Mentions(t.args[k], z);
        MarkedEval(i, w, z, value, t.args[k]);
      }
      assert Lefts(xs) == EvalAll(i, t.args);
    }
  }

  lemma MarkedHolds<V>(i: Interp<V>, w: Name, z: Name, value: (V, bool), eq: Term)
    requires IsEquation(eq) && Holds(i, eq) && !Mentions(eq, z) && !Mentions(eq, w)
    ensures Holds(Marked(i, w, z, value), eq)
  {
    assert !Mentions(eq.args[0], z) && !Mentions(eq.args[1], z) && !Mentions(eq.args[0], w) && !Mentions(eq.args[1], w);
    MarkedEval(i, w, z, value, eq.args[0]);
    MarkedEval(i, w, z, value, eq.args[1]);
  }

  lemma MarkedOld<V>(i: Interp<V>, script: seq<Term>, w: Name, z: Name, value: (V, bool), eq: Term)
    requires WellFormed(script) && Satisfies(i, script) && New(script, z) && New(script, w) && eq in AllEquations(script)
    ensures IsEquation(eq) && Holds(Marked(i, w, z, value), eq)
  {
    var k :| 0 <= k < |AllEquations(script)| && AllEquations(script)[k] == eq;
    assert Holds(i, AllEquations(script)[k]);
    hide AllEquations, AllVars, SourcesOf, IsSource, Holds;
    if Mentions(eq, z) {
      EquationNames(script, eq, z);
    }
    if Mentions(eq, w) {
      EquationNames(script, eq, w);
    }
    MarkedHolds(i, w, z, value, eq);
  }

  lemma MarkedNew<V>(i: Interp<V>, w: Name, z: Name, e: Term)
    requires !Mentions(e, z) && Mentions(e, w)
    ensures IsEquation(Equals(Var(z), e)) && Holds(Marked(i, w, z, (Eval(i, e), true)), Equals(Var(z), e))
  {
    MarkedEval(i, w, z, (Eval(i, e), true), e);
  }

  /** It satisfies the extension if i satisfies the script. */
  lemma MarkedSatisfies<V>(i: Interp<V>, script: seq<Term>, z: Name, e: Term, w: Name)
    requires WellFormed(script) && Satisfies(i, script) && Extends(script, z, e) && New(script, w) && z != w
    requires Mentions(e, w) && WellFormed(Extended(script, z, e))
    ensures Satisfies(Marked(i, w, z, (Eval(i, e), true)), Extended(script, z, e))
  {
    hide AllEquations, AllVars, SourcesOf, IsSource, Extended, Holds, Mentions, ScriptTerm, Equals, IsEquation;
    var eqs, more := AllEquations(script), Extended(script, z, e);
    ExtendedEquations(script, z, e);
    ExtendedSources(script, z, e);
    NamesAreScripts(script);
    MarkedNew(i, w, z, e);
    forall k | 0 <= k < |eqs|
      ensures Holds(Marked(i, w, z, (Eval(i, e), true)), eqs[k])
    {
      MarkedOld(i, script, w, z, (Eval(i, e), true), eqs[k]);
    }
  }

  // ----- the theorem -----

  /** Whatever the extended script finds for z means z. */
  ghost predicate KeepsMeaning<V(!new)>(script: seq<Term>, z: Name, e: Term) {
    var more := Extended(script, z, e);
    WellFormed(more) && !Analysed(more).crashed ==>
      forall i: Interp<V>, k: nat ::
        Satisfies(i, more) && z in Analysed(more).rv && k < |Analysed(more).rv[z]| && NoTmp(Analysed(more).rv[z][k])
        ==> Eval(i, Analysed(more).rv[z][k]) == i.env(z)
  }

  lemma FitsKeep<V(!new)>(script: seq<Term>, z: Name, e: Term)
    requires WellFormed(script) && !Analysed(script).crashed && Extends(script, z, e)
    requires forall v :: v in Analysed(script).rv ==> FirstFits(Analysed(script).rv, v)
    ensures KeepsMeaning<V>(script, z, e)
  {
    ScriptAdds(script, z, e);
    ExtensionAlike(script, z, e);
    ExtendedSources(script, z, e);
    var more := Extended(script, z, e);
    hide Collected, Analysed, AllVars, SourcesOf, BuildGraph, WellFormed, Extends, Extended, Adds, Alike, Solved, FirstFits;
    if !Analysed(more).crashed {
      AnalysisSolved(script);
      AnalysisSolved(more);
      FitsStay(BuildGraph(Collected(script).pairs), BuildGraph(Collected(more).pairs), Collected(script).exprs,
               Collected(more).exprs, SourcesOf(AllVars(script)), Analysed(script), Analysed(more), z, e);
      hide Satisfies, NoTmp;
      forall i: Interp<V>, k: nat |
          Satisfies(i, more) && z in Analysed(more).rv && k < |Analysed(more).rv[z]| && NoTmp(Analysed(more).rv[z][k])
        ensures Eval(i, Analysed(more).rv[z][k]) == i.env(z)
      {
        AnalysisPreservesMeaning(i, more, z, k);
      }
    }
  }

  /** Adding an equation raises no exception unless it mentions a variable whose entry is bare. */
  lemma ExtensionRaisesNothing(script: seq<Term>, z: Name, e: Term)
    requires WellFormed(script) && !Analysed(script).crashed && Extends(script, z, e)
    requires forall x :: x in VarsOf(e, []) && x in Analysed(script).broken ==> x in Collected(script).exprs
    ensures WellFormed(Extended(script, z, e)) && !Analysed(Extended(script, z, e)).crashed
  {
    ScriptAdds(script, z, e);
    ExtensionAlike(script, z, e);
    ExtendedSources(script, z, e);
    hide Collected, Analysed, AllVars, SourcesOf, BuildGraph, WellFormed, Extends, Extended, Adds, Alike;
    hide Order, Layered, FirstsClosed, Computed, Supported, Doomed, VarsOf, ExprsScript, GraphOk, AllDone;
    AnalysisKeeps(script);
    var more := Extended(script, z, e);
    AnalysisKeeps(more);
    NoNewCrash(BuildGraph(Collected(script).pairs), BuildGraph(Collected(more).pairs), Collected(script).exprs,
               Collected(more).exprs, SourcesOf(AllVars(script)), Analysed(script), Analysed(more), z, e);
  }

  lemma SourcesAreUnbroken(script: seq<Term>, x: Name)
    requires WellFormed(script) && x in SourcesOf(AllVars(script))
    ensures x !in Analysed(script).broken
  {
    hide Collected, Analysed, AllVars, SourcesOf, BuildGraph, WellFormed, ValuesInv, Layered;
    AnalysisKeeps(script);
  }

  /** What the trap mentions is a source, new, or has values: it raises no exception. */
  lemma TrapRaisesNothing(script: seq<Term>, z: Name, w: Name, v: Name)
    requires WellFormed(script) && Flat(script) && !Analysed(script).crashed
    requires New(script, z) && New(script, w) && z != w && Several(Analysed(script).rv, v)
    ensures var more := Extended(script, z, Trap(Analysed(script).rv, SourcesOf(AllVars(script)), w, v));
      WellFormed(more) && !Analysed(more).crashed
  {
    hide Collected, Analysed, AllVars, SourcesOf, WellFormed, Extends, Extended, Flat, IsSource, VarsOf, Trap, New;
    var e := Trap(Analysed(script).rv, SourcesOf(AllVars(script)), w, v);
    TrapExtends(script, z, w, v);
    ValuesAreScripts(script, v);
    NewIsUnplaced(script, w);
    forall x | x in VarsOf(e, [])
      ensures x in Analysed(script).broken ==> x in Collected(script).exprs
    {
      if x in SourcesOf(AllVars(script)) {
        SourcesAreUnbroken(script, x);
      }
    }
    ExtensionRaisesNothing(script, z, e);
  }

  lemma NewIsUnplaced(script: seq<Term>, w: Name)
    requires WellFormed(script) && New(script, w)
    ensures w !in Analysed(script).broken
  {
    AnalysisKeeps(script);
    NewIsNoSource(script, w);
    CollectedWithin(script);
    hide Collected, Analysed, AllVars, SourcesOf, BuildGraph, WellFormed, ValuesInv, Layered;
    var pairs := Collected(script).pairs;
    if w in BuildGraph(pairs).ine {
      KeysAreNames(pairs, w);
    }
  }

  /** The values of z in an extension are the results for e. */
  lemma NewValues(script: seq<Term>, z: Name, e: Term)
    requires WellFormed(script) && Extends(script, z, e) && VarsOf(e, []) != []
    requires WellFormed(Extended(script, z, e)) && !Analysed(Extended(script, z, e)).crashed
    ensures z in Analysed(Extended(script, z, e)).rv
    ensures Analysed(Extended(script, z, e)).rv[z] == ValuesOf(Analysed(Extended(script, z, e)).rv, [e])
  {
    hide Collected, Analysed, AllVars, SourcesOf, BuildGraph, WellFormed, Extends, Extended, IsSource, VarsOf;
    hide Solved, Order, Layered, FirstsClosed, ValuesInv, GraphOk, Grown, AllDone, ExprsScript;
    ExtendedSources(script, z, e);
    ScriptAdds(script, z, e);
    var more := Extended(script, z, e);
    AnalysisSolved(more);
    AnalysisKeeps(more);
    var g, h := BuildGraph(Collected(script).pairs), BuildGraph(Collected(more).pairs);
    NewIsEvaluated(g, h, Collected(script).exprs, Collected(more).exprs, SourcesOf(AllVars(script)), Analysed(more), z, e);
    EvaluatedValues(h, Collected(more).exprs, SourcesOf(AllVars(script)), Analysed(more), z);
    assert Collected(more).exprs[z] == [e];
  }

  /** What the extension finds for z are the results for the trap, which loses its meaning. */
  lemma TrapValues(script: seq<Term>, z: Name, w: Name, v: Name, k: nat) returns (m: nat)
    requires WellFormed(script) && Flat(script) && !Analysed(script).crashed
    requires New(script, z) && New(script, w) && z != w
    requires v in Analysed(script).rv && 0 < k < |Analysed(script).rv[v]|
    ensures var more := Extended(script, z, Trap(Analysed(script).rv, SourcesOf(AllVars(script)), w, v));
      && WellFormed(more) && !Analysed(more).crashed && z in Analysed(more).rv && m < |Analysed(more).rv[z]|
      && Analysed(more).rv[z][m] == App("", [Analysed(script).rv[v][k], Var(v)])
  {
    hide Collected, Analysed, AllVars, SourcesOf, BuildGraph, WellFormed, Extends, Extended, Trap, Flat, VarsOf, Agree, New;
    hide Sourced, Fresh, Plain, Unresolved, SubstOccs;
    var p, e := Analysed(script), Trap(Analysed(script).rv, SourcesOf(AllVars(script)), w, v);
    TrapRaisesNothing(script, z, w, v);
    TrapExtends(script, z, w, v);
    FlatValues(script, w);
    TrapResult(p.rv, SourcesOf(AllVars(script)), w, v, k);
    var q, r := Analysed(Extended(script, z, e)), App("", [p.rv[v][k], Var(v)]);
    forall x | x in VarsOf(e, [])
      ensures Agree(p.rv, q.rv, x)
    {
      TrapOperand(script, z, w, v, x);
    }
    SubstOccsLocal(p.rv, q.rv, e, VarsOf(e, []));
    NewValues(script, z, e);
    ValuesOfHas(q.rv, [e], e, r);
    m :| 0 <= m < |q.rv[z]| && q.rv[z][m] == r;
  }

  /** Each variable of the trap has the same values in the script and in the extension. */
  lemma TrapOperand(script: seq<Term>, z: Name, w: Name, v: Name, x: Name)
    requires WellFormed(script) && Flat(script) && !Analysed(script).crashed
    requires New(script, z) && New(script, w) && z != w && Several(Analysed(script).rv, v)
    requires x in VarsOf(Trap(Analysed(script).rv, SourcesOf(AllVars(script)), w, v), [])
    ensures var more := Extended(script, z, Trap(Analysed(script).rv, SourcesOf(AllVars(script)), w, v));
      WellFormed(more) && !Analysed(more).crashed && Agree(Analysed(script).rv, Analysed(more).rv, x)
  {
    var e := Trap(Analysed(script).rv, SourcesOf(AllVars(script)), w, v);
    var more := Extended(script, z, e);
    TrapRaisesNothing(script, z, w, v);
    TrapExtends(script, z, w, v);
    if x == w {
      NewHasNoValue(script, w);
      StaysWithoutValue(script, z, e, w);
    } else {
      ValuesAreScripts(script, v);
      AnalysisKeeps(script);
      hide Collected, Analysed, AllVars, SourcesOf, BuildGraph, WellFormed, Extends, Extended, Trap, Flat, Agree, Layered;
      assert x in Analysed(script).done;
      ExtensionKeepsValues(script, z, e, x);
    }
  }

  /** A variable that is new to the script and not defined by the equation gets no value. */
  lemma StaysWithoutValue(script: seq<Term>, z: Name, e: Term, w: Name)
    requires WellFormed(script) && Extends(script, z, e) && New(script, w) && w != z
    requires WellFormed(Extended(script, z, e)) && !Analysed(Extended(script, z, e)).crashed
    ensures w !in Analysed(Extended(script, z, e)).rv
  {
    var more := Extended(script, z, e);
    hide Analysed, AllVars, SourcesOf, BuildGraph, WellFormed, Extends, Extended, Solved, New, Collected;
    ExtendedSources(script, z, e);
    ExtendedCollected(script, z, e);
    NewIsUndefined(script, w);
    AnalysisSolved(more);
    var sources := SourcesOf(AllVars(more));
    NoExprNoValue(BuildGraph(Collected(more).pairs), Collected(more).exprs, sources, Analysed(more), w);
  }

  lemma NewIsUndefined(script: seq<Term>, w: Name)
    requires WellFormed(script) && New(script, w)
    ensures w !in Collected(script).exprs && w !in SourcesOf(AllVars(script))
  {
    CollectedWithin(script);
    NewIsNoSource(script, w);
  }

  lemma NoExprNoValue(g: Graph, exprs: Exprs, sources: seq<Name>, p: Progress, w: Name)
    requires Solved(g, exprs, sources, p) && w !in exprs && w !in sources
    ensures w !in p.rv
  {
    if w in p.done {
      assert Settled(exprs, p, w);
    }
  }

  lemma TrapResultFacts(script: seq<Term>, n: Name, v: Name, k: nat)
    requires WellFormed(script) && Flat(script) && !Analysed(script).crashed && New(script, n)
    requires v in Analysed(script).rv && k < |Analysed(script).rv[v]| && n != v
    requires NoTmp(Analysed(script).rv[v][k]) && v.Prog?
    ensures NoTmp(App("", [Analysed(script).rv[v][k], Var(v)])) && !Mentions(App("", [Analysed(script).rv[v][k], Var(v)]), n)
  {
    hide Analysed, AllVars, SourcesOf, WellFormed, Flat, IsSource, Sourced, Mentions, NoTmp, Plain, Unresolved;
    FlatValues(script, n);
    BesideVariable(Analysed(script).rv[v][k], v, n);
  }

  lemma BesideVariable(t: Term, v: Name, n: Name)
    ensures NoTmp(App("", [t, Var(v)])) <==> NoTmp(t) && !v.Tmp?
    ensures Mentions(App("", [t, Var(v)]), n) <==> Mentions(t, n) || n == v
  {
    var r := App("", [t, Var(v)]);
    assert r.args[0] == t && r.args[1] == Var(v);
  }

  lemma TrapLoses<V(!new)>(i: Interp<V>, script: seq<Term>, z: Name, w: Name, v: Name, k: nat)
    requires WellFormed(script) && Flat(script) && !Analysed(script).crashed && Satisfies(i, script)
    requires New(script, z) && New(script, w) && z != w
    requires v in Analysed(script).rv && k < |Analysed(script).rv[v]|
    requires NoTmp(Analysed(script).rv[v][k]) && !NoTmp(Analysed(script).rv[v][0])
    ensures Extends(script, z, Trap(Analysed(script).rv, SourcesOf(AllVars(script)), w, v))
    ensures !KeepsMeaning<(V, bool)>(script, z, Trap(Analysed(script).rv, SourcesOf(AllVars(script)), w, v))
  {
    hide Analysed, AllVars, SourcesOf, WellFormed, Satisfies, Extends, Extended, Trap, Flat, IsSource, Sourced, Fresh;
    hide NoTmp, Mentions, Unresolved, Plain;
    var e, r := Trap(Analysed(script).rv, SourcesOf(AllVars(script)), w, v), App("", [Analysed(script).rv[v][k], Var(v)]);
    TrapExtends(script, z, w, v);
    var m := TrapValues(script, z, w, v, k);
    FlatValues(script, w);
    ValuesAreScripts(script, v);
    TrapMentions(Analysed(script).rv, SourcesOf(AllVars(script)), w, v);
    MarkedSatisfies(i, script, z, e, w);
    TrapResultFacts(script, z, v, k);
    TrapResultFacts(script, w, v, k);
    MarkedEval(i, w, z, (Eval(i, e), true), r);
    assert Eval(Marked(i, w, z, (Eval(i, e), true)), r).1 != Marked(i, w, z, (Eval(i, e), true)).env(z).1;
  }

  lemma TrapMentions(rv: Values, sources: seq<Name>, w: Name, v: Name)
    requires Sourced(rv, sources) && Fresh(rv, w) && v in rv && |rv[v]| > 0 && !NoTmp(rv[v][0])
    ensures Mentions(Trap(rv, sources, w, v), w)
  {
    UnresolvedIsScript(rv[v][0], sources, w);
    assert Mentions(Trap(rv, sources, w, v).args[0], w);
  }

  /** Every extension of a satisfiable script by an equation `z = e` keeps the meaning of z exactly if
      the first value of each variable of the script is free of `tmp` whenever any of its values is. */
  lemma ExtensionsKeepMeaningIff<V(!new)>(i: Interp<V>, script: seq<Term>, z: Name, w: Name)
    requires WellFormed(script) && Flat(script) && !Analysed(script).crashed && Satisfies(i, script)
    requires New(script, z) && New(script, w) && z != w
    ensures (forall v :: v in Analysed(script).rv ==> FirstFits(Analysed(script).rv, v)) <==>
            (forall e :: Extends(script, z, e) ==> KeepsMeaning<(V, bool)>(script, z, e))
  {
    var rv := Analysed(script).rv;
    hide Analysed, WellFormed, Flat, Satisfies, New, Extends, KeepsMeaning, Trap;
    if forall v :: v in rv ==> FirstFits(rv, v) {
      forall e | Extends(script, z, e)
        ensures KeepsMeaning<(V, bool)>(script, z, e)
      {
        FitsKeep<(V, bool)>(script, z, e);
      }
    } else {
      var v :| v in rv && !FirstFits(rv, v);
      var k :| 0 <= k < |rv[v]| && NoTmp(rv[v][k]) && !NoTmp(rv[v][0]);
      TrapLoses(i, script, z, w, v, k);
    }
  }
}
