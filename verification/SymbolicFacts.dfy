/**
 What the analyser collects from a script, exactly: which equations it finds, which terms it notes for
 which variables, which flows it records, and which values it keeps as symbolic values.
 */
module SymbolicFacts {
  import opened Wrappers
  import opened Terms
  import opened Substitution
  import opened DataFlow
  import opened SymbolicResolution

  // ----- equations -----

  predicate Subterm(t: Term, s: Term) {
    t == s || (t.App? && exists i :: 0 <= i < |t.args| && Subterm(t.args[i], s))
  }

  /** `find_all_equal` finds exactly the subterms that are equations. */
  lemma {:induction false} EquationsAreSubterms(t: Term, q: Term)
    ensures q in EquationsOf(t) <==> Subterm(t, q) && q.App? && q.op == EQ
    decreases t, 0
  {
    if t.App? {
      EquationsAreSubtermsOfAll(t.args, q);
    }
  }

  lemma {:induction false} EquationsAreSubtermsOfAll(ts: seq<Term>, q: Term)
    ensures q in EquationsOfAll(ts) <==> (exists i :: 0 <= i < |ts| && Subterm(ts[i], q)) && q.App? && q.op == EQ
    decreases ts
  {
    if ts != [] {
      EquationsAreSubterms(ts[0], q);
      EquationsAreSubtermsOfAll(ts[1..], q);
      if i :| 0 <= i < |ts| && Subterm(ts[i], q) {
        assert i > 0 ==> ts[1..][i - 1] == ts[i];
      }
      if i :| 0 <= i < |ts[1..]| && Subterm(ts[1..][i], q) {
        assert ts[i + 1] == ts[1..][i];
      }
    }
  }

  lemma {:induction false} AllEquationsAre(script: seq<Term>, q: Term)
    ensures q in AllEquations(script) <==> exists k :: 0 <= k < |script| && Subterm(script[k], q) && q.App? && q.op == EQ
  {
    if script != [] {
      var n := |script| - 1;
      AllEquationsAre(script[..n], q);
      EquationsAreSubterms(script[n], q);
      hide Subterm, EquationsOf;
      assert forall k :: 0 <= k < n ==> script[..n][k] == script[k];
    }
  }

  // ----- definitions and flows -----

  /** The equation q makes e an expression of v: as `v = e`, unless both are variables and v is a source,
      or as `e = v`, if e is no variable or a source. */
  predicate Gives(sources: seq<Name>, q: Term, v: Name, e: Term) {
    && IsEquation(q)
    && var a, b := q.args[0], q.args[1];
       || (a == Var(v) && b == e && !(b.Var? && v in sources))
       || (b == Var(v) && a == e && (a.App? || a.name in sources))
  }

  /** The equation q lets u flow into v: from the right to the left if the left is a variable, unless both
      are and the left is a source; otherwise from the left to the right. */
  predicate LetsFlow(sources: seq<Name>, q: Term, u: Name, v: Name) {
    && IsEquation(q)
    && var a, b := q.args[0], q.args[1];
       if a.Var? && !(b.Var? && a.name in sources) then Mentions(b, u) && Mentions(a, v)
       else Mentions(a, u) && Mentions(b, v)
  }

  predicate Has(exprs: Exprs, v: Name, e: Term) {
    v in exprs && e in exprs[v]
  }

  lemma NoteHas(exprs: Exprs, v: Name, e: Term)
    ensures forall x, d :: Has(Note(exprs, v, e), x, d) <==> Has(exprs, x, d) || (x == v && d == e)
  {
  }

  lemma SortedHas(sources: seq<Name>, f: Facts, q: Term)
    requires IsEquation(q)
    ensures forall v, e :: Has(Sorted(sources, f, q).exprs, v, e) <==> Has(f.exprs, v, e) || Gives(sources, q, v, e)
    ensures forall u, v :: Flows(Sorted(sources, f, q).pairs, u, v) <==> Flows(f.pairs, u, v) || LetsFlow(sources, q, u, v)
  {
    var a, b := q.args[0], q.args[1];
    VarsCover(a, []);
    VarsCover(b, []);
    FlowsOne(f.pairs, VarsOf(a, []), VarsOf(b, []));
    FlowsOne(f.pairs, VarsOf(b, []), VarsOf(a, []));
    hide VarsOf, Note, Mentions, Flows, Has;
    if a.Var? {
      NoteHas(f.exprs, a.name, b);
    }
    if b.Var? {
      NoteHas(f.exprs, b.name, a);
    }
  }

  lemma FlowsOne(pairs: seq<(seq<Name>, seq<Name>)>, us: seq<Name>, vs: seq<Name>)
    ensures forall u, v :: Flows(pairs + [(us, vs)], u, v) <==> Flows(pairs, u, v) || (u in us && v in vs)
  {
    FlowsMore(pairs, us, vs);
    var more := pairs + [(us, vs)];
    forall u, v | Flows(more, u, v)
      ensures Flows(pairs, u, v) || (u in us && v in vs)
    {
      var k :| 0 <= k < |more| && u in more[k].0 && v in more[k].1;
      assert k < |pairs| ==> more[k] == pairs[k];
    }
  }

  lemma {:induction false} SortedAllHas(sources: seq<Name>, f: Facts, eqs: seq<Term>, v: Name, e: Term)
    requires forall k :: 0 <= k < |eqs| ==> IsEquation(eqs[k])
    ensures Has(SortedAll(sources, f, eqs).exprs, v, e) <==> Has(f.exprs, v, e) || exists q :: q in eqs && Gives(sources, q, v, e)
  {
    hide Has, Gives, Sorted, IsEquation;
    if eqs != [] {
      var n := |eqs| - 1;
      SortedAllHas(sources, f, eqs[..n], v, e);
      SortedHas(sources, SortedAll(sources, f, eqs[..n]), eqs[n]);
      assert forall q :: q in eqs <==> q in eqs[..n] || q == eqs[n];
    }
  }

  lemma {:induction false} SortedAllFlows(sources: seq<Name>, f: Facts, eqs: seq<Term>, u: Name, v: Name)
    requires forall k :: 0 <= k < |eqs| ==> IsEquation(eqs[k])
    ensures Flows(SortedAll(sources, f, eqs).pairs, u, v) <==>
              Flows(f.pairs, u, v) || exists q :: q in eqs && LetsFlow(sources, q, u, v)
  {
    hide Flows, LetsFlow, Sorted, IsEquation;
    if eqs != [] {
      var n := |eqs| - 1;
      SortedAllFlows(sources, f, eqs[..n], u, v);
      SortedHas(sources, SortedAll(sources, f, eqs[..n]), eqs[n]);
      assert forall q :: q in eqs <==> q in eqs[..n] || q == eqs[n];
    }
  }

  /** The number of equations that make something an expression of v. */
  function DefinitionsOf(sources: seq<Name>, eqs: seq<Term>, v: Name): nat {
    if eqs == [] then 0
    else
      var q := eqs[|eqs| - 1];
      DefinitionsOf(sources, eqs[..|eqs| - 1], v) +
      if IsEquation(q) && (Gives(sources, q, v, q.args[0]) || Gives(sources, q, v, q.args[1])) then 1 else 0
  }

  function Entries(exprs: Exprs, v: Name): nat {
    if v in exprs then |exprs[v]| else 0
  }

  /** No definition is dropped or noted twice. */
  lemma {:induction false} SortedAllCounts(sources: seq<Name>, f: Facts, eqs: seq<Term>, v: Name)
    requires forall k :: 0 <= k < |eqs| ==> IsEquation(eqs[k])
    ensures Entries(SortedAll(sources, f, eqs).exprs, v) == Entries(f.exprs, v) + DefinitionsOf(sources, eqs, v)
  {
    if eqs != [] {
      SortedAllCounts(sources, f, eqs[..|eqs| - 1], v);
    }
  }

  /** Some equation in the script gives v the expression e; or lets u flow into v. */
  ghost predicate ScriptGives(script: seq<Term>, sources: seq<Name>, v: Name, e: Term) {
    exists k, q :: 0 <= k < |script| && Subterm(script[k], q) && Gives(sources, q, v, e)
  }

  ghost predicate ScriptFlows(script: seq<Term>, sources: seq<Name>, u: Name, v: Name) {
    exists k, q :: 0 <= k < |script| && Subterm(script[k], q) && LetsFlow(sources, q, u, v)
  }

  lemma GivesIsFound(script: seq<Term>, sources: seq<Name>, v: Name, e: Term)
    ensures ScriptGives(script, sources, v, e) <==> exists q :: q in AllEquations(script) && Gives(sources, q, v, e)
  {
    hide Subterm, AllEquations;
    if q :| q in AllEquations(script) && Gives(sources, q, v, e) {
      AllEquationsAre(script, q);
    }
    if k, q :| 0 <= k < |script| && Subterm(script[k], q) && Gives(sources, q, v, e) {
      AllEquationsAre(script, q);
    }
  }

  lemma FlowIsFound(script: seq<Term>, sources: seq<Name>, u: Name, v: Name)
    ensures ScriptFlows(script, sources, u, v) <==> exists q :: q in AllEquations(script) && LetsFlow(sources, q, u, v)
  {
    hide Subterm, AllEquations, Mentions;
    if q :| q in AllEquations(script) && LetsFlow(sources, q, u, v) {
      AllEquationsAre(script, q);
    }
    if k, q :| 0 <= k < |script| && Subterm(script[k], q) && LetsFlow(sources, q, u, v) {
      AllEquationsAre(script, q);
    }
  }

  /** The expressions of a variable: for a source itself; and what some equation in the script gives it;
      as many as there are such equations. */
  lemma CollectedExactly(script: seq<Term>, v: Name, e: Term)
    requires WellFormed(script)
    ensures var sources, exprs := SourcesOf(AllVars(script)), Collected(script).exprs;
      && (Has(exprs, v, e) <==> (v in sources && e == Var(v)) || ScriptGives(script, sources, v, e))
      && Entries(exprs, v) == (if v in sources then 1 else 0) + DefinitionsOf(sources, AllEquations(script), v)
  {
    hide SourcesOf, AllVars, SortedAll, SourceExprs, Subterm, AllEquations, Gives, ScriptGives, DefinitionsOf;
    var sources, eqs := SourcesOf(AllVars(script)), AllEquations(script);
    SourceExprsAreVars(sources);
    SortedAllHas(sources, Facts(SourceExprs(sources), []), eqs, v, e);
    SortedAllCounts(sources, Facts(SourceExprs(sources), []), eqs, v);
    GivesIsFound(script, sources, v, e);
  }

  /** The edges of the graph: the flows of the equations in the script. */
  lemma FlowsExactly(script: seq<Term>, u: Name, v: Name)
    requires WellFormed(script)
    ensures Edge(BuildGraph(Collected(script).pairs), u, v) <==> ScriptFlows(script, SourcesOf(AllVars(script)), u, v)
  {
    hide SourcesOf, AllVars, SortedAll, SourceExprs, Subterm, AllEquations, LetsFlow, ScriptFlows, BuildGraph;
    var sources := SourcesOf(AllVars(script));
    SortedAllFlows(sources, Facts(SourceExprs(sources), []), AllEquations(script), u, v);
    FlowIsFound(script, sources, u, v);
    BuildGraphMeaning(Collected(script).pairs);
  }

  // ----- sources -----

  predicate OccursAt(s: string, part: string, i: nat) {
    i + |part| <= |s| && s[i..i + |part|] == part
  }

  /** `part in s` is that part occurs somewhere. */
  lemma {:induction false} ContainsIff(s: string, part: string)
    ensures Contains(s, part) <==> exists i :: OccursAt(s, part, i)
  {
    if part <= s {
      assert OccursAt(s, part, 0);
    } else if s != "" {
      ContainsIff(s[1..], part);
      if i: nat :| OccursAt(s[1..], part, i) {
        assert s[i + 1..i + 1 + |part|] == s[1..][i..i + |part|];
        assert OccursAt(s, part, i + 1);
      }
      if i: nat :| OccursAt(s, part, i) {
        assert i > 0;
        assert s[1..][i - 1..i - 1 + |part|] == s[i..i + |part|];
        assert OccursAt(s[1..], part, i - 1);
      }
    }
  }

  lemma SourceIff(script: seq<Term>, n: Name)
    requires WellFormed(script)
    ensures NoRepeats(SourcesOf(AllVars(script)))
    ensures n in SourcesOf(AllVars(script)) <==>
      n.Prog? && (exists k :: 0 <= k < |script| && Mentions(script[k], n)) && exists i :: OccursAt(n.s, MARK, i)
  {
    hide Contains, Mentions, OccursAt;
    AllVarsAreScript(script);
    SourcesAreVars(AllVars(script));
    AllVarsAre(script, n);
    if n.Prog? {
      ContainsIff(n.s, MARK);
    }
  }

  /** The sources are the variables of the script with the mark in their names, and the k-th of them has
      `$Ak` as its only value. */
  lemma SourcesExactly(script: seq<Term>, n: Name, k: nat)
    requires WellFormed(script) && !Analysed(script).crashed && k < |SourcesOf(AllVars(script))|
    ensures var s := SourcesOf(AllVars(script))[k]; s in Analysed(script).rv && Analysed(script).rv[s] == [Var(Arg(k))]
  {
    hide Collected, Analysed, BuildGraph, AllVars, SourcesOf, Layered, Order, FirstsClosed;
    AnalysisSolved(script);
  }

  lemma {:induction false} AllVarsAre(script: seq<Term>, n: Name)
    ensures n in AllVars(script) <==> exists k :: 0 <= k < |script| && Mentions(script[k], n)
  {
    if script != [] {
      var m := |script| - 1;
      AllVarsAre(script[..m], n);
      VarsCover(script[m], AllVars(script[..m]));
      hide Mentions, VarsOf;
      assert forall k :: 0 <= k < m ==> script[..m][k] == script[k];
    }
  }

  // ----- symbolic values -----

  /** r is a result for an evaluated expression all of whose variables have values. */
  ghost predicate Records(exprs: Exprs, sources: seq<Name>, p: Progress, v: Name, e: Term, r: Term) {
    Evaluated(exprs, sources, p, v) && e in exprs[v] && AllResolved(p.rv, VarsOf(e, [])) && r in Substituted(p.rv, e)
  }

  ghost predicate Recorded(exprs: Exprs, sources: seq<Name>, p: Progress) {
    forall r :: r in p.symbolic <==> exists v, e :: Records(exprs, sources, p, v, e, r)
  }

  lemma SameResults(rv: Values, other: Values, e: Term, done: seq<Name>)
    requires (forall u :: u in VarsOf(e, []) ==> u in done) && forall u :: u in done ==> Agree(rv, other, u)
    ensures Substituted(rv, e) == Substituted(other, e)
    ensures AllResolved(rv, VarsOf(e, [])) <==> AllResolved(other, VarsOf(e, []))
  {
    LocalSubstituted(rv, other, e, done);
    var occs := VarsOf(e, []);
    hide VarsOf, Substituted;
    forall k | 0 <= k < |occs|
      ensures Resolved(rv, occs[k]) <==> Resolved(other, occs[k])
    {
      assert occs[k] in occs;
      assert Agree(rv, other, occs[k]);
    }
  }

  /** Evaluating expressions that do not mention v records their results. */
  lemma {:induction false} AddExprsRecords(p: Progress, v: Name, es: seq<Term>, done: seq<Name>, r: Term)
    requires v in p.rv && OperandsIn(es, done) && v !in done && !AddExprs(p, v, es).crashed
    ensures r in AddExprs(p, v, es).symbolic <==>
              r in p.symbolic || exists e :: e in es && AllResolved(p.rv, VarsOf(e, [])) && r in Substituted(p.rv, e)
  {
    hide Substituted, VarsOf, AllResolved;
    if es != [] {
      var n := |es| - 1;
      var q := AddExprs(p, v, es[..n]);
      assert !q.crashed;
      assert es[n] in es && forall e :: e in es <==> e in es[..n] || e == es[n];
      AddExprsRecords(p, v, es[..n], done, r);
      AddExprsKeep(p, v, es[..n]);
      SameResults(q.rv, p.rv, es[n], done);
    }
  }

  lemma {:induction false} AddExprsKeep(p: Progress, v: Name, es: seq<Term>)
    requires v in p.rv
    ensures forall u :: u != v ==> Agree(AddExprs(p, v, es).rv, p.rv, u)
  {
    hide Substituted;
    if es != [] {
      var n := |es| - 1;
      AddExprsKeep(p, v, es[..n]);
      forall u | u != v
        ensures Agree(AddExprs(p, v, es).rv, p.rv, u)
      {
        assert Agree(AddExprs(p, v, es[..n]).rv, p.rv, u);
      }
    }
  }

  /** What was recorded stays recorded when values of other variables are added. */
  lemma RecordsStay(exprs: Exprs, sources: seq<Name>, p: Progress, q: Progress, v: Name, e: Term, r: Term)
    requires Supported(exprs, sources, p) && Evaluated(exprs, sources, p, v) && Evaluated(exprs, sources, q, v)
    requires forall u :: u in p.done ==> Agree(p.rv, q.rv, u)
    ensures Records(exprs, sources, p, v, e, r) <==> Records(exprs, sources, q, v, e, r)
  {
    if e in exprs[v] {
      SameResults(p.rv, q.rv, e, p.done);
    }
  }

  lemma PlacedRecords(exprs: Exprs, sources: seq<Name>, p: Progress, v: Name)
    requires ValuesInv(exprs, sources, p) && v !in p.done && (v in exprs ==> OperandsIn(exprs[v], p.done))
    requires Recorded(exprs, sources, p) && !Placed(exprs, p, v).crashed
    ensures Recorded(exprs, sources, Placed(exprs, p, v))
  {
    var q := Placed(exprs, p, v);
    PlacedAgrees(exprs, sources, p, v);
    hide Records, ValuesInv, Supported, OperandsIn;
    forall r
      ensures r in q.symbolic <==> exists u, e :: Records(exprs, sources, q, u, e, r)
    {
      PlacedRecord(exprs, sources, p, v, r);
      if u, e :| Records(exprs, sources, p, u, e, r) {
        OldRecord(exprs, sources, p, v, u, e, r);
      }
      if u, e :| Records(exprs, sources, q, u, e, r) {
        if u != v {
          OldRecord(exprs, sources, p, v, u, e, r);
        } else {
          NewRecord(exprs, sources, p, v, e, r);
        }
      }
      if v in exprs {
        forall e | e in exprs[v] && AllResolved(p.rv, VarsOf(e, [])) && r in Substituted(p.rv, e)
          ensures Records(exprs, sources, q, v, e, r)
        {
          NewRecord(exprs, sources, p, v, e, r);
        }
      }
    }
  }

  /** Values of done variables stay. */
  lemma PlacedAgrees(exprs: Exprs, sources: seq<Name>, p: Progress, v: Name)
    requires ValuesInv(exprs, sources, p) && v !in p.done
    ensures forall u :: u in p.done ==> Agree(p.rv, Placed(exprs, p, v).rv, u)
    ensures v !in p.broken && v !in sources
  {
    if v in exprs && !p.crashed {
      var start := p.(done := p.done + [v], rv := Opened(p.rv, v));
      AddExprsKeep(start, v, exprs[v]);
      forall u | u in p.done
        ensures Agree(p.rv, Placed(exprs, p, v).rv, u)
      {
        assert Agree(AddExprs(start, v, exprs[v]).rv, start.rv, u);
      }
    }
  }

  lemma PlacedRecord(exprs: Exprs, sources: seq<Name>, p: Progress, v: Name, r: Term)
    requires ValuesInv(exprs, sources, p) && v !in p.done && (v in exprs ==> OperandsIn(exprs[v], p.done))
    requires !Placed(exprs, p, v).crashed
    ensures r in Placed(exprs, p, v).symbolic <==>
              r in p.symbolic
              || (v in exprs && exists e :: e in exprs[v] && AllResolved(p.rv, VarsOf(e, [])) && r in Substituted(p.rv, e))
  {
    hide Substituted, VarsOf, AllResolved;
    if v in exprs {
      var start := p.(done := p.done + [v], rv := Opened(p.rv, v));
      AddExprsRecords(start, v, exprs[v], p.done, r);
      forall e | e in exprs[v]
        ensures Substituted(p.rv, e) == Substituted(start.rv, e)
        ensures AllResolved(p.rv, VarsOf(e, [])) <==> AllResolved(start.rv, VarsOf(e, []))
      {
        SameResults(p.rv, start.rv, e, p.done);
      }
    }
  }

  lemma OldRecord(exprs: Exprs, sources: seq<Name>, p: Progress, v: Name, u: Name, e: Term, r: Term)
    requires ValuesInv(exprs, sources, p) && v !in p.done && u != v
    ensures Records(exprs, sources, p, u, e, r) <==> Records(exprs, sources, Placed(exprs, p, v), u, e, r)
  {
    var q := Placed(exprs, p, v);
    PlacedAgrees(exprs, sources, p, v);
    assert Evaluated(exprs, sources, p, u) <==> Evaluated(exprs, sources, q, u);
    if Evaluated(exprs, sources, p, u) {
      RecordsStay(exprs, sources, p, q, u, e, r);
    }
  }

  lemma NewRecord(exprs: Exprs, sources: seq<Name>, p: Progress, v: Name, e: Term, r: Term)
    requires ValuesInv(exprs, sources, p) && v !in p.done && v in exprs && OperandsIn(exprs[v], p.done)
    ensures Records(exprs, sources, Placed(exprs, p, v), v, e, r) <==>
              e in exprs[v] && AllResolved(p.rv, VarsOf(e, [])) && r in Substituted(p.rv, e)
  {
    PlacedAgrees(exprs, sources, p, v);
    if e in exprs[v] {
      SameResults(p.rv, Placed(exprs, p, v).rv, e, p.done);
    }
  }

  lemma BrokenRecords(exprs: Exprs, sources: seq<Name>, p: Progress, v: Name)
    requires ValuesInv(exprs, sources, p) && v !in p.done && Recorded(exprs, sources, p)
    ensures Recorded(exprs, sources, Broken(exprs, p, v))
  {
    var q := Broken(exprs, p, v);
    assert forall u :: Evaluated(exprs, sources, p, u) <==> Evaluated(exprs, sources, q, u);
    forall u, e, r | Evaluated(exprs, sources, p, u)
      ensures Records(exprs, sources, p, u, e, r) <==> Records(exprs, sources, q, u, e, r)
    {
      RecordsStay(exprs, sources, p, q, u, e, r);
    }
    hide Supported;
  }

  lemma {:induction false} SweptRecords(g: Graph, exprs: Exprs, sources: seq<Name>, p: Progress, n: nat)
    requires n <= |g.keys| && Layered(g, exprs, sources) && ValuesInv(exprs, sources, p)
    requires !p.crashed ==> Recorded(exprs, sources, p)
    ensures !Swept(g, exprs, p, n).crashed ==> Recorded(exprs, sources, Swept(g, exprs, p, n))
  {
    hide Recorded, Placed, OperandsIn, Layered;
    if n > 0 {
      SweptRecords(g, exprs, sources, p, n - 1);
      SweptKeepsInv(g, exprs, sources, p, n - 1);
      var q, v := Swept(g, exprs, p, n - 1), g.keys[n - 1];
      if Ready(g, q.done, v) && !Placed(exprs, q, v).crashed {
        CrashComesEarlier(exprs, q, v);
        assert v !in sources;
        ReadyOperands(g, exprs, sources, q.done, v);
        PlacedRecords(exprs, sources, q, v);
      }
    }
  }

  lemma CrashComesEarlier(exprs: Exprs, p: Progress, v: Name)
    ensures p.crashed ==> Placed(exprs, p, v).crashed
  {
  }

  lemma {:induction false} ResolveRecords(g: Graph, exprs: Exprs, sources: seq<Name>, p: Progress)
    requires GraphOk(g) && Layered(g, exprs, sources) && ValuesInv(exprs, sources, p)
    requires !p.crashed ==> Recorded(exprs, sources, p)
    ensures !Resolve(g, exprs, p).crashed ==> Recorded(exprs, sources, Resolve(g, exprs, p))
    decreases Undone(g, p.done)
  {
    hide ValuesInv, Layered, Swept, GraphOk, Undone, Recorded;
    var q := Swept(g, exprs, p, |g.keys|);
    SweptPlaces(g, exprs, p, |g.keys|);
    SweptKeepsInv(g, exprs, sources, p, |g.keys|);
    SweptRecords(g, exprs, sources, p, |g.keys|);
    if q.done != p.done {
      ResolveRecords(g, exprs, sources, q);
    } else if !AllDone(g, q.done) {
      BreakingPlaces(g, exprs, q);
      var v := FirstUndone(g.keys, q.done);
      BrokenKeepsInv(exprs, sources, q, v);
      if !q.crashed {
        BrokenRecords(exprs, sources, q, v);
      }
      ResolveRecords(g, exprs, sources, Broken(exprs, q, v));
    }
  }

  /** The symbolic values of a script: exactly the results for the evaluated expressions all of whose
      variables have values. */
  lemma AnalysisRecords(script: seq<Term>, r: Term)
    requires WellFormed(script) && !Analysed(script).crashed
    ensures r in Analysed(script).symbolic <==>
              exists v, e :: Records(Collected(script).exprs, SourcesOf(AllVars(script)), Analysed(script), v, e, r)
  {
    hide Collected, SourcesOf, AllVars, BuildGraph, Resolve, Layered, Records, ValuesInv, GraphOk;
    var f, sources := Collected(script), SourcesOf(AllVars(script));
    CollectedIsSound(script);
    BuildGraphMeaning(f.pairs);
    CollectedIsLayered(script);
    BeginInv(f.exprs, sources);
    NothingRecorded(f.exprs, sources);
    ResolveRecords(BuildGraph(f.pairs), f.exprs, sources, Begin(sources));
  }

  lemma NothingRecorded(exprs: Exprs, sources: seq<Name>)
    ensures Recorded(exprs, sources, Begin(sources))
  {
  }
}
