/**
 The analyser `SE` in place: each method computes what SymbolicResolution defines.
 */
module SymbolicEngine {
  import opened Terms
  import opened Substitution
  import opened DataFlow
  import opened SymbolicResolution

  lemma AddExprSticks(p: Progress, v: Name, e: Term)
    requires v in p.rv && p.crashed
    ensures AddExpr(p, v, e) == p
  {
  }

  lemma {:induction false} AddExprsSticks(p: Progress, v: Name, es: seq<Term>, n: nat)
    requires v in p.rv && n <= |es| && AddExprs(p, v, es[..n]).crashed
    ensures AddExprs(p, v, es) == AddExprs(p, v, es[..n])
  {
    hide AddExpr;
    if n < |es| {
      var m := |es| - 1;
      assert es[..m][..n] == es[..n];
      AddExprsSticks(p, v, es[..m], n);
      AddExprSticks(AddExprs(p, v, es[..m]), v, es[m]);
    } else {
      assert es[..n] == es;
    }
  }

  /** After an exception only the order would go on. */
  ghost predicate Stuck(p: Progress, q: Progress) {
    p.crashed && q.crashed && q.rv == p.rv && q.symbolic == p.symbolic && q.bare == p.bare
  }

  lemma {:induction false} SweptSticks(g: Graph, exprs: Exprs, p: Progress, k: nat, n: nat)
    requires k <= n <= |g.keys| && Swept(g, exprs, p, k).crashed
    ensures Stuck(Swept(g, exprs, p, k), Swept(g, exprs, p, n))
  {
    if k < n {
      SweptSticks(g, exprs, p, k, n - 1);
    }
  }

  lemma {:induction false} ResolveSticks(g: Graph, exprs: Exprs, p: Progress)
    requires GraphOk(g) && p.crashed
    ensures Stuck(p, Resolve(g, exprs, p))
    decreases Undone(g, p.done)
  {
    var q := Swept(g, exprs, p, |g.keys|);
    SweptSticks(g, exprs, p, 0, |g.keys|);
    SweptPlaces(g, exprs, p, |g.keys|);
    if q.done != p.done {
      ResolveSticks(g, exprs, q);
    } else if !AllDone(g, q.done) {
      BreakingPlaces(g, exprs, q);
      ResolveSticks(g, exprs, Broken(exprs, q, FirstUndone(g.keys, q.done)));
    }
  }

  lemma CrashStays(g: Graph, exprs: Exprs, p: Progress)
    requires GraphOk(g) && Swept(g, exprs, p, |g.keys|).crashed
    ensures Stuck(Swept(g, exprs, p, |g.keys|), Resolve(g, exprs, p))
  {
    var q := Swept(g, exprs, p, |g.keys|);
    SweptPlaces(g, exprs, p, |g.keys|);
    if q.done != p.done {
      ResolveSticks(g, exprs, q);
    } else if !AllDone(g, q.done) {
      BreakingPlaces(g, exprs, q);
      ResolveSticks(g, exprs, Broken(exprs, q, FirstUndone(g.keys, q.done)));
    }
  }

  lemma BrokenFirsts(exprs: Exprs, p: Progress, v: Name)
    requires FirstsClosed(p.rv)
    ensures FirstsClosed(Broken(exprs, p, v).rv)
  {
  }

  lemma OpenedFirsts(rv: Values, v: Name)
    requires FirstsClosed(rv)
    ensures FirstsClosed(Opened(rv, v))
  {
  }

  lemma {:induction false} ReplaceAllSelf(ts: seq<Term>, key: Term)
    ensures ReplaceAll(ts, key, key) == ts
  {
    forall k | 0 <= k < |ts|
      ensures ReplaceAll(ts, key, key)[k] == ts[k]
    {
      ReplaceSelf(ts[k], key);
    }
  }

  lemma CopiesSnoc(es: seq<Term>, key: Term, vals: seq<Term>, k: nat)
    requires k < |vals|
    ensures Copies(es, key, vals[..k + 1]) == Copies(es, key, vals[..k]) + ReplaceAll(es, key, vals[k])
  {
    assert vals[..k + 1][..k] == vals[..k];
  }

  /** At each turn all results still hold a variable of the script. */
  lemma ResultsAreOpen(rv: Values, expr: Term, occs: seq<Name>, k: nat)
    requires FirstsClosed(rv) && ScriptTerm(expr) && occs == VarsOf(expr, []) && k < |occs|
    ensures forall e :: e in SubstOccs(rv, expr, occs[..k]) ==> !Closed(e) && e != Var(Tmp)
    ensures Resolved(rv, occs[k]) ==> Closed(rv[occs[k]][0])
  {
    ScriptVars(expr);
    assert occs[k] in occs && forall n :: n in occs[..k] ==> n in occs;
    SubstOccsShape(rv, expr, occs[..k]);
    KeyIsApart(rv, expr, occs[..k], occs[k], SubstOccs(rv, expr, occs[..k]));
  }

  // ----- the analyser -----

  class SE {
    var variables: seq<Name>
    var sources: seq<Name>
    var variable2Expr: Exprs
    var partialOrderPairs: seq<(seq<Name>, seq<Name>)>
    var graph: Graph
    var variable2RValue: Values
    var bare: seq<Name>
    var symbolicValue: seq<Term>
    var sortedVariables: seq<Name>
    ghost var broken: seq<Name>

    constructor ()
      ensures variables == [] && sources == [] && variable2Expr == map[] && partialOrderPairs == []
      ensures graph == Graph([], map[]) && variable2RValue == map[] && bare == [] && symbolicValue == []
      ensures sortedVariables == [] && broken == []
    {
      variables, sources, variable2Expr, partialOrderPairs := [], [], map[], [];
      graph, variable2RValue, bare, symbolicValue := Graph([], map[]), map[], [], [];
      sortedVariables, broken := [], [];
    }

    /** `sortOperands` on an equation. */
    method SortOperands(command: Term)
      requires IsEquation(command)
      modifies `variable2Expr, `partialOrderPairs
      ensures Facts(variable2Expr, partialOrderPairs)
           == Sorted(sources, old(Facts(variable2Expr, partialOrderPairs)), command)
    {
      var operand0, operand1 := command.args[0], command.args[1];
      var first, second := VarsOf(operand0, []), VarsOf(operand1, []);
      if operand0.Var? {
        if operand1.Var? && operand0.name in sources {
          AppendExpr(operand1.name, operand0);
          partialOrderPairs := partialOrderPairs + [(first, second)];
          return;
        }
        AppendExpr(operand0.name, operand1);
        partialOrderPairs := partialOrderPairs + [(second, first)];
      } else {
        if operand1.Var? {
          AppendExpr(operand1.name, operand0);
        }
        partialOrderPairs := partialOrderPairs + [(first, second)];
      }
    }

    method AppendExpr(v: Name, e: Term)
      modifies `variable2Expr
      ensures variable2Expr == Note(old(variable2Expr), v, e)
    {
      if v !in variable2Expr {
        variable2Expr := variable2Expr[v := []];
      }
      variable2Expr := variable2Expr[v := variable2Expr[v] + [e]];
    }

    /** The innermost loop of `createGraph`. */
    method AddEdges(v: Name, b: seq<Name>)
      modifies `graph
      ensures graph == AddRow(old(graph), v, b)
    {
      var y := 0;
      while y < |b|
        invariant 0 <= y <= |b| && graph == AddRow(old(graph), v, b[..y])
      {
        graph := AddEdge(graph, v, b[y]);
        assert b[..y + 1][..y] == b[..y];
        y := y + 1;
      }
      assert b[..|b|] == b;
    }

    /** `createGraph`; the lists of outgoing edges only feed printed warnings and are not kept. */
    method CreateGraph()
      requires graph == Graph([], map[])
      modifies `graph
      ensures graph == BuildGraph(partialOrderPairs)
    {
      hide AddRow;
      var k := 0;
      while k < |partialOrderPairs|
        invariant 0 <= k <= |partialOrderPairs| && graph == BuildGraph(partialOrderPairs[..k])
      {
        var (a, b) := partialOrderPairs[k];
        ghost var before := graph;
        var x := 0;
        while x < |a|
          invariant 0 <= x <= |a| && graph == AddPair(before, a[..x], b)
        {
          AddEdges(a[x], b);
          assert a[..x + 1][..x] == a[..x];
          x := x + 1;
        }
        assert a[..|a|] == a && partialOrderPairs[..k + 1][..k] == partialOrderPairs[..k];
        k := k + 1;
      }
      assert partialOrderPairs[..|partialOrderPairs|] == partialOrderPairs;
    }

    /** `Term.substitute` on terms that do not hold the key node.  One that is equal to the key would be
        left alone and the key overwritten; there is none. */
    method SubstituteCopies(es: seq<Term>, key: Term, val: Term) returns (result: seq<Term>)
      requires forall e :: e in es ==> e != key
      ensures result == ReplaceAll(es, key, val)
    {
      result := [];
      var j := 0;
      while j < |es|
        invariant 0 <= j <= |es| && |result| == j
        invariant forall m :: 0 <= m < j ==> result[m] == Replace(es[m], key, val)
      {
        result := result + [Replace(es[j], key, val)];
        j := j + 1;
      }
      assert result == ReplaceAll(es, key, val);
    }

    /** The copies for the values after the first. */
    method CopiesFor(es: seq<Term>, key: Term, others: seq<Term>) returns (result: seq<Term>)
      requires forall e :: e in es ==> e != key
      ensures result == Copies(es, key, others)
    {
      hide Replace;
      result := [];
      var i := 0;
      while i < |others|
        invariant 0 <= i <= |others| && result == Copies(es, key, others[..i])
      {
        var copies := SubstituteCopies(es, key, others[i]);
        CopiesSnoc(es, key, others, i);
        result := result + copies;
        i := i + 1;
      }
      assert others[..|others|] == others;
    }

    /** One copy of the results for each value of v.  The first result holds the node v that serves as
        key, so the first replacement makes the key the first value. */
    method SubstituteValues(es: seq<Term>, v: Name, vals: seq<Term>) returns (result: seq<Term>)
      requires es != [] && vals != [] && Closed(vals[0]) && forall e :: e in es ==> !Closed(e)
      ensures result == [Replace(es[0], Var(v), vals[0])] + es[1..] + Copies(es, vals[0], vals[1..])
    {
      hide Replace, Closed;
      var first, key := Replace(es[0], Var(v), vals[0]), vals[0];
      assert forall e :: e in es ==> e != key;
      assert forall e :: e in es[1..] ==> e in es;
      var rest := SubstituteCopies(es[1..], key, vals[0]);
      ReplaceAllSelf(es[1..], key);
      var copies := CopiesFor(es, key, vals[1..]);
      result := [first] + rest + copies;
    }

    /** `tmp` for a variable without values. */
    method SubstituteTmp(es: seq<Term>, v: Name) returns (result: seq<Term>)
      requires es != [] && forall e :: e in es ==> e != Var(Tmp)
      ensures result == [Replace(es[0], Var(v), Var(Tmp))] + es[1..]
    {
      assert forall e :: e in es[1..] ==> e in es;
      var rest := SubstituteCopies(es[1..], Var(Tmp), Var(Tmp));
      ReplaceAllSelf(es[1..], Var(Tmp));
      result := [Replace(es[0], Var(v), Var(Tmp))] + rest;
    }

    /** `substitute`: the results for expr, recorded if every variable had a value; or an exception if a
        variable has a bare entry. */
    method Substitute(expr: Term) returns (ok: bool, result: seq<Term>)
      requires FirstsClosed(variable2RValue) && ScriptTerm(expr)
      modifies `symbolicValue
      ensures ok <==> !MeetsBare(bare, VarsOf(expr, []))
      ensures ok ==> result == Substituted(variable2RValue, expr)
      ensures symbolicValue == old(symbolicValue) +
                if ok && AllResolved(variable2RValue, VarsOf(expr, [])) then result else []
    {
      hide Closed, Mentions, ScriptTerm, VarsOf, Replace, Inst, Copies;
      var occs := VarsOf(expr, []);
      ScriptVars(expr);
      ok, result := true, [expr];
      var hasUnresolved := false;
      ghost var none: seq<Term> := [];
      assert symbolicValue + none == symbolicValue;
      var k := 0;
      while k < |occs|
        invariant 0 <= k <= |occs| && result == SubstOccs(variable2RValue, expr, occs[..k])
        invariant hasUnresolved <==> !AllResolved(variable2RValue, occs[..k])
        invariant !MeetsBare(bare, occs[..k])
        invariant symbolicValue == old(symbolicValue)
      {
        var v := occs[k];
        if v in bare {
          ok := false;
          return;
        }
        ResultsAreOpen(variable2RValue, expr, occs, k);
        if v in variable2RValue && |variable2RValue[v]| > 0 {
          result := SubstituteValues(result, v, variable2RValue[v]);
        } else {
          hasUnresolved := true;
          result := SubstituteTmp(result, v);
        }
        assert occs[..k + 1][..k] == occs[..k] && occs[..k + 1] == occs[..k] + [v];
        k := k + 1;
      }
      assert occs[..|occs|] == occs;
      if !hasUnresolved {
        symbolicValue := symbolicValue + result;
      }
    }

    ghost function State(done: seq<Name>, crashed: bool): Progress
      reads this
    {
      Progress(done, broken, variable2RValue, bare, symbolicValue, crashed)
    }

    /** The results for one expression of v. */
    method AddResults(ghost done: seq<Name>, v: Name, e: Term) returns (ok: bool)
      requires FirstsClosed(variable2RValue) && ScriptTerm(e) && v in variable2RValue
      modifies `variable2RValue, `symbolicValue
      ensures State(done, !ok) == AddExpr(old(State(done, false)), v, e)
      ensures v in variable2RValue
    {
      hide Substituted, FirstsClosed, VarsOf, ScriptTerm;
      var tmp;
      ok, tmp := Substitute(e);
      if ok {
        variable2RValue := variable2RValue[v := variable2RValue[v] + tmp];
      }
    }

    /** The results for all expressions of v, up to an exception. */
    method AddAllResults(ghost done: seq<Name>, v: Name, es: seq<Term>) returns (ok: bool)
      requires FirstsClosed(variable2RValue) && v in variable2RValue
      requires forall k :: 0 <= k < |es| ==> ScriptTerm(es[k])
      modifies `variable2RValue, `symbolicValue
      ensures State(done, !ok) == AddExprs(old(State(done, false)), v, es)
    {
      hide FirstsClosed, ScriptTerm, AddExpr;
      ghost var p := State(done, false);
      ok := true;
      var k := 0;
      while k < |es|
        invariant 0 <= k <= |es| && v in variable2RValue && ok
        invariant State(done, false) == AddExprs(p, v, es[..k])
      {
        AddExprsFirsts(p, v, es[..k]);
        assert es[..k + 1][..k] == es[..k];
        ok := AddResults(done, v, es[k]);
        if !ok {
          AddExprsSticks(p, v, es, k + 1);
          return;
        }
        k := k + 1;
      }
      assert es[..|es|] == es;
    }

    /** The values of a variable whose predecessors are done. */
    method Evaluate(done: seq<Name>, v: Name) returns (ok: bool)
      requires FirstsClosed(variable2RValue) && ExprsScript(variable2Expr)
      modifies `variable2RValue, `symbolicValue
      ensures State(done + [v], !ok) == Placed(variable2Expr, old(State(done, false)), v)
    {
      hide FirstsClosed, ScriptTerm, AddExprs;
      ok := true;
      if v in variable2Expr {
        if v !in variable2RValue {
          variable2RValue := variable2RValue[v := []];
        }
        OpenedFirsts(old(variable2RValue), v);
        ok := AddAllResults(done + [v], v, variable2Expr[v]);
      }
    }

    /** One pass of `resolveGraph` over the keys. */
    method Sweep(done: seq<Name>) returns (ok: bool, now: seq<Name>, found: bool)
      requires GraphOk(graph) && FirstsClosed(variable2RValue) && ExprsScript(variable2Expr)
      modifies `variable2RValue, `symbolicValue
      ensures var q := Swept(graph, variable2Expr, old(State(done, false)), |graph.keys|);
        if ok then State(now, false) == q else Stuck(State(now, true), q)
      ensures ok ==> (found <==> now != done)
    {
      hide FirstsClosed, ExprsScript, Placed;
      ghost var p := State(done, false);
      ok, now, found := true, done, false;
      var k := 0;
      while k < |graph.keys|
        invariant 0 <= k <= |graph.keys| && ok && State(now, false) == Swept(graph, variable2Expr, p, k)
        invariant (found <==> |now| > |done|) && (!found ==> now == done)
      {
        var v := graph.keys[k];
        if v !in now && forall m :: 0 <= m < |graph.ine[v]| ==> graph.ine[v][m] in now {
          found := true;
          SweptFirsts(graph, variable2Expr, p, k);
          ok := Evaluate(now, v);
          now := now + [v];
          if !ok {
            assert State(now, true) == Swept(graph, variable2Expr, p, k + 1);
            SweptSticks(graph, variable2Expr, p, k + 1, |graph.keys|);
            return;
          }
        }
        k := k + 1;
      }
    }

    /** When nothing was found: place the first variable left, without values of its own. */
    method BreakCycle(done: seq<Name>) returns (now: seq<Name>)
      requires !AllDone(graph, done)
      modifies `variable2RValue, `bare, `broken
      ensures State(now, false) == Broken(variable2Expr, old(State(done, false)), FirstUndone(graph.keys, done))
    {
      var v := FirstUndone(graph.keys, done);
      broken := broken + [v];
      if v in variable2Expr {
        if v !in variable2RValue {
          variable2RValue := variable2RValue[v := []];
        }
      } else {
        bare := bare + [v];
      }
      now := done + [v];
    }

    /** `resolveGraph`; after an exception `sortedVariables` is not set. */
    method ResolveGraph() returns (ok: bool)
      requires GraphOk(graph) && FirstsClosed(variable2RValue) && ExprsScript(variable2Expr)
      modifies `variable2RValue, `bare, `symbolicValue, `sortedVariables, `broken
      ensures var q := Resolve(graph, variable2Expr, old(State(sources, false)));
        if ok then State(sortedVariables, false) == q
        else sortedVariables == old(sortedVariables) && Stuck(State(sources, true), q)
    {
      hide Swept, Placed, Broken, GraphOk, ExprsScript, FirstsClosed;
      ghost var goal := Resolve(graph, variable2Expr, State(sources, false));
      var done := sources;
      while true
        invariant goal == Resolve(graph, variable2Expr, State(done, false))
        invariant FirstsClosed(variable2RValue) && sortedVariables == old(sortedVariables)
        decreases Undone(graph, done)
      {
        ghost var p := State(done, false);
        SweptPlaces(graph, variable2Expr, p, |graph.keys|);
        SweptFirsts(graph, variable2Expr, p, |graph.keys|);
        var now, found;
        ok, now, found := Sweep(done);
        if !ok {
          CrashStays(graph, variable2Expr, p);
          return;
        }
        if !found {
          if AllDone(graph, now) {
            sortedVariables := now;
            return;
          }
          BreakingPlaces(graph, variable2Expr, State(now, false));
          BrokenFirsts(variable2Expr, State(now, false), FirstUndone(graph.keys, now));
          now := BreakCycle(now);
        }
        done := now;
      }
    }

    /** The first loop of `start`: the variables and the equations of the assertions. */
    method CollectEquations(script: seq<Term>) returns (equations: seq<Term>)
      requires variables == []
      modifies `variables
      ensures equations == AllEquations(script) && variables == AllVars(script)
    {
      equations := [];
      var k := 0;
      while k < |script|
        invariant 0 <= k <= |script|
        invariant equations == AllEquations(script[..k]) && variables == AllVars(script[..k])
      {
        equations := equations + EquationsOf(script[k]);
        variables := VarsOf(script[k], variables);
        assert script[..k + 1][..k] == script[..k];
        k := k + 1;
      }
      assert script[..|script|] == script;
    }

    /** The last loop of `start`. */
    method SortEquations(equations: seq<Term>)
      requires forall k :: 0 <= k < |equations| ==> IsEquation(equations[k])
      modifies `variable2Expr, `partialOrderPairs
      ensures Facts(variable2Expr, partialOrderPairs)
           == SortedAll(sources, old(Facts(variable2Expr, partialOrderPairs)), equations)
    {
      hide Sorted;
      ghost var f := Facts(variable2Expr, partialOrderPairs);
      var k := 0;
      while k < |equations|
        invariant 0 <= k <= |equations|
        invariant Facts(variable2Expr, partialOrderPairs) == SortedAll(sources, f, equations[..k])
      {
        SortOperands(equations[k]);
        assert equations[..k + 1][..k] == equations[..k];
        k := k + 1;
      }
      assert equations[..|equations|] == equations;
    }

    /** `start` on a script of assertions. */
    method Start(script: seq<Term>) returns (ok: bool)
      requires WellFormed(script)
      requires variables == [] && sources == [] && variable2Expr == map[] && partialOrderPairs == []
      requires graph == Graph([], map[]) && variable2RValue == map[] && bare == [] && symbolicValue == [] && broken == []
      modifies this
      ensures if ok then State(sortedVariables, false) == Analysed(script)
              else sortedVariables == old(sortedVariables) && Stuck(State(sources, true), Analysed(script))
      ensures variables == AllVars(script) && sources == SourcesOf(variables)
      ensures variable2Expr == Collected(script).exprs && partialOrderPairs == Collected(script).pairs
    {
      hide SortedAll, Resolve, AllEquations, AllVars, SourcesOf, BuildGraph, SourceExprs, ExprsScript, ExprsFlow, FirstsClosed;
      var equations := CollectEquations(script);
      SeedSources();
      SortEquations(equations);
      CreateGraph();
      CollectedIsSound(script);
      BuildGraphMeaning(partialOrderPairs);
      BeginFirsts(sources);
      assert State(sources, false) == Begin(sources);
      ok := ResolveGraph();
    }

    /** The sources of `start`, with their expressions and their `$A`s. */
    method SeedSources()
      requires sources == [] && variable2Expr == map[] && variable2RValue == map[]
      modifies `sources, `variable2Expr, `variable2RValue
      ensures sources == SourcesOf(variables)
      ensures variable2Expr == SourceExprs(sources) && variable2RValue == Seeded(sources)
    {
      hide IsSource;
      var count, k := 0, 0;
      while k < |variables|
        invariant 0 <= k <= |variables| && count == |sources|
        invariant sources == SourcesOf(variables[..k])
        invariant variable2Expr == SourceExprs(sources) && variable2RValue == Seeded(sources)
      {
        var v := variables[k];
        assert variables[..k + 1][..k] == variables[..k];
        if IsSource(v) {
          assert (sources + [v])[..|sources|] == sources;
          sources := sources + [v];
          variable2Expr := variable2Expr[v := [Var(v)]];
          variable2RValue := variable2RValue[v := [Var(Arg(count))]];
          count := count + 1;
        }
        k := k + 1;
      }
      assert variables[..|variables|] == variables;
    }
  }
}
