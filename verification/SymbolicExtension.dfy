/**
 Scripts extended by one equation that defines a new variable.  The variables of the script keep
 their values; and every such extension keeps the meaning of its new variable exactly if the first
 value of each variable of the script is free of `tmp` whenever any of its values is.
 */
module SymbolicExtension {
  import opened Terms
  import opened Substitution
  import opened DataFlow
  import opened SymbolicResolution

  function Equals(a: Term, b: Term): Term {
    App(EQ, [a, b])
  }

  function Extended(script: seq<Term>, z: Name, e: Term): seq<Term> {
    script + [Equals(Var(z), e)]
  }

  /** A variable that does not occur in the script and is no source. */
  predicate New(script: seq<Term>, z: Name) {
    z.Prog? && !IsSource(z) && z !in AllVars(script)
  }

  /** z is new, and e is a term without equations that mentions no new source and not z. */
  ghost predicate Extends(script: seq<Term>, z: Name, e: Term) {
    && New(script, z) && ScriptTerm(e) && EquationsOf(e) == [] && !Mentions(e, z)
    && forall u :: Mentions(e, u) && IsSource(u) ==> u in AllVars(script)
  }

  // ----- one more equation -----

  lemma AllSnoc(script: seq<Term>, t: Term)
    ensures AllEquations(script + [t]) == AllEquations(script) + EquationsOf(t)
    ensures AllVars(script + [t]) == VarsOf(t, AllVars(script))
  {
    assert (script + [t])[..|script|] == script;
  }

  lemma SourcesSnoc(vars: seq<Name>, v: Name)
    ensures SourcesOf(vars + [v]) == SourcesOf(vars) + if IsSource(v) then [v] else []
  {
    assert (vars + [v])[..|vars|] == vars;
  }

  lemma SortedSnoc(sources: seq<Name>, f: Facts, eqs: seq<Term>, eq: Term)
    requires IsEquation(eq) && forall k :: 0 <= k < |eqs| ==> IsEquation(eqs[k])
    ensures SortedAll(sources, f, eqs + [eq]) == Sorted(sources, SortedAll(sources, f, eqs), eq)
  {
    assert (eqs + [eq])[..|eqs|] == eqs;
  }

  lemma EquationsCons(t: Term, ts: seq<Term>)
    ensures EquationsOfAll([t] + ts) == EquationsOf(t) + EquationsOfAll(ts)
  {
    assert ([t] + ts)[1..] == ts;
  }

  lemma EquationsOfTwo(op: string, a: Term, b: Term)
    requires EquationsOf(a) == [] && EquationsOf(b) == []
    ensures EquationsOf(App(op, [a, b])) == if op == EQ then [App(op, [a, b])] else []
  {
    assert [a, b] == [a] + [b] && [b] == [b] + [];
    EquationsCons(a, [b]);
    EquationsCons(b, []);
  }

  /** What `sortOperands` makes of an equation between a variable that is no source and a term. */
  lemma SortedVar(sources: seq<Name>, f: Facts, v: Name, t: Term)
    requires v !in sources
    ensures Sorted(sources, f, Equals(Var(v), t)) == Facts(Note(f.exprs, v, t), f.pairs + [(VarsOf(t, []), [v])])
  {
    assert VarsOf(Var(v), []) == [v];
  }

  lemma NoteFirst(exprs: Exprs, v: Name, e: Term)
    requires v !in exprs
    ensures Note(exprs, v, e) == exprs[v := [e]]
  {
    assert [] + [e] == [e];
  }

  lemma {:induction false} VarsOfAppends(t: Term, occs: seq<Name>)
    ensures occs <= VarsOf(t, occs)
    decreases t, 0
  {
    match t
    case Var(_) =>
    case App(_, args) => VarsOfAllAppends(args, occs);
  }

  lemma {:induction false} VarsOfAllAppends(ts: seq<Term>, occs: seq<Name>)
    ensures occs <= VarsOfAll(ts, occs)
    decreases ts
  {
    if ts != [] {
      VarsOfAppends(ts[0], occs);
      VarsOfAllAppends(ts[1..], VarsOf(ts[0], occs));
    }
  }

  lemma {:induction false} NoNewSources(vars: seq<Name>, more: seq<Name>)
    requires forall v :: v in more ==> !IsSource(v)
    ensures SourcesOf(vars + more) == SourcesOf(vars)
  {
    if more == [] {
      assert vars + more == vars;
    } else {
      var n := |more| - 1;
      NoNewSources(vars, more[..n]);
      SourcesSnoc(vars + more[..n], more[n]);
      assert vars + more[..n] + [more[n]] == vars + more;
      assert more[n] in more;
    }
  }

  /** What a script variable list gains by one more term: names the term mentions, each new. */
  lemma Gained(t: Term, vars: seq<Name>) returns (more: seq<Name>)
    requires NoRepeats(vars)
    ensures VarsOf(t, vars) == vars + more && forall v :: v in more ==> v !in vars && Mentions(t, v)
  {
    VarsOfAppends(t, vars);
    VarsCover(t, vars);
    var all := VarsOf(t, vars);
    more := all[|vars|..];
    hide VarsOf, Mentions;
    forall v | v in more
      ensures v !in vars && v in all
    {
      var k :| 0 <= k < |more| && more[k] == v;
      assert all[|vars| + k] == v;
      assert forall j :: 0 <= j < |vars| ==> all[j] == vars[j];
    }
  }

  /** The sources stay as they are. */
  lemma ExtendedSources(script: seq<Term>, z: Name, e: Term)
    requires WellFormed(script) && Extends(script, z, e)
    ensures SourcesOf(AllVars(Extended(script, z, e))) == SourcesOf(AllVars(script))
  {
    hide VarsOf, Mentions, AllVars, SourcesOf, IsSource;
    var t, vars := Equals(Var(z), e), AllVars(script);
    AllSnoc(script, t);
    AllVarsAreScript(script);
    var more := Gained(t, vars);
    forall v | v in more
      ensures !IsSource(v)
    {
      EquationMentions(z, e, v);
    }
    NoNewSources(vars, more);
  }

  lemma EquationMentions(z: Name, e: Term, v: Name)
    ensures Mentions(Equals(Var(z), e), v) <==> v == z || Mentions(e, v)
  {
    var t := Equals(Var(z), e);
    assert t.args[0] == Var(z) && t.args[1] == e;
  }

  /** An equation that defines a variable, without equations inside. */
  lemma Defining(v: Name, t: Term)
    requires v.Prog? && ScriptTerm(t) && EquationsOf(t) == []
    ensures ScriptTerm(Equals(Var(v), t)) && IsEquation(Equals(Var(v), t))
    ensures EquationsOf(Equals(Var(v), t)) == [Equals(Var(v), t)]
  {
    hide EquationsOf;
    NoneInVar(v);
    EquationsOfTwo(EQ, Var(v), t);
  }

  lemma NoneInVar(v: Name)
    ensures EquationsOf(Var(v)) == [] && VarsOf(Var(v), []) == [v] && (v.Prog? ==> ScriptTerm(Var(v)))
  {
  }

  lemma ExtendedEquations(script: seq<Term>, z: Name, e: Term)
    requires WellFormed(script) && Extends(script, z, e)
    ensures WellFormed(Extended(script, z, e))
    ensures AllEquations(Extended(script, z, e)) == AllEquations(script) + [Equals(Var(z), e)]
  {
    hide AllEquations, EquationsOf, ScriptTerm, IsEquation, IsSource, Equals, AllVars, Mentions;
    Defining(z, e);
    AllSnoc(script, Equals(Var(z), e));
  }

  /** What is collected: one more expression and one more flow. */
  lemma ExtendedCollected(script: seq<Term>, z: Name, e: Term)
    requires WellFormed(script) && Extends(script, z, e)
    ensures WellFormed(Extended(script, z, e)) && z !in Collected(script).exprs
    ensures Collected(Extended(script, z, e)) ==
      Facts(Collected(script).exprs[z := [e]], Collected(script).pairs + [(VarsOf(e, []), [z])])
  {
    var t, sources := Equals(Var(z), e), SourcesOf(AllVars(script));
    ExtendedEquations(script, z, e);
    ExtendedSources(script, z, e);
    CollectedWithin(script);
    NewIsNoSource(script, z);
    hide EquationsOf, VarsOf, AllVars, SourcesOf, IsSource, AllEquations, Sorted, SortedAll, Note, Mentions, ScriptTerm;
    SortedSnoc(sources, Facts(SourceExprs(sources), []), AllEquations(script), t);
    SortedVar(sources, Collected(script), z, e);
    NoteFirst(Collected(script).exprs, z, e);
  }

  lemma NewIsNoSource(script: seq<Term>, z: Name)
    requires WellFormed(script) && New(script, z)
    ensures z !in SourcesOf(AllVars(script))
  {
    AllVarsAreScript(script);
    SourcesAreVars(AllVars(script));
  }

  // ----- which names occur -----

  lemma {:induction false} InEquation(t: Term, q: Term, n: Name)
    requires q in EquationsOf(t) && Mentions(q, n)
    ensures Mentions(t, n)
    decreases t, 0
  {
    if q != t {
      InEquations(t.args, q, n);
    }
  }

  lemma {:induction false} InEquations(ts: seq<Term>, q: Term, n: Name)
    requires q in EquationsOfAll(ts) && Mentions(q, n)
    ensures exists k :: 0 <= k < |ts| && Mentions(ts[k], n)
    decreases ts
  {
    if q in EquationsOf(ts[0]) {
      InEquation(ts[0], q, n);
    } else {
      InEquations(ts[1..], q, n);
      var k :| 0 <= k < |ts[1..]| && Mentions(ts[1..][k], n);
      assert ts[k + 1] == ts[1..][k];
    }
  }

  lemma {:induction false} EquationNames(script: seq<Term>, q: Term, n: Name)
    requires q in AllEquations(script) && Mentions(q, n)
    ensures n in AllVars(script)
  {
    var m := |script| - 1;
    VarsCover(script[m], AllVars(script[..m]));
    if q in AllEquations(script[..m]) {
      EquationNames(script[..m], q, n);
    } else {
      InEquation(script[m], q, n);
    }
  }

  /** Only these variables have expressions, occur in them, or flow. */
  ghost predicate Within(f: Facts, names: seq<Name>) {
    && (forall v :: v in f.exprs ==> v in names)
    && (forall v, e, n :: v in f.exprs && e in f.exprs[v] && Mentions(e, n) ==> n in names)
    && (forall k, n :: 0 <= k < |f.pairs| && (n in f.pairs[k].0 || n in f.pairs[k].1) ==> n in names)
  }

  lemma SortedWithin(sources: seq<Name>, f: Facts, eq: Term, names: seq<Name>)
    requires IsEquation(eq) && Within(f, names) && forall n :: Mentions(eq, n) ==> n in names
    ensures Within(Sorted(sources, f, eq), names)
  {
    var a, b := eq.args[0], eq.args[1];
    VarsCover(a, []);
    VarsCover(b, []);
    assert forall n :: Mentions(a, n) || Mentions(b, n) ==> Mentions(eq, n);
    assert a.Var? ==> Mentions(a, a.name);
    assert b.Var? ==> Mentions(b, b.name);
    hide Mentions, VarsOf;
  }

  lemma {:induction false} SortedAllWithin(sources: seq<Name>, f: Facts, eqs: seq<Term>, names: seq<Name>)
    requires forall k :: 0 <= k < |eqs| ==> IsEquation(eqs[k])
    requires Within(f, names) && forall k, n :: 0 <= k < |eqs| && Mentions(eqs[k], n) ==> n in names
    ensures Within(SortedAll(sources, f, eqs), names)
  {
    hide Within, Mentions, Sorted, IsEquation;
    if eqs != [] {
      var m := |eqs| - 1;
      SortedAllWithin(sources, f, eqs[..m], names);
      SortedWithin(sources, SortedAll(sources, f, eqs[..m]), eqs[m], names);
    }
  }

  lemma CollectedWithin(script: seq<Term>)
    requires WellFormed(script)
    ensures Within(Collected(script), AllVars(script))
  {
    var sources, eqs := SourcesOf(AllVars(script)), AllEquations(script);
    AllVarsAreScript(script);
    SourcesAreVars(AllVars(script));
    SourceExprsAreVars(sources);
    forall k, n | 0 <= k < |eqs| && Mentions(eqs[k], n)
      ensures n in AllVars(script)
    {
      EquationNames(script, eqs[k], n);
    }
    SortedAllWithin(sources, Facts(SourceExprs(sources), []), eqs, AllVars(script));
  }

  // ----- the graph grows -----

  /** h is g with more keys at the end; what flowed into a variable of g is the same, and into the other
      keys but z nothing flows. */
  ghost predicate Grown(g: Graph, h: Graph, z: Name) {
    && g.keys <= h.keys && z !in g.ine
    && (forall v :: v in g.ine ==> v in h.ine && h.ine[v] == g.ine[v])
    && (forall v :: v in h.ine && v !in g.ine && v != z ==> h.ine[v] == [])
  }

  lemma EdgeGrows(g: Graph, h: Graph, u: Name, z: Name)
    requires Grown(g, h, z)
    ensures Grown(g, AddEdge(h, u, z), z)
  {
  }

  lemma {:induction false} PairGrows(g: Graph, us: seq<Name>, z: Name)
    requires z !in g.ine
    ensures Grown(g, AddPair(g, us, [z]), z)
  {
    if us != [] {
      var n := |us| - 1;
      PairGrows(g, us[..n], z);
      EdgeGrows(g, AddPair(g, us[..n], [z]), us[n], z);
      assert [z][..0] == [];
      assert AddRow(AddPair(g, us[..n], [z]), us[n], []) == AddPair(g, us[..n], [z]);
    }
  }

  lemma EdgeKeys(g: Graph, u: Name, v: Name)
    ensures forall x :: x in AddEdge(g, u, v).ine <==> x in g.ine || x == u || x == v
  {
  }

  lemma {:induction false} RowKeys(g: Graph, u: Name, vs: seq<Name>)
    ensures forall x :: x in AddRow(g, u, vs).ine ==> x in g.ine || x == u || x in vs
  {
    if vs != [] {
      RowKeys(g, u, vs[..|vs| - 1]);
      EdgeKeys(AddRow(g, u, vs[..|vs| - 1]), u, vs[|vs| - 1]);
    }
  }

  lemma {:induction false} PairKeys(g: Graph, us: seq<Name>, vs: seq<Name>)
    ensures forall x :: x in AddPair(g, us, vs).ine ==> x in g.ine || x in us || x in vs
  {
    if us != [] {
      PairKeys(g, us[..|us| - 1], vs);
      RowKeys(AddPair(g, us[..|us| - 1], vs), us[|us| - 1], vs);
    }
  }

  /** Every key of the graph occurs in a pair. */
  lemma {:induction false} KeysAreNames(pairs: seq<(seq<Name>, seq<Name>)>, v: Name)
    requires v in BuildGraph(pairs).ine
    ensures exists k :: 0 <= k < |pairs| && (v in pairs[k].0 || v in pairs[k].1)
  {
    var n := |pairs| - 1;
    PairKeys(BuildGraph(pairs[..n]), pairs[n].0, pairs[n].1);
    if v in BuildGraph(pairs[..n]).ine {
      KeysAreNames(pairs[..n], v);
      var k :| 0 <= k < n && (v in pairs[..n][k].0 || v in pairs[..n][k].1);
      assert pairs[k] == pairs[..n][k];
    }
  }

  // ----- the order is the same -----

  ghost predicate Known(g: Graph, sources: seq<Name>, v: Name) {
    v in g.ine || v in sources
  }

  /** The known variables are done and broken in the one state exactly if they are in the other. */
  ghost predicate Alike(g: Graph, sources: seq<Name>, p: Progress, q: Progress) {
    forall v :: Known(g, sources, v) ==> (v in p.done <==> v in q.done) && (v in p.broken <==> v in q.broken)
  }

  lemma ReadyAlike(g: Graph, h: Graph, z: Name, sources: seq<Name>, p: Progress, q: Progress, v: Name)
    requires GraphOk(g) && Grown(g, h, z) && Alike(g, sources, p, q) && v in g.ine
    ensures Ready(g, p.done, v) <==> Ready(h, q.done, v)
  {
    forall k | 0 <= k < |g.ine[v]|
      ensures g.ine[v][k] in p.done <==> h.ine[v][k] in q.done
    {
      assert Known(g, sources, g.ine[v][k]);
    }
  }

  lemma {:induction false} SweptAlike(g: Graph, h: Graph, z: Name, sources: seq<Name>, exprs: Exprs, more: Exprs,
      p: Progress, q: Progress, n: nat)
    requires GraphOk(g) && Grown(g, h, z) && Alike(g, sources, p, q) && n <= |g.keys| <= |h.keys|
    ensures Alike(g, sources, Swept(g, exprs, p, n), Swept(h, more, q, n))
  {
    hide Ready, Grown, Known;
    if n > 0 {
      SweptAlike(g, h, z, sources, exprs, more, p, q, n - 1);
      var p1, q1, v := Swept(g, exprs, p, n - 1), Swept(h, more, q, n - 1), g.keys[n - 1];
      GrownKey(g, h, z, n - 1);
      ReadyAlike(g, h, z, sources, p1, q1, v);
    }
  }

  lemma GrownKey(g: Graph, h: Graph, z: Name, k: nat)
    requires GraphOk(g) && Grown(g, h, z) && k < |g.keys|
    ensures |g.keys| <= |h.keys| && h.keys[k] == g.keys[k] && g.keys[k] in g.ine
  {
  }

  lemma LaterKey(g: Graph, h: Graph, z: Name, n: nat)
    requires GraphOk(g) && GraphOk(h) && Grown(g, h, z) && |g.keys| <= n < |h.keys|
    ensures h.keys[n] !in g.ine
  {
    assert forall k :: 0 <= k < |g.keys| ==> h.keys[k] == g.keys[k];
    assert h.keys[n] !in g.keys;
  }

  lemma PlacedAlike(g: Graph, sources: seq<Name>, more: Exprs, p: Progress, q: Progress, v: Name)
    requires Alike(g, sources, p, q) && !Known(g, sources, v)
    ensures Alike(g, sources, p, Placed(more, q, v))
  {
  }

  lemma {:induction false} SweptOn(g: Graph, h: Graph, z: Name, sources: seq<Name>, more: Exprs, p: Progress, q: Progress, n: nat)
    requires GraphOk(g) && GraphOk(h) && Grown(g, h, z) && |g.keys| <= n <= |h.keys|
    requires forall s :: s in sources ==> s in q.done
    requires Alike(g, sources, p, Swept(h, more, q, |g.keys|))
    ensures Alike(g, sources, p, Swept(h, more, q, n))
  {
    hide Alike, Grown, GraphOk, Placed, Ready;
    if n > |g.keys| {
      SweptOn(g, h, z, sources, more, p, q, n - 1);
      SweptPlaces(h, more, q, n - 1);
      var q1, v := Swept(h, more, q, n - 1), h.keys[n - 1];
      if Ready(h, q1.done, v) {
        ReadyIsNew(h, q1.done, v);
        LaterKey(g, h, z, n - 1);
        assert v !in sources;
        PlacedAlike(g, sources, more, p, q1, v);
      }
    }
  }

  lemma FirstAlike(g: Graph, h: Graph, sources: seq<Name>, p: Progress, q: Progress)
    requires GraphOk(g) && g.keys <= h.keys && Alike(g, sources, p, q) && !AllDone(g, p.done)
    ensures !AllDone(h, q.done) && FirstUndone(h.keys, q.done) == FirstUndone(g.keys, p.done)
  {
    forall k | 0 <= k < |g.keys|
      ensures g.keys[k] in p.done <==> g.keys[k] in q.done
    {
      assert Known(g, sources, g.keys[k]);
    }
    SameFirst(g.keys, h.keys, p.done, q.done);
  }

  lemma {:induction false} SameFirst(keys: seq<Name>, more: seq<Name>, done: seq<Name>, now: seq<Name>)
    requires keys <= more && exists k :: 0 <= k < |keys| && keys[k] !in done
    requires forall k :: 0 <= k < |keys| ==> (keys[k] in done <==> keys[k] in now)
    ensures exists k :: 0 <= k < |more| && more[k] !in now
    ensures FirstUndone(more, now) == FirstUndone(keys, done)
  {
    var k :| 0 <= k < |keys| && keys[k] !in done;
    assert more[k] !in now;
    if keys[0] in done {
      assert keys[1..][k - 1] == keys[k];
      SameFirst(keys[1..], more[1..], done, now);
    }
  }

  /** If nothing happens in the larger graph, nothing happens in the smaller one. */
  lemma StallsAlike(g: Graph, sources: seq<Name>, exprs: Exprs, p: Progress, q: Progress)
    requires GraphOk(g) && Alike(g, sources, p, q) && Alike(g, sources, Swept(g, exprs, p, |g.keys|), q)
    ensures Swept(g, exprs, p, |g.keys|) == p
  {
    var p1 := Swept(g, exprs, p, |g.keys|);
    SweptPlaces(g, exprs, p, |g.keys|);
    if p1.done != p.done {
      var v :| v in Undone(g, p.done) && v !in Undone(g, p1.done);
      assert Known(g, sources, v);
    }
  }

  lemma BrokenAlike(g: Graph, sources: seq<Name>, exprs: Exprs, more: Exprs, p: Progress, q: Progress, v: Name)
    requires Alike(g, sources, p, q)
    ensures Alike(g, sources, Broken(exprs, p, v), Broken(more, q, v))
    ensures !Known(g, sources, v) ==> Alike(g, sources, p, Broken(more, q, v))
  {
  }

  /** In the larger graph the known variables are placed, and cycles broken at them, all the same. */
  lemma {:induction false} ResolveAlike(g: Graph, h: Graph, z: Name, sources: seq<Name>, exprs: Exprs, more: Exprs,
      p: Progress, q: Progress)
    requires GraphOk(g) && GraphOk(h) && Grown(g, h, z) && Alike(g, sources, p, q)
    requires forall s :: s in sources ==> s in q.done
    ensures Alike(g, sources, Resolve(g, exprs, p), Resolve(h, more, q))
    decreases Undone(h, q.done)
  {
    hide Swept, Ready, Alike, Known, Broken;
    var p1, q1 := Swept(g, exprs, p, |g.keys|), Swept(h, more, q, |h.keys|);
    SweptPlaces(g, exprs, p, |g.keys|);
    SweptPlaces(h, more, q, |h.keys|);
    SweptAlike(g, h, z, sources, exprs, more, p, q, |g.keys|);
    SweptOn(g, h, z, sources, more, p1, q, |h.keys|);
    if q1.done != q.done {
      ResolveAlike(g, h, z, sources, exprs, more, p1, q1);
      if p1.done == p.done {
        assert p1 == p;
      }
    } else {
      StallsAlike(g, sources, exprs, p, q);
      ResolveStalled(g, h, z, sources, exprs, more, p, q);
    }
  }

  /** The case that a cycle is broken, or all is done. */
  lemma {:induction false} ResolveStalled(g: Graph, h: Graph, z: Name, sources: seq<Name>, exprs: Exprs, more: Exprs,
      p: Progress, q: Progress)
    requires GraphOk(g) && GraphOk(h) && Grown(g, h, z) && Alike(g, sources, p, q)
    requires forall s :: s in sources ==> s in q.done
    requires Swept(g, exprs, p, |g.keys|) == p && Swept(h, more, q, |h.keys|) == q
    ensures Alike(g, sources, Resolve(g, exprs, p), Resolve(h, more, q))
    decreases Undone(h, q.done), 0
  {
    hide Swept, Ready, Alike, Broken, GraphOk;
    if !AllDone(g, p.done) {
      FirstAlike(g, h, sources, p, q);
      var v := FirstUndone(g.keys, p.done);
      BreakingPlaces(h, more, q);
      BrokenDone(more, q, v);
      BrokenAlike(g, sources, exprs, more, p, q, v);
      ResolveAlike(g, h, z, sources, exprs, more, Broken(exprs, p, v), Broken(more, q, v));
    } else if !AllDone(h, q.done) {
      var v := FirstUndone(h.keys, q.done);
      BreakingPlaces(h, more, q);
      BrokenDone(more, q, v);
      UnknownLeft(g, sources, p, q, v);
      BrokenAlike(g, sources, exprs, more, p, q, v);
      ResolveAlike(g, h, z, sources, exprs, more, p, Broken(more, q, v));
    }
  }

  lemma BrokenDone(exprs: Exprs, q: Progress, v: Name)
    ensures Broken(exprs, q, v).done == q.done + [v]
  {
  }

  lemma UnknownLeft(g: Graph, sources: seq<Name>, p: Progress, q: Progress, v: Name)
    requires GraphOk(g) && Alike(g, sources, p, q) && AllDone(g, p.done) && v !in q.done
    requires forall s :: s in sources ==> s in q.done
    ensures !Known(g, sources, v)
  {
    assert Known(g, sources, v) ==> (v in p.done <==> v in q.done);
    assert v in g.ine ==> v in g.keys;
  }

  // ----- the values are the same -----

  lemma DoneIsKnown(g: Graph, exprs: Exprs, sources: seq<Name>, p: Progress, u: Name)
    requires Solved(g, exprs, sources, p) && u in p.done
    ensures Known(g, sources, u)
  {
  }

  lemma {:induction false} SameValues(g: Graph, h: Graph, exprs: Exprs, more: Exprs, sources: seq<Name>,
      p: Progress, q: Progress, v: Name)
    requires Solved(g, exprs, sources, p) && Solved(h, more, sources, q) && Alike(g, sources, p, q)
    requires forall u :: Known(g, sources, u) ==> (u in exprs <==> u in more) && (u in exprs ==> exprs[u] == more[u])
    requires v in p.done
    ensures Agree(p.rv, q.rv, v)
    decreases if v in p.done then IndexOf(p.done, v) else 0
  {
    hide Solved, Evaluated, NoRepeats;
    DoneIsKnown(g, exprs, sources, p, v);
    SameKind(g, exprs, more, sources, p, q, v);
    if v in sources {
      var k := SourceValues(g, exprs, sources, p, v);
      var j := SourceValues(h, more, sources, q, v);
      OnlySource(g, exprs, sources, p, k, j);
    } else if Evaluated(exprs, sources, p, v) {
      EvaluatedValues(g, exprs, sources, p, v);
      EvaluatedValues(h, more, sources, q, v);
      var before := p.done[..IndexOf(p.done, v)];
      OperandsBefore(g, exprs, sources, p, v);
      forall u | u in before
        ensures Agree(p.rv, q.rv, u)
      {
        BeforeIsEarlier(g, exprs, sources, p, v, u);
        SameValues(g, h, exprs, more, sources, p, q, u);
      }
      ValuesOfLocal(p.rv, q.rv, exprs[v], before);
    } else {
      SettledAlike(g, h, exprs, more, sources, p, q, v);
    }
  }

  lemma SameKind(g: Graph, exprs: Exprs, more: Exprs, sources: seq<Name>, p: Progress, q: Progress, v: Name)
    requires Alike(g, sources, p, q) && Known(g, sources, v)
    requires (v in exprs <==> v in more) && v in p.done
    ensures Evaluated(exprs, sources, p, v) <==> Evaluated(more, sources, q, v)
    ensures v in q.done
  {
  }

  lemma OnlySource(g: Graph, exprs: Exprs, sources: seq<Name>, p: Progress, k: nat, j: nat)
    requires Solved(g, exprs, sources, p) && k < |sources| && j < |sources| && sources[k] == sources[j]
    ensures k == j
  {
    assert p.rv[sources[k]] == [Var(Arg(k))] && p.rv[sources[j]] == [Var(Arg(j))];
  }

  lemma OperandsBefore(g: Graph, exprs: Exprs, sources: seq<Name>, p: Progress, v: Name)
    requires Solved(g, exprs, sources, p) && Evaluated(exprs, sources, p, v)
    ensures OperandsIn(exprs[v], p.done[..IndexOf(p.done, v)])
  {
    hide Solved, VarsOf;
    forall e, u | e in exprs[v] && u in VarsOf(e, [])
      ensures u in p.done[..IndexOf(p.done, v)]
    {
      UsedIsBefore(g, exprs, sources, p, v, e, u);
    }
  }

  lemma BeforeIsEarlier(g: Graph, exprs: Exprs, sources: seq<Name>, p: Progress, v: Name, u: Name)
    requires Solved(g, exprs, sources, p) && v in p.done && u in p.done[..IndexOf(p.done, v)]
    ensures u in p.done && IndexOf(p.done, u) < IndexOf(p.done, v)
  {
    PrefixNames(p.done, IndexOf(p.done, v));
  }

  /** Neither source nor evaluated: an empty list if it has expressions, and otherwise no entry. */
  lemma SettledAlike(g: Graph, h: Graph, exprs: Exprs, more: Exprs, sources: seq<Name>, p: Progress, q: Progress, v: Name)
    requires Solved(g, exprs, sources, p) && Solved(h, more, sources, q) && v in p.done && v in q.done && v !in sources
    requires !Evaluated(exprs, sources, p, v) && !Evaluated(more, sources, q, v) && (v in exprs <==> v in more)
    ensures Agree(p.rv, q.rv, v)
  {
    assert Settled(exprs, p, v) && Settled(more, q, v);
  }

  // ----- extensions -----

  /** The graphs of a script and of its extension. */
  lemma ExtensionGrows(script: seq<Term>, z: Name, e: Term)
    requires WellFormed(script) && Extends(script, z, e)
    ensures WellFormed(Extended(script, z, e))
    ensures Grown(BuildGraph(Collected(script).pairs), BuildGraph(Collected(Extended(script, z, e)).pairs), z)
    ensures forall v :: v in BuildGraph(Collected(script).pairs).ine ==> v in AllVars(script)
  {
    var pairs := Collected(script).pairs;
    ExtendedCollected(script, z, e);
    CollectedWithin(script);
    hide Collected, AllVars, VarsOf, BuildGraph;
    forall v | v in BuildGraph(pairs).ine
      ensures v in AllVars(script)
    {
      KeysAreNames(pairs, v);
    }
    BuildStep(pairs, VarsOf(e, []), z);
    PairGrows(BuildGraph(pairs), VarsOf(e, []), z);
  }

  lemma BuildStep(pairs: seq<(seq<Name>, seq<Name>)>, us: seq<Name>, z: Name)
    ensures BuildGraph(pairs + [(us, [z])]) == AddPair(BuildGraph(pairs), us, [z])
  {
    assert (pairs + [(us, [z])])[..|pairs|] == pairs;
  }

  /** An extension treats the variables of the script as the script does. */
  lemma ExtensionAlike(script: seq<Term>, z: Name, e: Term)
    requires WellFormed(script) && Extends(script, z, e)
    ensures WellFormed(Extended(script, z, e))
    ensures Alike(BuildGraph(Collected(script).pairs), SourcesOf(AllVars(script)),
                  Analysed(script), Analysed(Extended(script, z, e)))
  {
    ExtendedEquations(script, z, e);
    var more := Extended(script, z, e);
    var f, f1, sources := Collected(script), Collected(more), SourcesOf(AllVars(script));
    ExtendedSources(script, z, e);
    ExtensionGrows(script, z, e);
    BuildGraphMeaning(f.pairs);
    BuildGraphMeaning(f1.pairs);
    assert Alike(BuildGraph(f.pairs), sources, Begin(sources), Begin(sources));
    hide Collected, AllVars, SourcesOf, BuildGraph, Resolve, Alike, Grown, GraphOk, Extended, Extends, WellFormed;
    ResolveAlike(BuildGraph(f.pairs), BuildGraph(f1.pairs), z, sources, f.exprs, f1.exprs, Begin(sources), Begin(sources));
  }

  // ----- one more variable, seen from the graphs -----

  /** more and h are what exprs and g become when `z = e` is added. */
  ghost predicate Adds(g: Graph, h: Graph, exprs: Exprs, more: Exprs, sources: seq<Name>, z: Name, e: Term) {
    && GraphOk(g) && GraphOk(h) && Grown(g, h, z) && Layered(g, exprs, sources) && Layered(h, more, sources)
    && z !in exprs && z !in sources && more == exprs[z := [e]] && ExprsScript(more)
    && (forall u :: Edge(h, u, z) <==> u in VarsOf(e, []))
    && (forall v, d :: v in more && d in more[v] ==> z !in VarsOf(d, []))
  }

  lemma EdgesToNew(pairs: seq<(seq<Name>, seq<Name>)>, us: seq<Name>, z: Name)
    requires forall k :: 0 <= k < |pairs| ==> z !in pairs[k].1
    ensures forall u :: Edge(BuildGraph(pairs + [(us, [z])]), u, z) ==> u in us
  {
    var more := pairs + [(us, [z])];
    BuildGraphMeaning(more);
    assert forall k :: 0 <= k < |pairs| ==> more[k] == pairs[k];
    assert |more| == |pairs| + 1 && more[|pairs|].0 == us;
  }

  lemma NewEdges(pairs: seq<(seq<Name>, seq<Name>)>, us: seq<Name>, z: Name)
    ensures forall u :: u in us ==> Edge(BuildGraph(pairs + [(us, [z])]), u, z)
  {
    var more := pairs + [(us, [z])];
    BuildGraphMeaning(more);
    assert more[|pairs|].0 == us && z in more[|pairs|].1;
  }

  lemma ScriptAdds(script: seq<Term>, z: Name, e: Term)
    requires WellFormed(script) && Extends(script, z, e)
    ensures WellFormed(Extended(script, z, e))
    ensures Adds(BuildGraph(Collected(script).pairs), BuildGraph(Collected(Extended(script, z, e)).pairs),
                 Collected(script).exprs, Collected(Extended(script, z, e)).exprs, SourcesOf(AllVars(script)), z, e)
  {
    ExtendedEquations(script, z, e);
    var more := Extended(script, z, e);
    var f, f1 := Collected(script), Collected(more);
    ExtendedSources(script, z, e);
    ExtendedCollected(script, z, e);
    ExtensionGrows(script, z, e);
    NewIsNoSource(script, z);
    hide Collected, AllVars, SourcesOf, BuildGraph, WellFormed, Grown, Layered, GraphOk, Extended, ExprsScript, IsSource;
    BuildGraphMeaning(f.pairs);
    BuildGraphMeaning(f1.pairs);
    CollectedIsLayered(script);
    CollectedIsLayered(more);
    CollectedIsSound(more);
    CollectedWithin(script);
    EdgesToNew(f.pairs, VarsOf(e, []), z);
    NewEdges(f.pairs, VarsOf(e, []), z);
    NotMentionedInAny(f, AllVars(script), z, e, f1.exprs);
  }

  lemma NotMentionedInAny(f: Facts, names: seq<Name>, z: Name, e: Term, more: Exprs)
    requires Within(f, names) && z !in names && !Mentions(e, z) && more == f.exprs[z := [e]]
    ensures forall v, d :: v in more && d in more[v] ==> z !in VarsOf(d, [])
  {
    forall v, d | v in more && d in more[v]
      ensures z !in VarsOf(d, [])
    {
      VarsCover(d, []);
    }
  }

  lemma {:induction false} FirstIsFirst(keys: seq<Name>, done: seq<Name>, k: nat) returns (m: nat)
    requires k < |keys| && keys[k] !in done
    ensures m <= k && FirstUndone(keys, done) == keys[m]
  {
    if keys[0] !in done {
      m := 0;
    } else {
      m := FirstIsFirst(keys[1..], done, k - 1);
      m := m + 1;
    }
  }

  /** No cycle is broken at a variable that depends on nothing. */
  lemma FreeIsNotBroken(g: Graph, sources: seq<Name>, done: seq<Name>, broken: seq<Name>, x: Name)
    requires GraphOk(g) && Order(g, sources, done, broken) && x in g.ine && g.ine[x] == []
    ensures x !in broken
  {
    if x in done && x !in sources {
      var j :| 0 <= j < |done| && done[j] == x;
      assert j >= |sources| by {
        assert forall s :: 0 <= s < |sources| ==> sources[s] == done[s];
      }
      assert x !in done[..j] && x in g.keys;
      assert Ready(g, done[..j], x);
      BrokenIff(g, sources, done, broken, j);
    }
  }

  lemma KeyBefore(g: Graph, h: Graph, z: Name, before: seq<Name>, k: nat)
    requires GraphOk(g) && Grown(g, h, z) && BreaksAt(h, before, z) && k < |g.keys|
    ensures g.keys[k] in before
  {
    assert forall m :: 0 <= m < |g.keys| ==> h.keys[m] == g.keys[m] && g.keys[m] in g.ine;
    if g.keys[k] !in before {
      var m := FirstIsFirst(h.keys, before, k);
      assert false;
    }
  }

  /** What the new variable depends on comes before it or is free. */
  lemma FreeOrEarlier(g: Graph, h: Graph, z: Name, before: seq<Name>, u: Name)
    requires GraphOk(g) && GraphOk(h) && Grown(g, h, z) && BreaksAt(h, before, z) && Edge(h, u, z) && u != z
    ensures u in before
  {
    assert u in h.ine && u in h.keys;
    if u in g.ine {
      var k :| 0 <= k < |g.keys| && g.keys[k] == u;
      KeyBefore(g, h, z, before, k);
    } else if u !in before {
      assert Ready(h, before, u);
      assert false;
    }
  }

  /** No cycle is broken at the new variable. */
  lemma NewIsNotBroken(g: Graph, h: Graph, z: Name, done: seq<Name>, j: nat)
    requires GraphOk(g) && GraphOk(h) && Grown(g, h, z) && j < |done| && done[j] == z && NoRepeats(done)
    requires z in h.ine && !Edge(h, z, z)
    ensures !BreaksAt(h, done[..j], z)
  {
    var before := done[..j];
    assert z !in before && z in h.keys;
    if BreaksAt(h, before, z) {
      forall m | 0 <= m < |h.ine[z]|
        ensures h.ine[z][m] in before
      {
        FreeOrEarlier(g, h, z, before, h.ine[z][m]);
      }
      assert Ready(h, before, z);
      assert false;
    }
  }

  lemma NewIsEvaluated(g: Graph, h: Graph, exprs: Exprs, more: Exprs, sources: seq<Name>, q: Progress, z: Name, e: Term)
    requires Adds(g, h, exprs, more, sources, z, e) && Order(h, sources, q.done, q.broken) && AllDone(h, q.done)
    requires VarsOf(e, []) != []
    ensures Evaluated(more, sources, q, z)
  {
    hide VarsOf, Layered, ExprsScript;
    assert Edge(h, VarsOf(e, [])[0], z);
    assert z in h.keys && e in more[z];
    var j :| 0 <= j < |q.done| && q.done[j] == z;
    assert j >= |sources| by {
      assert forall s :: 0 <= s < |sources| ==> sources[s] == q.done[s];
    }
    NewIsNotBroken(g, h, z, q.done, j);
    BrokenIff(h, sources, q.done, q.broken, j);
  }

  /** Adding the equation raises no exception unless e mentions a variable whose entry is bare. */
  lemma NoNewCrash(g: Graph, h: Graph, exprs: Exprs, more: Exprs, sources: seq<Name>, p: Progress, q: Progress,
      z: Name, e: Term)
    requires Adds(g, h, exprs, more, sources, z, e) && Alike(g, sources, p, q)
    requires Order(h, sources, q.done, q.broken) && !Doomed(exprs, sources, p)
    requires forall x :: x in VarsOf(e, []) && x in p.broken ==> x in exprs
    ensures !Doomed(more, sources, q)
  {
    hide Order, GraphOk, VarsOf, ExprsScript;
    forall v, d, x | Evaluated(more, sources, q, v) && d in more[v] && x in VarsOf(d, []) && x in q.broken
      ensures x in more
    {
      if Known(g, sources, x) {
        assert x in p.broken;
        if v != z {
          KnownOperand(g, h, exprs, more, sources, p, q, z, e, v, d, x);
        }
      } else {
        UnknownIsFree(g, h, exprs, more, sources, z, e, v, d, x);
        FreeIsNotBroken(h, sources, q.done, q.broken, x);
        assert false;
      }
    }
  }

  lemma KnownOperand(g: Graph, h: Graph, exprs: Exprs, more: Exprs, sources: seq<Name>, p: Progress, q: Progress,
      z: Name, e: Term, v: Name, d: Term, x: Name)
    requires Adds(g, h, exprs, more, sources, z, e) && Alike(g, sources, p, q) && !Doomed(exprs, sources, p)
    requires Evaluated(more, sources, q, v) && v != z && d in more[v] && x in VarsOf(d, []) && x in p.broken
    ensures x in exprs
  {
    hide GraphOk, VarsOf, ExprsScript;
    assert Edge(g, x, v);
    assert Known(g, sources, v);
    assert Evaluated(exprs, sources, p, v);
  }

  /** A variable of an expression that the old graph does not know depends on nothing. */
  lemma UnknownIsFree(g: Graph, h: Graph, exprs: Exprs, more: Exprs, sources: seq<Name>, z: Name, e: Term,
      v: Name, d: Term, x: Name)
    requires Adds(g, h, exprs, more, sources, z, e) && v in more && v !in sources && d in more[v] && x in VarsOf(d, [])
    requires !Known(g, sources, x)
    ensures x in h.ine && h.ine[x] == [] && x != z
  {
    hide VarsOf, ExprsScript;
    assert Edge(h, x, v);
  }

  /** The values of the variables of the script stay the same. */
  lemma ExtensionKeepsValues(script: seq<Term>, z: Name, e: Term, v: Name)
    requires WellFormed(script) && Extends(script, z, e) && WellFormed(Extended(script, z, e))
    requires !Analysed(script).crashed && !Analysed(Extended(script, z, e)).crashed && v in Analysed(script).done
    ensures Agree(Analysed(script).rv, Analysed(Extended(script, z, e)).rv, v)
  {
    hide Collected, Analysed, AllVars, SourcesOf, BuildGraph, Alike, Extends, Extended, WellFormed, Solved, Adds;
    ScriptAdds(script, z, e);
    ExtendedSources(script, z, e);
    ExtensionAlike(script, z, e);
    AnalysisSolved(script);
    var more := Extended(script, z, e);
    AnalysisSolved(more);
    var g, h := BuildGraph(Collected(script).pairs), BuildGraph(Collected(more).pairs);
    KnownAreOld(g, h, Collected(script).exprs, Collected(more).exprs, SourcesOf(AllVars(script)), z, e);
    SameValues(g, h, Collected(script).exprs, Collected(more).exprs, SourcesOf(AllVars(script)),
               Analysed(script), Analysed(more), v);
  }

  lemma KnownAreOld(g: Graph, h: Graph, exprs: Exprs, more: Exprs, sources: seq<Name>, z: Name, e: Term)
    requires Adds(g, h, exprs, more, sources, z, e)
    ensures forall u :: Known(g, sources, u) ==> (u in exprs <==> u in more) && (u in exprs ==> exprs[u] == more[u])
  {
    assert forall u :: Known(g, sources, u) ==> u != z;
  }
}
