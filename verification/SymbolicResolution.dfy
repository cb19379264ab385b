/**
 Symbolic resolution of the variables of a constraint script: `SE.resolveGraph` and `SE.start`.

 The order in which variables are placed depends on the graph alone.  Where a cycle is broken at a
 variable without expressions the source stores the bare variable instead of a list of values; using
 such an entry later raises an exception.  Entries of this kind are kept apart, in `bare`.
 */
module SymbolicResolution {
  import opened Wrappers
  import opened Terms
  import opened Substitution
  import opened DataFlow

  // ----- resolveGraph -----

  /** `doneVariables`, the variables at which a cycle was broken, the lists in `variable2RValue`, the
      variables whose entry there is bare, `symbolicValue`, and whether an exception was raised; the
      values stay as they were then, while done and broken tell the order all the same. */
  datatype Progress = Progress(done: seq<Name>, broken: seq<Name>, rv: Values, bare: seq<Name>,
    symbolic: seq<Term>, crashed: bool)

  predicate MeetsBare(bare: seq<Name>, occs: seq<Name>) {
    exists k :: 0 <= k < |occs| && occs[k] in bare
  }

  /** The length of a bare entry is asked for, which it does not have; otherwise the results are added
      to the values of v. */
  function AddExpr(p: Progress, v: Name, e: Term): (q: Progress)
    requires v in p.rv
    ensures v in q.rv && q.done == p.done && q.broken == p.broken && q.bare == p.bare
  {
    if p.crashed || MeetsBare(p.bare, VarsOf(e, [])) then p.(crashed := true)
    else
      var vals := Substituted(p.rv, e);
      p.(rv := p.rv[v := p.rv[v] + vals],
         symbolic := p.symbolic + if AllResolved(p.rv, VarsOf(e, [])) then vals else [])
  }

  function AddExprs(p: Progress, v: Name, es: seq<Term>): (q: Progress)
    requires v in p.rv
    ensures v in q.rv && q.done == p.done && q.broken == p.broken && q.bare == p.bare
  {
    if es == [] then p else AddExpr(AddExprs(p, v, es[..|es| - 1]), v, es[|es| - 1])
  }

  function Opened(rv: Values, v: Name): Values {
    if v in rv then rv else rv[v := []]
  }

  /** Place a variable whose predecessors are done and work out its values. */
  function Placed(exprs: Exprs, p: Progress, v: Name): (q: Progress)
    ensures q.done == p.done + [v] && q.broken == p.broken && q.bare == p.bare
  {
    var p := p.(done := p.done + [v]);
    if p.crashed || v !in exprs then p else AddExprs(p.(rv := Opened(p.rv, v)), v, exprs[v])
  }

  predicate Ready(g: Graph, done: seq<Name>, v: Name) {
    v in g.ine && v !in done && forall k :: 0 <= k < |g.ine[v]| ==> g.ine[v][k] in done
  }

  /** One pass over the first n keys. */
  function Swept(g: Graph, exprs: Exprs, p: Progress, n: nat): (q: Progress)
    requires n <= |g.keys|
  {
    if n == 0 then p
    else
      var q := Swept(g, exprs, p, n - 1);
      if Ready(g, q.done, g.keys[n - 1]) then Placed(exprs, q, g.keys[n - 1]) else q
  }

  function FirstUndone(keys: seq<Name>, done: seq<Name>): (v: Name)
    requires exists k :: 0 <= k < |keys| && keys[k] !in done
    ensures v in keys && v !in done
  {
    if keys[0] !in done then keys[0]
    else
      assert exists k :: 0 <= k < |keys[1..]| && keys[1..][k] !in done by {
        var k :| 0 <= k < |keys| && keys[k] !in done;
        assert keys[1..][k - 1] == keys[k];
      }
      FirstUndone(keys[1..], done)
  }

  /** Break a cycle at a variable: it gets an empty list, or the bare entry if nothing defines it. */
  function Broken(exprs: Exprs, p: Progress, v: Name): Progress {
    var q := p.(done := p.done + [v], broken := p.broken + [v]);
    if p.crashed then q
    else if v in exprs then q.(rv := Opened(p.rv, v))
    else q.(bare := p.bare + [v])
  }

  predicate AllDone(g: Graph, done: seq<Name>) {
    forall k :: 0 <= k < |g.keys| ==> g.keys[k] in done
  }

  ghost function Undone(g: Graph, done: seq<Name>): set<Name> {
    set v | v in g.keys && v !in done
  }

  function Resolve(g: Graph, exprs: Exprs, p: Progress): Progress
    requires GraphOk(g)
    decreases Undone(g, p.done)
  {
    var q := Swept(g, exprs, p, |g.keys|);
    SweptPlaces(g, exprs, p, |g.keys|);
    if q.done != p.done then Resolve(g, exprs, q)
    else if AllDone(g, q.done) then q
    else
      var v := FirstUndone(g.keys, q.done);
      assert v in Undone(g, p.done) && Undone(g, q.done + [v]) < Undone(g, p.done);
      Resolve(g, exprs, Broken(exprs, q, v))
  }

  lemma BreakingPlaces(g: Graph, exprs: Exprs, p: Progress)
    requires !AllDone(g, p.done)
    ensures Undone(g, Broken(exprs, p, FirstUndone(g.keys, p.done)).done) < Undone(g, p.done)
  {
    var v := FirstUndone(g.keys, p.done);
    assert v in Undone(g, p.done) && v !in Undone(g, p.done + [v]);
  }

  /** A cycle is broken at v: nothing is ready, and v is the first key left. */
  ghost predicate BreaksAt(g: Graph, done: seq<Name>, v: Name) {
    !AllDone(g, done) && (forall k :: 0 <= k < |g.keys| ==> !Ready(g, done, g.keys[k])) && v == FirstUndone(g.keys, done)
  }

  ghost predicate PredecessorsIn(g: Graph, v: Name, done: seq<Name>) {
    forall u :: Edge(g, u, v) ==> u in done
  }

  /** done is fit to continue from a list that began with the sources: no repeats, only sources and
      keys, and each key where a cycle was broken, or after its predecessors. */
  ghost predicate Order(g: Graph, sources: seq<Name>, done: seq<Name>, broken: seq<Name>) {
    && sources <= done && NoRepeats(done)
    && (forall v :: v in done ==> v in sources || v in g.ine)
    && (forall v :: v in broken ==> v in done && v !in sources)
    && forall j :: |sources| <= j < |done| ==>
         if done[j] in broken then BreaksAt(g, done[..j], done[j]) else PredecessorsIn(g, done[j], done[..j])
  }

  lemma {:induction false} SweptPlaces(g: Graph, exprs: Exprs, p: Progress, n: nat)
    requires GraphOk(g) && n <= |g.keys|
    ensures p.done <= Swept(g, exprs, p, n).done
    ensures Swept(g, exprs, p, n).broken == p.broken && Swept(g, exprs, p, n).bare == p.bare
    ensures Undone(g, Swept(g, exprs, p, n).done) <= Undone(g, p.done)
    ensures if Swept(g, exprs, p, n).done == p.done then Swept(g, exprs, p, n) == p
            else Undone(g, Swept(g, exprs, p, n).done) < Undone(g, p.done)
  {
    hide Placed;
    if n > 0 {
      var q := Swept(g, exprs, p, n - 1);
      var v := g.keys[n - 1];
      SweptPlaces(g, exprs, p, n - 1);
      if Ready(g, q.done, v) {
        assert v in Undone(g, q.done) && v !in Undone(g, q.done + [v]);
      }
    }
  }

  /** Which variables are placed, in which order, and where cycles are broken does not depend on the
      expressions and values. */
  lemma {:induction false} SweptOrderIsTheGraphs(g: Graph, exprs: Exprs, other: Exprs, p: Progress, q: Progress, n: nat)
    requires n <= |g.keys| && p.done == q.done && p.broken == q.broken
    ensures Swept(g, exprs, p, n).done == Swept(g, other, q, n).done
    ensures Swept(g, exprs, p, n).broken == Swept(g, other, q, n).broken
  {
    if n > 0 {
      SweptOrderIsTheGraphs(g, exprs, other, p, q, n - 1);
    }
  }

  lemma {:induction false} OrderIsTheGraphs(g: Graph, exprs: Exprs, other: Exprs, p: Progress, q: Progress)
    requires GraphOk(g) && p.done == q.done && p.broken == q.broken
    ensures Resolve(g, exprs, p).done == Resolve(g, other, q).done
    ensures Resolve(g, exprs, p).broken == Resolve(g, other, q).broken
    decreases Undone(g, p.done)
  {
    hide Swept, Ready, GraphOk;
    var p1, q1 := Swept(g, exprs, p, |g.keys|), Swept(g, other, q, |g.keys|);
    SweptPlaces(g, exprs, p, |g.keys|);
    SweptPlaces(g, other, q, |g.keys|);
    SweptOrderIsTheGraphs(g, exprs, other, p, q, |g.keys|);
    if p1.done != p.done {
      OrderIsTheGraphs(g, exprs, other, p1, q1);
    } else if !AllDone(g, p1.done) {
      BreakingPlaces(g, exprs, p1);
      var v := FirstUndone(g.keys, p1.done);
      OrderIsTheGraphs(g, exprs, other, Broken(exprs, p1, v), Broken(other, q1, v));
    }
  }

  lemma OrderSnoc(g: Graph, sources: seq<Name>, done: seq<Name>, broken: seq<Name>, more: seq<Name>, v: Name)
    requires Order(g, sources, done, broken) && v in g.ine && v !in done
    requires (more == broken && PredecessorsIn(g, v, done)) || (more == broken + [v] && BreaksAt(g, done, v))
    ensures Order(g, sources, done + [v], more)
  {
    hide PredecessorsIn, BreaksAt;
    var now := done + [v];
    assert sources <= now;
    forall j | |sources| <= j < |now|
      ensures if now[j] in more then BreaksAt(g, now[..j], now[j]) else PredecessorsIn(g, now[j], now[..j])
    {
      assert now[..j] == done[..j];
      if j == |done| {
        assert done[..j] == done;
      } else {
        assert now[j] == done[j] && done[j] in done;
      }
    }
  }

  lemma ReadyIsAfter(g: Graph, done: seq<Name>, v: Name)
    requires Ready(g, done, v)
    ensures PredecessorsIn(g, v, done)
  {
  }

  lemma {:induction false} SweptOrder(g: Graph, exprs: Exprs, p: Progress, n: nat, sources: seq<Name>)
    requires GraphOk(g) && n <= |g.keys| && Order(g, sources, p.done, p.broken)
    ensures Order(g, sources, Swept(g, exprs, p, n).done, p.broken)
  {
    hide Order, GraphOk, Placed, Ready, PredecessorsIn;
    if n > 0 {
      SweptOrder(g, exprs, p, n - 1, sources);
      SweptPlaces(g, exprs, p, n - 1);
      var q, v := Swept(g, exprs, p, n - 1), g.keys[n - 1];
      if Ready(g, q.done, v) {
        ReadyIsAfter(g, q.done, v);
        ReadyIsNew(g, q.done, v);
        OrderSnoc(g, sources, q.done, q.broken, q.broken, v);
      }
    }
  }

  lemma ReadyIsNew(g: Graph, done: seq<Name>, v: Name)
    requires Ready(g, done, v)
    ensures v in g.ine && v !in done
  {
  }

  lemma {:induction false} ReadyIsPlaced(g: Graph, exprs: Exprs, p: Progress, n: nat, k: nat)
    requires GraphOk(g) && k < n <= |g.keys| && Ready(g, p.done, g.keys[k])
    ensures Swept(g, exprs, p, n).done != p.done
  {
    SweptPlaces(g, exprs, p, n - 1);
    if k < n - 1 {
      ReadyIsPlaced(g, exprs, p, n - 1, k);
    }
  }

  /** A pass that places nothing means that a cycle is broken at the first key left. */
  lemma StallBreaks(g: Graph, exprs: Exprs, p: Progress)
    requires GraphOk(g) && Swept(g, exprs, p, |g.keys|).done == p.done && !AllDone(g, p.done)
    ensures BreaksAt(g, p.done, FirstUndone(g.keys, p.done))
  {
    forall k | 0 <= k < |g.keys|
      ensures !Ready(g, p.done, g.keys[k])
    {
      if Ready(g, p.done, g.keys[k]) {
        ReadyIsPlaced(g, exprs, p, |g.keys|, k);
      }
    }
  }

  /** The loop ends with every key placed, each once, after the sources, and after all its
      predecessors unless a cycle was broken there. */
  lemma {:induction false} ResolveOrder(g: Graph, exprs: Exprs, p: Progress, sources: seq<Name>)
    requires GraphOk(g) && Order(g, sources, p.done, p.broken)
    ensures Order(g, sources, Resolve(g, exprs, p).done, Resolve(g, exprs, p).broken)
    ensures AllDone(g, Resolve(g, exprs, p).done)
    ensures p.broken <= Resolve(g, exprs, p).broken
    decreases Undone(g, p.done)
  {
    hide Order, Ready, GraphOk, Swept, BreaksAt, Undone;
    var q := Swept(g, exprs, p, |g.keys|);
    SweptPlaces(g, exprs, p, |g.keys|);
    SweptOrder(g, exprs, p, |g.keys|, sources);
    if q.done != p.done {
      ResolveOrder(g, exprs, q, sources);
    } else if !AllDone(g, q.done) {
      var v := FirstUndone(g.keys, q.done);
      StallBreaks(g, exprs, p);
      BreakingPlaces(g, exprs, q);
      KeyIsKnown(g, v);
      OrderSnoc(g, sources, q.done, q.broken, q.broken + [v], v);
      ResolveOrder(g, exprs, Broken(exprs, q, v), sources);
    }
  }

  lemma KeyIsKnown(g: Graph, v: Name)
    requires GraphOk(g) && v in g.keys
    ensures v in g.ine
  {
  }

  // ----- when a cycle is broken -----

  /** A cycle was broken at a key exactly if, when its turn came, nothing was ready and
      it was the first key left. */
  lemma BrokenIff(g: Graph, sources: seq<Name>, done: seq<Name>, broken: seq<Name>, j: nat)
    requires GraphOk(g) && Order(g, sources, done, broken) && |sources| <= j < |done|
    ensures done[j] in broken <==> BreaksAt(g, done[..j], done[j])
  {
    var v := done[j];
    assert v !in sources by {
      assert forall s :: 0 <= s < |sources| ==> sources[s] == done[s];
    }
    if v !in broken {
      var k :| 0 <= k < |g.keys| && g.keys[k] == v;
      assert v !in done[..j];
      forall m | 0 <= m < |g.ine[v]|
        ensures g.ine[v][m] in done[..j]
      {
        assert Edge(g, g.ine[v][m], v);
      }
      assert Ready(g, done[..j], g.keys[k]);
    }
  }

  /** rank grows along every edge between variables that are not sources: the graph without its
      sources has no cycle. */
  ghost predicate Ranked(g: Graph, sources: seq<Name>, rank: map<Name, nat>) {
    && (forall v :: v in g.ine ==> v in rank)
    && forall u, v :: Edge(g, u, v) && u in g.ine && u !in sources && v !in sources ==> rank[u] < rank[v]
  }

  lemma {:induction false} LeastRank(s: set<Name>, rank: map<Name, nat>) returns (v: Name)
    requires s != {} && forall w :: w in s ==> w in rank
    ensures v in s && forall w :: w in s ==> rank[v] <= rank[w]
    decreases |s|
  {
    v :| v in s;
    if s != {v} {
      var rest := s - {v};
      assert rest != {};
      var w := LeastRank(rest, rank);
      if rank[w] < rank[v] {
        v := w;
      }
      assert forall x :: x in s ==> x == v || x in rest || x in s - rest;
    }
  }

  /** Without a cycle something is always ready. */
  lemma SomethingReady(g: Graph, sources: seq<Name>, done: seq<Name>, rank: map<Name, nat>) returns (k: nat)
    requires GraphOk(g) && Ranked(g, sources, rank) && !AllDone(g, done)
    requires forall s :: s in sources ==> s in done
    ensures k < |g.keys| && Ready(g, done, g.keys[k])
  {
    var open := Undone(g, done);
    var j :| 0 <= j < |g.keys| && g.keys[j] !in done;
    assert g.keys[j] in open;
    var v := LeastRank(open, rank);
    k :| 0 <= k < |g.keys| && g.keys[k] == v;
    forall m | 0 <= m < |g.ine[v]|
      ensures g.ine[v][m] in done
    {
      var u := g.ine[v][m];
      assert Edge(g, u, v);
      assert u in open <==> u !in done;
    }
  }

  lemma {:induction false} RankedNeverBreaks(g: Graph, exprs: Exprs, p: Progress, sources: seq<Name>,
      rank: map<Name, nat>)
    requires GraphOk(g) && Ranked(g, sources, rank) && p.broken == [] && forall s :: s in sources ==> s in p.done
    ensures Resolve(g, exprs, p).broken == []
    decreases Undone(g, p.done)
  {
    var q := Swept(g, exprs, p, |g.keys|);
    SweptPlaces(g, exprs, p, |g.keys|);
    if q.done != p.done {
      RankedNeverBreaks(g, exprs, q, sources, rank);
    } else if !AllDone(g, q.done) {
      var k := SomethingReady(g, sources, p.done, rank);
      ReadyIsPlaced(g, exprs, p, |g.keys|, k);
    }
  }

  function IndexOf(done: seq<Name>, v: Name): (k: nat)
    requires v in done
    ensures k < |done| && done[k] == v
  {
    if done[0] == v then 0 else 1 + IndexOf(done[1..], v)
  }

  /** The order in which variables were placed is a rank. */
  lemma OrderIsRank(g: Graph, sources: seq<Name>, done: seq<Name>) returns (rank: map<Name, nat>)
    requires GraphOk(g) && Order(g, sources, done, []) && AllDone(g, done)
    ensures Ranked(g, sources, rank)
  {
    forall v | v in g.ine
      ensures v in done
    {
      var k :| 0 <= k < |g.keys| && g.keys[k] == v;
    }
    rank := map v | v in g.ine :: IndexOf(done, v);
    forall u, v | Edge(g, u, v) && u in g.ine && u !in sources && v !in sources
      ensures rank[u] < rank[v]
    {
      var j := rank[v];
      assert done[j] == v;
      assert forall s :: 0 <= s < |sources| ==> sources[s] == done[s];
      assert PredecessorsIn(g, done[j], done[..j]);
      var m :| 0 <= m < j && done[..j][m] == u;
      assert done[m] == u && done[rank[u]] == u;
    }
  }

  /** The state `resolveGraph` starts from: the sources done, each with its `$A`. */
  function Seeded(sources: seq<Name>): Values {
    if sources == [] then map[]
    else Seeded(sources[..|sources| - 1])[sources[|sources| - 1] := [Var(Arg(|sources| - 1))]]
  }

  function Begin(sources: seq<Name>): Progress {
    Progress(sources, [], Seeded(sources), [], [], false)
  }

  /** The cycle-breaking branch is never taken exactly when the graph without its sources has no
      cycle. */
  lemma BreaksOnlyCycles(g: Graph, exprs: Exprs, sources: seq<Name>)
    requires GraphOk(g) && NoRepeats(sources)
    ensures Resolve(g, exprs, Begin(sources)).broken == [] <==> exists rank :: Ranked(g, sources, rank)
  {
    var p := Begin(sources);
    BeginOrder(g, sources);
    ResolveOrder(g, exprs, p, sources);
    if Resolve(g, exprs, p).broken == [] {
      var rank := OrderIsRank(g, sources, Resolve(g, exprs, p).done);
    }
    forall rank | Ranked(g, sources, rank)
      ensures Resolve(g, exprs, p).broken == []
    {
      RankedNeverBreaks(g, exprs, p, sources, rank);
    }
  }

  lemma BeginOrder(g: Graph, sources: seq<Name>)
    requires NoRepeats(sources)
    ensures Order(g, sources, sources, [])
  {
  }

  /** Every variable of the graph is placed exactly once, after the sources, and after everything
      that flows into it, unless a cycle was broken there. */
  lemma PlacedOnceInOrder(g: Graph, exprs: Exprs, sources: seq<Name>)
    requires GraphOk(g) && NoRepeats(sources)
    ensures var r := Resolve(g, exprs, Begin(sources));
      && sources <= r.done && NoRepeats(r.done)
      && (forall v :: v in r.done <==> v in sources || v in g.ine)
      && (forall j, u :: |sources| <= j < |r.done| && r.done[j] !in r.broken && Edge(g, u, r.done[j]) ==> u in r.done[..j])
      && (forall j :: |sources| <= j < |r.done| ==> (r.done[j] in r.broken <==> BreaksAt(g, r.done[..j], r.done[j])))
  {
    var r := Resolve(g, exprs, Begin(sources));
    BeginOrder(g, sources);
    ResolveOrder(g, exprs, Begin(sources), sources);
    hide Resolve, BreaksAt;
    forall v | v in g.ine
      ensures v in r.done
    {
      var k :| 0 <= k < |g.keys| && g.keys[k] == v;
    }
    forall j | |sources| <= j < |r.done|
      ensures r.done[j] in r.broken <==> BreaksAt(g, r.done[..j], r.done[j])
    {
      BrokenIff(g, sources, r.done, r.broken, j);
    }
    forall j, u | |sources| <= j < |r.done| && r.done[j] !in r.broken && Edge(g, u, r.done[j])
      ensures u in r.done[..j]
    {
      assert PredecessorsIn(g, r.done[j], r.done[..j]);
    }
  }

  // ----- what the values are -----

  /** The results for all expressions of a variable, one after the other. */
  function ValuesOf(rv: Values, es: seq<Term>): seq<Term> {
    if es == [] then [] else ValuesOf(rv, es[..|es| - 1]) + Substituted(rv, es[|es| - 1])
  }

  /** All variables of the expressions es are in done. */
  ghost predicate OperandsIn(es: seq<Term>, done: seq<Name>) {
    forall e, u :: e in es && u in VarsOf(e, []) ==> u in done
  }

  lemma {:induction false} ValuesOfLocal(rv: Values, other: Values, es: seq<Term>, done: seq<Name>)
    requires OperandsIn(es, done) && forall v :: v in done ==> Agree(rv, other, v)
    ensures ValuesOf(rv, es) == ValuesOf(other, es)
  {
    if es != [] {
      var n := |es| - 1;
      assert es[n] in es && forall e :: e in es[..n] ==> e in es;
      ValuesOfLocal(rv, other, es[..n], done);
      SubstOccsLocal(rv, other, es[n], VarsOf(es[n], []));
    }
  }

  /** Variables that are neither sources nor broken, and have expressions: their values are computed. */
  ghost predicate Evaluated(exprs: Exprs, sources: seq<Name>, p: Progress, v: Name) {
    v in p.done && v in exprs && v !in sources && v !in p.broken
  }

  /** The entry of a placed variable that is not a source. */
  ghost predicate Settled(exprs: Exprs, p: Progress, v: Name) {
    if v !in exprs then v !in p.rv
    else v in p.rv && p.rv[v] == if v in p.broken then [] else ValuesOf(p.rv, exprs[v])
  }

  ghost predicate Computed(exprs: Exprs, sources: seq<Name>, p: Progress) {
    && (forall v :: v in p.rv ==> v in p.done)
    && (forall v :: v in p.bare <==> v in p.broken && v !in exprs)
    && (forall k :: 0 <= k < |sources| ==> sources[k] in p.rv && p.rv[sources[k]] == [Var(Arg(k))])
    && (forall v :: v in p.done && v !in sources ==> Settled(exprs, p, v))
  }

  /** An expression that is evaluated mentions a variable whose entry is bare. */
  ghost predicate Doomed(exprs: Exprs, sources: seq<Name>, p: Progress) {
    exists v, e, x :: Evaluated(exprs, sources, p, v) && e in exprs[v] && x in VarsOf(e, []) && x in p.broken && x !in exprs
  }

  /** The variables of the expressions of v flow into v. */
  ghost predicate Layered(g: Graph, exprs: Exprs, sources: seq<Name>) {
    forall v, e, u :: v in exprs && v !in sources && e in exprs[v] && u in VarsOf(e, []) ==> Edge(g, u, v)
  }

  /** The operands of everything evaluated are done. */
  ghost predicate Supported(exprs: Exprs, sources: seq<Name>, p: Progress) {
    forall v :: Evaluated(exprs, sources, p, v) ==> OperandsIn(exprs[v], p.done)
  }

  ghost predicate ValuesInv(exprs: Exprs, sources: seq<Name>, p: Progress) {
    && (forall v :: v in p.broken ==> v in p.done && v !in sources)
    && (forall v :: v in sources ==> v in p.done)
    && Supported(exprs, sources, p)
    && (p.crashed <==> Doomed(exprs, sources, p))
    && (!p.crashed ==> Computed(exprs, sources, p))
  }

  /** Evaluating expressions that do not mention v: an exception if one mentions a bare variable, and
      otherwise the values of all. */
  lemma {:induction false} AddExprsValues(p: Progress, v: Name, es: seq<Term>, done: seq<Name>)
    requires v in p.rv && OperandsIn(es, done) && v !in done && !p.crashed
    ensures AddExprs(p, v, es).crashed <==> exists e, x :: e in es && x in VarsOf(e, []) && x in p.bare
    ensures !AddExprs(p, v, es).crashed ==> AddExprs(p, v, es).rv == p.rv[v := p.rv[v] + ValuesOf(p.rv, es)]
  {
    hide Substituted, VarsOf;
    if es == [] {
      assert p.rv[v] + ValuesOf(p.rv, es) == p.rv[v];
    } else {
      var n := |es| - 1;
      assert es == es[..n] + [es[n]];
      AddExprsValues(p, v, es[..n], done);
      var q := AddExprs(p, v, es[..n]);
      assert MeetsBare(p.bare, VarsOf(es[n], [])) <==> exists x :: x in VarsOf(es[n], []) && x in p.bare;
      if !q.crashed {
        assert es[n] in es;
        LocalSubstituted(q.rv, p.rv, es[n], done);
        assert p.rv[v] + ValuesOf(p.rv, es[..n]) + Substituted(p.rv, es[n])
            == p.rv[v] + (ValuesOf(p.rv, es[..n]) + Substituted(p.rv, es[n]));
      }
    }
  }

  lemma LocalSubstituted(rv: Values, other: Values, e: Term, done: seq<Name>)
    requires (forall u :: u in VarsOf(e, []) ==> u in done) && forall u :: u in done ==> Agree(rv, other, u)
    ensures Substituted(rv, e) == Substituted(other, e)
  {
    SubstOccsLocal(rv, other, e, VarsOf(e, []));
  }

  /** A variable that was not done changes no values that are there. */
  lemma SettledStays(exprs: Exprs, sources: seq<Name>, p: Progress, q: Progress, v: Name)
    requires Supported(exprs, sources, p) && Computed(exprs, sources, p)
    requires forall u :: u in p.done ==> Agree(p.rv, q.rv, u) && (u in p.broken <==> u in q.broken)
    requires v in p.done && v !in sources
    ensures Settled(exprs, q, v)
  {
    assert Settled(exprs, p, v);
    if v in exprs && v !in p.broken {
      assert Evaluated(exprs, sources, p, v);
      ValuesOfLocal(p.rv, q.rv, exprs[v], p.done);
    }
  }

  lemma PlacedCrash(exprs: Exprs, sources: seq<Name>, p: Progress, v: Name)
    requires ValuesInv(exprs, sources, p) && v !in p.done && (v in exprs ==> OperandsIn(exprs[v], p.done))
    ensures Placed(exprs, p, v).crashed <==> Doomed(exprs, sources, Placed(exprs, p, v))
  {
    hide Computed, Supported, OperandsIn, ValuesOf;
    var q := Placed(exprs, p, v);
    assert forall u :: Evaluated(exprs, sources, q, u) <==> Evaluated(exprs, sources, p, u) || (u == v && v in exprs);
    if Doomed(exprs, sources, p) {
      var u, e, x :| Evaluated(exprs, sources, p, u) && e in exprs[u] && x in VarsOf(e, []) && x in p.broken && x !in exprs;
      assert Evaluated(exprs, sources, q, u);
    } else if v in exprs {
      PlacedCrashNow(exprs, sources, p, v);
    }
  }

  lemma PlacedCrashNow(exprs: Exprs, sources: seq<Name>, p: Progress, v: Name)
    requires ValuesInv(exprs, sources, p) && !Doomed(exprs, sources, p)
    requires v !in p.done && v in exprs && OperandsIn(exprs[v], p.done)
    ensures Placed(exprs, p, v).crashed <==> Doomed(exprs, sources, Placed(exprs, p, v))
  {
    hide Supported, ValuesOf, Settled, Doomed, OperandsIn, Evaluated, VarsOf;
    var q := Placed(exprs, p, v);
    var start := p.(done := q.done, rv := Opened(p.rv, v));
    assert q == AddExprs(start, v, exprs[v]);
    AddExprsValues(start, v, exprs[v], p.done);
    NewlyDoomed(exprs, sources, p, q, v);
  }

  lemma NewlyDoomed(exprs: Exprs, sources: seq<Name>, p: Progress, q: Progress, v: Name)
    requires !Doomed(exprs, sources, p) && q.done == p.done + [v] && q.broken == p.broken
    requires v in exprs && v !in sources && v !in p.broken
    ensures Doomed(exprs, sources, q) <==> exists e, x :: e in exprs[v] && x in VarsOf(e, []) && x in p.broken && x !in exprs
  {
    hide VarsOf;
    assert forall u :: Evaluated(exprs, sources, q, u) <==> Evaluated(exprs, sources, p, u) || u == v;
    if e, x :| e in exprs[v] && x in VarsOf(e, []) && x in p.broken && x !in exprs {
      assert Evaluated(exprs, sources, q, v);
    }
  }

  lemma PlacedComputes(exprs: Exprs, sources: seq<Name>, p: Progress, v: Name)
    requires ValuesInv(exprs, sources, p) && v !in p.done && (v in exprs ==> OperandsIn(exprs[v], p.done))
    requires !Placed(exprs, p, v).crashed
    ensures Computed(exprs, sources, Placed(exprs, p, v))
  {
    var q := Placed(exprs, p, v);
    if v in exprs {
      var start := p.(done := q.done, rv := Opened(p.rv, v));
      assert q == AddExprs(start, v, exprs[v]);
      AddExprsValues(start, v, exprs[v], p.done);
      ValuesOfLocal(start.rv, q.rv, exprs[v], p.done);
      assert start.rv[v] + ValuesOf(start.rv, exprs[v]) == ValuesOf(start.rv, exprs[v]);
    }
    forall u | u in q.done && u !in sources
      ensures Settled(exprs, q, u)
    {
      if u != v {
        SettledStays(exprs, sources, p, q, u);
      }
    }
  }

  lemma PlacedKeepsInv(exprs: Exprs, sources: seq<Name>, p: Progress, v: Name)
    requires ValuesInv(exprs, sources, p) && v !in p.done && (v in exprs ==> OperandsIn(exprs[v], p.done))
    ensures ValuesInv(exprs, sources, Placed(exprs, p, v))
  {
    var q := Placed(exprs, p, v);
    PlacedCrash(exprs, sources, p, v);
    if !q.crashed {
      PlacedComputes(exprs, sources, p, v);
    }
    forall u | Evaluated(exprs, sources, q, u)
      ensures OperandsIn(exprs[u], q.done)
    {
      assert u != v ==> Evaluated(exprs, sources, p, u);
    }
  }

  lemma BrokenKeepsInv(exprs: Exprs, sources: seq<Name>, p: Progress, v: Name)
    requires ValuesInv(exprs, sources, p) && v !in p.done
    ensures ValuesInv(exprs, sources, Broken(exprs, p, v))
  {
    hide OperandsIn, ValuesOf, VarsOf;
    var q := Broken(exprs, p, v);
    assert forall u :: Evaluated(exprs, sources, q, u) <==> Evaluated(exprs, sources, p, u);
    BrokenOperands(exprs, sources, p, v);
    if !p.crashed {
      forall u | u in q.done && u !in sources
        ensures Settled(exprs, q, u)
      {
        if u != v {
          SettledStays(exprs, sources, p, q, u);
        }
      }
    }
  }

  lemma BrokenOperands(exprs: Exprs, sources: seq<Name>, p: Progress, v: Name)
    requires ValuesInv(exprs, sources, p) && v !in p.done
    ensures Supported(exprs, sources, Broken(exprs, p, v))
    ensures Doomed(exprs, sources, p) <==> Doomed(exprs, sources, Broken(exprs, p, v))
  {
    var q := Broken(exprs, p, v);
    assert forall u :: Evaluated(exprs, sources, q, u) <==> Evaluated(exprs, sources, p, u);
    if Doomed(exprs, sources, p) {
      var u, e, x :| Evaluated(exprs, sources, p, u) && e in exprs[u] && x in VarsOf(e, []) && x in p.broken && x !in exprs;
      assert Evaluated(exprs, sources, q, u) && x in q.broken;
    }
    if Doomed(exprs, sources, q) {
      var u, e, x :| Evaluated(exprs, sources, q, u) && e in exprs[u] && x in VarsOf(e, []) && x in q.broken && x !in exprs;
      assert Evaluated(exprs, sources, p, u);
      assert x in p.done;
    }
  }

  lemma ReadyOperands(g: Graph, exprs: Exprs, sources: seq<Name>, done: seq<Name>, v: Name)
    requires Layered(g, exprs, sources) && Ready(g, done, v) && v !in sources
    ensures v in exprs ==> OperandsIn(exprs[v], done)
  {
    if v in exprs {
      forall e, u | e in exprs[v] && u in VarsOf(e, [])
        ensures u in done
      {
        assert Edge(g, u, v);
      }
    }
  }

  lemma {:induction false} SweptKeepsInv(g: Graph, exprs: Exprs, sources: seq<Name>, p: Progress, n: nat)
    requires n <= |g.keys| && Layered(g, exprs, sources) && ValuesInv(exprs, sources, p)
    ensures ValuesInv(exprs, sources, Swept(g, exprs, p, n))
  {
    if n > 0 {
      SweptKeepsInv(g, exprs, sources, p, n - 1);
      var q, v := Swept(g, exprs, p, n - 1), g.keys[n - 1];
      if Ready(g, q.done, v) {
        assert v !in sources;
        hide ValuesInv, Layered, OperandsIn, Placed;
        ReadyOperands(g, exprs, sources, q.done, v);
        PlacedKeepsInv(exprs, sources, q, v);
      }
    }
  }

  /** At the end an exception was raised exactly if an evaluated expression mentions a bare variable;
      and if not, the values are those of the expressions. */
  lemma {:induction false} ResolveKeepsInv(g: Graph, exprs: Exprs, sources: seq<Name>, p: Progress)
    requires GraphOk(g) && Layered(g, exprs, sources) && ValuesInv(exprs, sources, p)
    ensures ValuesInv(exprs, sources, Resolve(g, exprs, p))
    decreases Undone(g, p.done)
  {
    hide ValuesInv, Layered, Swept, GraphOk, Undone;
    var q := Swept(g, exprs, p, |g.keys|);
    SweptPlaces(g, exprs, p, |g.keys|);
    SweptKeepsInv(g, exprs, sources, p, |g.keys|);
    if q.done != p.done {
      ResolveKeepsInv(g, exprs, sources, q);
    } else if !AllDone(g, q.done) {
      BreakingPlaces(g, exprs, q);
      var v := FirstUndone(g.keys, q.done);
      BrokenKeepsInv(exprs, sources, q, v);
      ResolveKeepsInv(g, exprs, sources, Broken(exprs, q, v));
    }
  }

  lemma {:induction false} SeededIs(sources: seq<Name>)
    requires NoRepeats(sources)
    ensures forall v :: v in Seeded(sources) <==> v in sources
    ensures forall k :: 0 <= k < |sources| ==> sources[k] in Seeded(sources) && Seeded(sources)[sources[k]] == [Var(Arg(k))]
  {
    if sources != [] {
      var n := |sources| - 1;
      SeededIs(sources[..n]);
      assert sources == sources[..n] + [sources[n]];
      forall k | 0 <= k < n
        ensures Seeded(sources)[sources[k]] == [Var(Arg(k))]
      {
        assert sources[..n][k] == sources[k];
      }
    }
  }

  lemma BeginInv(exprs: Exprs, sources: seq<Name>)
    requires NoRepeats(sources)
    ensures ValuesInv(exprs, sources, Begin(sources))
  {
    SeededIs(sources);
  }

  // ----- first values -----

  lemma {:induction false} AddExprsFirsts(p: Progress, v: Name, es: seq<Term>)
    requires v in p.rv && FirstsClosed(p.rv) && forall k :: 0 <= k < |es| ==> ScriptTerm(es[k])
    ensures FirstsClosed(AddExprs(p, v, es).rv)
  {
    if es != [] {
      var n := |es| - 1;
      AddExprsFirsts(p, v, es[..n]);
      SubstitutedShape(AddExprs(p, v, es[..n]).rv, es[n]);
    }
  }

  lemma PlacedFirsts(exprs: Exprs, p: Progress, v: Name)
    requires FirstsClosed(p.rv) && ExprsScript(exprs)
    ensures FirstsClosed(Placed(exprs, p, v).rv)
  {
    if v in exprs && !p.crashed {
      AddExprsFirsts(p.(done := p.done + [v], rv := Opened(p.rv, v)), v, exprs[v]);
    }
  }

  lemma {:induction false} SweptFirsts(g: Graph, exprs: Exprs, p: Progress, n: nat)
    requires n <= |g.keys| && FirstsClosed(p.rv) && ExprsScript(exprs)
    ensures FirstsClosed(Swept(g, exprs, p, n).rv)
  {
    if n > 0 {
      SweptFirsts(g, exprs, p, n - 1);
      PlacedFirsts(exprs, Swept(g, exprs, p, n - 1), g.keys[n - 1]);
    }
  }

  /** The first value of every variable is over `$A`s and `tmp`. */
  lemma {:induction false} ResolveFirsts(g: Graph, exprs: Exprs, p: Progress)
    requires GraphOk(g) && FirstsClosed(p.rv) && ExprsScript(exprs)
    ensures FirstsClosed(Resolve(g, exprs, p).rv)
    decreases Undone(g, p.done)
  {
    hide Swept, GraphOk, Undone, ExprsScript;
    var q := Swept(g, exprs, p, |g.keys|);
    SweptPlaces(g, exprs, p, |g.keys|);
    SweptFirsts(g, exprs, p, |g.keys|);
    if q.done != p.done {
      ResolveFirsts(g, exprs, q);
    } else if !AllDone(g, q.done) {
      BreakingPlaces(g, exprs, q);
      ResolveFirsts(g, exprs, Broken(exprs, q, FirstUndone(g.keys, q.done)));
    }
  }

  // ----- what an analysis without exception found -----

  ghost predicate Solved(g: Graph, exprs: Exprs, sources: seq<Name>, p: Progress) {
    && Layered(g, exprs, sources) && ExprsScript(exprs) && Order(g, sources, p.done, p.broken)
    && ValuesInv(exprs, sources, p) && FirstsClosed(p.rv) && !p.crashed
  }

  /** An evaluated expression e of v mentions u. */
  ghost predicate Uses(exprs: Exprs, sources: seq<Name>, p: Progress, v: Name, e: Term, u: Name) {
    Evaluated(exprs, sources, p, v) && e in exprs[v] && u in VarsOf(e, [])
  }

  lemma UsedIsEarlier(g: Graph, exprs: Exprs, sources: seq<Name>, p: Progress, v: Name, e: Term, u: Name)
    requires Solved(g, exprs, sources, p) && Uses(exprs, sources, p, v, e, u)
    ensures u in p.done && IndexOf(p.done, u) < IndexOf(p.done, v)
  {
    hide ValuesInv, FirstsClosed, ExprsScript;
    var j := IndexOf(p.done, v);
    assert |sources| <= j by {
      assert forall s :: 0 <= s < |sources| ==> sources[s] == p.done[s];
    }
    assert Edge(g, u, v) && PredecessorsIn(g, p.done[j], p.done[..j]);
    var m :| 0 <= m < j && p.done[..j][m] == u;
    assert p.done[m] == u && p.done[IndexOf(p.done, u)] == u;
  }

  lemma {:induction false} ValuesOfOrigin(rv: Values, es: seq<Term>, r: Term)
    requires r in ValuesOf(rv, es)
    ensures exists e :: e in es && r in Substituted(rv, e)
  {
    var n := |es| - 1;
    if r in ValuesOf(rv, es[..n]) {
      ValuesOfOrigin(rv, es[..n], r);
    } else {
      assert es[n] in es;
    }
  }

  lemma {:induction false} ValuesOfHas(rv: Values, es: seq<Term>, e: Term, r: Term)
    requires e in es && r in Substituted(rv, e)
    ensures r in ValuesOf(rv, es)
  {
    var n := |es| - 1;
    if e != es[n] {
      assert es == es[..n] + [es[n]];
      ValuesOfHas(rv, es[..n], e, r);
    }
  }

  /** The sum, over the expressions, of the number of choices of values. */
  function ChoicesOf(rv: Values, es: seq<Term>): nat {
    if es == [] then 0 else ChoicesOf(rv, es[..|es| - 1]) + Choices(rv, VarsOf(es[|es| - 1], []))
  }

  lemma {:induction false} ValuesOfCount(rv: Values, es: seq<Term>)
    requires FirstsClosed(rv) && forall k :: 0 <= k < |es| ==> ScriptTerm(es[k])
    ensures |ValuesOf(rv, es)| == ChoicesOf(rv, es) >= |es|
    ensures |ValuesOf(rv, es)| == |es| <==> forall e, u :: e in es && u in VarsOf(e, []) ==> !Several(rv, u)
  {
    hide VarsOf, Several, Substituted;
    if es != [] {
      var n := |es| - 1;
      ValuesOfCount(rv, es[..n]);
      SubstitutedShape(rv, es[n]);
      ManyChoices(rv, VarsOf(es[n], []));
      assert es == es[..n] + [es[n]];
      assert forall e :: e in es <==> e in es[..n] || e == es[n];
    }
  }

  /** The three kinds of placed variable. */
  lemma EvaluatedValues(g: Graph, exprs: Exprs, sources: seq<Name>, p: Progress, v: Name)
    requires Solved(g, exprs, sources, p) && Evaluated(exprs, sources, p, v)
    ensures v in p.rv && v in exprs && p.rv[v] == ValuesOf(p.rv, exprs[v]) && forall k :: 0 <= k < |exprs[v]| ==> ScriptTerm(exprs[v][k])
  {
    assert Settled(exprs, p, v);
  }

  lemma SourceValues(g: Graph, exprs: Exprs, sources: seq<Name>, p: Progress, v: Name) returns (k: nat)
    requires Solved(g, exprs, sources, p) && v in sources
    ensures k < |sources| && sources[k] == v && v in p.rv && p.rv[v] == [Var(Arg(k))]
  {
    k :| 0 <= k < |sources| && sources[k] == v;
  }

  lemma OtherValues(g: Graph, exprs: Exprs, sources: seq<Name>, p: Progress, v: Name)
    requires Solved(g, exprs, sources, p) && v !in sources && !Evaluated(exprs, sources, p, v)
    ensures !Resolved(p.rv, v)
  {
    if v in p.done {
      assert Settled(exprs, p, v);
    }
  }

  lemma AtMostOneValue(g: Graph, exprs: Exprs, sources: seq<Name>, p: Progress, v: Name)
    requires Solved(g, exprs, sources, p) && !Evaluated(exprs, sources, p, v)
    ensures !Several(p.rv, v) && forall k :: v in p.rv && 0 <= k < |p.rv[v]| ==> Closed(p.rv[v][k])
  {
    if v in sources {
      var k := SourceValues(g, exprs, sources, p, v);
    } else {
      OtherValues(g, exprs, sources, p, v);
    }
  }

  /** The number of values of a variable is the number of choices its expressions leave. */
  lemma ValueCount(g: Graph, exprs: Exprs, sources: seq<Name>, p: Progress, v: Name)
    requires Solved(g, exprs, sources, p) && Evaluated(exprs, sources, p, v)
    ensures v in p.rv && |p.rv[v]| == ChoicesOf(p.rv, exprs[v]) >= |exprs[v]|
    ensures Several(p.rv, v) <==> |exprs[v]| > 1 || exists e, u :: Uses(exprs, sources, p, v, e, u) && Several(p.rv, u)
  {
    hide ValuesInv, Order, Layered, ExprsScript, VarsOf, Evaluated, ValuesOf, ChoicesOf, FirstsClosed;
    EvaluatedValues(g, exprs, sources, p, v);
    ValuesOfCount(p.rv, exprs[v]);
    if e, u :| e in exprs[v] && u in VarsOf(e, []) && Several(p.rv, u) {
      assert Uses(exprs, sources, p, v, e, u);
      assert exprs[v] != [];
    }
  }

  // ----- when all values are closed -----

  /** No evaluated expression mentions an evaluated variable with two or more expressions. */
  ghost predicate SinglyDefined(exprs: Exprs, sources: seq<Name>, p: Progress) {
    forall v, e, u :: Uses(exprs, sources, p, v, e, u) && Evaluated(exprs, sources, p, u) ==> |exprs[u]| <= 1
  }

  lemma {:induction false} SingleValue(g: Graph, exprs: Exprs, sources: seq<Name>, p: Progress, u: Name)
    requires Solved(g, exprs, sources, p) && SinglyDefined(exprs, sources, p) && u in p.done
    requires Evaluated(exprs, sources, p, u) ==> |exprs[u]| <= 1
    ensures !Several(p.rv, u)
    decreases if u in p.done then IndexOf(p.done, u) else 0
  {
    hide Solved, Uses, Several;
    if Evaluated(exprs, sources, p, u) {
      ValueCount(g, exprs, sources, p, u);
      forall e, w | Uses(exprs, sources, p, u, e, w)
        ensures !Several(p.rv, w)
      {
        UsedIsEarlier(g, exprs, sources, p, u, e, w);
        SingleValue(g, exprs, sources, p, w);
      }
    } else {
      AtMostOneValue(g, exprs, sources, p, u);
    }
  }

  ghost predicate ValuesClosed(rv: Values) {
    forall v, k :: v in rv && 0 <= k < |rv[v]| ==> Closed(rv[v][k])
  }

  /** All values are over `$A`s and `tmp` exactly if each variable that is used is defined once. */
  lemma ClosedIff(g: Graph, exprs: Exprs, sources: seq<Name>, p: Progress)
    requires Solved(g, exprs, sources, p)
    ensures ValuesClosed(p.rv) <==> SinglyDefined(exprs, sources, p)
  {
    if SinglyDefined(exprs, sources, p) {
      forall v, k | v in p.rv && 0 <= k < |p.rv[v]|
        ensures Closed(p.rv[v][k])
      {
        ValueIsClosed(g, exprs, sources, p, v, k);
      }
    }
    if ValuesClosed(p.rv) {
      forall v, e, u | Uses(exprs, sources, p, v, e, u) && Evaluated(exprs, sources, p, u)
        ensures |exprs[u]| <= 1
      {
        UsedTwiceDefined(g, exprs, sources, p, v, e, u);
      }
    }
  }

  lemma ValueIsClosed(g: Graph, exprs: Exprs, sources: seq<Name>, p: Progress, v: Name, k: nat)
    requires Solved(g, exprs, sources, p) && SinglyDefined(exprs, sources, p) && v in p.rv && k < |p.rv[v]|
    ensures Closed(p.rv[v][k])
  {
    hide ValuesInv, Order, Layered, ExprsScript, VarsOf, ValuesOf, Closed, FirstsClosed;
    if Evaluated(exprs, sources, p, v) {
      EvaluatedValues(g, exprs, sources, p, v);
      ValuesOfOrigin(p.rv, exprs[v], p.rv[v][k]);
      var e :| e in exprs[v] && p.rv[v][k] in Substituted(p.rv, e);
      forall u | u in VarsOf(e, [])
        ensures !Several(p.rv, u)
      {
        assert Uses(exprs, sources, p, v, e, u);
        UsedIsEarlier(g, exprs, sources, p, v, e, u);
        SingleValue(g, exprs, sources, p, u);
      }
      SubstitutedClosedIff(p.rv, e);
    } else {
      AtMostOneValue(g, exprs, sources, p, v);
    }
  }

  lemma UsedTwiceDefined(g: Graph, exprs: Exprs, sources: seq<Name>, p: Progress, v: Name, e: Term, u: Name)
    requires Solved(g, exprs, sources, p) && ValuesClosed(p.rv)
    requires Uses(exprs, sources, p, v, e, u) && Evaluated(exprs, sources, p, u)
    ensures |exprs[u]| <= 1
  {
    hide ValuesInv, Order, Layered, ExprsScript, VarsOf, ValuesOf, Closed, FirstsClosed, Evaluated, Substituted, ChoicesOf;
    ValueCount(g, exprs, sources, p, u);
    EvaluatedValues(g, exprs, sources, p, v);
    SubstitutedClosedIff(p.rv, e);
    forall r | r in Substituted(p.rv, e)
      ensures Closed(r)
    {
      ValuesOfHas(p.rv, exprs[v], e, r);
      var k :| 0 <= k < |p.rv[v]| && p.rv[v][k] == r;
    }
  }

  // ----- first values and several values, from the expressions -----

  /** The variables whose first expression leads back, through first expressions, to sources only. */
  ghost function Grounded(exprs: Exprs, sources: seq<Name>, broken: seq<Name>, done: seq<Name>): set<Name> {
    if done == [] then {}
    else
      var v := done[|done| - 1];
      var before := Grounded(exprs, sources, broken, done[..|done| - 1]);
      if v in sources || (v in exprs && v !in broken && exprs[v] != [] && forall u :: u in VarsOf(exprs[v][0], []) ==> u in before)
      then before + {v} else before
  }

  /** The variables with two or more expressions, or with an expression that mentions such a one. */
  ghost function Multiple(exprs: Exprs, sources: seq<Name>, broken: seq<Name>, done: seq<Name>): set<Name> {
    if done == [] then {}
    else
      var v := done[|done| - 1];
      var before := Multiple(exprs, sources, broken, done[..|done| - 1]);
      if v !in sources && v in exprs && v !in broken && MultiplyDefined(exprs[v], before)
      then before + {v} else before
  }

  ghost predicate MultiplyDefined(es: seq<Term>, multiple: set<Name>) {
    |es| > 1 || exists e, u :: e in es && u in VarsOf(e, []) && u in multiple
  }

  lemma {:induction false} ValuesOfFirst(rv: Values, es: seq<Term>)
    requires es != []
    ensures ValuesOf(rv, es) != [] && ValuesOf(rv, es)[0] == Substituted(rv, es[0])[0]
  {
    if |es| > 1 {
      ValuesOfFirst(rv, es[..|es| - 1]);
    }
  }

  lemma PrefixNames(done: seq<Name>, n: nat)
    requires n < |done| && NoRepeats(done)
    ensures done[..n + 1][..n] == done[..n] && done[..n + 1][n] == done[n]
    ensures done[n] !in done[..n]
    ensures forall u :: u in done[..n] <==> u in done && IndexOf(done, u) < n
  {
    assert forall k :: 0 <= k < n ==> done[..n][k] == done[k];
    forall u | u in done && IndexOf(done, u) < n
      ensures u in done[..n]
    {
      assert done[..n][IndexOf(done, u)] == u;
    }
    forall u | u in done[..n]
      ensures u in done && IndexOf(done, u) < n
    {
      var k :| 0 <= k < n && done[..n][k] == u;
      assert done[k] == u;
    }
  }

  lemma IndexIs(done: seq<Name>, n: nat)
    requires NoRepeats(done) && n < |done|
    ensures IndexOf(done, done[n]) == n
  {
  }

  lemma PlacedAt(g: Graph, exprs: Exprs, sources: seq<Name>, p: Progress, n: nat)
    requires Solved(g, exprs, sources, p) && n < |p.done|
    ensures NoRepeats(p.done) && IndexOf(p.done, p.done[n]) == n
    ensures p.done[..n + 1][..n] == p.done[..n] && p.done[..n + 1][n] == p.done[n]
    ensures p.done[n] !in p.done[..n]
    ensures forall u :: u in p.done[..n + 1] <==> u in p.done[..n] || u == p.done[n]
  {
    PrefixNames(p.done, n);
    IndexIs(p.done, n);
    assert p.done[..n + 1] == p.done[..n] + [p.done[n]];
  }

  ghost predicate FirstNoTmp(rv: Values, u: Name) {
    Resolved(rv, u) && NoTmp(rv[u][0])
  }

  /** The first value of a variable is free of `tmp` exactly if the variable is grounded. */
  lemma {:induction false} GroundedIff(g: Graph, exprs: Exprs, sources: seq<Name>, p: Progress, n: nat)
    requires Solved(g, exprs, sources, p) && n <= |p.done|
    ensures forall u :: u in Grounded(exprs, sources, p.broken, p.done[..n]) <==> u in p.done[..n] && FirstNoTmp(p.rv, u)
  {
    hide Solved, FirstNoTmp, NoRepeats, VarsOf;
    if n > 0 {
      GroundedIff(g, exprs, sources, p, n - 1);
      var v := p.done[n - 1];
      PlacedAt(g, exprs, sources, p, n - 1);
      if v in sources {
        SourceFirst(g, exprs, sources, p, v);
      } else if Evaluated(exprs, sources, p, v) {
        GroundedStep(g, exprs, sources, p, v);
      } else {
        OtherValues(g, exprs, sources, p, v);
        assert !FirstNoTmp(p.rv, v) by { NotResolved(p.rv, v); }
      }
    }
  }

  lemma NotResolved(rv: Values, v: Name)
    requires !Resolved(rv, v)
    ensures !FirstNoTmp(rv, v)
  {
  }

  lemma SourceFirst(g: Graph, exprs: Exprs, sources: seq<Name>, p: Progress, v: Name)
    requires Solved(g, exprs, sources, p) && v in sources
    ensures FirstNoTmp(p.rv, v)
  {
    var k := SourceValues(g, exprs, sources, p, v);
  }

  lemma GroundedStep(g: Graph, exprs: Exprs, sources: seq<Name>, p: Progress, v: Name)
    requires Solved(g, exprs, sources, p) && Evaluated(exprs, sources, p, v)
    ensures FirstNoTmp(p.rv, v) <==> exprs[v] != [] && forall u :: u in VarsOf(exprs[v][0], []) ==>
              u in p.done[..IndexOf(p.done, v)] && FirstNoTmp(p.rv, u)
  {
    hide ValuesInv, Layered, Order, ExprsScript, VarsOf, FirstsClosed;
    EvaluatedValues(g, exprs, sources, p, v);
    if exprs[v] != [] {
      ValuesOfFirst(p.rv, exprs[v]);
      FirstResultNoTmp(p.rv, exprs[v][0]);
      forall u | u in VarsOf(exprs[v][0], [])
        ensures u in p.done[..IndexOf(p.done, v)]
      {
        UsedIsBefore(g, exprs, sources, p, v, exprs[v][0], u);
      }
    }
  }

  lemma UsedIsBefore(g: Graph, exprs: Exprs, sources: seq<Name>, p: Progress, v: Name, e: Term, u: Name)
    requires Solved(g, exprs, sources, p) && Uses(exprs, sources, p, v, e, u)
    ensures u in p.done[..IndexOf(p.done, v)]
  {
    UsedIsEarlier(g, exprs, sources, p, v, e, u);
    PrefixNames(p.done, IndexOf(p.done, v));
  }

  lemma MultipleStep(g: Graph, exprs: Exprs, sources: seq<Name>, p: Progress, v: Name, before: set<Name>)
    requires Solved(g, exprs, sources, p) && Evaluated(exprs, sources, p, v)
    requires forall u :: u in before <==> u in p.done[..IndexOf(p.done, v)] && Several(p.rv, u)
    ensures Several(p.rv, v) <==> MultiplyDefined(exprs[v], before)
  {
    hide Solved, Several, VarsOf;
    ValueCount(g, exprs, sources, p, v);
    EvaluatedValues(g, exprs, sources, p, v);
    forall e, u | e in exprs[v] && u in VarsOf(e, [])
      ensures Uses(exprs, sources, p, v, e, u) && u in p.done[..IndexOf(p.done, v)]
    {
      UsedIsBefore(g, exprs, sources, p, v, e, u);
    }
  }

  /** A variable has two or more values exactly if it is multiply defined. */
  lemma {:induction false} MultipleIff(g: Graph, exprs: Exprs, sources: seq<Name>, p: Progress, n: nat)
    requires Solved(g, exprs, sources, p) && n <= |p.done|
    ensures forall u :: u in Multiple(exprs, sources, p.broken, p.done[..n]) <==> u in p.done[..n] && Several(p.rv, u)
  {
    hide Solved, Several, NoRepeats, VarsOf, IndexOf, MultiplyDefined;
    if n > 0 {
      MultipleIff(g, exprs, sources, p, n - 1);
      var v := p.done[n - 1];
      PlacedAt(g, exprs, sources, p, n - 1);
      if Evaluated(exprs, sources, p, v) {
        MultipleStep(g, exprs, sources, p, v, Multiple(exprs, sources, p.broken, p.done[..n - 1]));
      } else {
        AtMostOneValue(g, exprs, sources, p, v);
      }
    }
  }

  // ----- resolution preserves meaning -----

  /** The first value of each variable that is used is free of `tmp` if any of its values is. */
  ghost predicate FirstsFit(exprs: Exprs, sources: seq<Name>, p: Progress) {
    forall v, e, u :: Uses(exprs, sources, p, v, e, u) ==> FirstFits(p.rv, u)
  }

  /** Under an interpretation in which every expression equals its variable, and each `$A` its source,
      the tmp-free values of a variable mean the variable. */
  lemma {:induction false} MeaningAt<V>(i: Interp<V>, g: Graph, exprs: Exprs, sources: seq<Name>, p: Progress, v: Name)
    requires Solved(g, exprs, sources, p) && FirstsFit(exprs, sources, p) && ExprsMean(i, exprs)
    requires forall k :: 0 <= k < |sources| ==> i.env(Arg(k)) == i.env(sources[k])
    requires v in p.done
    ensures ValuesMean(i, p.rv, v)
    decreases if v in p.done then IndexOf(p.done, v) else 0
  {
    hide Solved, VarsOf, Substituted, FirstFits, NoTmp;
    if Evaluated(exprs, sources, p, v) {
      EvaluatedValues(g, exprs, sources, p, v);
      forall k | 0 <= k < |p.rv[v]| && NoTmp(p.rv[v][k])
        ensures Eval(i, p.rv[v][k]) == i.env(v)
      {
        ValuesOfOrigin(p.rv, exprs[v], p.rv[v][k]);
        var e :| e in exprs[v] && p.rv[v][k] in Substituted(p.rv, e);
        forall u | u in VarsOf(e, [])
          ensures ValuesMean(i, p.rv, u) && FirstFits(p.rv, u)
        {
          assert Uses(exprs, sources, p, v, e, u);
          UsedIsEarlier(g, exprs, sources, p, v, e, u);
          MeaningAt(i, g, exprs, sources, p, u);
        }
        SubstitutedMeans(i, p.rv, e, p.rv[v][k]);
      }
    } else if v in sources {
      var k := SourceValues(g, exprs, sources, p, v);
    } else {
      OtherValues(g, exprs, sources, p, v);
    }
  }

  /** The first values fit if every variable that is used is grounded or not multiply defined. */
  lemma GroundedFits(g: Graph, exprs: Exprs, sources: seq<Name>, p: Progress)
    requires Solved(g, exprs, sources, p)
    requires forall v, e, u :: Uses(exprs, sources, p, v, e, u) ==>
               u in Grounded(exprs, sources, p.broken, p.done) || u !in Multiple(exprs, sources, p.broken, p.done)
    ensures FirstsFit(exprs, sources, p)
  {
    hide Solved, Uses, Grounded, Multiple;
    assert p.done[..|p.done|] == p.done;
    GroundedIff(g, exprs, sources, p, |p.done|);
    MultipleIff(g, exprs, sources, p, |p.done|);
    forall v, e, u | Uses(exprs, sources, p, v, e, u)
      ensures FirstFits(p.rv, u)
    {
      UsedIsEarlier(g, exprs, sources, p, v, e, u);
    }
  }

  // ----- the whole analysis -----

  function AllEquations(script: seq<Term>): seq<Term> {
    if script == [] then [] else AllEquations(script[..|script| - 1]) + EquationsOf(script[|script| - 1])
  }

  function AllVars(script: seq<Term>): seq<Name> {
    if script == [] then [] else VarsOf(script[|script| - 1], AllVars(script[..|script| - 1]))
  }

  const MARK := "_POST_"

  /** `'_POST_' in str(var)` */
  predicate IsSource(v: Name) {
    v.Prog? && Contains(v.s, MARK)
  }

  function SourcesOf(vars: seq<Name>): seq<Name> {
    if vars == [] then []
    else SourcesOf(vars[..|vars| - 1]) + if IsSource(vars[|vars| - 1]) then [vars[|vars| - 1]] else []
  }

  function SourceExprs(sources: seq<Name>): Exprs {
    if sources == [] then map[]
    else SourceExprs(sources[..|sources| - 1])[sources[|sources| - 1] := [Var(sources[|sources| - 1])]]
  }

  /** A script whose equations have two sides and whose variables are the script's own. */
  predicate WellFormed(script: seq<Term>) {
    && (forall k :: 0 <= k < |script| ==> ScriptTerm(script[k]))
    && (forall k :: 0 <= k < |AllEquations(script)| ==> IsEquation(AllEquations(script)[k]))
  }

  function Collected(script: seq<Term>): Facts
    requires WellFormed(script)
  {
    var sources := SourcesOf(AllVars(script));
    SortedAll(sources, Facts(SourceExprs(sources), []), AllEquations(script))
  }

  function Analysed(script: seq<Term>): Progress
    requires WellFormed(script)
  {
    var f := Collected(script);
    BuildGraphMeaning(f.pairs);
    Resolve(BuildGraph(f.pairs), f.exprs, Begin(SourcesOf(AllVars(script))))
  }

  lemma {:induction false} EquationsAreScript(t: Term)
    requires ScriptTerm(t)
    ensures forall k :: 0 <= k < |EquationsOf(t)| ==> ScriptTerm(EquationsOf(t)[k])
    decreases t, 0
  {
    match t
    case Var(_) =>
    case App(_, args) => EquationsAllAreScript(args);
  }

  lemma {:induction false} EquationsAllAreScript(ts: seq<Term>)
    requires forall k :: 0 <= k < |ts| ==> ScriptTerm(ts[k])
    ensures forall k :: 0 <= k < |EquationsOfAll(ts)| ==> ScriptTerm(EquationsOfAll(ts)[k])
    decreases ts
  {
    if ts != [] {
      EquationsAreScript(ts[0]);
      EquationsAllAreScript(ts[1..]);
    }
  }

  lemma {:induction false} AllEquationsAreScript(script: seq<Term>)
    requires forall k :: 0 <= k < |script| ==> ScriptTerm(script[k])
    ensures forall k :: 0 <= k < |AllEquations(script)| ==> ScriptTerm(AllEquations(script)[k])
  {
    if script != [] {
      AllEquationsAreScript(script[..|script| - 1]);
      EquationsAreScript(script[|script| - 1]);
    }
  }

  lemma {:induction false} AllVarsAreScript(script: seq<Term>)
    requires forall k :: 0 <= k < |script| ==> ScriptTerm(script[k])
    ensures NoRepeats(AllVars(script)) && forall n :: n in AllVars(script) ==> n.Prog?
  {
    if script != [] {
      var t, before := script[|script| - 1], AllVars(script[..|script| - 1]);
      AllVarsAreScript(script[..|script| - 1]);
      VarsCover(t, before);
      forall n | n in VarsOf(t, before)
        ensures n.Prog?
      {
        if Mentions(t, n) {
          ScriptMentions(t, n);
        }
      }
    }
  }

  lemma {:induction false} SourcesAreVars(vars: seq<Name>)
    requires NoRepeats(vars)
    ensures NoRepeats(SourcesOf(vars))
    ensures forall n :: n in SourcesOf(vars) <==> n in vars && IsSource(n)
  {
    if vars != [] {
      var n := |vars| - 1;
      SourcesAreVars(vars[..n]);
      assert vars == vars[..n] + [vars[n]];
      assert vars[n] !in vars[..n];
    }
  }

  lemma {:induction false} SourceExprsAreVars(sources: seq<Name>)
    ensures forall v :: v in SourceExprs(sources) <==> v in sources
    ensures forall v :: v in sources ==> SourceExprs(sources)[v] == [Var(v)]
  {
    if sources != [] {
      SourceExprsAreVars(sources[..|sources| - 1]);
      assert sources == sources[..|sources| - 1] + [sources[|sources| - 1]];
    }
  }

  /** The facts collected from a script: every noted term equals its variable under any interpretation
      that satisfies the equations, and outside the sources flows into it. */
  lemma CollectedIsSound(script: seq<Term>)
    requires WellFormed(script)
    ensures ExprsScript(Collected(script).exprs)
    ensures ExprsFlow(SourcesOf(AllVars(script)), Collected(script))
    ensures NoRepeats(SourcesOf(AllVars(script)))
  {
    var sources := SourcesOf(AllVars(script));
    AllVarsAreScript(script);
    SourcesAreVars(AllVars(script));
    SourceExprsAreVars(sources);
    AllEquationsAreScript(script);
    SortedAllIsSound(sources, Facts(SourceExprs(sources), []), AllEquations(script));
  }

  /** How the parts of an analysis hang together, exception or not. */
  lemma AnalysisKeeps(script: seq<Term>)
    requires WellFormed(script)
    ensures var g, f, sources, r := BuildGraph(Collected(script).pairs), Collected(script), SourcesOf(AllVars(script)), Analysed(script);
      && GraphOk(g) && Layered(g, f.exprs, sources) && ExprsScript(f.exprs)
      && Order(g, sources, r.done, r.broken) && AllDone(g, r.done)
      && ValuesInv(f.exprs, sources, r) && FirstsClosed(r.rv)
  {
    var f, sources := Collected(script), SourcesOf(AllVars(script));
    var g := BuildGraph(f.pairs);
    CollectedIsSound(script);
    BuildGraphMeaning(f.pairs);
    CollectedIsLayered(script);
    BeginOrder(g, sources);
    hide Order, ValuesInv, Layered, ExprsScript, GraphOk, BuildGraph, Collected, Resolve, AllDone;
    ResolveOrder(g, f.exprs, Begin(sources), sources);
    BeginInv(f.exprs, sources);
    ResolveKeepsInv(g, f.exprs, sources, Begin(sources));
    BeginFirsts(sources);
    ResolveFirsts(g, f.exprs, Begin(sources));
  }

  lemma BeginFirsts(sources: seq<Name>)
    requires NoRepeats(sources)
    ensures FirstsClosed(Begin(sources).rv)
  {
    SeededIs(sources);
    forall v | Resolved(Begin(sources).rv, v)
      ensures Closed(Begin(sources).rv[v][0])
    {
      var k :| 0 <= k < |sources| && sources[k] == v;
    }
  }

  lemma CollectedIsLayered(script: seq<Term>)
    requires WellFormed(script)
    ensures Layered(BuildGraph(Collected(script).pairs), Collected(script).exprs, SourcesOf(AllVars(script)))
  {
    var f, sources := Collected(script), SourcesOf(AllVars(script));
    CollectedIsSound(script);
    BuildGraphMeaning(f.pairs);
    hide Collected, VarsOf;
    forall v, e, u | v in f.exprs && v !in sources && e in f.exprs[v] && u in VarsOf(e, [])
      ensures Edge(BuildGraph(f.pairs), u, v)
    {
      var k :| 0 <= k < |f.exprs[v]| && f.exprs[v][k] == e;
      assert Flows(f.pairs, u, v);
    }
  }

  lemma AnalysisSolved(script: seq<Term>)
    requires WellFormed(script) && !Analysed(script).crashed
    ensures Solved(BuildGraph(Collected(script).pairs), Collected(script).exprs, SourcesOf(AllVars(script)), Analysed(script))
  {
    hide Order, ValuesInv, Layered, ExprsScript, GraphOk, BuildGraph, Collected, Analysed, AllDone, WellFormed;
    AnalysisKeeps(script);
  }

  // ----- the results -----

  /** In the analysis of the script an expression that is evaluated mentions u. */
  ghost predicate ScriptUses(script: seq<Term>, v: Name, e: Term, u: Name)
    requires WellFormed(script)
  {
    Uses(Collected(script).exprs, SourcesOf(AllVars(script)), Analysed(script), v, e, u)
  }

  /** The analysis ends with an exception exactly if an expression that is evaluated mentions a
      variable without expressions at which a cycle was broken. */
  lemma AnalysisCrashesIff(script: seq<Term>)
    requires WellFormed(script)
    ensures Analysed(script).crashed <==>
              exists v, e, u :: ScriptUses(script, v, e, u) && u in Analysed(script).broken && u !in Collected(script).exprs
  {
    hide Collected, Analysed, Order, Layered, GraphOk, BuildGraph, Computed, Supported;
    AnalysisKeeps(script);
    var exprs, sources, r := Collected(script).exprs, SourcesOf(AllVars(script)), Analysed(script);
    if Doomed(exprs, sources, r) {
      var v, e, x :| Evaluated(exprs, sources, r, v) && e in exprs[v] && x in VarsOf(e, []) && x in r.broken && x !in exprs;
      assert ScriptUses(script, v, e, x);
    }
    if v, e, u :| ScriptUses(script, v, e, u) && u in r.broken && u !in exprs {
      assert Doomed(exprs, sources, r);
    }
  }

  /** The entry of a variable ends up bare exactly if nothing defines the variable and, when its turn
      came, nothing was ready and it was the first key left. */
  lemma AnalysisBareIff(script: seq<Term>, j: nat)
    requires WellFormed(script) && !Analysed(script).crashed
    requires |SourcesOf(AllVars(script))| <= j < |Analysed(script).done|
    ensures var v, r := Analysed(script).done[j], Analysed(script);
      v in r.bare <==> v !in Collected(script).exprs && BreaksAt(BuildGraph(Collected(script).pairs), r.done[..j], v)
  {
    hide Collected, Analysed, Layered, GraphOk, BuildGraph, BreaksAt;
    AnalysisKeeps(script);
    var g, sources, r := BuildGraph(Collected(script).pairs), SourcesOf(AllVars(script)), Analysed(script);
    BrokenIff(g, sources, r.done, r.broken, j);
  }

  /** The values of a variable number the choices its expressions leave. */
  lemma AnalysisCounts(script: seq<Term>, v: Name)
    requires WellFormed(script) && !Analysed(script).crashed
    requires Evaluated(Collected(script).exprs, SourcesOf(AllVars(script)), Analysed(script), v)
    ensures v in Analysed(script).rv
    ensures |Analysed(script).rv[v]| == ChoicesOf(Analysed(script).rv, Collected(script).exprs[v])
  {
    hide Collected, Analysed, Solved, BuildGraph;
    AnalysisSolved(script);
    ValueCount(BuildGraph(Collected(script).pairs), Collected(script).exprs, SourcesOf(AllVars(script)), Analysed(script), v);
  }

  /** All values are over `$A`s and `tmp` exactly if no expression that is evaluated mentions a
      variable that is evaluated from two or more expressions. */
  lemma AnalysisClosedIff(script: seq<Term>)
    requires WellFormed(script) && !Analysed(script).crashed
    ensures ValuesClosed(Analysed(script).rv) <==>
              SinglyDefined(Collected(script).exprs, SourcesOf(AllVars(script)), Analysed(script))
  {
    hide Collected, Analysed, Solved, BuildGraph, SinglyDefined;
    AnalysisSolved(script);
    ClosedIff(BuildGraph(Collected(script).pairs), Collected(script).exprs, SourcesOf(AllVars(script)), Analysed(script));
  }

  /** The first value is free of `tmp` exactly if the variable is grounded, and a variable has two or
      more values exactly if it is multiply defined. */
  lemma AnalysisGroundedIff(script: seq<Term>, v: Name)
    requires WellFormed(script) && !Analysed(script).crashed
    ensures var f, sources, r := Collected(script), SourcesOf(AllVars(script)), Analysed(script);
      && (v in Grounded(f.exprs, sources, r.broken, r.done) <==> v in r.done && Resolved(r.rv, v) && NoTmp(r.rv[v][0]))
      && (v in Multiple(f.exprs, sources, r.broken, r.done) <==> v in r.done && Several(r.rv, v))
  {
    hide Collected, Analysed, Solved, BuildGraph, Grounded, Multiple;
    AnalysisSolved(script);
    var g, f, sources, r := BuildGraph(Collected(script).pairs), Collected(script), SourcesOf(AllVars(script)), Analysed(script);
    assert r.done[..|r.done|] == r.done;
    GroundedIff(g, f.exprs, sources, r, |r.done|);
    MultipleIff(g, f.exprs, sources, r, |r.done|);
  }

  ghost predicate Satisfies<V>(i: Interp<V>, script: seq<Term>)
    requires WellFormed(script)
  {
    && (forall e :: 0 <= e < |AllEquations(script)| ==> Holds(i, AllEquations(script)[e]))
    && (forall s :: 0 <= s < |SourcesOf(AllVars(script))| ==> i.env(Arg(s)) == i.env(SourcesOf(AllVars(script))[s]))
  }

  /** Resolution preserves meaning.  Under any interpretation that satisfies the equations of the
      script and gives each `$A` the value of its source, every value found for a variable that is
      free of `tmp` evaluates to the variable, if the first value of every variable used is free of
      `tmp` whenever any of its values is. */
  lemma AnalysisPreservesMeaning<V>(i: Interp<V>, script: seq<Term>, v: Name, k: nat)
    requires WellFormed(script) && Satisfies(i, script) && !Analysed(script).crashed
    requires forall x, e, u :: ScriptUses(script, x, e, u) ==> FirstFits(Analysed(script).rv, u)
    requires v in Analysed(script).rv && k < |Analysed(script).rv[v]|
    ensures NoTmp(Analysed(script).rv[v][k]) ==> Eval(i, Analysed(script).rv[v][k]) == i.env(v)
  {
    CollectedMeans(i, script);
    AnalysisSolved(script);
    hide Collected, Analysed, BuildGraph, ExprsMean, Layered, Order, FirstsClosed, SourcesOf, WellFormed;
    var g, f, sources, r := BuildGraph(Collected(script).pairs), Collected(script), SourcesOf(AllVars(script)), Analysed(script);
    forall x, e, u | Uses(f.exprs, sources, r, x, e, u)
      ensures FirstFits(r.rv, u)
    {
      assert ScriptUses(script, x, e, u);
    }
    MeaningAt(i, g, f.exprs, sources, r, v);
  }

  lemma CollectedMeans<V>(i: Interp<V>, script: seq<Term>)
    requires WellFormed(script) && Satisfies(i, script)
    ensures ExprsMean(i, Collected(script).exprs)
  {
    var sources := SourcesOf(AllVars(script));
    SourceExprsAreVars(sources);
    assert ExprsMean(i, SourceExprs(sources));
    SortedAllMeans(i, sources, Facts(SourceExprs(sources), []), AllEquations(script));
  }

  /** The same from the defining equations alone: it is enough that every variable used is grounded
      or not multiply defined. */
  lemma GroundedScriptsKeepMeaning<V>(i: Interp<V>, script: seq<Term>, v: Name, k: nat)
    requires WellFormed(script) && Satisfies(i, script) && !Analysed(script).crashed
    requires forall x, e, u :: ScriptUses(script, x, e, u) ==>
               u in Grounded(Collected(script).exprs, SourcesOf(AllVars(script)), Analysed(script).broken, Analysed(script).done)
               || u !in Multiple(Collected(script).exprs, SourcesOf(AllVars(script)), Analysed(script).broken, Analysed(script).done)
    requires v in Analysed(script).rv && k < |Analysed(script).rv[v]|
    ensures NoTmp(Analysed(script).rv[v][k]) ==> Eval(i, Analysed(script).rv[v][k]) == i.env(v)
  {
    hide Collected, Analysed, Solved, BuildGraph, Grounded, Multiple, Satisfies, WellFormed, Uses;
    AnalysisSolved(script);
    var g, f, sources, r := BuildGraph(Collected(script).pairs), Collected(script), SourcesOf(AllVars(script)), Analysed(script);
    forall x, e, u | Uses(f.exprs, sources, r, x, e, u)
      ensures u in Grounded(f.exprs, sources, r.broken, r.done) || u !in Multiple(f.exprs, sources, r.broken, r.done)
    {
      assert ScriptUses(script, x, e, u);
    }
    GroundedFits(g, f.exprs, sources, r);
    forall x, e, u | ScriptUses(script, x, e, u)
      ensures FirstFits(r.rv, u)
    {
    }
    AnalysisPreservesMeaning(i, script, v, k);
  }

  /** Each variable is resolved only after all variables of all its expressions, unless a cycle was
      broken there. */
  lemma OperandsAreDoneFirst(script: seq<Term>, j: nat, e: Term, u: Name)
    requires WellFormed(script)
    requires |SourcesOf(AllVars(script))| <= j < |Analysed(script).done| && Analysed(script).done[j] !in Analysed(script).broken
    requires Analysed(script).done[j] in Collected(script).exprs
    requires e in Collected(script).exprs[Analysed(script).done[j]] && u in VarsOf(e, [])
    ensures u in Analysed(script).done[..j]
  {
    hide Collected, Analysed, BuildGraph, ValuesInv, FirstsClosed, ExprsScript, VarsOf;
    AnalysisKeeps(script);
    var g, sources, r := BuildGraph(Collected(script).pairs), SourcesOf(AllVars(script)), Analysed(script);
    var v := r.done[j];
    assert v !in sources by {
      assert forall s :: 0 <= s < |sources| ==> sources[s] == r.done[s];
    }
    assert Edge(g, u, v);
    assert PredecessorsIn(g, v, r.done[..j]);
  }
}
