/**
 The data flow of a constraint script: `SE.sortOperands` and `SE.createGraph`.
 */
module DataFlow {
  import opened Terms

  // ----- the data flow graph -----

  /** The keys in the order they were inserted, and for each the variables it depends on. */
  datatype Graph = Graph(keys: seq<Name>, ine: map<Name, seq<Name>>)

  function AddKey(g: Graph, v: Name): Graph {
    if v in g.ine then g else Graph(g.keys + [v], g.ine[v := []])
  }

  function AddEdge(g: Graph, u: Name, v: Name): Graph {
    var h := AddKey(AddKey(g, u), v);
    if u in h.ine[v] then h else Graph(h.keys, h.ine[v := h.ine[v] + [u]])
  }

  function AddRow(g: Graph, u: Name, vs: seq<Name>): Graph {
    if vs == [] then g else AddEdge(AddRow(g, u, vs[..|vs| - 1]), u, vs[|vs| - 1])
  }

  function AddPair(g: Graph, us: seq<Name>, vs: seq<Name>): Graph {
    if us == [] then g else AddRow(AddPair(g, us[..|us| - 1], vs), us[|us| - 1], vs)
  }

  /** `createGraph` from the ordered pairs of variable lists. */
  function BuildGraph(pairs: seq<(seq<Name>, seq<Name>)>): Graph {
    if pairs == [] then Graph([], map[])
    else AddPair(BuildGraph(pairs[..|pairs| - 1]), pairs[|pairs| - 1].0, pairs[|pairs| - 1].1)
  }

  /** Keys listed once, edges only between keys. */
  ghost predicate GraphOk(g: Graph) {
    && NoRepeats(g.keys)
    && (forall v :: v in g.keys <==> v in g.ine)
    && (forall v, u :: v in g.ine && u in g.ine[v] ==> u in g.ine)
  }

  predicate Edge(g: Graph, u: Name, v: Name) {
    v in g.ine && u in g.ine[v]
  }

  lemma AddKeyAdds(g: Graph, v: Name)
    requires GraphOk(g)
    ensures GraphOk(AddKey(g, v)) && v in AddKey(g, v).ine
    ensures forall x :: x in AddKey(g, v).ine <==> x in g.ine || x == v
    ensures forall x, y :: Edge(AddKey(g, v), x, y) <==> Edge(g, x, y)
  {
  }

  lemma AddEdgeAdds(g: Graph, u: Name, v: Name)
    requires GraphOk(g)
    ensures GraphOk(AddEdge(g, u, v))
    ensures forall x, y :: Edge(AddEdge(g, u, v), x, y) <==> Edge(g, x, y) || (x == u && y == v)
  {
    hide AddKey;
    AddKeyAdds(g, u);
    AddKeyAdds(AddKey(g, u), v);
  }

  lemma {:induction false} AddRowAdds(g: Graph, u: Name, vs: seq<Name>)
    requires GraphOk(g)
    ensures GraphOk(AddRow(g, u, vs))
    ensures forall x, y :: Edge(AddRow(g, u, vs), x, y) <==> Edge(g, x, y) || (x == u && y in vs)
  {
    if vs != [] {
      var n := |vs| - 1;
      AddRowAdds(g, u, vs[..n]);
      AddEdgeAdds(AddRow(g, u, vs[..n]), u, vs[n]);
      assert vs == vs[..n] + [vs[n]];
    }
  }

  lemma {:induction false} AddPairAdds(g: Graph, us: seq<Name>, vs: seq<Name>)
    requires GraphOk(g)
    ensures GraphOk(AddPair(g, us, vs))
    ensures forall x, y :: Edge(AddPair(g, us, vs), x, y) <==> Edge(g, x, y) || (x in us && y in vs)
  {
    if us != [] {
      var n := |us| - 1;
      AddPairAdds(g, us[..n], vs);
      AddRowAdds(AddPair(g, us[..n], vs), us[n], vs);
      assert us == us[..n] + [us[n]];
    }
  }

  /** The graph has an edge from u to v exactly when some pair puts u before v. */
  lemma {:induction false} BuildGraphMeaning(pairs: seq<(seq<Name>, seq<Name>)>)
    ensures GraphOk(BuildGraph(pairs))
    ensures forall x, y :: Edge(BuildGraph(pairs), x, y) <==>
              exists k :: 0 <= k < |pairs| && x in pairs[k].0 && y in pairs[k].1
  {
    if pairs != [] {
      var n := |pairs| - 1;
      BuildGraphMeaning(pairs[..n]);
      AddPairAdds(BuildGraph(pairs[..n]), pairs[n].0, pairs[n].1);
      forall x, y
        ensures (exists k :: 0 <= k < |pairs| && x in pairs[k].0 && y in pairs[k].1) <==>
                (exists k :: 0 <= k < n && x in pairs[..n][k].0 && y in pairs[..n][k].1) || (x in pairs[n].0 && y in pairs[n].1)
      {
        if k :| 0 <= k < |pairs| && x in pairs[k].0 && y in pairs[k].1 {
          if k < n {
            assert pairs[..n][k] == pairs[k];
          }
        }
      }
    }
  }

  // ----- sortOperands -----

  type Exprs = map<Name, seq<Term>>

  /** What `sortOperands` collects: for each variable the terms it equals, and who flows into whom. */
  datatype Facts = Facts(exprs: Exprs, pairs: seq<(seq<Name>, seq<Name>)>)

  function Note(exprs: Exprs, v: Name, e: Term): Exprs {
    exprs[v := (if v in exprs then exprs[v] else []) + [e]]
  }

  predicate IsEquation(t: Term) {
    t.App? && t.op == EQ && |t.args| >= 2
  }

  function Sorted(sources: seq<Name>, f: Facts, eq: Term): Facts
    requires IsEquation(eq)
  {
    var a, b := eq.args[0], eq.args[1];
    var first, second := VarsOf(a, []), VarsOf(b, []);
    if a.Var? then
      if b.Var? && a.name in sources then Facts(Note(f.exprs, b.name, a), f.pairs + [(first, second)])
      else Facts(Note(f.exprs, a.name, b), f.pairs + [(second, first)])
    else Facts(if b.Var? then Note(f.exprs, b.name, a) else f.exprs, f.pairs + [(first, second)])
  }

  function SortedAll(sources: seq<Name>, f: Facts, eqs: seq<Term>): Facts
    requires forall k :: 0 <= k < |eqs| ==> IsEquation(eqs[k])
  {
    if eqs == [] then f
    else Sorted(sources, SortedAll(sources, f, eqs[..|eqs| - 1]), eqs[|eqs| - 1])
  }

  predicate ExprsScript(exprs: Exprs) {
    forall v :: v in exprs ==> v.Prog? && forall k :: 0 <= k < |exprs[v]| ==> ScriptTerm(exprs[v][k])
  }

  /** Every expression noted for v equals v. */
  ghost predicate ExprsMean<V>(i: Interp<V>, exprs: Exprs) {
    forall v :: v in exprs ==> forall k :: 0 <= k < |exprs[v]| ==> Eval(i, exprs[v][k]) == i.env(v)
  }

  predicate Flows(pairs: seq<(seq<Name>, seq<Name>)>, u: Name, v: Name) {
    exists k :: 0 <= k < |pairs| && u in pairs[k].0 && v in pairs[k].1
  }

  /** Every variable of an expression noted for v, v not a source, flows into v. */
  ghost predicate ExprsFlow(sources: seq<Name>, f: Facts) {
    forall v :: v in f.exprs && v !in sources ==>
      forall k :: 0 <= k < |f.exprs[v]| ==> forall u :: u in VarsOf(f.exprs[v][k], []) ==> Flows(f.pairs, u, v)
  }

  ghost predicate Holds<V>(i: Interp<V>, eq: Term)
    requires IsEquation(eq)
  {
    Eval(i, eq.args[0]) == Eval(i, eq.args[1])
  }

  lemma FlowsMore(pairs: seq<(seq<Name>, seq<Name>)>, us: seq<Name>, vs: seq<Name>)
    ensures forall u, v :: Flows(pairs, u, v) ==> Flows(pairs + [(us, vs)], u, v)
    ensures forall u, v :: u in us && v in vs ==> Flows(pairs + [(us, vs)], u, v)
  {
    var more := pairs + [(us, vs)];
    forall u, v | Flows(pairs, u, v)
      ensures Flows(more, u, v)
    {
      var k :| 0 <= k < |pairs| && u in pairs[k].0 && v in pairs[k].1;
      assert more[k] == pairs[k];
    }
    assert more[|pairs|] == (us, vs);
  }

  lemma NoteFlow(sources: seq<Name>, f: Facts, v: Name, e: Term, us: seq<Name>, vs: seq<Name>)
    requires ExprsFlow(sources, f) && us == VarsOf(e, []) && vs == [v]
    ensures ExprsFlow(sources, Facts(Note(f.exprs, v, e), f.pairs + [(us, vs)]))
  {
    hide VarsOf;
    FlowsMore(f.pairs, us, vs);
  }

  lemma PairFlow(sources: seq<Name>, f: Facts, us: seq<Name>, vs: seq<Name>)
    requires ExprsFlow(sources, f)
    ensures ExprsFlow(sources, Facts(f.exprs, f.pairs + [(us, vs)]))
  {
    hide VarsOf;
    FlowsMore(f.pairs, us, vs);
  }

  /** Sorting an equation notes only terms equal to their variable, and records their flow. */
  lemma SortedIsSound(sources: seq<Name>, f: Facts, eq: Term)
    requires IsEquation(eq) && ScriptTerm(eq) && ExprsScript(f.exprs) && ExprsFlow(sources, f)
    ensures ExprsScript(Sorted(sources, f, eq).exprs) && ExprsFlow(sources, Sorted(sources, f, eq))
  {
    var a, b := eq.args[0], eq.args[1];
    var first, second := VarsOf(a, []), VarsOf(b, []);
    assert a.Var? ==> first == [a.name];
    assert b.Var? ==> second == [b.name];
    if a.Var? && b.Var? && a.name in sources {
      NoteFlow(sources, f, b.name, a, first, second);
    } else if a.Var? {
      NoteFlow(sources, f, a.name, b, second, first);
    } else if b.Var? {
      NoteFlow(sources, f, b.name, a, first, second);
    } else {
      PairFlow(sources, f, first, second);
    }
  }

  lemma SortedMeans<V>(i: Interp<V>, sources: seq<Name>, f: Facts, eq: Term)
    requires IsEquation(eq) && Holds(i, eq) && ExprsMean(i, f.exprs)
    ensures ExprsMean(i, Sorted(sources, f, eq).exprs)
  {
  }

  lemma {:induction false} SortedAllIsSound(sources: seq<Name>, f: Facts, eqs: seq<Term>)
    requires forall k :: 0 <= k < |eqs| ==> IsEquation(eqs[k]) && ScriptTerm(eqs[k])
    requires ExprsScript(f.exprs) && ExprsFlow(sources, f)
    ensures ExprsScript(SortedAll(sources, f, eqs).exprs) && ExprsFlow(sources, SortedAll(sources, f, eqs))
  {
    if eqs != [] {
      SortedAllIsSound(sources, f, eqs[..|eqs| - 1]);
      SortedIsSound(sources, SortedAll(sources, f, eqs[..|eqs| - 1]), eqs[|eqs| - 1]);
    }
  }

  lemma {:induction false} SortedAllMeans<V>(i: Interp<V>, sources: seq<Name>, f: Facts, eqs: seq<Term>)
    requires forall k :: 0 <= k < |eqs| ==> IsEquation(eqs[k]) && Holds(i, eqs[k])
    requires ExprsMean(i, f.exprs)
    ensures ExprsMean(i, SortedAll(sources, f, eqs).exprs)
  {
    if eqs != [] {
      SortedAllMeans(i, sources, f, eqs[..|eqs| - 1]);
      SortedMeans(i, sources, SortedAll(sources, f, eqs[..|eqs| - 1]), eqs[|eqs| - 1]);
    }
  }
}
