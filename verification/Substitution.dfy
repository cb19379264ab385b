/**
 `SE.substitute`: the results of putting the values of its variables into an expression.

 The key handed to `Term.substitute` is a node of the first result.  The first replacement
 overwrites it, so all further results are searched for the first value instead of the variable:
 in them the variable stays, and what happens to equal the first value goes.
 */
module Substitution {
  import opened Terms

  type Values = map<Name, seq<Term>>

  predicate Resolved(rv: Values, v: Name) {
    v in rv && |rv[v]| > 0
  }

  predicate AllResolved(rv: Values, occs: seq<Name>) {
    forall k :: 0 <= k < |occs| ==> Resolved(rv, occs[k])
  }

  predicate Several(rv: Values, v: Name) {
    v in rv && |rv[v]| > 1
  }

  /** What the copies made for the values after the first become: key is the first value. */
  function Copies(es: seq<Term>, key: Term, vals: seq<Term>): seq<Term> {
    if vals == [] then []
    else Copies(es, key, vals[..|vals| - 1]) + ReplaceAll(es, key, vals[|vals| - 1])
  }

  /** One variable: the term that holds the key node comes first. */
  function SubstStep(rv: Values, es: seq<Term>, v: Name): (r: seq<Term>)
    requires es != []
    ensures r != []
  {
    if Resolved(rv, v) then
      [Replace(es[0], Var(v), rv[v][0])] + es[1..] + Copies(es, rv[v][0], rv[v][1..])
    else
      [Replace(es[0], Var(v), Var(Tmp))] + es[1..]
  }

  function SubstOccs(rv: Values, expr: Term, occs: seq<Name>): (r: seq<Term>)
    ensures r != []
  {
    if occs == [] then [expr]
    else SubstStep(rv, SubstOccs(rv, expr, occs[..|occs| - 1]), occs[|occs| - 1])
  }

  /** The results for an expression. */
  function Substituted(rv: Values, expr: Term): (r: seq<Term>)
    ensures r != []
  {
    SubstOccs(rv, expr, VarsOf(expr, []))
  }

  // ----- which values are used -----

  predicate Agree(rv: Values, other: Values, v: Name) {
    (v in rv <==> v in other) && (v in rv ==> rv[v] == other[v])
  }

  /** The results depend on the values of the variables found only. */
  lemma {:induction false} SubstOccsLocal(rv: Values, other: Values, expr: Term, occs: seq<Name>)
    requires forall v :: v in occs ==> Agree(rv, other, v)
    ensures SubstOccs(rv, expr, occs) == SubstOccs(other, expr, occs)
  {
    if occs != [] {
      assert Agree(rv, other, occs[|occs| - 1]);
      SubstOccsLocal(rv, other, expr, occs[..|occs| - 1]);
    }
  }

  // ----- how many results, and which are closed -----

  /** The first value of each variable is over `$A`s and `tmp`. */
  ghost predicate FirstsClosed(rv: Values) {
    forall v :: Resolved(rv, v) ==> Closed(rv[v][0])
  }

  function First(rv: Values, v: Name): Term {
    if Resolved(rv, v) then rv[v][0] else Var(Tmp)
  }

  function Firsts(rv: Values, occs: seq<Name>): (s: map<Name, Term>)
    ensures forall n :: n in s <==> n in occs
    ensures forall n :: n in s ==> s[n] == First(rv, n)
  {
    if occs == [] then map[]
    else
      assert occs == occs[..|occs| - 1] + [occs[|occs| - 1]];
      Firsts(rv, occs[..|occs| - 1])[occs[|occs| - 1] := First(rv, occs[|occs| - 1])]
  }

  lemma TmpIsClosed()
    ensures Closed(Var(Tmp))
  {
  }

  /** The number of ways to choose a value for each variable; one for a variable without values. */
  function Choices(rv: Values, occs: seq<Name>): (n: nat)
    ensures n > 0
  {
    if occs == [] then 1
    else
      var v := occs[|occs| - 1];
      var before := Choices(rv, occs[..|occs| - 1]);
      if Resolved(rv, v) then
        MulPos(before, |rv[v]|);
        before * |rv[v]|
      else before
  }

  lemma MulPos(a: nat, b: nat)
    requires a > 0 && b > 0
    ensures a * b > 0 && (a * b == 1 <==> a == 1 && b == 1)
  {
    if b > 1 {
      assert a * b == a * (b - 1) + a;
    }
  }

  lemma {:induction false} ManyChoices(rv: Values, occs: seq<Name>)
    ensures Choices(rv, occs) == 1 <==> forall v :: v in occs ==> !Several(rv, v)
  {
    if occs != [] {
      var n := |occs| - 1;
      ManyChoices(rv, occs[..n]);
      assert forall v :: v in occs <==> v in occs[..n] || v == occs[n];
      var v, before := occs[n], Choices(rv, occs[..n]);
      if Resolved(rv, v) {
        MulPos(before, |rv[v]|);
        assert Choices(rv, occs) == before * |rv[v]|;
        assert Several(rv, v) <==> |rv[v]| != 1;
      } else {
        assert Choices(rv, occs) == before;
      }
    }
  }

  lemma {:induction false} CopiesCount(es: seq<Term>, key: Term, vals: seq<Term>)
    ensures |Copies(es, key, vals)| == |es| * |vals|
  {
    if vals != [] {
      CopiesCount(es, key, vals[..|vals| - 1]);
      assert |es| * |vals| == |es| * (|vals| - 1) + |es|;
    }
  }

  lemma IndexBelow(m: nat, i: nat, n: nat, j: nat)
    requires i < n && j < m
    ensures m * i + j < m * n
  {
    assert m * n == m * i + m * (n - i);
    assert m * (n - i) == m + m * (n - i - 1);
  }

  lemma CopiesGrow(es: seq<Term>, key: Term, vals: seq<Term>)
    requires vals != []
    ensures Copies(es, key, vals)
         == Copies(es, key, vals[..|vals| - 1]) + ReplaceAll(es, key, vals[|vals| - 1])
  {
    hide ReplaceAll;
  }

  /** The copies stand value by value, and for each value in the order of the terms. */
  lemma {:induction false} CopiesAt(es: seq<Term>, key: Term, vals: seq<Term>, i: nat, j: nat)
    requires i < |vals| && j < |es|
    ensures |es| * i + j < |Copies(es, key, vals)| && Copies(es, key, vals)[|es| * i + j] == Replace(es[j], key, vals[i])
  {
    hide Replace, Copies;
    var n := |vals| - 1;
    CopiesGrow(es, key, vals);
    CopiesCount(es, key, vals[..n]);
    if i < n {
      CopiesAt(es, key, vals[..n], i, j);
      IndexBelow(|es|, i, n, j);
    }
  }

  /** A copy is one of the terms, with the key replaced by one of the values. */
  lemma {:induction false} CopiesOrigin(es: seq<Term>, key: Term, vals: seq<Term>, r: Term)
    requires r in Copies(es, key, vals)
    ensures exists e, val :: e in es && val in vals && r == Replace(e, key, val)
  {
    var n := |vals| - 1;
    if r in Copies(es, key, vals[..n]) {
      CopiesOrigin(es, key, vals[..n], r);
    } else {
      var k :| 0 <= k < |es| && ReplaceAll(es, key, vals[n])[k] == r;
      assert es[k] in es && vals[n] in vals;
    }
  }

  /** The term that holds the key nodes ends as the expression with the first value of each variable;
      every other result still holds a variable of the script. */
  ghost predicate Shape(rv: Values, expr: Term, occs: seq<Name>, es: seq<Term>) {
    && |es| == Choices(rv, occs)
    && es[0] == Inst(expr, Firsts(rv, occs))
    && forall r :: r in es[1..] ==> !Closed(r)
  }

  lemma {:induction false} SubstOccsShape(rv: Values, expr: Term, occs: seq<Name>)
    requires FirstsClosed(rv) && NoRepeats(occs) && forall n :: n in occs ==> n.Prog? && Mentions(expr, n)
    ensures Shape(rv, expr, occs, SubstOccs(rv, expr, occs))
  {
    hide Inst, Closed, Replace, Mentions, SubstStep, Copies, First, FirstsClosed;
    if occs == [] {
      InstEmpty(expr);
    } else {
      var n := |occs| - 1;
      var v := occs[n];
      assert v in occs && v !in occs[..n] && forall m :: m in occs[..n] ==> m in occs;
      SubstOccsShape(rv, expr, occs[..n]);
      var es := SubstOccs(rv, expr, occs[..n]);
      StepCount(rv, es, v);
      StepFirst(rv, expr, occs[..n], v, es);
      StepRest(rv, expr, occs[..n], v, es);
    }
  }

  lemma StepCount(rv: Values, es: seq<Term>, v: Name)
    requires es != []
    ensures |SubstStep(rv, es, v)| == if Resolved(rv, v) then |es| * |rv[v]| else |es|
  {
    if Resolved(rv, v) {
      CopiesCount(es, rv[v][0], rv[v][1..]);
      assert |es| * |rv[v]| == |es| * (|rv[v]| - 1) + |es|;
    }
  }

  lemma StepFirst(rv: Values, expr: Term, occs: seq<Name>, v: Name, es: seq<Term>)
    requires FirstsClosed(rv) && Shape(rv, expr, occs, es) && v !in occs && v.Prog?
    ensures SubstStep(rv, es, v)[0] == Inst(expr, Firsts(rv, occs)[v := First(rv, v)])
  {
    hide Inst, Replace, Closed, Copies;
    TmpIsClosed();
    InstStep(expr, Firsts(rv, occs), v, First(rv, v));
  }

  lemma StepRest(rv: Values, expr: Term, occs: seq<Name>, v: Name, es: seq<Term>)
    requires FirstsClosed(rv) && Shape(rv, expr, occs, es) && v !in occs && v.Prog? && Mentions(expr, v)
    ensures forall r :: r in SubstStep(rv, es, v)[1..] ==> !Closed(r)
  {
    assert es != [];
    hide Inst, Replace, Closed, Copies, Shape, Mentions;
    KeyIsApart(rv, expr, occs, v, es);
    forall r | r in SubstStep(rv, es, v)[1..]
      ensures !Closed(r)
    {
      if r !in es[1..] {
        var key, others := rv[v][0], rv[v][1..];
        CopiesOrigin(es, key, others, r);
        var e, val :| e in es && val in others && r == Replace(e, key, val);
        ReplaceStaysOpen(e, key, val);
      }
    }
  }

  /** When the turn of v comes every result still holds a variable of the script.  So the overwritten
      key, a closed term, is never the whole of a copy: the key is overwritten just once. */
  lemma KeyIsApart(rv: Values, expr: Term, occs: seq<Name>, v: Name, es: seq<Term>)
    requires FirstsClosed(rv) && Shape(rv, expr, occs, es) && v !in occs && v.Prog? && Mentions(expr, v)
    ensures Mentions(es[0], v) && forall e :: e in es ==> !Closed(e)
  {
    InstKeeps(expr, Firsts(rv, occs), v);
    if Closed(es[0]) {
      ClosedMentions(es[0], v);
    }
    assert es == [es[0]] + es[1..];
  }

  /** What `substitute` yields: as many results as there are choices of values, of which the first is
      the expression with the first value of each variable, and no other is over `$A`s and `tmp`. */
  lemma SubstitutedShape(rv: Values, expr: Term)
    requires FirstsClosed(rv) && ScriptTerm(expr)
    ensures |Substituted(rv, expr)| == Choices(rv, VarsOf(expr, []))
    ensures Substituted(rv, expr)[0] == Inst(expr, Firsts(rv, VarsOf(expr, [])))
    ensures Closed(Substituted(rv, expr)[0])
    ensures forall k :: 1 <= k < |Substituted(rv, expr)| ==> !Closed(Substituted(rv, expr)[k])
  {
    var occs, r := VarsOf(expr, []), Substituted(rv, expr);
    ScriptVars(expr);
    SubstOccsShape(rv, expr, occs);
    InstFull(expr, Firsts(rv, occs));
    forall k | 1 <= k < |r|
      ensures !Closed(r[k])
    {
      assert r[1..][k - 1] == r[k];
    }
  }

  /** All results are over `$A`s and `tmp` exactly if no variable of the expression has two or more
      values. */
  lemma SubstitutedClosedIff(rv: Values, expr: Term)
    requires FirstsClosed(rv) && ScriptTerm(expr)
    ensures (forall r :: r in Substituted(rv, expr) ==> Closed(r)) <==>
            (forall v :: v in VarsOf(expr, []) ==> !Several(rv, v))
  {
    var r := Substituted(rv, expr);
    SubstitutedShape(rv, expr);
    ManyChoices(rv, VarsOf(expr, []));
    if |r| > 1 {
      assert r[1] in r;
    }
  }

  /** The first result is free of `tmp` exactly if every variable has a first value that is. */
  lemma FirstResultNoTmp(rv: Values, expr: Term)
    requires FirstsClosed(rv) && ScriptTerm(expr)
    ensures NoTmp(Substituted(rv, expr)[0]) <==>
            forall v :: v in VarsOf(expr, []) ==> Resolved(rv, v) && NoTmp(rv[v][0])
  {
    SubstitutedShape(rv, expr);
    ScriptVars(expr);
    InstFull(expr, Firsts(rv, VarsOf(expr, [])));
  }

  // ----- meaning -----

  /** Unless `tmp` occurs in them the values of v mean v. */
  ghost predicate ValuesMean<V>(i: Interp<V>, rv: Values, v: Name) {
    v in rv ==> forall k :: 0 <= k < |rv[v]| && NoTmp(rv[v][k]) ==> Eval(i, rv[v][k]) == i.env(v)
  }

  /** If any value of v is free of `tmp`, the first one is. */
  predicate FirstFits(rv: Values, v: Name) {
    forall k :: v in rv && 0 <= k < |rv[v]| && NoTmp(rv[v][k]) ==> NoTmp(rv[v][0])
  }

  lemma {:induction false} StepMeaning<V>(i: Interp<V>, rv: Values, es: seq<Term>, v: Name, r: Term) returns (e: Term)
    requires es != [] && r in SubstStep(rv, es, v) && NoTmp(r) && v.Prog?
    requires ValuesMean(i, rv, v) && FirstFits(rv, v)
    ensures e in es && NoTmp(e) && Eval(i, e) == Eval(i, r)
  {
    if r in es[1..] {
      e := r;
    } else if Resolved(rv, v) {
      var key, others := rv[v][0], rv[v][1..];
      if r == Replace(es[0], Var(v), key) {
        e := es[0];
        ReplaceMeaning(i, e, Var(v), key);
      } else {
        CopiesOrigin(es, key, others, r);
        var val;
        e, val :| e in es && val in others && r == Replace(e, key, val);
        var k :| 0 <= k < |others| && others[k] == val;
        assert val == rv[v][k + 1];
        ReplaceMeaning(i, e, key, val);
      }
    } else {
      e := es[0];
      ReplaceMeaning(i, e, Var(v), Var(Tmp));
    }
  }

  lemma {:induction false} SubstOccsMeaning<V>(i: Interp<V>, rv: Values, expr: Term, occs: seq<Name>, r: Term)
    requires forall v :: v in occs ==> v.Prog? && ValuesMean(i, rv, v) && FirstFits(rv, v)
    requires r in SubstOccs(rv, expr, occs) && NoTmp(r)
    ensures Eval(i, r) == Eval(i, expr)
  {
    if occs != [] {
      hide ValuesMean, FirstFits, SubstStep;
      var n := |occs| - 1;
      assert occs[n] in occs;
      var e := StepMeaning(i, rv, SubstOccs(rv, expr, occs[..n]), occs[n], r);
      SubstOccsMeaning(i, rv, expr, occs[..n], e);
    }
  }

  /** If each variable's first value is free of `tmp` whenever one of its values is, then every
      tmp-free result means what the expression means. */
  lemma SubstitutedMeans<V>(i: Interp<V>, rv: Values, expr: Term, r: Term)
    requires ScriptTerm(expr) && forall v :: v in VarsOf(expr, []) ==> ValuesMean(i, rv, v) && FirstFits(rv, v)
    requires r in Substituted(rv, expr) && NoTmp(r)
    ensures Eval(i, r) == Eval(i, expr)
  {
    ScriptVars(expr);
    SubstOccsMeaning(i, rv, expr, VarsOf(expr, []), r);
  }

  // ----- the condition is needed -----

  /** t with its `$A`s turned back into the sources and each `tmp` into w. */
  function Unresolved(t: Term, sources: seq<Name>, w: Name): Term
    decreases t, 0
  {
    match t
    case Var(n) =>
      if n.Tmp? then Var(w)
      else if n.Arg? && n.k < |sources| then Var(sources[n.k])
      else t
    case App(op, args) => App(op, UnresolvedAll(args, sources, w))
  }

  function UnresolvedAll(ts: seq<Term>, sources: seq<Name>, w: Name): (r: seq<Term>)
    ensures |r| == |ts| && forall i :: 0 <= i < |ts| ==> r[i] == Unresolved(ts[i], sources, w)
    decreases ts
  {
    if ts == [] then [] else [Unresolved(ts[0], sources, w)] + UnresolvedAll(ts[1..], sources, w)
  }

  /** Every `$Ak` in t belongs to one of n sources. */
  predicate ArgsBelow(t: Term, n: nat) {
    match t
    case Var(m) => m.Arg? ==> m.k < n
    case App(_, args) => forall i :: 0 <= i < |args| ==> ArgsBelow(args[i], n)
  }

  /** The sources have their `$A`s as values, and first values are over these and `tmp`. */
  ghost predicate Sourced(rv: Values, sources: seq<Name>) {
    && (forall k :: 0 <= k < |sources| ==> sources[k].Prog? && sources[k] in rv && rv[sources[k]] == [Var(Arg(k))])
    && (forall v :: Resolved(rv, v) ==> v.Prog? && Closed(rv[v][0]) && ArgsBelow(rv[v][0], |sources|))
  }

  /** w is a variable of the script that has no value and occurs in none. */
  ghost predicate Fresh(rv: Values, w: Name) {
    w.Prog? && w !in rv && forall v, k :: v in rv && 0 <= k < |rv[v]| ==> !Mentions(rv[v][k], w)
  }

  lemma {:induction false} UnresolvedIsScript(t: Term, sources: seq<Name>, w: Name)
    requires Closed(t) && ArgsBelow(t, |sources|) && w.Prog? && forall k :: 0 <= k < |sources| ==> sources[k].Prog?
    ensures ScriptTerm(Unresolved(t, sources, w))
    ensures forall n :: Mentions(Unresolved(t, sources, w), n) ==> n == w || n in sources
    ensures !NoTmp(t) ==> Mentions(Unresolved(t, sources, w), w)
  {
    if t.App? {
      var r := UnresolvedAll(t.args, sources, w);
      forall k | 0 <= k < |t.args|
        ensures ScriptTerm(r[k]) && (forall n :: Mentions(r[k], n) ==> n == w || n in sources)
        ensures !NoTmp(t.args[k]) ==> Mentions(r[k], w)
      {
        UnresolvedIsScript(t.args[k], sources, w);
      }
    }
  }

  lemma {:induction false} UnresolvedInst(t: Term, sources: seq<Name>, w: Name, s: map<Name, Term>)
    requires Closed(t) && ArgsBelow(t, |sources|)
    requires forall n :: Mentions(Unresolved(t, sources, w), n) ==> n in s
    requires w in s ==> s[w] == Var(Tmp)
    requires forall k :: 0 <= k < |sources| && sources[k] in s ==> s[sources[k]] == Var(Arg(k))
    ensures Inst(Unresolved(t, sources, w), s) == t
  {
    match t
    case Var(_) =>
      assert Mentions(Unresolved(t, sources, w), Unresolved(t, sources, w).name);
    case App(op, args) =>
      var r := UnresolvedAll(args, sources, w);
      assert Unresolved(t, sources, w) == App(op, r);
      forall k | 0 <= k < |args|
        ensures InstAll(r, s)[k] == args[k]
      {
        forall n | Mentions(r[k], n)
          ensures n in s
        {
          assert Mentions(App(op, r), n);
        }
        UnresolvedInst(args[k], sources, w, s);
      }
      assert InstAll(r, s) == args;
  }

  /** Tells whether w occurs. */
  function Marks(w: Name): Interp<bool> {
    Interp(n => n == w, (_, xs) => true in xs)
  }

  lemma {:induction false} MarksMentions(t: Term, w: Name)
    ensures Eval(Marks(w), t) == Mentions(t, w)
  {
    if t.App? {
      forall k | 0 <= k < |t.args|
        ensures EvalAll(Marks(w), t.args)[k] == Mentions(t.args[k], w)
      {
        MarksMentions(t.args[k], w);
      }
      assert Eval(Marks(w), t) == (true in EvalAll(Marks(w), t.args));
    }
  }

  lemma {:induction false} CopiesHas(es: seq<Term>, key: Term, vals: seq<Term>, e: Term, val: Term)
    requires e in es && val in vals
    ensures Replace(e, key, val) in Copies(es, key, vals)
  {
    var n := |vals| - 1;
    if val == vals[n] {
      var k :| 0 <= k < |es| && es[k] == e;
      assert ReplaceAll(es, key, val)[k] == Replace(e, key, val);
    } else {
      assert vals == vals[..n] + [vals[n]];
      CopiesHas(es, key, vals[..n], e, val);
    }
  }

  /** An expression in which the first value of v shows up beside v. */
  function Trap(rv: Values, sources: seq<Name>, w: Name, v: Name): Term
    requires Resolved(rv, v)
  {
    App("", [Unresolved(rv[v][0], sources, w), Var(v)])
  }

  lemma TrapVars(rv: Values, sources: seq<Name>, w: Name, v: Name) returns (occs: seq<Name>)
    requires Sourced(rv, sources) && Fresh(rv, w) && Several(rv, v)
    ensures ScriptTerm(Trap(rv, sources, w, v)) && VarsOf(Trap(rv, sources, w, v), []) == occs + [v]
    ensures NoRepeats(occs + [v]) && forall n :: n in occs <==> Mentions(Unresolved(rv[v][0], sources, w), n)
    ensures forall n :: n in occs ==> n == w || n in sources
  {
    var u := Unresolved(rv[v][0], sources, w);
    UnresolvedIsScript(rv[v][0], sources, w);
    occs := VarsOf(u, []);
    ScriptVars(u);
    ScriptVars(Trap(rv, sources, w, v));
    assert [u, Var(v)][1..] == [Var(v)];
    assert VarsOfAll([u, Var(v)], []) == VarsOfAll([Var(v)], occs) == VarsOf(Var(v), occs);
    assert v !in occs;
  }

  /** While v has only been copied there is one result: the first value of v, and v. */
  lemma TrapBefore(rv: Values, sources: seq<Name>, w: Name, v: Name, occs: seq<Name>)
    requires Sourced(rv, sources) && Fresh(rv, w) && Several(rv, v)
    requires NoRepeats(occs) && v !in occs && forall n :: n in occs ==> n == w || n in sources
    requires forall n :: n in occs <==> Mentions(Unresolved(rv[v][0], sources, w), n)
    ensures SubstOccs(rv, Trap(rv, sources, w, v), occs) == [App("", [rv[v][0], Var(v)])]
  {
    var u, expr := Unresolved(rv[v][0], sources, w), Trap(rv, sources, w, v);
    forall n | n in occs
      ensures n.Prog? && Mentions(expr, n) && !Several(rv, n)
    {
      assert Mentions(expr.args[0], n);
    }
    SubstOccsShape(rv, expr, occs);
    ManyChoices(rv, occs);
    var s := Firsts(rv, occs);
    UnresolvedInst(rv[v][0], sources, w, s);
    assert InstAll(expr.args, s) == [Inst(u, s), Inst(Var(v), s)];
  }

  /** In the copy made for a later value the first value goes and v stays. */
  lemma TrapResult(rv: Values, sources: seq<Name>, w: Name, v: Name, k: nat)
    requires Sourced(rv, sources) && Fresh(rv, w) && v in rv && 0 < k < |rv[v]|
    ensures App("", [rv[v][k], Var(v)]) in Substituted(rv, Trap(rv, sources, w, v))
  {
    hide Unresolved, Mentions, NoTmp, Closed, ScriptTerm, VarsOf, Copies;
    var key, val, expr := rv[v][0], rv[v][k], Trap(rv, sources, w, v);
    var occs := TrapVars(rv, sources, w, v);
    assert NoRepeats(occs) && v !in occs by {
      assert forall i :: 0 <= i < |occs| ==> (occs + [v])[i] == occs[i];
    }
    TrapBefore(rv, sources, w, v, occs);
    var e := App("", [key, Var(v)]);
    assert (occs + [v])[..|occs|] == occs;
    assert Substituted(rv, expr) == SubstStep(rv, [e], v);
    assert rv[v][1..][k - 1] == val;
    CopiesHas([e], key, rv[v][1..], e, val);
    TrapReplaced(key, val, v);
  }

  lemma TrapReplaced(key: Term, val: Term, v: Name)
    requires Closed(key) && v.Prog?
    ensures Replace(App("", [key, Var(v)]), key, val) == App("", [val, Var(v)])
  {
    var e := App("", [key, Var(v)]);
    ClosedMentions(key, v);
    assert Mentions(e.args[1], v);
    assert ReplaceAll(e.args, key, val) == [Replace(key, key, val), Replace(Var(v), key, val)];
  }

  lemma MarksAgree(rv: Values, w: Name, u: Name)
    requires Fresh(rv, w) && u in rv
    ensures ValuesMean(Marks(w), rv, u)
  {
    forall j | 0 <= j < |rv[u]|
      ensures !Eval(Marks(w), rv[u][j])
    {
      MarksMentions(rv[u][j], w);
    }
  }

  /** If some value of v is free of `tmp` but the first is not, then under an interpretation that
      agrees with all values there is an expression with a tmp-free result of another meaning. */
  lemma MeaningLost(rv: Values, sources: seq<Name>, w: Name, v: Name, k: nat) returns (expr: Term, r: Term)
    requires Sourced(rv, sources) && Fresh(rv, w) && v in rv && k < |rv[v]|
    requires NoTmp(rv[v][k]) && !NoTmp(rv[v][0])
    ensures ScriptTerm(expr) && r in Substituted(rv, expr) && NoTmp(r)
    ensures forall u :: u in rv ==> ValuesMean(Marks(w), rv, u)
    ensures Eval(Marks(w), r) != Eval(Marks(w), expr)
  {
    hide Substituted, Closed, ArgsBelow;
    expr, r := Trap(rv, sources, w, v), App("", [rv[v][k], Var(v)]);
    TrapResult(rv, sources, w, v, k);
    var occs := TrapVars(rv, sources, w, v);
    forall u | u in rv
      ensures ValuesMean(Marks(w), rv, u)
    {
      MarksAgree(rv, w, u);
    }
    UnresolvedIsScript(rv[v][0], sources, w);
    MarksMentions(expr, w);
    assert Mentions(expr.args[0], w);
    MarksMentions(r, w);
    assert !Mentions(r.args[0], w) && !Mentions(r.args[1], w);
  }

  /** Every tmp-free result of every expression keeps its meaning, under all interpretations that
      agree with the values, exactly if the first value of each variable is free of `tmp` whenever
      one of its values is. */
  lemma MeaningKeptIff(rv: Values, sources: seq<Name>, w: Name)
    requires Sourced(rv, sources) && Fresh(rv, w)
    ensures (forall v :: v in rv ==> FirstFits(rv, v)) <==>
            (forall i: Interp<bool>, expr, r ::
               (ScriptTerm(expr) && r in Substituted(rv, expr) && NoTmp(r) && forall v :: v in rv ==> ValuesMean(i, rv, v))
               ==> Eval(i, r) == Eval(i, expr))
  {
    if forall v :: v in rv ==> FirstFits(rv, v) {
      forall i: Interp<bool>, expr, r | ScriptTerm(expr) && r in Substituted(rv, expr) && NoTmp(r)
          && (forall v :: v in rv ==> ValuesMean(i, rv, v))
        ensures Eval(i, r) == Eval(i, expr)
      {
        SubstitutedMeans(i, rv, expr, r);
      }
    } else {
      var v :| v in rv && !FirstFits(rv, v);
      var k :| 0 <= k < |rv[v]| && NoTmp(rv[v][k]) && !NoTmp(rv[v][0]);
      var expr, r := MeaningLost(rv, sources, w, v, k);
    }
  }
}
