/**
 Terms of a constraint script, their meaning, and `Term.substitute`.

 Terms are trees; the op of a node stands for everything it holds beside its subterms, so that
 two nodes are equal exactly if their fields are.  `$A0`, `$A1`, ... stand for the sources of the
 analysis and `tmp` for anything that could not be resolved; both are kept apart from the
 variables of the script, as the analyser assumes.
 */
module Terms {
  datatype Name = Prog(s: string) | Arg(k: nat) | Tmp

  datatype Term = Var(name: Name) | App(op: string, args: seq<Term>)

  const EQ := "="

  predicate Mentions(t: Term, n: Name) {
    match t
    case Var(m) => m == n
    case App(_, args) => exists i :: 0 <= i < |args| && Mentions(args[i], n)
  }

  /** Over `$A`s and `tmp` only. */
  predicate Closed(t: Term) {
    match t
    case Var(n) => !n.Prog?
    case App(_, args) => forall i :: 0 <= i < |args| ==> Closed(args[i])
  }

  /** A term of the script: variables of the script only. */
  predicate ScriptTerm(t: Term) {
    match t
    case Var(n) => n.Prog?
    case App(_, args) => forall i :: 0 <= i < |args| ==> ScriptTerm(args[i])
  }

  predicate NoTmp(t: Term) {
    match t
    case Var(n) => !n.Tmp?
    case App(_, args) => forall i :: 0 <= i < |args| ==> NoTmp(args[i])
  }

  predicate NoRepeats(ns: seq<Name>) {
    forall i, j :: 0 <= i < j < |ns| ==> ns[i] != ns[j]
  }

  // ----- variables and equations -----

  /** `find_all_var`: the variables of a term, in preorder, each once, after those already found. */
  function VarsOf(t: Term, occs: seq<Name>): (r: seq<Name>)
    decreases t, 0
  {
    match t
    case Var(n) => if n in occs then occs else occs + [n]
    case App(_, args) => VarsOfAll(args, occs)
  }

  function VarsOfAll(ts: seq<Term>, occs: seq<Name>): (r: seq<Name>)
    decreases ts
  {
    if ts == [] then occs else VarsOfAll(ts[1..], VarsOf(ts[0], occs))
  }

  /** `find_all_equal`: all equations in a term, inner ones first. */
  function EquationsOf(t: Term): seq<Term>
    decreases t, 0
  {
    match t
    case Var(_) => []
    case App(op, args) => EquationsOfAll(args) + if op == EQ then [t] else []
  }

  function EquationsOfAll(ts: seq<Term>): seq<Term>
    decreases ts
  {
    if ts == [] then [] else EquationsOf(ts[0]) + EquationsOfAll(ts[1..])
  }

  /** The variables found in a term are exactly those it mentions, each once. */
  lemma {:induction false} VarsCover(t: Term, occs: seq<Name>)
    ensures forall n :: n in VarsOf(t, occs) <==> n in occs || Mentions(t, n)
    ensures NoRepeats(occs) ==> NoRepeats(VarsOf(t, occs))
    decreases t, 0
  {
    match t
    case Var(_) =>
    case App(_, args) => VarsCoverAll(args, occs);
  }

  lemma {:induction false} VarsCoverAll(ts: seq<Term>, occs: seq<Name>)
    ensures forall n :: n in VarsOfAll(ts, occs) <==> n in occs || exists k :: 0 <= k < |ts| && Mentions(ts[k], n)
    ensures NoRepeats(occs) ==> NoRepeats(VarsOfAll(ts, occs))
    decreases ts
  {
    if ts != [] {
      VarsCover(ts[0], occs);
      VarsCoverAll(ts[1..], VarsOf(ts[0], occs));
      forall n
        ensures (exists k :: 0 <= k < |ts| && Mentions(ts[k], n)) <==>
                Mentions(ts[0], n) || exists k :: 0 <= k < |ts[1..]| && Mentions(ts[1..][k], n)
      {
        if k :| 0 <= k < |ts| && Mentions(ts[k], n) {
          assert k > 0 ==> ts[1..][k - 1] == ts[k];
        }
      }
    }
  }

  lemma {:induction false} ScriptMentions(t: Term, n: Name)
    requires ScriptTerm(t) && Mentions(t, n)
    ensures n.Prog?
  {
    match t
    case Var(_) =>
    case App(_, args) =>
      var k :| 0 <= k < |args| && Mentions(args[k], n);
      ScriptMentions(args[k], n);
  }

  /** What `find_all_var` finds in a term of the script. */
  lemma ScriptVars(t: Term)
    requires ScriptTerm(t)
    ensures NoRepeats(VarsOf(t, [])) && forall n :: n in VarsOf(t, []) <==> Mentions(t, n)
    ensures forall n :: n in VarsOf(t, []) ==> n.Prog?
  {
    VarsCover(t, []);
    forall n | n in VarsOf(t, [])
      ensures n.Prog?
    {
      ScriptMentions(t, n);
    }
  }

  // ----- meaning -----

  datatype Interp<!V> = Interp(env: Name -> V, op: (string, seq<V>) -> V)

  function Eval<V>(i: Interp<V>, t: Term): V
    decreases t, 0
  {
    match t
    case Var(n) => i.env(n)
    case App(op, args) => i.op(op, EvalAll(i, args))
  }

  function EvalAll<V>(i: Interp<V>, ts: seq<Term>): (r: seq<V>)
    ensures |r| == |ts| && forall k :: 0 <= k < |ts| ==> r[k] == Eval(i, ts[k])
    decreases ts
  {
    if ts == [] then [] else [Eval(i, ts[0])] + EvalAll(i, ts[1..])
  }

  // ----- Term.substitute -----

  /** What `Term.substitute` leaves: every subterm equal to key has become val.  (A key found at the
      root is overwritten itself, which is the same unless the term is another object than the
      key.) */
  function Replace(t: Term, key: Term, val: Term): Term
    decreases t, 0
  {
    if t == key then val
    else match t
      case Var(_) => t
      case App(op, args) => App(op, ReplaceAll(args, key, val))
  }

  function ReplaceAll(ts: seq<Term>, key: Term, val: Term): (r: seq<Term>)
    ensures |r| == |ts| && forall i :: 0 <= i < |ts| ==> r[i] == Replace(ts[i], key, val)
    decreases ts
  {
    if ts == [] then [] else [Replace(ts[0], key, val)] + ReplaceAll(ts[1..], key, val)
  }

  lemma {:induction false} ReplaceSelf(t: Term, key: Term)
    ensures Replace(t, key, key) == t
  {
    if t != key && t.App? {
      forall k | 0 <= k < |t.args|
        ensures ReplaceAll(t.args, key, key)[k] == t.args[k]
      {
        ReplaceSelf(t.args[k], key);
      }
      assert ReplaceAll(t.args, key, key) == t.args;
    }
  }

  /** A value that may stand for the key wherever it makes a term free of `tmp`. */
  ghost predicate Fits<V>(i: Interp<V>, key: Term, val: Term) {
    NoTmp(val) ==> NoTmp(key) && Eval(i, key) == Eval(i, val)
  }

  /** Replacing a key by a value that fits preserves the meaning of a term, as long as no `tmp` shows
      up in the outcome. */
  lemma {:induction false} ReplaceMeaning<V>(i: Interp<V>, t: Term, key: Term, val: Term)
    requires Fits(i, key, val) && NoTmp(Replace(t, key, val))
    ensures NoTmp(t) && Eval(i, Replace(t, key, val)) == Eval(i, t)
  {
    if t != key && t.App? {
      var r := ReplaceAll(t.args, key, val);
      forall k | 0 <= k < |t.args|
        ensures NoTmp(t.args[k]) && Eval(i, r[k]) == Eval(i, t.args[k])
      {
        assert NoTmp(r[k]);
        ReplaceMeaning(i, t.args[k], key, val);
      }
      assert EvalAll(i, r) == EvalAll(i, t.args);
    }
  }

  /** Replacing a closed subterm never removes the last variable of the script. */
  lemma {:induction false} ReplaceStaysOpen(t: Term, key: Term, val: Term)
    requires !Closed(t) && Closed(key)
    ensures !Closed(Replace(t, key, val))
  {
    if t.App? {
      var k :| 0 <= k < |t.args| && !Closed(t.args[k]);
      ReplaceStaysOpen(t.args[k], key, val);
      assert !Closed(ReplaceAll(t.args, key, val)[k]);
    }
  }

  lemma {:induction false} ClosedMentions(t: Term, n: Name)
    requires Closed(t) && n.Prog?
    ensures !Mentions(t, n)
  {
    match t
    case Var(_) =>
    case App(_, args) =>
      forall k | 0 <= k < |args|
        ensures !Mentions(args[k], n)
      {
        ClosedMentions(args[k], n);
      }
  }

  lemma {:induction false} NotMentioned(t: Term, v: Name, val: Term)
    requires !Mentions(t, v)
    ensures Replace(t, Var(v), val) == t
  {
    if t.App? {
      forall k | 0 <= k < |t.args|
        ensures ReplaceAll(t.args, Var(v), val)[k] == t.args[k]
      {
        assert !Mentions(t.args[k], v);
        NotMentioned(t.args[k], v, val);
      }
      assert ReplaceAll(t.args, Var(v), val) == t.args;
    }
  }

  // ----- all variables at once -----

  /** All variables in the domain of s replaced at once. */
  function Inst(t: Term, s: map<Name, Term>): Term
    decreases t, 0
  {
    match t
    case Var(n) => if n in s then s[n] else t
    case App(op, args) => App(op, InstAll(args, s))
  }

  function InstAll(ts: seq<Term>, s: map<Name, Term>): (r: seq<Term>)
    ensures |r| == |ts| && forall i :: 0 <= i < |ts| ==> r[i] == Inst(ts[i], s)
    decreases ts
  {
    if ts == [] then [] else [Inst(ts[0], s)] + InstAll(ts[1..], s)
  }

  lemma {:induction false} InstEmpty(t: Term)
    ensures Inst(t, map[]) == t
  {
    match t
    case Var(_) =>
    case App(_, args) =>
      forall k | 0 <= k < |args|
        ensures InstAll(args, map[])[k] == args[k]
      {
        InstEmpty(args[k]);
      }
      assert InstAll(args, map[]) == args;
  }

  /** Replacing one more variable afterwards is replacing it at the same time. */
  lemma {:induction false} InstStep(t: Term, s: map<Name, Term>, v: Name, val: Term)
    requires v.Prog? && v !in s && forall n :: n in s ==> Closed(s[n])
    ensures Replace(Inst(t, s), Var(v), val) == Inst(t, s[v := val])
  {
    match t
    case Var(n) =>
      if n in s {
        ClosedMentions(s[n], v);
        NotMentioned(s[n], v, val);
      }
    case App(_, args) =>
      forall k | 0 <= k < |args|
        ensures ReplaceAll(InstAll(args, s), Var(v), val)[k] == InstAll(args, s[v := val])[k]
      {
        InstStep(args[k], s, v, val);
      }
      assert ReplaceAll(InstAll(args, s), Var(v), val) == InstAll(args, s[v := val]);
  }

  lemma {:induction false} InstKeeps(t: Term, s: map<Name, Term>, v: Name)
    requires Mentions(t, v) && v !in s
    ensures Mentions(Inst(t, s), v)
  {
    match t
    case Var(_) =>
    case App(_, args) =>
      var k :| 0 <= k < |args| && Mentions(args[k], v);
      InstKeeps(args[k], s, v);
      assert Mentions(InstAll(args, s)[k], v);
  }

  /** An instance of a script term for all its variables is closed if the values are, and free of
      `tmp` exactly if the values of its variables are. */
  lemma {:induction false} InstFull(t: Term, s: map<Name, Term>)
    requires ScriptTerm(t) && forall n :: Mentions(t, n) ==> n in s
    ensures (forall n :: n in s ==> Closed(s[n])) ==> Closed(Inst(t, s))
    ensures NoTmp(Inst(t, s)) <==> forall n :: Mentions(t, n) ==> NoTmp(s[n])
  {
    match t
    case Var(n) =>
      assert Mentions(t, n);
    case App(_, args) =>
      forall k | 0 <= k < |args|
        ensures (forall n :: n in s ==> Closed(s[n])) ==> Closed(InstAll(args, s)[k])
        ensures NoTmp(InstAll(args, s)[k]) <==> forall n :: Mentions(args[k], n) ==> NoTmp(s[n])
      {
        forall n | Mentions(args[k], n)
          ensures n in s
        {
          assert Mentions(t, n);
        }
        InstFull(args[k], s);
      }
      assert forall k, n :: 0 <= k < |args| && Mentions(args[k], n) ==> Mentions(t, n);
  }
}
