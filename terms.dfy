/**
  Terms, justifications and simultaneous substitution: the pieces of the
  term machinery that the model-reconstruction trail relies on.

  A variable is an uninterpreted constant, named by a number. A justification
  (an expression dependency) is the set of assumption identifiers a fact
  rests on: joining two justifications is their union, and the empty set
  plays the part of the null dependency.
 */
module Terms {

  type VarId = nat

  /** A justification: the assumptions a derived fact depends on. */
  type Dep = set<nat>

  datatype Term = Var(id: VarId) | App(op: string, args: seq<Term>)

  /** A formula together with the justification it holds under. */
  datatype DependentExpr = DependentExpr(fml: Term, dep: Dep)

  /** What a substitution maps one variable to: its definition and the
      justification of that definition. */
  datatype Def = Def(term: Term, dep: Dep)

  type Subst = map<VarId, Def>

  /** The result of rewriting a term: the new term and the justification of
      the rewrite. */
  datatype Rewritten = Rewritten(term: Term, dep: Dep)

  datatype RewrittenList = RewrittenList(terms: seq<Term>, dep: Dep)

  /** `mk_join` on dependencies. */
  function Join(a: Dep, b: Dep): Dep
  {
    a + b
  }

  /** The variables occurring in a term. */
  function FreeVars(t: Term): set<VarId>
    decreases t
  {
    match t
    case Var(v) => {v}
    case App(_, args) => FreeVarsList(args)
  }

  function FreeVarsList(ts: seq<Term>): set<VarId>
    decreases ts
  {
    if ts == [] then {} else FreeVars(ts[0]) + FreeVarsList(ts[1..])
  }

  /** Simultaneous substitution: every occurrence of a variable of `s` is
      replaced by its definition; the justification of the rewrite is the
      join of the justifications of the variables actually replaced. */
  function Apply(s: Subst, t: Term): (r: Rewritten)
    ensures t.App? ==> r.term.App? && r.term.op == t.op && |r.term.args| == |t.args|
    ensures t.Var? && t.id !in s ==> r == Rewritten(t, {})
    decreases t
  {
    match t
    case Var(v) =>
      if v in s then Rewritten(s[v].term, s[v].dep) else Rewritten(t, {})
    case App(op, args) =>
      var r := ApplyList(s, args);
      Rewritten(App(op, r.terms), r.dep)
  }

  function ApplyList(s: Subst, ts: seq<Term>): (r: RewrittenList)
    ensures |r.terms| == |ts|
    decreases ts
  {
    if ts == [] then RewrittenList([], {})
    else
      var h := Apply(s, ts[0]);
      var r := ApplyList(s, ts[1..]);
      RewrittenList([h.term] + r.terms, Join(h.dep, r.dep))
  }

  /** The variables a substitution leaves behind when it rewrites a term whose
      free variables are `vs`: those it does not map, plus those occurring in
      the definitions of the variables it does map. */
  ghost function Introduced(s: Subst, vs: set<VarId>): set<VarId>
  {
    (vs - s.Keys) + (set w, u | w in vs && w in s && u in FreeVars(s[w].term) :: u)
  }

  /** The justifications of the variables of `vs` that `s` maps. */
  ghost function UsedDeps(s: Subst, vs: set<VarId>): Dep
  {
    set w, x | w in vs && w in s && x in s[w].dep :: x
  }

  lemma IntroducedUnion(s: Subst, a: set<VarId>, b: set<VarId>)
    ensures Introduced(s, a + b) == Introduced(s, a) + Introduced(s, b)
    ensures UsedDeps(s, a + b) == UsedDeps(s, a) + UsedDeps(s, b)
  {
  }

  /** Free variables and justification of a rewritten term, stated in terms
      of the original term's free variables only. */
  lemma {:induction false} ApplyMeaning(s: Subst, t: Term)
    ensures FreeVars(Apply(s, t).term) == Introduced(s, FreeVars(t))
    ensures Apply(s, t).dep == UsedDeps(s, FreeVars(t))
    decreases t
  {
    match t
    case Var(v) =>
      if v in s {
        assert Introduced(s, {v}) == FreeVars(s[v].term);
      }
    case App(op, args) =>
      ApplyListMeaning(s, args);
  }

  lemma {:induction false} ApplyListMeaning(s: Subst, ts: seq<Term>)
    ensures FreeVarsList(ApplyList(s, ts).terms) == Introduced(s, FreeVarsList(ts))
    ensures ApplyList(s, ts).dep == UsedDeps(s, FreeVarsList(ts))
    decreases ts
  {
    if ts != [] {
      ApplyMeaning(s, ts[0]);
      ApplyListMeaning(s, ts[1..]);
      var r := ApplyList(s, ts[1..]);
      assert ([Apply(s, ts[0]).term] + r.terms)[1..] == r.terms;
      IntroducedUnion(s, FreeVars(ts[0]), FreeVarsList(ts[1..]));
    }
  }

  /** Two substitutions that agree on the free variables of a term rewrite it
      the same way. */
  lemma {:induction false} ApplyAgree(s1: Subst, s2: Subst, t: Term)
    requires forall v :: v in FreeVars(t) ==> (v in s1 <==> v in s2)
    requires forall v :: v in FreeVars(t) && v in s1 && v in s2 ==> s1[v] == s2[v]
    ensures Apply(s1, t) == Apply(s2, t)
    decreases t
  {
    match t
    case Var(v) =>
    case App(op, args) =>
      ApplyListAgree(s1, s2, args);
  }

  lemma {:induction false} ApplyListAgree(s1: Subst, s2: Subst, ts: seq<Term>)
    requires forall v :: v in FreeVarsList(ts) ==> (v in s1 <==> v in s2)
    requires forall v :: v in FreeVarsList(ts) && v in s1 && v in s2 ==> s1[v] == s2[v]
    ensures ApplyList(s1, ts) == ApplyList(s2, ts)
    decreases ts
  {
    if ts != [] {
      ApplyAgree(s1, s2, ts[0]);
      ApplyListAgree(s1, s2, ts[1..]);
    }
  }

  /** A substitution that maps none of a term's variables leaves the term as
      it is, with an empty justification. */
  lemma {:induction false} ApplyDisjoint(s: Subst, t: Term)
    requires FreeVars(t) !! s.Keys
    ensures Apply(s, t) == Rewritten(t, {})
    decreases t
  {
    match t
    case Var(v) =>
    case App(op, args) =>
      ApplyListDisjoint(s, args);
  }

  lemma {:induction false} ApplyListDisjoint(s: Subst, ts: seq<Term>)
    requires FreeVarsList(ts) !! s.Keys
    ensures ApplyList(s, ts) == RewrittenList(ts, {})
    decreases ts
  {
    if ts != [] {
      ApplyDisjoint(s, ts[0]);
      ApplyListDisjoint(s, ts[1..]);
      assert [ts[0]] + ts[1..] == ts;
    }
  }
}
