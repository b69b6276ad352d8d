/**
  One recorded simplification step of the model-reconstruction trail.

  An entry carries the substitution it applied (as a sequence of bindings,
  in the order the substitution enumerates them), the formulas that were
  dropped from the working set when it was applied, whether it is rigid or
  loose, and its backtrackable `active` flag.
 */
module TrailEntries {
  import opened Terms

  /** One (variable, definition, dependency) triple of a substitution. */
  datatype Binding = Binding(v: VarId, def: Term, dep: Dep)

  datatype Entry = Entry(active: bool, rigid: bool, subst: seq<Binding>, removed: seq<DependentExpr>)

  /** The variables an entry's substitution eliminates. */
  function Keys(bs: seq<Binding>): set<VarId>
  {
    set b | b in bs :: b.v
  }

  /** The substitution as a map, inserting the bindings in order (a later
      binding of the same variable overwrites an earlier one). */
  function ToSubst(bs: seq<Binding>): (s: Subst)
    ensures s.Keys == Keys(bs)
  {
    if bs == [] then map[]
    else
      var last := bs[|bs| - 1];
      assert Keys(bs) == Keys(bs[..|bs| - 1]) + {last.v} by {
        assert bs == bs[..|bs| - 1] + [last];
      }
      ToSubst(bs[..|bs| - 1])[last.v := Def(last.def, last.dep)]
  }

  /** Each variable is mapped to the definition of its last binding, and so
      to the definition of some binding of it. */
  lemma {:induction false} ToSubstValues(bs: seq<Binding>)
    ensures forall k :: 0 <= k < |bs| && (forall j :: k < j < |bs| ==> bs[j].v != bs[k].v) ==>
              ToSubst(bs)[bs[k].v] == Def(bs[k].def, bs[k].dep)
    ensures forall v :: v in ToSubst(bs) ==> exists b :: b in bs && b.v == v && ToSubst(bs)[v] == Def(b.def, b.dep)
    decreases |bs|
  {
    if bs != [] {
      var init := bs[..|bs| - 1];
      ToSubstValues(init);
      forall v | v in ToSubst(bs)
        ensures exists b :: b in bs && b.v == v && ToSubst(bs)[v] == Def(b.def, b.dep)
      {
        if v != bs[|bs| - 1].v {
          var b :| b in init && b.v == v && ToSubst(init)[v] == Def(b.def, b.dep);
          assert b in bs;
        }
      }
      forall k | 0 <= k < |bs| && (forall j :: k < j < |bs| ==> bs[j].v != bs[k].v)
        ensures ToSubst(bs)[bs[k].v] == Def(bs[k].def, bs[k].dep)
      {
        if k < |bs| - 1 {
          assert init[k] == bs[k];
          assert forall j :: k < j < |init| ==> init[j].v != init[k].v by {
            forall j | k < j < |init| ensures init[j].v != init[k].v {
              assert init[j] == bs[j];
            }
          }
        }
      }
    }
  }

  /** A well-formed entry, as an `expr_substitution` (a map) always is: its
      bindings name distinct variables. */
  predicate DistinctKeys(bs: seq<Binding>)
  {
    forall j, k :: 0 <= j < k < |bs| ==> bs[j].v != bs[k].v
  }

  /** With distinct variables, every binding is what the map gives for its
      variable. */
  lemma ToSubstDistinct(bs: seq<Binding>)
    requires DistinctKeys(bs)
    ensures forall k :: 0 <= k < |bs| ==> bs[k].v in ToSubst(bs) && ToSubst(bs)[bs[k].v] == Def(bs[k].def, bs[k].dep)
  {
    ToSubstValues(bs);
  }

  /** With distinct variables, there is one binding per variable of the map. */
  lemma {:induction false} DistinctKeysCount(bs: seq<Binding>)
    requires DistinctKeys(bs)
    ensures |ToSubst(bs).Keys| == |Keys(bs)| == |bs|
    decreases |bs|
  {
    if bs != [] {
      var init := bs[..|bs| - 1];
      var last := bs[|bs| - 1];
      assert bs == init + [last];
      assert Keys(bs) == Keys(init) + {last.v};
      assert last.v !in Keys(init) by {
        forall c | c in init ensures c.v != last.v {
          var j :| 0 <= j < |init| && init[j] == c;
        }
      }
      DistinctKeysCount(init);
    }
  }

  /** Whether an entry substitutes a variable of `fv`. */
  predicate Intersects(e: Entry, fv: set<VarId>): (r: bool)
    ensures r <==> exists b :: b in e.subst && b.v in fv
  {
    !(Keys(e.subst) !! fv)
  }

  /** `is_loose()`: a non-rigid entry. */
  predicate IsLoose(e: Entry)
  {
    !e.rigid
  }

  /** The variables occurring in a sequence of formulas. */
  function FreeVarsOf(xs: seq<DependentExpr>): set<VarId>
  {
    if xs == [] then {} else FreeVarsOf(xs[..|xs| - 1]) + FreeVars(xs[|xs| - 1].fml)
  }

  /** The variables of a sequence of formulas are those occurring in some
      formula of it. */
  lemma {:induction false} FreeVarsOfMembers(xs: seq<DependentExpr>)
    ensures forall u :: u in FreeVarsOf(xs) <==> exists x :: x in xs && u in FreeVars(x.fml)
    decreases |xs|
  {
    if xs != [] {
      var init := xs[..|xs| - 1];
      var last := xs[|xs| - 1];
      FreeVarsOfMembers(init);
      assert xs == init + [last];
      assert FreeVarsOf(xs) == FreeVarsOf(init) + FreeVars(last.fml);
      forall u ensures u in FreeVarsOf(xs) <==> exists x :: x in xs && u in FreeVars(x.fml) {
        if u in FreeVarsOf(xs) && u !in FreeVars(last.fml) {
          var x :| x in init && u in FreeVars(x.fml);
          assert x in xs;
        }
        if exists x :: x in xs && u in FreeVars(x.fml) {
          var x :| x in xs && u in FreeVars(x.fml);
          if x != last {
            assert x in init;
          }
        }
      }
    }
  }
}
