/**
  Small concrete trails, worked through the replay and converter
  specifications.
 */
module Scenarios {
  import opened Terms
  import opened TrailEntries
  import opened ReplaySpec
  import opened ConverterSpec

  const X: VarId := 0
  const Y: VarId := 1
  const A: VarId := 2

  function Num(n: string): Term { App(n, []) }
  function Plus(s: Term, t: Term): Term { App("+", [s, t]) }
  function Less(s: Term, t: Term): Term { App("<", [s, t]) }
  function Greater(s: Term, t: Term): Term { App(">", [s, t]) }
  function Equal(s: Term, t: Term): Term { App("=", [s, t]) }

  /** A rigid entry x := a + 1; replaying x > 0 rewrites it to a + 1 > 0 with
      the entry's dependency, and the trail is left as it was. */
  lemma ScenarioRigid()
    ensures var es := [Entry(true, true, [Binding(X, Plus(Var(A), Num("1")), {7})], [])];
      Replay(es, [], DependentExpr(Greater(Var(X), Num("0")), {}), [])
        == ReplayState(es, {X}, [DependentExpr(Greater(Plus(Var(A), Num("1")), Num("0")), {7})], [])
  {
    var es := [Entry(true, true, [Binding(X, Plus(Var(A), Num("1")), {7})], [])];
    var d := DependentExpr(Greater(Var(X), Num("0")), {});
    assert FreeVars(d.fml) == {X} by {
      assert FreeVarsList([Num("0")]) == {};
    }
    var s := ToSubst(es[0].subst);
    assert s == map[X := Def(Plus(Var(A), Num("1")), {7})];
    assert ApplyList(s, [Num("0")]) == RewrittenList([Num("0")], {}) by {
      assert ApplyList(s, []) == RewrittenList([], {});
      assert Apply(s, Num("0")) == Rewritten(Num("0"), {}) by {
        assert ApplyList(s, []) == RewrittenList([], {});
      }
    }
    assert [Var(X), Num("0")][1..] == [Num("0")];
    assert ApplyList(s, [Var(X), Num("0")]) == RewrittenList([Plus(Var(A), Num("1")), Num("0")], {7});
    assert Apply(s, d.fml) == Rewritten(Greater(Plus(Var(A), Num("1")), Num("0")), {7});
    var s0 := Sweep(es, [], d, [], 0);
    assert s0 == ReplayState(es, {X}, [d], []);
    assert RewriteAll(s, [d]) == [RewriteOne(s, d)];
    assert RewriteOne(s, d) == DependentExpr(Greater(Plus(Var(A), Num("1")), Num("0")), {7});
    assert Keys(es[0].subst) == {X};
    assert Intersects(es[0], s0.fv);
    assert Sweep(es, [], d, [], 1) == Visit(s0, 0);
  }

  /** A loose entry y := 5 that removed y < 10; replaying y = 5 brings y < 10
      back and deactivates the entry, with one undo record. */
  lemma ScenarioLoose()
    ensures var es := [Entry(true, false, [Binding(Y, Num("5"), {})], [DependentExpr(Less(Var(Y), Num("10")), {3})])];
      var d := DependentExpr(Equal(Var(Y), Num("5")), {});
      var r := Replay(es, [], d, []);
      && r.added == [d, DependentExpr(Less(Var(Y), Num("10")), {3})]
      && r.es == [es[0].(active := false)]
      && r.log == [0]
  {
    var d := DependentExpr(Equal(Var(Y), Num("5")), {});
    assert FreeVars(d.fml) == {Y} by {
      assert FreeVarsList([Num("5")]) == {};
    }
  }

  /** The sweep is a single forward pass: an earlier loose entry on y is not
      revisited when a later deactivated entry brings back a formula with y,
      so it stays active although it now intersects the free variables. */
  lemma ScenarioSinglePass()
    ensures var es := [Entry(true, false, [Binding(Y, Num("0"), {})], [DependentExpr(Var(Y), {})]),
                       Entry(true, false, [Binding(X, Num("0"), {})], [DependentExpr(Less(Var(Y), Num("1")), {})])];
      var r := Replay(es, [], DependentExpr(Var(X), {}), []);
      && r.es[0].active && !r.es[1].active
      && Intersects(r.es[0], r.fv)
  {
    var es := [Entry(true, false, [Binding(Y, Num("0"), {})], [DependentExpr(Var(Y), {})]),
               Entry(true, false, [Binding(X, Num("0"), {})], [DependentExpr(Less(Var(Y), Num("1")), {})])];
    var d := DependentExpr(Var(X), {});
    var s1 := Sweep(es, [], d, [], 1);
    assert s1.fv == {X};
    assert !Intersects(es[0], {X});
    assert Y in FreeVarsOf(es[1].removed) by {
      assert FreeVarsOf(es[1].removed) == FreeVars(Less(Var(Y), Num("1")));
    }
  }

  /** Two rigid entries, x := y + 1 (older) and y := 2 (newer): the converter
      hands over y := 2 first, then x with its definition resolved to 2 + 1
      and the dependencies of both. */
  lemma ScenarioCompose()
    ensures var es := [Entry(true, true, [Binding(X, Plus(Var(Y), Num("1")), {1})], []),
                       Entry(true, true, [Binding(Y, Num("2"), {2})], [])];
      && ModelConverter(es) == [Assignment(Y, Num("2")), Assignment(X, Plus(Num("2"), Num("1")))]
      && Compose(es, 0).subst == map[Y := Def(Num("2"), {2}), X := Def(Plus(Num("2"), Num("1")), {1, 2})]
  {
    var s := map[Y := Def(Num("2"), {2})];
    assert ApplyList(s, [Num("1")]) == RewrittenList([Num("1")], {}) by {
      assert Apply(s, Num("1")) == Rewritten(Num("1"), {}) by {
        assert ApplyList(s, []) == RewrittenList([], {});
      }
    }
    assert [Var(Y), Num("1")][1..] == [Num("1")];
    assert ApplyList(s, [Var(Y), Num("1")]) == RewrittenList([Num("2"), Num("1")], {2});
    assert Apply(s, Plus(Var(Y), Num("1"))) == Rewritten(Plus(Num("2"), Num("1")), {2});
    var es := [Entry(true, true, [Binding(X, Plus(Var(Y), Num("1")), {1})], []),
               Entry(true, true, [Binding(Y, Num("2"), {2})], [])];
    assert Compose(es, 2) == ConvState(map[], [], true);
    assert Compose(es, 1) == ConvState(s, [Assignment(Y, Num("2"))], false) by {
      var bs := es[1].subst;
      assert bs[..|bs| - 1] == [];
      assert InsertVerbatim(ConvState(map[], [], false), []) == ConvState(map[], [], false);
      assert Compose(es, 1) == InsertVerbatim(ConvState(map[], [], false), bs);
    }
    var bs := es[0].subst;
    assert bs[..|bs| - 1] == [];
    var st1 := ConvState(s, [Assignment(Y, Num("2"))], false);
    assert InsertResolved(st1, []) == st1;
    assert Compose(es, 0) == InsertResolved(st1, bs);
    assert Apply(st1.subst, bs[0].def) == Rewritten(Plus(Num("2"), Num("1")), {2});
    assert Join({1}, {2}) == {1, 2};
    assert Compose(es, 0) == ConvState(s[X := Def(Plus(Num("2"), Num("1")), {1, 2})],
                                       [Assignment(Y, Num("2")), Assignment(X, Plus(Num("2"), Num("1")))], false);
  }

  /** A rigid rewrite does not add the variables of the definitions it brings
      in: after x := a + 1 rewrites x to a + 1, a later loose entry on a is
      not hit and stays active. */
  lemma ScenarioRigidKeepsVars()
    ensures var es := [Entry(true, true, [Binding(X, Plus(Var(A), Num("1")), {5})], []),
                       Entry(true, false, [Binding(A, Num("0"), {})], [DependentExpr(Equal(Var(A), Num("0")), {})])];
      var r := Replay(es, [], DependentExpr(Var(X), {}), []);
      && r.added == [DependentExpr(Plus(Var(A), Num("1")), {5})]
      && r.fv == {X}
      && r.es == es && r.log == []
  {
    var es := [Entry(true, true, [Binding(X, Plus(Var(A), Num("1")), {5})], []),
               Entry(true, false, [Binding(A, Num("0"), {})], [DependentExpr(Equal(Var(A), Num("0")), {})])];
    var d := DependentExpr(Var(X), {});
    var s := ToSubst(es[0].subst);
    assert s == map[X := Def(Plus(Var(A), Num("1")), {5})];
    assert Apply(s, d.fml) == Rewritten(Plus(Var(A), Num("1")), {5});
    var s0 := Sweep(es, [], d, [], 0);
    assert s0 == ReplayState(es, {X}, [d], []);
    assert Keys(es[0].subst) == {X};
    assert RewriteAll(s, [d]) == [RewriteOne(s, d)];
    assert RewriteOne(s, d) == DependentExpr(Plus(Var(A), Num("1")), {5});
    assert Intersects(es[0], s0.fv);
    var s1 := Sweep(es, [], d, [], 1);
    assert s1 == Visit(s0, 0);
    assert s1 == ReplayState(es, {X}, [DependentExpr(Plus(Var(A), Num("1")), {5})], []);
    assert Keys(es[1].subst) == {A};
    assert !Intersects(es[1], s1.fv);
  }
}
