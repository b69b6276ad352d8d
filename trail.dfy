/**
  The model-reconstruction trail itself: the recorded entries, whose `active`
  flags `replay` clears in place, and the undo log through which those flag
  changes are made backtrackable.
 */
module Trail {
  import opened Terms
  import opened TrailEntries
  import opened ReplaySpec
  import opened ConverterSpec

  /** The `add_vars` loop over re-added formulas: the free-variable set grows
      by the variables of each of them. */
  method AddVars(xs: seq<DependentExpr>, fv: set<VarId>) returns (r: set<VarId>)
    ensures r == fv + FreeVarsOf(xs)
  {
    r := fv;
    var j := 0;
    while j < |xs|
      invariant 0 <= j <= |xs|
      invariant r == fv + FreeVarsOf(xs[..j])
    {
      assert xs[..j + 1][..j] == xs[..j];
      r := r + FreeVars(xs[j].fml);
      j := j + 1;
    }
    assert xs[..|xs|] == xs;
  }

  /** The in-place rewrite of `added` by a rigid entry's substitution: each
      element becomes its rewritten formula, with the old dependency joined
      with the rewrite's. */
  method RewriteAdded(s: Subst, added: seq<DependentExpr>) returns (result: seq<DependentExpr>)
    ensures |result| == |added|
    ensures forall k :: 0 <= k < |added| ==>
              result[k].fml == Apply(s, added[k].fml).term
              && result[k].dep == added[k].dep + Apply(s, added[k].fml).dep
    ensures result == RewriteAll(s, added)
  {
    result := added;
    var j := 0;
    while j < |result|
      invariant 0 <= j <= |result| == |added|
      invariant forall k :: 0 <= k < j ==> result[k] == RewriteOne(s, added[k])
      invariant forall k :: j <= k < |result| ==> result[k] == added[k]
    {
      var r := Apply(s, result[j].fml);
      result := result[j := DependentExpr(r.term, Join(result[j].dep, r.dep))];
      j := j + 1;
    }
  }

  /** A replay keeps the undo log well formed: the records it pushes name
      distinct entries that were active and are now inactive, and the older
      records still name inactive entries. */
  lemma ReplayKeepsValid(es0: seq<Entry>, log0: seq<nat>, d: DependentExpr, added: seq<DependentExpr>)
    requires forall q :: 0 <= q < |log0| ==> log0[q] < |es0| && !es0[log0[q]].active
    requires forall p, q :: 0 <= p < q < |log0| ==> log0[p] != log0[q]
    ensures var r := ReplaySpec.Replay(es0, log0, d, added);
      && (forall q :: 0 <= q < |r.log| ==> r.log[q] < |r.es| && !r.es[r.log[q]].active)
      && (forall p, q :: 0 <= p < q < |r.log| ==> r.log[p] != r.log[q])
  {
    var r := ReplaySpec.Replay(es0, log0, d, added);
    SweepShape(es0, log0, d, added, |es0|);
    SweepFlags(es0, log0, d, added, |es0|);
    forall q | 0 <= q < |r.log|
      ensures r.log[q] < |r.es| && !r.es[r.log[q]].active
    {
      if q < |log0| {
        assert r.log[q] == log0[q];
      }
    }
    forall p, q | 0 <= p < q < |r.log|
      ensures r.log[p] != r.log[q]
    {
      if p < |log0| {
        assert r.log[p] == log0[p];
        if q < |log0| {
          assert r.log[q] == log0[q];
        }
      }
    }
  }

  class ModelReconstructionTrail {
    /** `m_trail`, oldest entry first. */
    var trail: array<Entry>
    /** The flag flips recorded on `m_trail_stack`: each record names an
        entry whose flag went from true to false. */
    var undoLog: seq<nat>

    /** Every record names an existing, currently inactive entry, and no entry
        is recorded twice. */
    ghost predicate Valid()
      reads this, trail
    {
      && (forall q :: 0 <= q < |undoLog| ==> undoLog[q] < trail.Length && !trail[undoLog[q]].active)
      && (forall p, q :: 0 <= p < q < |undoLog| ==> undoLog[p] != undoLog[q])
    }

    constructor (entries: seq<Entry>)
      ensures Valid() && fresh(trail)
      ensures trail[..] == entries && undoLog == []
    {
      trail := new Entry[|entries|](k requires 0 <= k < |entries| => entries[k]);
      undoLog := [];
    }

    /** `replay(d, added)`: returns the caller's `added` with `d` appended and
        then updated by one forward sweep over the trail. */
    method Replay(d: DependentExpr, added: seq<DependentExpr>) returns (result: seq<DependentExpr>)
      requires Valid()
      modifies this`undoLog, trail
      ensures Valid()
      ensures var r := ReplaySpec.Replay(old(trail[..]), old(undoLog), d, added);
        trail[..] == r.es && undoLog == r.log && result == r.added
    {
      ghost var es0 := trail[..];
      ghost var log0 := undoLog;
      var fv := FreeVars(d.fml);
      result := added + [d];
      var i := 0;
      while i < trail.Length
        invariant 0 <= i <= trail.Length
        invariant ReplayState(trail[..], fv, result, undoLog) == Sweep(es0, log0, d, added, i)
      {
        var e := trail[i];
        if !e.active {
          i := i + 1;
          continue;
        }
        if !Intersects(e, fv) {
          i := i + 1;
          continue;
        }
        if IsLoose(e) {
          result := result + e.removed;
          fv := AddVars(e.removed, fv);
          undoLog := undoLog + [i];
          trail[i] := e.(active := false);
          i := i + 1;
          continue;
        }
        result := RewriteAdded(ToSubst(e.subst), result);
        i := i + 1;
      }
      assert ReplayState(trail[..], fv, result, undoLog) == ReplaySpec.Replay(es0, log0, d, added);
      ReplayKeepsValid(es0, log0, d, added);
    }

    /** `get_model_converter()`: the pairs handed to the model converter by a
        newest-first walk that composes the active entries' substitutions. */
    method GetModelConverter() returns (mc: seq<Assignment>)
      ensures mc == ModelConverter(trail[..])
    {
      var subst: Subst := map[];
      mc := [];
      var first := true;
      var i := trail.Length;
      while i > 0
        invariant 0 <= i <= trail.Length
        invariant ConvState(subst, mc, first) == Compose(trail[..], i)
      {
        i := i - 1;
        var e := trail[i];
        if !e.active {
          continue;
        }
        if first {
          first := false;
          ghost var st0 := ConvState(subst, mc, first);
          var j := 0;
          while j < |e.subst|
            invariant 0 <= j <= |e.subst|
            invariant ConvState(subst, mc, first) == InsertVerbatim(st0, e.subst[..j])
          {
            assert e.subst[..j + 1][..j] == e.subst[..j];
            var b := e.subst[j];
            subst := subst[b.v := Def(b.def, b.dep)];
            mc := mc + [Assignment(b.v, b.def)];
            j := j + 1;
          }
          assert e.subst[..|e.subst|] == e.subst;
          continue;
        }
        ghost var st0 := ConvState(subst, mc, first);
        var j := 0;
        while j < |e.subst|
          invariant 0 <= j <= |e.subst|
          invariant ConvState(subst, mc, first) == InsertResolved(st0, e.subst[..j])
        {
          assert e.subst[..j + 1][..j] == e.subst[..j];
          var b := e.subst[j];
          var r := Apply(subst, b.def);
          var newDep := Join(b.dep, r.dep);
          subst := subst[b.v := Def(r.term, newDep)];
          mc := mc + [Assignment(b.v, r.term)];
          j := j + 1;
        }
        assert e.subst[..|e.subst|] == e.subst;
      }
    }

    /** Popping the flag flips recorded after `mark`, most recent first, as a
        scope pop does: each named entry gets its previous value `true` back. */
    method PopTo(mark: nat)
      requires Valid() && mark <= |undoLog|
      modifies this`undoLog, trail
      ensures Valid()
      ensures undoLog == old(undoLog[..mark])
      ensures trail[..] == Undo(old(trail[..]), old(undoLog[mark..]))
      ensures forall k :: 0 <= k < trail.Length ==>
                trail[k] == old(trail[k]).(active := old(trail[k].active) || k in old(undoLog[mark..]))
    {
      ghost var es0 := trail[..];
      ghost var log0 := undoLog;
      while |undoLog| > mark
        invariant mark <= |undoLog| <= |log0|
        invariant undoLog == log0[..|undoLog|]
        invariant forall q :: 0 <= q < |log0| ==> log0[q] < trail.Length
        invariant trail[..] == Undo(es0, log0[|undoLog|..])
      {
        var m := |undoLog|;
        var k := undoLog[m - 1];
        assert log0[m - 1..][1..] == log0[m..] && log0[m - 1..][0] == k;
        trail[k] := trail[k].(active := true);
        undoLog := undoLog[..m - 1];
      }
      UndoFlags(es0, log0[mark..]);
      forall q | 0 <= q < |undoLog|
        ensures undoLog[q] < trail.Length && !trail[undoLog[q]].active
      {
        assert undoLog[q] == log0[q];
      }
    }
  }
}
