# Model-reconstruction trail

This is a Dafny model of the two algorithms of z3's model-reconstruction trail
(`src/ast/simplifiers/model_reconstruction_trail.cpp`). The trail records the
simplification steps that eliminated variables from a set of formulas. Each
entry holds a substitution (variable, definition, dependency), the formulas
it removed, whether it is *rigid* or *loose*, and a backtrackable `active`
flag.

- `replay(d, added)` (the class method `Trail.ModelReconstructionTrail.Replay`)
  brings a new formula `d` into line with the trail. It appends `d` to `added`
  and takes `d`'s free variables. It then makes one forward sweep, oldest entry
  first:
  - inactive entries and entries that substitute none of the free variables are passed over;
  - an intersecting loose entry is deactivated, with an undo record for its flag, and its removed formulas (and their variables) are brought back;
  - an intersecting rigid entry rewrites every element of `added` in place, joining each dependency with the rewrite's.
- `get_model_converter()` (`Trail.ModelReconstructionTrail.GetModelConverter`)
  walks the trail newest entry first and composes the active entries'
  substitutions into one. The newest active entry is taken verbatim. Each
  older one has its definitions rewritten by what has accumulated so far. Every
  resulting (variable, definition) pair is handed to the model converter in
  visiting order.

Both methods are imperative, as in the source: an `array` of entries whose
flags the sweep clears, a `seq` undo log, loops with invariants. Each is
proved equal to a specification function on values:

- `ReplaySpec.Sweep`/`ReplaySpec.Replay` for the first;
- `ConverterSpec.Compose`/`ConverterSpec.ModelConverter` for the second.

What the source promises is then proved about those functions as lemmas.

Terms are `Var(n) | App(op, args)`. A dependency (justification) is a set of
assumption identifiers: `mk_join` is union and the null dependency is the
empty set. The rewriters (`m_replace`, the default `expr_replacer`) are
modelled as simultaneous substitution, `Terms.Apply`. It returns the new term
and the join of the dependencies of the variables it replaced.

Files:

- `terms.dfy`: terms, dependencies, free variables, substitution and their lemmas;
- `entries.dfy`: trail entries;
- `replay_spec.dfy`: the meaning of `replay` and its properties;
- `converter_spec.dfy`: the meaning of `get_model_converter` and its properties;
- `trail.dfy`: the trail class and its methods;
- `scenarios.dfy`: small concrete trails worked through.

## Model

| member | source | states |
|---|---|---|
| Trail.ModelReconstructionTrail.Replay | src/ast/simplifiers/model_reconstruction_trail.cpp:20-58 | the new entries, undo log and output vector are those of the single forward sweep `ReplaySpec.Replay` over the old trail; the undo log stays well formed |
| Trail.ModelReconstructionTrail.GetModelConverter | src/ast/simplifiers/model_reconstruction_trail.cpp:63-105 | the pairs handed to the model converter are those of the newest-first composition `ConverterSpec.ModelConverter`; the trail, its flags and the undo log are not modified |
| Trail.ModelReconstructionTrail.PopTo | src/ast/simplifiers/model_reconstruction_trail.cpp:43-44 | popping the undo records pushed after a mark, most recent first, gives each recorded entry its previous flag `true` back and changes nothing else |
| Trail.ModelReconstructionTrail.constructor | src/ast/simplifiers/model_reconstruction_trail.cpp:29 | creates the entry array that the loop walks (how `m_trail` is built is in the header, which is not part of this model), with an empty undo log and the undo-log invariant established |
| Trail.AddVars | src/ast/simplifiers/model_reconstruction_trail.cpp:41-42 | the free-variable set grows by exactly the variables of the re-added formulas |
| Trail.RewriteAdded | src/ast/simplifiers/model_reconstruction_trail.cpp:50-56 | each element of `added` becomes its formula after substitution, with dependency `join(old, rewrite dep)`; length kept |
| Trail.ReplayKeepsValid | src/ast/simplifiers/model_reconstruction_trail.cpp:43-44 | after a replay every undo record names a distinct, existing, inactive entry |
| ReplaySpec.Visit | src/ast/simplifiers/model_reconstruction_trail.cpp:30-56 | one visit changes at most entry `k`'s flag, from true to false, pushing exactly one record `k` when it does; the free-variable set only grows |
| ReplaySpec.Sweep | src/ast/simplifiers/model_reconstruction_trail.cpp:20-58 | the state after the first `n` visits of the forward sweep: the number of entries is kept and the undo log only grows |
| ReplaySpec.Replay | src/ast/simplifiers/model_reconstruction_trail.cpp:20-58 | the state after the whole sweep: the number of entries is kept, the old undo log is a prefix of the new one, and `added` is longer than the caller's vector |
| ReplaySpec.RewriteAll | src/ast/simplifiers/model_reconstruction_trail.cpp:50-56 | the vector rewritten by one substitution keeps its length |
| ReplaySpec.Reactivate | src/ast/simplifiers/model_reconstruction_trail.cpp:43 | undoing one `value_trail` record touches only the named entry and keeps the number of entries |
| ReplaySpec.Undo | src/ast/simplifiers/model_reconstruction_trail.cpp:43 | undoing a log of records keeps the number of entries |
| ReplaySpec.SweepIndependent | src/ast/simplifiers/model_reconstruction_trail.cpp:20-58 | the entries, the free-variable set and the undo log a replay leaves do not depend on the caller's vector `added` |
| ReplaySpec.SweepShape | src/ast/simplifiers/model_reconstruction_trail.cpp:29-46 | entries not yet visited are untouched, visited ones differ at most in the flag, no flag is set, the log only grows and each new record names a loose entry that was active |
| ReplaySpec.SweepFlags | src/ast/simplifiers/model_reconstruction_trail.cpp:43-44 | a flag changes (true to false) if and only if a new undo record names its entry; records are strictly increasing, so one per deactivation |
| ReplaySpec.SweepRecordsIncrease | src/ast/simplifiers/model_reconstruction_trail.cpp:29-44 | the new records are pushed in visiting order, strictly increasing |
| ReplaySpec.SweepFlagsChanged | src/ast/simplifiers/model_reconstruction_trail.cpp:43-44 | a flag differs from its old value exactly when its entry is among the new records |
| ReplaySpec.UndoFlags | src/ast/simplifiers/model_reconstruction_trail.cpp:43 | undoing a log sets exactly the flags it names and leaves every other field and flag alone |
| ReplaySpec.UndoAppend | src/ast/simplifiers/model_reconstruction_trail.cpp:43 | undoing `a + b` undoes `b` first and then `a` (last in, first out) |
| ReplaySpec.SweepUndo | src/ast/simplifiers/model_reconstruction_trail.cpp:43-44 | undoing, in reverse order, the records a replay pushed restores every entry to its value before the call |
| ReplaySpec.ScopeRestores | src/ast/simplifiers/model_reconstruction_trail.cpp:43-44 | after any run of replays in a scope, each with its own formula and caller vector, undoing all records pushed since the scope began restores the trail |
| ReplaySpec.ReplayEach | src/ast/simplifiers/model_reconstruction_trail.cpp:43 | a run of replays, each with its own formula and caller vector, keeps the number of entries and only pushes onto the undo log |
| ReplaySpec.SweepAdded | src/ast/simplifiers/model_reconstruction_trail.cpp:27-56 | `added` ends with length old + 1 + the removed formulas of exactly the deactivated entries; every old element and `d` only gain dependencies |
| ReplaySpec.SweepLength | src/ast/simplifiers/model_reconstruction_trail.cpp:27-56 | the length part of the above, at every point of the sweep |
| ReplaySpec.SweepDepsGrow | src/ast/simplifiers/model_reconstruction_trail.cpp:41-56 | along the sweep `added` never shrinks, each position's dependency only grows and the free-variable set only grows |
| ReplaySpec.SweepRewrites | src/ast/simplifiers/model_reconstruction_trail.cpp:27-56 | every element present at a point of the sweep stays at its position and is rewritten, in order, by exactly the rigid entries that fire after that point; none is dropped |
| ReplaySpec.ReplayAppends | src/ast/simplifiers/model_reconstruction_trail.cpp:27-40 | when no rigid entry fires, `added` begins with the old contents followed by `d` |
| ReplaySpec.NoFired | src/ast/simplifiers/model_reconstruction_trail.cpp:48-56 | no rigid entry fires, so the list of rewriting substitutions is empty |
| ReplaySpec.ReplayNoIntersection | src/ast/simplifiers/model_reconstruction_trail.cpp:25-35 | if no active entry intersects the variables of `d`, `added == old ++ [d]` and the flags and undo log are unchanged |
| ReplaySpec.ReplaySkips | src/ast/simplifiers/model_reconstruction_trail.cpp:29-35 | an inactive or non-intersecting entry leaves the whole sweep state (flags, `added`, free variables, log) as it was and ends unchanged |
| ReplaySpec.VisitedFrozen | src/ast/simplifiers/model_reconstruction_trail.cpp:29 | the sweep never comes back to an entry: what its visit left is what the replay ends with |
| ReplaySpec.SweepFrozen | src/ast/simplifiers/model_reconstruction_trail.cpp:29 | entries already visited are not touched again |
| ReplaySpec.ReplayLooseHit | src/ast/simplifiers/model_reconstruction_trail.cpp:39-45 | an intersecting loose entry ends inactive with one undo record, its removed formulas are appended in order, and their variables are in the free-variable set of every later visit (that earlier entries are not revisited is `ReplaySpec.VisitedFrozen`) |
| ReplaySpec.ReplayRigidHit | src/ast/simplifiers/model_reconstruction_trail.cpp:48-56 | an intersecting rigid entry keeps its flag, the length of `added` and the free variables, and replaces each element by (substituted formula, `join(old, rewrite dep)`), which contains the old dependency |
| ReplaySpec.ReplayRigidEliminates | src/ast/simplifiers/model_reconstruction_trail.cpp:50-56 | after a rigid entry eliminating `v` whose definitions do not mention `v`, no element of `added` mentions `v` |
| ConverterSpec.VisitEntry | src/ast/simplifiers/model_reconstruction_trail.cpp:78-100 | visiting an entry clears `first` exactly when the entry is active, and appends one pair per binding of an active entry after those already handed over |
| ConverterSpec.Compose | src/ast/simplifiers/model_reconstruction_trail.cpp:76-100 | the state of the newest-first walk once the entries from `n` on have been visited; while `first` holds nothing has been handed over and the substitution is empty |
| ConverterSpec.ModelConverter | src/ast/simplifiers/model_reconstruction_trail.cpp:63-105 | the pairs handed to the model converter: as many as the bindings of the active entries |
| ConverterSpec.ComposeEmitsDistinct | src/ast/simplifiers/model_reconstruction_trail.cpp:77-100 | with no variable bound twice among the active entries, the walk hands over each variable once, and only variables of the active entries walked so far |
| ConverterSpec.ModelConverterDistinct | src/ast/simplifiers/model_reconstruction_trail.cpp:77-100 | with no variable bound twice among the active entries, every pair handed to the model converter names a different variable |
| ConverterSpec.InsertVerbatim | src/ast/simplifiers/model_reconstruction_trail.cpp:84-88 | one pair is appended per triple, after the pairs already handed over |
| ConverterSpec.InsertResolved | src/ast/simplifiers/model_reconstruction_trail.cpp:94-100 | one pair is appended per triple, after the pairs already handed over |
| ConverterSpec.InsertVerbatimVars | src/ast/simplifiers/model_reconstruction_trail.cpp:84-88 | the variables handed over are the entry's, in its order |
| ConverterSpec.InsertResolvedVars | src/ast/simplifiers/model_reconstruction_trail.cpp:94-100 | the variables handed over are the entry's, in its order |
| ConverterSpec.BoundVarsAppend | src/ast/simplifiers/model_reconstruction_trail.cpp:77 | the variables of two runs of entries are those of the first followed by those of the second |
| ConverterSpec.ComposeEmits | src/ast/simplifiers/model_reconstruction_trail.cpp:77-100 | exactly one pair per binding of each active entry, newest active entry first, none for inactive entries; `first` holds until an active entry is met |
| ConverterSpec.ComposeEmptySuffix | src/ast/simplifiers/model_reconstruction_trail.cpp:76-80 | with no active entry the walk hands over nothing and the substitution stays empty |
| ConverterSpec.ComposeMcGrows | src/ast/simplifiers/model_reconstruction_trail.cpp:87-99 | pairs already handed over stay in place |
| ConverterSpec.InsertVerbatimFromEmpty | src/ast/simplifiers/model_reconstruction_trail.cpp:84-88 | starting from nothing, the substitution is the entry's own and the pairs are its triples as they are |
| ConverterSpec.NewestVerbatim | src/ast/simplifiers/model_reconstruction_trail.cpp:82-89 | the newest active entry's definitions and dependencies go into the substitution unchanged and its pairs come first |
| ConverterSpec.InsertResolvedAgainst | src/ast/simplifiers/model_reconstruction_trail.cpp:94-100 | for an entry whose definitions do not mention its own variables, each definition is rewritten by the substitution built before the entry, and its dependency is the stored one joined with the rewrite's |
| ConverterSpec.ResolvedAgainstAgree | src/ast/simplifiers/model_reconstruction_trail.cpp:95 | inserting an entry's own bindings does not change the rewrite of a definition free of them |
| ConverterSpec.ResolvedAgainstKeys | src/ast/simplifiers/model_reconstruction_trail.cpp:98 | inserting bindings leaves every other variable's presence and value alone |
| ConverterSpec.OlderResolved | src/ast/simplifiers/model_reconstruction_trail.cpp:91-100 | an older active entry's definitions are rewritten by the substitution built from the newer active entries, its dependencies joined with the rewrite dependency |
| ConverterSpec.ComposeNotFirst | src/ast/simplifiers/model_reconstruction_trail.cpp:82-83 | once an active entry has been walked, `first` is false |
| ConverterSpec.ActiveKeysStep | src/ast/simplifiers/model_reconstruction_trail.cpp:77-80 | the variables of the active entries from `n` are entry `n`'s (if active) and those from `n + 1` |
| ConverterSpec.InsertVerbatimAvoids | src/ast/simplifiers/model_reconstruction_trail.cpp:84-88 | inserting triples that avoid a set of variables keeps every definition free of them |
| ConverterSpec.InsertResolvedAvoids | src/ast/simplifiers/model_reconstruction_trail.cpp:94-100 | rewriting against a substitution that maps every eliminated variable of a definition leaves the definition free of eliminated variables |
| ConverterSpec.EliminatedByNewer | src/ast/simplifiers/model_reconstruction_trail.cpp:91-95 | in elimination order, every eliminated variable of an active entry's definition is eliminated by a newer active entry |
| ConverterSpec.ComposeAvoids | src/ast/simplifiers/model_reconstruction_trail.cpp:77-100 | in elimination order, no definition in the substitution or handed to the converter mentions an eliminated variable |
| ConverterSpec.FullyResolved | src/ast/simplifiers/model_reconstruction_trail.cpp:63-105 | in elimination order, the composed substitution and the converter's pairs are fully resolved: no definition mentions a substituted variable |
| ConverterSpec.InsertKeeps | src/ast/simplifiers/model_reconstruction_trail.cpp:85-98 | inserting an entry keeps the values of other variables, and the last binding of each variable leaves a dependency containing its stored one |
| ConverterSpec.ComposeKeys | src/ast/simplifiers/model_reconstruction_trail.cpp:77-100 | the substitution maps exactly the variables of the active entries walked so far, none while `first` holds |
| ConverterSpec.ComposeDeps | src/ast/simplifiers/model_reconstruction_trail.cpp:85-98 | with no variable bound twice, each walked variable stays mapped and its recorded dependency contains the stored one |
| ConverterSpec.FinalDeps | src/ast/simplifiers/model_reconstruction_trail.cpp:85-98 | with no variable bound twice, the final substitution's dependency of every active entry's variable contains the stored one |
| TrailEntries.ToSubst | src/ast/simplifiers/model_reconstruction_trail.cpp:84-86 | an entry's substitution maps exactly the variables it binds |
| TrailEntries.ToSubstValues | src/ast/simplifiers/model_reconstruction_trail.cpp:84-86 | each variable maps to its last binding, and only to a definition bound to it |
| TrailEntries.DistinctKeysCount | src/ast/simplifiers/model_reconstruction_trail.cpp:84 | an entry whose bindings name distinct variables has one binding per variable of its map |
| TrailEntries.ToSubstDistinct | src/ast/simplifiers/model_reconstruction_trail.cpp:84-86 | when the bindings name distinct variables, every binding is the map's value for its variable |
| TrailEntries.Intersects | src/ast/simplifiers/model_reconstruction_trail.cpp:34 | an entry intersects a variable set exactly when one of its bindings names a variable of the set |
| TrailEntries.IsLoose | src/ast/simplifiers/model_reconstruction_trail.cpp:39 | an entry is loose exactly when it is not rigid; it carries no contract of its own |
| TrailEntries.FreeVarsOfMembers | src/ast/simplifiers/model_reconstruction_trail.cpp:41-42 | the variables added for the re-added formulas are exactly those occurring in one of them |
| TrailEntries.FreeVarsOf | src/ast/simplifiers/model_reconstruction_trail.cpp:41-42 | the variables of a sequence of formulas; it carries no contract of its own, and `TrailEntries.FreeVarsOfMembers` and `Trail.AddVars` state what it means |
| Terms.IntroducedUnion | src/ast/simplifiers/model_reconstruction_trail.cpp:54 | the variables and dependencies a substitution introduces over a union are the union of those over the parts |
| Terms.Apply | src/ast/simplifiers/model_reconstruction_trail.cpp:54 | the rewriter as simultaneous substitution: an application keeps its operator and arity, and an unmapped variable is left as it is with the null dependency |
| Terms.ApplyList | src/ast/simplifiers/model_reconstruction_trail.cpp:54 | the same over argument lists, which keep their length |
| Terms.ApplyMeaning | src/ast/simplifiers/model_reconstruction_trail.cpp:54 | a rewritten term's variables are the unsubstituted ones plus those of the definitions used; its dependency is the join of the used definitions' dependencies |
| Terms.ApplyListMeaning | src/ast/simplifiers/model_reconstruction_trail.cpp:54 | the same, for argument lists, with the length kept |
| Terms.ApplyAgree | src/ast/simplifiers/model_reconstruction_trail.cpp:95 | substitutions that agree on a term's variables rewrite it the same way |
| Terms.ApplyListAgree | src/ast/simplifiers/model_reconstruction_trail.cpp:95 | the same, for argument lists |
| Terms.ApplyDisjoint | src/ast/simplifiers/model_reconstruction_trail.cpp:54 | a substitution mapping none of a term's variables leaves it as it is, with the null dependency |
| Terms.ApplyListDisjoint | src/ast/simplifiers/model_reconstruction_trail.cpp:54 | the same, for argument lists |
| Scenarios.ScenarioRigid | src/ast/simplifiers/model_reconstruction_trail.cpp:48-56 | replaying `x > 0` against rigid `x := a + 1` gives `a + 1 > 0` with the entry's dependency, the trail unchanged |
| Scenarios.ScenarioLoose | src/ast/simplifiers/model_reconstruction_trail.cpp:39-45 | replaying `y = 5` against loose `y := 5` brings back `y < 10`, deactivates the entry and records one undo |
| Scenarios.ScenarioSinglePass | src/ast/simplifiers/model_reconstruction_trail.cpp:29-45 | an earlier loose entry is not revisited when a later one brings its variable back: it stays active though it now intersects |
| Scenarios.ScenarioRigidKeepsVars | src/ast/simplifiers/model_reconstruction_trail.cpp:48-56 | a rigid rewrite of `x` to `a + 1` adds no variable to the free-variable set, so a later loose entry on `a` is not hit and stays active |
| Scenarios.ScenarioCompose | src/ast/simplifiers/model_reconstruction_trail.cpp:77-100 | with `x := y + 1` older than `y := 2`, the converter gets `y := 2` then `x := 2 + 1`, with dependency `{1, 2}` for `x` |

## Left out

- Terms are plain trees. Hash-consing, reference counting (`expr_ref`, `expr_dependency_ref`), allocation and `scoped_ptr` are not modelled. The `ast_mark` free-variable set is a `set` of variable numbers.
- The rewriters (`m_replace`, `mk_default_expr_replacer`) also simplify. Here they are simultaneous variable substitution with a dependency join, and the model claims nothing about simplification.
- `generic_model_converter` internals. `mc->add(v, def)` appends a pair to a sequence, and how the converter later applies the pairs to a model is not modelled.
- `model_reconstruction_trail.h` is not part of this model. Entry construction, `intersects`, `is_loose` and `add_vars` are modelled by their evident meaning:
  - `is_loose` is the negation of an explicit `rigid` field;
  - `intersects` means the entry substitutes a variable of the set;
  - `add_vars` adds a formula's free variables.
- An entry's `expr_substitution` is a sequence of bindings in the order `sub()` enumerates them. That order fixes the emission order and is not visible in the source. The source's substitution is a map, so its bindings name distinct variables (`TrailEntries.DistinctKeys`). The sequence type does not force this. For an entry that binds a variable twice, `ToSubst` keeps the last binding and the converter walk hands over one pair per binding, which the source cannot do. The properties about distinct variables (`ConverterSpec.ModelConverterDistinct`, `ConverterSpec.FinalDeps`, `TrailEntries.DistinctKeysCount`) assume well-formed entries.
- A rigid rewrite brings the variables of the definitions it applies into `added` without adding them to the free-variable set. The source does no `add_vars` in the rewrite loop, and the model follows it (`Scenarios.ScenarioRigidKeepsVars`).
- `m_trail_stack` is modelled only as the undo log of flag flips. Other trail objects on it, and the scope push/pop around it, are not. `PopTo` stands for the pops that undo the flag records.
- Entries appended to the trail (`append`, `push` in the header) are not modelled. The array of entries is fixed at construction.
- The `DependentExpr` wrapper's manager reference is not modelled.
- ConverterSpec.OlderResolved: stated only for entries whose definitions do not mention their own variables. The source inserts the bindings of one entry one by one, so that a later definition of the same entry is rewritten with an earlier one; the model does this too (`InsertResolved`), but the clean statement needs the assumption.
- ConverterSpec.FullyResolved: stated only under elimination order (no definition mentions a variable eliminated by itself or an older active entry). Without it, newer definitions can mention older variables and nothing resolves them.
- ConverterSpec.FinalDeps: stated only when no variable is bound twice among the active entries. Within one entry the source's map guarantees this. Across entries, a newer binding of the same variable is overwritten by the older one, and the stored dependency of the newer one is then not kept. The same holds for ConverterSpec.ModelConverterDistinct: across entries the source can hand a variable over twice.
