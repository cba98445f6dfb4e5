/**
 * The whole pass as a function: the module and the value supply after
 * outlining a list of target positions one after the other.
 */
module Pass {
  import opened IR
  import opened RegionUses
  import opened Naming
  import opened Outlined

  /** A module with its supply of fresh value ids. */
  datatype ModuleState = ModuleState(funcs: seq<Func>, nextValue: nat)

  /** One outlining as a step on the module state: the op at `p` is
      outlined under the name the symbol table gives it, and the value
      supply moves past the call's results and the new function's
      arguments; a position holding no op with a region leaves the state
      as it is. */
  function OutlineAt(variant: Variant, s: ModuleState, p: Pos, globallyUnique: bool, hash: Op -> Hash): ModuleState
  {
    if IsPos(s.funcs, p) && OpAt(s.funcs, p).region != [] then
      var op := OpAt(s.funcs, p);
      var name := OutlinedName(op, Names(s.funcs), globallyUnique, hash);
      ModuleState(OutlineModule(variant, s.funcs, p, name, s.nextValue),
                  s.nextValue + |LiveIns(op.region)| + |op.results|)
    else s
  }

  /** The state after applying `step` at each of `targets` in turn. */
  function Fold(step: (ModuleState, Pos) -> ModuleState, s: ModuleState, targets: seq<Pos>): ModuleState
    decreases |targets|
  {
    if targets == [] then s else Fold(step, step(s, targets[0]), targets[1..])
  }

  /** If the first `t` targets took `s0` to `s`, the first `t + 1` take it
      to `step(s, targets[t])`. */
  lemma FoldAdvance(step: (ModuleState, Pos) -> ModuleState, s0: ModuleState, targets: seq<Pos>, t: nat, s: ModuleState)
    requires t < |targets| && Fold(step, s0, targets) == Fold(step, s, targets[t..])
    ensures Fold(step, s0, targets) == Fold(step, step(s, targets[t]), targets[t + 1..])
  {
    assert targets[t..][0] == targets[t] && targets[t..][1..] == targets[t + 1..];
  }

  /** The module and the value supply after outlining the ops at
      `targets`, one after the other, each under the name the symbol table
      gives it at that point. */
  function OutlineAll(variant: Variant, funcs: seq<Func>, targets: seq<Pos>, n: nat,
                      globallyUnique: bool, hash: Op -> Hash): ModuleState
  {
    Fold((s, p) => OutlineAt(variant, s, p, globallyUnique, hash), ModuleState(funcs, n), targets)
  }

  /** The walk's progress: if the targets before `t` took `funcs0` to
      `before`, then outlining target `t` of `before` into `after` carries
      that on to `t + 1`. */
  lemma OutlineAllAdvance(variant: Variant, funcs0: seq<Func>, n0: nat, targets: seq<Pos>, t: nat,
                          before: seq<Func>, n: nat, after: seq<Func>, m: nat,
                          globallyUnique: bool, hash: Op -> Hash)
    requires t < |targets| && IsPos(before, targets[t]) && OpAt(before, targets[t]).region != []
    requires OutlineAll(variant, funcs0, targets, n0, globallyUnique, hash) ==
             OutlineAll(variant, before, targets[t..], n, globallyUnique, hash)
    requires after == OutlineModule(variant, before, targets[t],
                                    OutlinedName(OpAt(before, targets[t]), Names(before), globallyUnique, hash), n)
    requires m == n + |LiveIns(OpAt(before, targets[t]).region)| + |OpAt(before, targets[t]).results|
    ensures OutlineAll(variant, funcs0, targets, n0, globallyUnique, hash) ==
            OutlineAll(variant, after, targets[t + 1..], m, globallyUnique, hash)
  {
    var step := (s, p) => OutlineAt(variant, s, p, globallyUnique, hash);
    FoldAdvance(step, ModuleState(funcs0, n0), targets, t, ModuleState(before, n));
    assert step(ModuleState(before, n), targets[t]) == ModuleState(after, m);
  }

  /** When every target has been outlined, the state reached is the
      outcome; with no targets, that is the state the walk started from. */
  lemma OutlineAllEnd(variant: Variant, funcs0: seq<Func>, n0: nat, targets: seq<Pos>, funcs: seq<Func>, n: nat,
                      globallyUnique: bool, hash: Op -> Hash)
    requires OutlineAll(variant, funcs0, targets, n0, globallyUnique, hash) ==
             OutlineAll(variant, funcs, targets[|targets|..], n, globallyUnique, hash)
    ensures ModuleState(funcs, n) == OutlineAll(variant, funcs0, targets, n0, globallyUnique, hash)
    ensures targets == [] ==> funcs == funcs0 && n == n0
  {
    assert targets[|targets|..] == [];
  }
}
