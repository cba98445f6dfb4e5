# Cluster and launch outlining, modelled in Dafny

TensorFlow's MLIR bridge has two module passes, cluster outlining and launch
outlining. Each one outlines a region into a function:

- Cluster outlining finds every `tf_device.cluster` op. Launch outlining
  finds every `tf_device.launch` op.
- The op's region is moved into a new private function. The values the
  region uses but does not define (its *live-ins*) become the function's
  parameters, in first-use order.
- The region's `tf_device.return` terminator becomes a `func.return`.
- The op is replaced by a `tf_device.cluster_func` (or
  `tf_device.launch_func`) call. The call passes the live-ins, carries all
  of the op's attributes and has new results of the op's result types.
- Every use of the op's results becomes a use of the call's results.
- The new function is named `_func`. With globally unique names it is
  `_func_` followed by the decimal hash of the op. The symbol table renames
  it when that name is already taken.

The model is organised as follows:

- `ir.dfy` (module `IR`) is the IR as values. A value is an id and a
  type. An op has a kind, operands, results, attributes and a region
  (its list of ops). A function has a name, a visibility, its signature,
  its entry-block arguments and its body. The module also has the
  rewriting primitives: replacing values, inserting, setting and erasing
  ops.
- `live_ins.dfy` (module `RegionUses`) models `getUsedValuesDefinedAbove`
  filling a `SetVector`. It walks the region in post-order, nested regions
  included, and is proved against the specification function `LiveIns`.
- `naming.dfy` (module `Naming`) covers the requested function name, the
  decimal printing of the `size_t` hash, and the symbol table's fresh name.
- `outlined.dfy` (module `Outlined`) holds the specification of one
  outlining: the outlined function, the call, and the module afterwards
  (`OutlineModule`). It also holds the lemmas about them.
- `outlining.dfy` (module `Outlining`) holds the passes as imperative
  code. A class `Module` owns the functions and the value-id supply.
  - `BuildFunction`, `CreateCall`, `ReplaceWithCall` and `Outline` follow
    `BuildFunction`, `OutlineCluster` and `OutlineLaunch` edit by edit.
  - `Run` is the module walk of `runOnOperation`.
  - The two passes differ only in a `Variant` tag. The tag selects the op
    kinds and whether the `device` attribute is copied explicitly.
- `walk.dfy` (module `Walk`) has the walk order of the targets and what
  one outlining does to the targets the walk has still to reach.
- `pass.dfy` (module `Pass`) states the whole pass as a function,
  `OutlineAll`: the targets outlined one after the other, each under the
  name the symbol table gives it at that point.

The class invariant `Module.Valid` has two parts: symbol names are unique,
and every value id in the module is below the supply.

Two details of `cluster_outlining.cc` shape the model:

- **Device attribute.** The explicit `device` copy (lines 152-155) is
  redundant. The call is created with all of the op's attributes (lines
  149-151), so `device` reaches the call whether or not it is empty.
  `Outlined.CallAttributes` and `Outlined.ForwardDeviceSame` prove this.
- **The `func` attribute.** The op gets the `func` attribute (lines
  144-146) before the call is created, so the call carries it too.

## Model

| member | source | states |
|---|---|---|
| RegionUses.LiveInsSpec | tensorflow/compiler/mlir/tensorflow/transforms/cluster_outlining.cc:137-139 | The live-ins are exactly the values used in the region and not defined in it. Each appears once, ordered by first use. |
| RegionUses.GetUsedValuesDefinedAbove | tensorflow/compiler/mlir/tensorflow/transforms/cluster_outlining.cc:137-139 | For any region, nested regions included, the walk inserting each operand into a set-vector yields exactly `LiveIns(region)`. |
| RegionUses.InsertUses | tensorflow/compiler/mlir/tensorflow/transforms/cluster_outlining.cc:137-139 | Walking a list of ops in post-order (an op's nested region before its own operands) extends the set-vector exactly as inserting that list's uses one by one. |
| RegionUses.InsertOperands | tensorflow/compiler/mlir/tensorflow/transforms/cluster_outlining.cc:137-139 | Inserting one op's operands in order extends the set-vector by the new ones that the region does not define. |
| RegionUses.UsesMembers | tensorflow/compiler/mlir/tensorflow/transforms/cluster_outlining.cc:137-139 | A value is met by the walk exactly when some op of the region uses it, at any depth. |
| RegionUses.UsesMapped | tensorflow/compiler/mlir/tensorflow/transforms/cluster_outlining.cc:109-114 | Rewriting uses inside a region rewrites the walk: the rewritten region's uses are the old uses passed through the rewrite, in the same order. |
| RegionUses.DefinedMapped | tensorflow/compiler/mlir/tensorflow/transforms/cluster_outlining.cc:109-114 | Rewriting uses keeps every definition of the region, at any depth. |
| Naming.Decimal | tensorflow/compiler/mlir/tensorflow/transforms/cluster_outlining.cc:93-94 | The printed hash is a non-empty string of decimal digits that denote the hash (`DigitsValue`). It starts with `0` only for zero, and it is one digit exactly when the hash is below 10. |
| Naming.DecimalInjective | tensorflow/compiler/mlir/tensorflow/transforms/cluster_outlining.cc:93-94 | Different hashes print differently. |
| Naming.RequestedNameSpec | tensorflow/compiler/mlir/tensorflow/transforms/cluster_outlining.cc:86-97 | With unique names, two ops request the same name exactly when their hashes agree, and never `_func`. Without unique names every op requests `_func`. |
| Naming.Uniquify | tensorflow/compiler/mlir/tensorflow/transforms/cluster_outlining.cc:128 | The inserted function's name is not taken by any other symbol. It is the requested name when that one is free. |
| Outlining.OperandTypes | tensorflow/compiler/mlir/tensorflow/transforms/cluster_outlining.cc:80-82 | Input type i is the type of live-in i, for every i, with as many types as live-ins. |
| Outlining.ReplaceClusterReturnWithReturn | tensorflow/compiler/mlir/tensorflow/transforms/cluster_outlining.cc:67-72 | The terminator is replaced in place by a `func.return` of its operands, and every other op of the block is kept. |
| Outlining.Block.constructor | tensorflow/compiler/mlir/tensorflow/transforms/cluster_outlining.cc:107 | The entry block starts with the given arguments, one per input type, and no ops. |
| Outlining.Module.Insert | tensorflow/compiler/mlir/tensorflow/transforms/cluster_outlining.cc:128 | The function is appended to the module under the symbol table's fresh name. |
| Outlining.Module.NewValues | tensorflow/compiler/mlir/tensorflow/transforms/cluster_outlining.cc:149-151 | The builder's new values are `FreshValues` of the requested types, and the supply moves past them; `IR.FreshValuesSpec` shows they are distinct, typed as requested and above every value of the module. |
| Outlining.Module.ReplaceAllUsesInRegionWith | tensorflow/compiler/mlir/tensorflow/transforms/cluster_outlining.cc:113 | One replacement rewrites only the region of the op at `p`; `ReplaceLiveInUses` and `IR.SubstValueSnoc` chain these into the simultaneous substitution. |
| Outlining.Module.ReplaceAllUsesWith | tensorflow/compiler/mlir/tensorflow/transforms/cluster_outlining.cc:156 | Every use in the module of result k becomes a use of new result k; `IR.SubstValueSpec` and `Walk.ErasedResultsUnused` show no use of the old results is left. |
| Outlining.Module.SetOp | tensorflow/compiler/mlir/tensorflow/transforms/cluster_outlining.cc:144-146 | Only the op at `p` changes; `IR.SetOpAt` keeps every other op and function, and `IR.SetOpAtTwice` shows a later set overrides it. |
| Outlining.Module.InsertBefore | tensorflow/compiler/mlir/tensorflow/transforms/cluster_outlining.cc:148-151 | The call is inserted just before the op at `p`; `IR.InsertThenErase` shows that with the later erase it puts the call in the op's place. |
| Outlining.Module.Erase | tensorflow/compiler/mlir/tensorflow/transforms/cluster_outlining.cc:157 | The op at the given position is removed and nothing else changes; see `IR.InsertThenErase`. |
| IR.FreshValuesSpec | tensorflow/compiler/mlir/tensorflow/transforms/cluster_outlining.cc:149-151 | New values have the requested types, are pairwise distinct, and have ids from the supply on, so they are fresh in a well-formed module. |
| Outlining.Module.ReplaceLiveInUses | tensorflow/compiler/mlir/tensorflow/transforms/cluster_outlining.cc:109-114 | Replacing live-in k by argument k, one pair at a time, rewrites the region by the simultaneous substitution. Nothing outside the region changes. |
| Outlining.Module.BuildFunction | tensorflow/compiler/mlir/tensorflow/transforms/cluster_outlining.cc:76-130 | The function built and inserted is `OutlinedFunc` of the op, under a name not previously in the module. The op's region is left empty, the function is appended last, and `Valid` is kept. |
| Outlining.Module.CreateCall | tensorflow/compiler/mlir/tensorflow/transforms/cluster_outlining.cc:144-155 | The op gets the `func` reference first. The call is inserted just before it, with the live-ins as operands, new results of the function's result types and the op's attributes. The device copy leaves it unchanged. |
| Outlining.Module.ReplaceWithCall | tensorflow/compiler/mlir/tensorflow/transforms/cluster_outlining.cc:144-157 | After creating the call, every use of the op's results is rewired to the call's results, by position. The op, now just after the call, is erased. |
| Outlining.Module.Outline | tensorflow/compiler/mlir/tensorflow/transforms/cluster_outlining.cc:135-182 | One outlining turns the module into `OutlineModule` and keeps `Valid`. The call stands where the op stood, and the value supply grows by the live-ins plus the results. `Walk.ErasedResultsUnused` shows no op anywhere still uses a result of the erased op. |
| Outlining.CollectMatchesIn | tensorflow/compiler/mlir/tensorflow/transforms/cluster_outlining.cc:188 | The scan of one body yields exactly `MatchesIn`: the target positions in order. |
| Outlining.Module.CollectMatches | tensorflow/compiler/mlir/tensorflow/transforms/cluster_outlining.cc:188 | The scan of the module yields exactly `Matches`: the target positions in walk order. |
| Outlining.Module.Run | tensorflow/compiler/mlir/tensorflow/transforms/cluster_outlining.cc:184-202 | The final module and value supply are exactly `Pass.OutlineAll` of the targets in walk order. No op of the target kind is left anywhere, every original target is a call, every other op keeps its kind, and one function is added per target. With no target the module is unchanged. `Valid` is kept. |
| Walk.MatchesSpec | tensorflow/compiler/mlir/tensorflow/transforms/cluster_outlining.cc:188 | A position is listed exactly when a target op stands there. |
| Walk.MatchesOrdered | tensorflow/compiler/mlir/tensorflow/transforms/cluster_outlining.cc:188 | The listed positions are strictly increasing in walk order, so each is listed once. |
| Walk.OutlinableRewired | tensorflow/compiler/mlir/tensorflow/transforms/cluster_outlining.cc:156 | Rewiring one op's results to fresh values of the same types keeps another outlinable op outlinable. |
| Walk.StepPending | tensorflow/compiler/mlir/tensorflow/transforms/cluster_outlining.cc:188-191 | After one outlining, the targets the walk has still to reach are in place, of the target kind, and outlinable. |
| Walk.StepNoneNested | tensorflow/compiler/mlir/tensorflow/transforms/cluster_outlining.cc:148-157 | Outlining nests no target op inside any region, including the new function's. |
| Walk.StepAddedClean | tensorflow/compiler/mlir/tensorflow/transforms/cluster_outlining.cc:116-128 | The functions added by the walk hold no target op. |
| Walk.StepKinds | tensorflow/compiler/mlir/tensorflow/transforms/cluster_outlining.cc:148-157 | The outlined position becomes a call, every other op of the original module keeps its kind, and the module grows by one function. |
| Walk.WalkDone | tensorflow/compiler/mlir/tensorflow/transforms/cluster_outlining.cc:184-202 | Once every listed target is outlined, no target op remains anywhere. The original targets are calls and other ops keep their kinds. |
| Walk.WalkStart | tensorflow/compiler/mlir/tensorflow/transforms/cluster_outlining.cc:188 | Before the walk, every listed target is in place, of the target kind and outlinable, and the targets are in walk order. |
| Walk.WalkAdvance | tensorflow/compiler/mlir/tensorflow/transforms/cluster_outlining.cc:188-191 | Outlining the next target keeps the walk's state: later targets pending, no nested or added target op, kinds settled so far. |
| Walk.ErasedResultsUnused | tensorflow/compiler/mlir/tensorflow/transforms/cluster_outlining.cc:156-157 | After one outlining, no op in any function, at any depth, uses a result of the erased op. |
| Pass.FoldAdvance | tensorflow/compiler/mlir/tensorflow/transforms/cluster_outlining.cc:188-191 | If the first t targets lead to a state, the first t + 1 lead to that state stepped at target t. |
| Pass.OutlineAllAdvance | tensorflow/compiler/mlir/tensorflow/transforms/cluster_outlining.cc:188-191 | Outlining target t of the current module carries the walk from t to t + 1 towards the same `OutlineAll` outcome. |
| Pass.OutlineAllEnd | tensorflow/compiler/mlir/tensorflow/transforms/cluster_outlining.cc:184-191 | Once every target is done, the current state is the `OutlineAll` outcome; with no targets it is the starting state. |
| Outlined.SignatureAgrees | tensorflow/compiler/mlir/tensorflow/transforms/cluster_outlining.cc:80-104 | The function is private. Argument k, input type k and live-in k (call operand k) agree in type. The function's results, the op's results and the call's results agree. The body ends in a `func.return` of the function's result types. |
| Outlined.BodyMovedInOrder | tensorflow/compiler/mlir/tensorflow/transforms/cluster_outlining.cc:109-126 | The body holds the region's ops in order, with the same kinds, results and attributes, and their nested regions rewritten the same way. A use of live-in k becomes argument k and other uses are unchanged. The terminator becomes a `func.return`. |
| Outlined.CaptureComplete | tensorflow/compiler/mlir/tensorflow/transforms/cluster_outlining.cc:109-119 | Every value the body uses, at any depth, is a function argument or a value the body defines: nothing is captured from outside. |
| Outlined.BodyUsesAndDefs | tensorflow/compiler/mlir/tensorflow/transforms/cluster_outlining.cc:109-126 | At any depth, the body uses the region's uses through the live-in substitution and defines exactly what the region defines. |
| Outlined.CallAttributes | tensorflow/compiler/mlir/tensorflow/transforms/cluster_outlining.cc:144-155 | The call's `func` names the outlined function. `device` is on the call exactly when it was on the op, with the same value. The explicit device copy changes nothing. |
| Outlined.ForwardDeviceSame | tensorflow/compiler/mlir/tensorflow/transforms/cluster_outlining.cc:152-155 | Copying `device` onto a call that already carries all of the op's attributes leaves the attributes unchanged. |
| Outlined.RewireSkipsOutlined | tensorflow/compiler/mlir/tensorflow/transforms/cluster_outlining.cc:156 | Rewiring the op's results leaves both the outlined body and the call unchanged, because neither uses those results. |
| Outlined.BuildKeepsValid | tensorflow/compiler/mlir/tensorflow/transforms/cluster_outlining.cc:99-130 | Emptying the region and appending the function under a fresh name keeps names unique and every value below the supply. |
| Outlined.OutlineKeepsValid | tensorflow/compiler/mlir/tensorflow/transforms/cluster_outlining.cc:141-157 | Putting the call in place and rewiring uses keeps names unique and every value below the grown supply. |
| Outlined.OutlineStep | tensorflow/compiler/mlir/tensorflow/transforms/cluster_outlining.cc:135-158 | The edit sequence yields `OutlineModule`: build the function, set `func`, create the call before the op, rewire, erase. The call built is `CallOp`, and the module stays well formed. |
| IR.SubstValueSpec | tensorflow/compiler/mlir/tensorflow/transforms/cluster_outlining.cc:156 | Replacing uses by position sends result k to new result k and leaves every other value alone. |
| IR.SubstValueSnoc | tensorflow/compiler/mlir/tensorflow/transforms/cluster_outlining.cc:112-114 | Replacing one more pair after the others equals the simultaneous substitution, when no value put in earlier is replaced later. |
| IR.InsertThenErase | tensorflow/compiler/mlir/tensorflow/transforms/cluster_outlining.cc:148-157 | Creating the call before the op, rewiring and erasing the op equals putting the call in the op's place and rewiring. |
| IR.MapOperandsContains | tensorflow/compiler/mlir/tensorflow/transforms/cluster_outlining.cc:156 | Rewiring uses neither creates nor removes an op of any kind. |

## Left out

- Outlining.Module.Run: a target op nested inside another op's region is not walked. `Walk.Ready` requires that none exists (`Walk.NoneNested`), because a position is a function index and a top-level body index. With that, MLIR's post-order walk reduces to function order, then body order. Nested regions themselves are modelled: live-ins, rewriting and moving reach ops at any depth.
- RegionUses.DefinedIn: values defined inside a region are the results of its ops at any depth. Block arguments of nested regions are not modelled, because the IR here has block arguments only at function level.
- Walk during mutation: MLIR visits ops while earlier ones are being replaced. The model first collects the target positions, then outlines them in that order. The functions appended during the walk contain no target op, so visiting them changes nothing.
- `OperationEquivalence::computeHash` is not part of this model. The hash is a parameter `hash: Op -> Hash`, applied to the op as it stands when it is outlined. `Hash` is the 64-bit range of `size_t`.
- Naming.Uniquify: MLIR's renaming scheme (a counter suffix) is not modelled. The stand-in states only what the pass relies on: the name is fresh, and a free name is kept.
- Source locations, `OpBuilder` insertion points as objects, `MLIRContext`, and `FunctionType` as an object are not modelled. The function's signature is its list of input types and its list of result types.
- Outlined.Outlinable: what the op verifiers of `tf_device.cluster` and `tf_device.launch` guarantee is assumed, not checked. The region is non-empty. Its last op is a `tf_device.return` with no results and no region, whose operand types are the op's result types. No op of the region, at any depth, uses one of the op's own results.
- Pass options, registration and the factory functions (lines 43-65 and 206-214) are not modelled.
