/**
 * Cluster and launch outlining: the region of a `tf_device.cluster` or
 * `tf_device.launch` op becomes a new private function, and the op is
 * replaced by a `tf_device.cluster_func` or `tf_device.launch_func` call.
 * The two passes share every step; `Variant` selects the op kinds and
 * whether the device attribute is copied explicitly.
 */
module Outlining {
  import opened IR
  import opened RegionUses
  import opened Naming
  import opened Outlined
  import opened Walk
  import opened Pass

  /** The input types of the outlined function: the live-ins' types, in order. */
  method OperandTypes(liveIns: seq<Value>) returns (types: seq<Type>)
    ensures |types| == |liveIns|
    ensures forall i :: 0 <= i < |liveIns| ==> types[i] == liveIns[i].ty
  {
    types := [];
    for i := 0 to |liveIns|
      invariant |types| == i
      invariant forall k :: 0 <= k < i ==> types[k] == liveIns[k].ty
    {
      types := types + [liveIns[i].ty];
    }
  }

  /** The entry block of a function being built: its arguments and its ops. */
  class Block {
    var args: seq<Value>
    var ops: seq<Op>

    constructor (args: seq<Value>)
      ensures this.args == args && ops == []
    {
      this.args := args;
      ops := [];
    }
  }

  /** A `func.return` with the terminator's operands is created just before
      the `tf_device.return` terminator, which is then erased. */
  method ReplaceClusterReturnWithReturn(block: Block)
    requires block.ops != [] && Last(block.ops).kind == DeviceReturnOp
    modifies block`ops
    ensures |block.ops| == |old(block.ops)|
    ensures block.ops[..|block.ops| - 1] == old(block.ops)[..|block.ops| - 1]
    ensures Last(block.ops) == FuncReturn(Last(old(block.ops)).operands)
  {
    var n := |block.ops| - 1;
    var terminator := block.ops[n];
    block.ops := block.ops[..n] + [FuncReturn(terminator.operands)] + [terminator];
    block.ops := block.ops[..n + 1];
  }

  /** The positions of the ops of kind `k` in the body of function `fi`,
      in order. */
  method CollectMatchesIn(body: seq<Op>, fi: nat, k: OpKind) returns (found: seq<Pos>)
    ensures found == MatchesIn(body, fi, k)
  {
    found := [];
    for j := 0 to |body|
      invariant found == MatchesIn(body[..j], fi, k)
    {
      MatchesInStep(body, fi, k, j);
      if body[j].kind == k {
        found := found + [Pos(fi, j)];
      }
    }
    assert body[..|body|] == body;
  }

  /** The module being rewritten: its functions, in order (the symbol table
      is their names), and the first value id not yet in use. */
  class Module {
    var funcs: seq<Func>
    var nextValue: nat

    /** Symbol names are unique, and every value in the module is older
        than the supply. */
    ghost predicate Valid()
      reads this
    {
      WellFormed(funcs, nextValue)
    }

    constructor (funcs: seq<Func>, nextValue: nat)
      requires WellFormed(funcs, nextValue)
      ensures Valid() && this.funcs == funcs && this.nextValue == nextValue
    {
      this.funcs := funcs;
      this.nextValue := nextValue;
    }

    /** New values of the given types, as a builder creates them. */
    method NewValues(types: seq<Type>) returns (vs: seq<Value>)
      modifies this`nextValue
      ensures vs == FreshValues(old(nextValue), types)
      ensures nextValue == old(nextValue) + |types|
    {
      vs := FreshValues(nextValue, types);
      nextValue := nextValue + |types|;
    }

    /** `SymbolTable::insert`: the function is appended to the module under
        a name no other symbol has. */
    method Insert(f: Func) returns (name: string)
      modifies this`funcs
      ensures name == Uniquify(f.name, Names(old(funcs)))
      ensures funcs == old(funcs) + [f.(name := name)]
    {
      name := Uniquify(f.name, Names(funcs));
      funcs := funcs + [f.(name := name)];
    }

    /** `replaceAllUsesInRegionWith(from, to, region)` on the region of the
        op at `p`. */
    method ReplaceAllUsesInRegionWith(from: Value, to: Value, p: Pos)
      requires IsPos(funcs, p)
      modifies this`funcs
      ensures funcs == SetOpAt(old(funcs), p,
        OpAt(old(funcs), p).(region := MapOperands(OpAt(old(funcs), p).region, ReplaceFn(from, to))))
    {
      var op := OpAt(funcs, p);
      funcs := SetOpAt(funcs, p, op.(region := MapOperands(op.region, ReplaceFn(from, to))));
    }

    /** `replaceAllUsesWith`: every use of `from[k]` in the module becomes a
        use of `to[k]`. */
    method ReplaceAllUsesWith(from: seq<Value>, to: seq<Value>)
      modifies this`funcs
      ensures funcs == MapFuncs(old(funcs), SubstFn(from, to))
    {
      funcs := MapFuncs(funcs, SubstFn(from, to));
    }

    /** Replaces the op at `p` (an attribute update, or emptying its region). */
    method SetOp(p: Pos, op: Op)
      requires IsPos(funcs, p)
      modifies this`funcs
      ensures funcs == SetOpAt(old(funcs), p, op)
    {
      funcs := SetOpAt(funcs, p, op);
    }

    /** A builder with its insertion point at `p` creates `op` there. */
    method InsertBefore(p: Pos, op: Op)
      requires IsPos(funcs, p)
      modifies this`funcs
      ensures funcs == InsertOpAt(old(funcs), p, op)
    {
      funcs := InsertOpAt(funcs, p, op);
    }

    method Erase(p: Pos)
      requires IsPos(funcs, p)
      modifies this`funcs
      ensures funcs == EraseOpAt(old(funcs), p)
    {
      funcs := EraseOpAt(funcs, p);
    }

    /** Uses of live-in k inside the region of the op at `p` become uses
        of argument k, one `replaceAllUsesInRegionWith` per pair. */
    method ReplaceLiveInUses(liveIns: seq<Value>, args: seq<Value>, p: Pos)
      requires IsPos(funcs, p) && |liveIns| == |args|
      requires forall v :: v in liveIns ==> v !in args
      modifies this`funcs
      ensures funcs == SetOpAt(old(funcs), p,
        OpAt(old(funcs), p).(region := MapOperands(OpAt(old(funcs), p).region, SubstFn(liveIns, args))))
    {
      ghost var funcs0 := funcs;
      ghost var op := OpAt(funcs, p);
      assert liveIns[..0] == [] && args[..0] == [];
      MapOperandsIdentity(op.region, SubstFn([], []));
      assert op.(region := MapOperands(op.region, SubstFn([], []))) == op;
      SetOpAtSame(funcs0, p);
      for i := 0 to |liveIns|
        invariant funcs == SetOpAt(funcs0, p, op.(region := MapOperands(op.region, SubstFn(liveIns[..i], args[..i]))))
      {
        SubstStep(op.region, liveIns, args, i);
        ReplaceAllUsesInRegionWith(liveIns[i], args[i], p);
        SetOpAtTwice(funcs0, p, op.(region := MapOperands(op.region, SubstFn(liveIns[..i], args[..i]))),
                     op.(region := MapOperands(op.region, SubstFn(liveIns[..i + 1], args[..i + 1]))), []);
      }
      assert liveIns[..|liveIns|] == liveIns && args[..|args|] == args;
    }

    /** Builds the function outlined from the op at `p` and inserts it into
        the module; the op's region is left empty. */
    method BuildFunction(liveIns: seq<Value>, p: Pos, globallyUnique: bool, hash: Op -> Hash) returns (fn: Func)
      requires Valid() && IsPos(funcs, p) && Outlinable(OpAt(funcs, p))
      requires liveIns == LiveIns(OpAt(funcs, p).region)
      modifies this
      ensures Valid()
      ensures fn.name == OutlinedName(OpAt(old(funcs), p), Names(old(funcs)), globallyUnique, hash)
      ensures fn.name !in Names(old(funcs))
      ensures fn == OutlinedFunc(OpAt(old(funcs), p), fn.name, old(nextValue))
      ensures funcs == SetOpAt(old(funcs), p, OpAt(old(funcs), p).(region := [])) + [fn]
      ensures nextValue == old(nextValue) + |liveIns|
    {
      ghost var funcs0, n0 := funcs, nextValue;
      var op := OpAt(funcs, p);
      var operandTypes := OperandTypes(liveIns);
      assert operandTypes == TypesOf(liveIns);
      var funcName := RequestedName(globallyUnique, hash(op));
      // the entry block gets one argument per input type
      var args := NewValues(operandTypes);
      var entry := new Block(args);
      assert OpBelow(op, n0) by {
        assert OpsBelow(funcs0[p.fn].body, n0);
      }
      LiveInsNotArgs(op, n0);
      ReplaceLiveInUses(liveIns, args, p);
      // splice the region's ops onto the end of the entry block
      ghost var moved := OpAt(funcs, p).region;
      assert moved == MapOperands(op.region, SubstFn(liveIns, args));
      entry.ops := entry.ops + OpAt(funcs, p).region;
      assert entry.ops == moved;
      SetOp(p, OpAt(funcs, p).(region := []));
      ghost var emptied := SetOpAt(funcs0, p, op.(region := []));
      SetOpAtTwice(funcs0, p, op.(region := moved), op.(region := []), []);
      assert funcs == emptied;
      ReplaceClusterReturnWithReturn(entry);
      ReturnReplaced(op.region, liveIns, args, entry.ops);
      NamesOfEdits(funcs0, p, op.(region := []), SubstFn([], []));
      var built := Func(funcName, Private, operandTypes, TypesOf(op.results), entry.args, entry.ops);
      var name := Insert(built);
      fn := built.(name := name);
      assert name == Uniquify(funcName, Names(funcs0));
      assert fn == OutlinedFunc(op, name, n0);
      assert funcs == emptied + [fn];
      BuildKeepsValid(funcs0, p, op, fn, n0, nextValue);
    }

    /** The op at `p` gets the `func` reference to the outlined function;
        then the call is created just before it, with the live-ins as
        operands, new results of the function's result types and all of the
        op's attributes; the cluster pass then copies a non-empty string
        `device` attribute of the op onto the call. */
    method CreateCall(variant: Variant, p: Pos, liveIns: seq<Value>, fnName: string, resultTypes: seq<Type>)
      returns (call: Op)
      requires IsPos(funcs, p)
      modifies this
      ensures var named := OpAt(old(funcs), p).(attrs := OpAt(old(funcs), p).attrs[FuncAttr := SymbolRefAttr(fnName)]);
              && call == Op(CallKind(variant), liveIns, FreshValues(old(nextValue), resultTypes), named.attrs, [])
              && funcs == InsertOpAt(SetOpAt(old(funcs), p, named), p, call)
      ensures nextValue == old(nextValue) + |resultTypes|
    {
      var named := OpAt(funcs, p).(attrs := OpAt(funcs, p).attrs[FuncAttr := SymbolRefAttr(fnName)]);
      SetOp(p, named);
      var results := NewValues(resultTypes);
      call := Op(CallKind(variant), liveIns, results, named.attrs, []);
      InsertBefore(p, call);
      ghost var inserted := funcs;
      // the cluster pass's copy of a non-empty string `device`
      ForwardDeviceSame(variant, named.attrs);
      call := call.(attrs := ForwardDevice(variant, named.attrs, call.attrs));
      SetOpAtSame(funcs, p);
      SetOp(p, call);
      assert funcs == inserted;
    }

    /** The op at `p` is replaced by a call of the outlined function `fn`:
        the call is created (see `CreateCall`), every use of the op's results
        becomes a use of the call's results, and the op is erased. */
    method ReplaceWithCall(variant: Variant, p: Pos, liveIns: seq<Value>, fn: Func) returns (call: Op)
      requires IsPos(funcs, p)
      modifies this
      ensures var op := OpAt(old(funcs), p);
              var named := op.(attrs := op.attrs[FuncAttr := SymbolRefAttr(fn.name)]);
              var inserted := InsertOpAt(SetOpAt(old(funcs), p, named), p, call);
              && call == Op(CallKind(variant), liveIns, FreshValues(old(nextValue), fn.resultTypes), named.attrs, [])
              && IsPos(MapFuncs(inserted, SubstFn(op.results, call.results)), Pos(p.fn, p.at + 1))
              && funcs == EraseOpAt(MapFuncs(inserted, SubstFn(op.results, call.results)), Pos(p.fn, p.at + 1))
      ensures nextValue == old(nextValue) + |fn.resultTypes|
    {
      var op := OpAt(funcs, p);
      call := CreateCall(variant, p, liveIns, fn.name, fn.resultTypes);
      // every use of the op's results becomes a use of the call's results
      ReplaceAllUsesWith(op.results, call.results);
      Erase(Pos(p.fn, p.at + 1));
    }

    /** `OutlineCluster` and `OutlineLaunch`: outline the op at `p` into a new
        function and replace the op by a call of it. */
    method Outline(variant: Variant, p: Pos, globallyUnique: bool, hash: Op -> Hash)
      requires Valid() && IsPos(funcs, p)
      requires OpAt(funcs, p).kind == TargetKind(variant) && Outlinable(OpAt(funcs, p))
      modifies this
      ensures Valid()
      ensures var name := OutlinedName(OpAt(old(funcs), p), Names(old(funcs)), globallyUnique, hash);
              && funcs == OutlineModule(variant, old(funcs), p, name, old(nextValue))
              && IsPos(funcs, p) && OpAt(funcs, p) == CallOp(variant, OpAt(old(funcs), p), name, old(nextValue))
      ensures nextValue == old(nextValue) + |LiveIns(OpAt(old(funcs), p).region)| + |OpAt(old(funcs), p).results|
    {
      ghost var funcs0, n0 := funcs, nextValue;
      var op := OpAt(funcs, p);
      var liveIns := GetUsedValuesDefinedAbove(op.region);
      var fn := BuildFunction(liveIns, p, globallyUnique, hash);
      ghost var funcs1, n1 := funcs, nextValue;
      var call := ReplaceWithCall(variant, p, liveIns, fn);
      OutlineStep(variant, funcs0, funcs1, p, op, liveIns, fn, call, n0, n1, nextValue);
    }

    /** The positions of the ops of kind `k`, in walk order. */
    method CollectMatches(k: OpKind) returns (targets: seq<Pos>)
      ensures targets == Matches(funcs, k)
    {
      var fs := funcs;
      targets := [];
      for fi := 0 to |fs|
        invariant targets == Matches(fs[..fi], k)
      {
        var found := CollectMatchesIn(fs[fi].body, fi, k);
        targets := targets + found;
        MatchesStep(fs, k, fi);
      }
      assert fs[..|fs|] == fs;
    }

    /** The pass: walk the module and outline every target op, in walk
        order. Afterwards no target op is left, every original target is a
        call, every other op keeps its kind, and one function was added per
        target. */
    method Run(variant: Variant, globallyUnique: bool, hash: Op -> Hash)
      requires Valid() && Ready(funcs, variant)
      modifies this
      ensures Valid()
      ensures forall fi :: 0 <= fi < |funcs| ==> !Contains(funcs[fi].body, TargetKind(variant))
      ensures forall q :: IsPos(old(funcs), q) ==>
                IsPos(funcs, q) &&
                OpAt(funcs, q).kind ==
                  (if OpAt(old(funcs), q).kind == TargetKind(variant) then CallKind(variant)
                   else OpAt(old(funcs), q).kind)
      ensures |funcs| == |old(funcs)| + |Matches(old(funcs), TargetKind(variant))|
      ensures Matches(old(funcs), TargetKind(variant)) == [] ==> funcs == old(funcs) && nextValue == old(nextValue)
      ensures ModuleState(funcs, nextValue) ==
                OutlineAll(variant, old(funcs), Matches(old(funcs), TargetKind(variant)), old(nextValue),
                           globallyUnique, hash)
    {
      var k := TargetKind(variant);
      var targets := CollectMatches(k);
      ghost var funcs0, n0 := funcs, nextValue;
      WalkStart(variant, funcs);
      assert targets[0..] == targets;
      for t := 0 to |targets|
        invariant Valid()
        invariant Walked(variant, funcs0, targets, t, funcs)
        invariant OutlineAll(variant, funcs0, targets, n0, globallyUnique, hash) ==
                  OutlineAll(variant, funcs, targets[t..], nextValue, globallyUnique, hash)
      {
        var p := targets[t];
        ghost var before, n := funcs, nextValue;
        Outline(variant, p, globallyUnique, hash);
        WalkAdvance(variant, funcs0, targets, t, before, n, funcs, globallyUnique, hash);
        OutlineAllAdvance(variant, funcs0, n0, targets, t, before, n, funcs, nextValue, globallyUnique, hash);
      }
      WalkDone(variant, funcs0, targets, funcs);
      OutlineAllEnd(variant, funcs0, n0, targets, funcs, nextValue, globallyUnique, hash);
    }
  }
}
