/**
 * What outlining one cluster or launch op produces: the new function and
 * the call that replaces the op, as functions of the op, the symbol names
 * already taken and the first unused value id; and what they promise.
 */
module Outlined {
  import opened IR
  import opened RegionUses
  import opened Naming

  /** Which pass: cluster outlining or launch outlining. */
  datatype Variant = Cluster | Launch

  /** The op kind a pass outlines. */
  function TargetKind(variant: Variant): OpKind
  {
    if variant == Cluster then ClusterOp else LaunchOp
  }

  /** The op kind a pass calls the outlined function with. */
  function CallKind(variant: Variant): OpKind
  {
    if variant == Cluster then ClusterFuncOp else LaunchFuncOp
  }

  function Last(ops: seq<Op>): Op
    requires ops != []
  {
    ops[|ops| - 1]
  }

  function FuncReturn(operands: seq<Value>): Op
  {
    Op(FuncReturnOp, operands, [], map[], [])
  }

  /** What the IR verifier guarantees of a cluster or launch op: a
      non-empty body ending in a `tf_device.return` terminator (no results,
      no region) whose operand types are the op's result types, and no use
      of the op's own results anywhere inside it. */
  ghost predicate Outlinable(op: Op)
  {
    && op.region != []
    && Last(op.region).kind == DeviceReturnOp
    && Last(op.region).results == []
    && Last(op.region).region == []
    && TypesOf(Last(op.region).operands) == TypesOf(op.results)
    && (forall v :: UsedIn(v, op.region) ==> v !in op.results)
  }

  /** The outlined body: the region's ops, in order, with every use of
      live-in k replaced by argument k, and the terminator replaced by a
      `func.return` of the same operands. */
  function OutlinedBody(region: seq<Op>, liveIns: seq<Value>, args: seq<Value>): seq<Op>
    requires region != []
  {
    var moved := MapOperands(region, SubstFn(liveIns, args));
    moved[..|moved| - 1] + [FuncReturn(Last(moved).operands)]
  }

  /** The name the outlined function ends up with: the requested name, made
      unique against the names `taken` in the symbol table. */
  function OutlinedName(op: Op, taken: seq<string>, globallyUnique: bool, hash: Op -> Hash): string
  {
    Uniquify(RequestedName(globallyUnique, hash(op)), taken)
  }

  /** The function outlined from `op` under the name `name`, when `first` is
      the first unused value id: private, one argument per live-in, the op's
      result types, and the outlined body. */
  function OutlinedFunc(op: Op, name: string, first: nat): Func
    requires op.region != []
  {
    var liveIns := LiveIns(op.region);
    var args := FreshValues(first, TypesOf(liveIns));
    Func(name, Private, TypesOf(liveIns), TypesOf(op.results), args, OutlinedBody(op.region, liveIns, args))
  }

  /** The call that replaces `op`: the live-ins as operands, new results of
      the op's result types, and all of `op`'s attributes plus the `func`
      reference to the function named `name`. */
  function CallOp(variant: Variant, op: Op, name: string, first: nat): Op
  {
    var liveIns := LiveIns(op.region);
    Op(CallKind(variant), liveIns, FreshValues(first + |liveIns|, TypesOf(op.results)),
       op.attrs[FuncAttr := SymbolRefAttr(name)], [])
  }

  /** The module after outlining the op at `p`: the call in the op's place,
      every use of the op's results rewired to the call's results, and the
      outlined function appended. */
  function OutlineModule(variant: Variant, funcs: seq<Func>, p: Pos, name: string, n: nat): seq<Func>
    requires IsPos(funcs, p) && OpAt(funcs, p).region != []
  {
    var op := OpAt(funcs, p);
    var call := CallOp(variant, op, name, n);
    MapFuncs(SetOpAt(funcs, p, call), SubstFn(op.results, call.results)) + [OutlinedFunc(op, name, n)]
  }

  /** The call's attributes after the cluster pass's explicit device copy:
      a non-empty string `device` of the original op is set on the call. */
  function ForwardDevice(variant: Variant, original: map<string, Attr>, call: map<string, Attr>): map<string, Attr>
  {
    if variant == Cluster && DeviceAttr in original && original[DeviceAttr].StringAttr?
       && original[DeviceAttr].str != ""
    then call[DeviceAttr := original[DeviceAttr]]
    else call
  }

  /** The explicit device copy onto a call that already carries all of the
      op's attributes changes nothing. */
  lemma ForwardDeviceSame(variant: Variant, attrs: map<string, Attr>)
    ensures ForwardDevice(variant, attrs, attrs) == attrs
  {
    if DeviceAttr in attrs {
      assert attrs[DeviceAttr := attrs[DeviceAttr]] == attrs;
    }
  }

  // ---------------------------------------------------------------------
  // Properties of one outlining

  /** Parameter k of the function, operand k of the call and live-in k are
      the same value's type; the function's results, the op's results and
      the call's results agree in number and type; the `func.return` returns
      values of exactly the function's result types. */
  lemma {:induction false} SignatureAgrees(variant: Variant, op: Op, name: string, first: nat)
    requires Outlinable(op)
    ensures var liveIns := LiveIns(op.region);
            var fn := OutlinedFunc(op, name, first);
            var call := CallOp(variant, op, name, first);
            && fn.visibility == Private
            && call.operands == liveIns
            && |fn.args| == |fn.inputs| == |liveIns|
            && (forall k :: 0 <= k < |liveIns| ==> fn.args[k].ty == fn.inputs[k] == liveIns[k].ty)
            && fn.resultTypes == TypesOf(op.results) == TypesOf(call.results)
            && fn.body != [] && Last(fn.body).kind == FuncReturnOp
            && TypesOf(Last(fn.body).operands) == fn.resultTypes
  {
    var region := op.region;
    var liveIns := LiveIns(region);
    var args := FreshValues(first, TypesOf(liveIns));
    var f := SubstFn(liveIns, args);
    var moved := MapOperands(region, f);
    var body := OutlinedBody(region, liveIns, args);
    var term := Last(region);
    MapOperandsAt(region, f, |region| - 1);
    assert Last(body) == FuncReturn(moved[|region| - 1].operands);
    var ret := Last(body);
    assert TypesOf(args) == TypesOf(liveIns);
    forall k | 0 <= k < |term.operands| ensures TypesOf(ret.operands)[k] == TypesOf(term.operands)[k] {
      SubstValueType(term.operands[k], liveIns, args);
    }
    assert TypesOf(ret.operands) == TypesOf(term.operands);
  }

  /** The body keeps every op of the region, in order and none twice: op j
      of the function is op j of the region (same kind, results and
      attributes, its nested region rewritten the same way), except that the
      terminator is now a `func.return`; in each operand list a use of
      live-in k has become argument k and every other use is unchanged. */
  lemma {:induction false} BodyMovedInOrder(region: seq<Op>, liveIns: seq<Value>, args: seq<Value>)
    requires region != [] && |liveIns| == |args|
    ensures var body := OutlinedBody(region, liveIns, args);
            && |body| == |region|
            && (forall j :: 0 <= j < |region| - 1 ==>
                  body[j].kind == region[j].kind && body[j].results == region[j].results &&
                  body[j].attrs == region[j].attrs &&
                  body[j].region == MapOperands(region[j].region, SubstFn(liveIns, args)))
            && body[|region| - 1] == FuncReturn(body[|region| - 1].operands)
            && (forall j :: 0 <= j < |region| ==> |body[j].operands| == |region[j].operands|)
            && (forall j, m :: 0 <= j < |region| && 0 <= m < |region[j].operands| ==>
                  body[j].operands[m] ==
                    (if region[j].operands[m] in liveIns
                     then args[IndexOf(region[j].operands[m], liveIns)]
                     else region[j].operands[m]))
  {
    var f := SubstFn(liveIns, args);
    var body := OutlinedBody(region, liveIns, args);
    var moved := MapOperands(region, f);
    var n := |region|;
    forall j | 0 <= j < n
      ensures body[j].kind == (if j < n - 1 then region[j].kind else FuncReturnOp)
      ensures j < n - 1 ==> body[j].results == region[j].results && body[j].attrs == region[j].attrs
      ensures j < n - 1 ==> body[j].region == MapOperands(region[j].region, f)
      ensures body[j].operands == moved[j].operands
      ensures |body[j].operands| == |region[j].operands|
      ensures forall m :: 0 <= m < |region[j].operands| ==>
                body[j].operands[m] ==
                  (if region[j].operands[m] in liveIns
                   then args[IndexOf(region[j].operands[m], liveIns)]
                   else region[j].operands[m])
    {
      MapOperandsAt(region, f, j);
      if j < n - 1 {
        assert body[j] == moved[j];
      }
      forall m | 0 <= m < |region[j].operands|
        ensures moved[j].operands[m] ==
                  (if region[j].operands[m] in liveIns
                   then args[IndexOf(region[j].operands[m], liveIns)]
                   else region[j].operands[m])
      {
        SubstValueSpec(region[j].operands[m], liveIns, args);
      }
    }
  }

  /** At any depth, the outlined body uses the region's uses passed through
      the live-in substitution, and defines what the region defines. */
  lemma BodyUsesAndDefs(region: seq<Op>, liveIns: seq<Value>, args: seq<Value>)
    requires region != [] && Last(region).results == [] && Last(region).region == []
    ensures var body := OutlinedBody(region, liveIns, args);
            && Uses(body) == MapValues(Uses(region), SubstFn(liveIns, args))
            && forall v :: DefinedIn(v, body) <==> DefinedIn(v, region)
  {
    var f := SubstFn(liveIns, args);
    var moved := MapOperands(region, f);
    var body := OutlinedBody(region, liveIns, args);
    var n := |region|;
    MapOperandsAt(region, f, n - 1);
    assert body[..n - 1] == moved[..n - 1];
    UsesMapped(region, f);
    assert Uses(body) == Uses(moved);
    forall v ensures DefinedIn(v, body) <==> DefinedIn(v, region) {
      DefinedMapped(region, f, v);
      if DefinedIn(v, moved) {
        var i :| 0 <= i < n && (v in moved[i].results || DefinedIn(v, moved[i].region));
        assert i < n - 1 && body[i] == moved[i];
      }
      if DefinedIn(v, body) {
        var i :| 0 <= i < n && (v in body[i].results || DefinedIn(v, body[i].region));
        assert body[i] == moved[i];
      }
    }
  }

  /** Nothing in the outlined body refers to a value from outside it: every
      use, at any depth, is an argument of the function or a value the body
      defines. */
  lemma CaptureComplete(op: Op, name: string, first: nat)
    requires Outlinable(op)
    ensures var fn := OutlinedFunc(op, name, first);
            forall v :: UsedIn(v, fn.body) ==> v in fn.args || DefinedIn(v, fn.body)
  {
    var region := op.region;
    var liveIns := LiveIns(region);
    var fn := OutlinedFunc(op, name, first);
    var args := fn.args;
    var f := SubstFn(liveIns, args);
    LiveInsSpec(region);
    BodyUsesAndDefs(region, liveIns, args);
    forall v | UsedIn(v, fn.body) ensures v in args || DefinedIn(v, fn.body) {
      UsesMembers(fn.body, v);
      var k :| 0 <= k < |Uses(region)| && MapValues(Uses(region), f)[k] == v;
      var u := Uses(region)[k];
      UsesMembers(region, u);
      SubstValueSpec(u, liveIns, args);
    }
  }

  /** The call forwards the op's attributes: `func` names the outlined
      function, `device` is on the call exactly when it was on the op, with
      the same value, and the cluster pass's explicit device copy changes
      nothing, also when `device` is empty. */
  lemma CallAttributes(variant: Variant, op: Op, name: string, first: nat)
    ensures var call := CallOp(variant, op, name, first);
            && FuncAttr in call.attrs && call.attrs[FuncAttr] == SymbolRefAttr(name)
            && (DeviceAttr in call.attrs <==> DeviceAttr in op.attrs)
            && (DeviceAttr in op.attrs ==> call.attrs[DeviceAttr] == op.attrs[DeviceAttr])
            && ForwardDevice(variant, op.attrs[FuncAttr := SymbolRefAttr(name)], call.attrs) == call.attrs
  {
    var call := CallOp(variant, op, name, first);
    var named := op.attrs[FuncAttr := SymbolRefAttr(name)];
    if DeviceAttr in named {
      assert call.attrs[DeviceAttr := named[DeviceAttr]] == call.attrs;
    }
  }

  // ---------------------------------------------------------------------
  // Facts the imperative steps rely on

  /** A list that agrees with `moved` except that its last op is the
      `func.return` of the last op's operands is the outlined body. */
  lemma ReturnReplaced(region: seq<Op>, liveIns: seq<Value>, args: seq<Value>, ops: seq<Op>)
    requires region != []
    requires var moved := MapOperands(region, SubstFn(liveIns, args));
             && |ops| == |moved| && ops[..|ops| - 1] == moved[..|ops| - 1]
             && Last(ops) == FuncReturn(Last(moved).operands)
    ensures ops == OutlinedBody(region, liveIns, args)
  {
    var moved := MapOperands(region, SubstFn(liveIns, args));
    assert ops == ops[..|ops| - 1] + [Last(ops)];
  }

  /** The live-ins of an op are among its values. */
  lemma LiveInsBelow(op: Op, n: nat)
    requires OpBelow(op, n)
    ensures forall v :: v in LiveIns(op.region) ==> v.id < n
  {
    LiveInsSpec(op.region);
    forall v | v in LiveIns(op.region) ensures v.id < n {
      UsedBelow(op.region, n, v);
    }
  }

  /** One more turn of the use-rewriting loop extends the substitution by
      one pair; the new live-in is none of the arguments already put in. */
  lemma SubstStep(region: seq<Op>, liveIns: seq<Value>, args: seq<Value>, i: nat)
    requires i < |liveIns| == |args|
    requires forall v :: v in liveIns ==> v !in args
    ensures MapOperands(MapOperands(region, SubstFn(liveIns[..i], args[..i])), ReplaceFn(liveIns[i], args[i]))
         == MapOperands(region, SubstFn(liveIns[..i + 1], args[..i + 1]))
  {
    var from, to := liveIns[..i], args[..i];
    assert liveIns[..i + 1] == from + [liveIns[i]];
    assert args[..i + 1] == to + [args[i]];
    assert liveIns[i] !in to by {
      assert liveIns[i] in liveIns;
    }
    forall v ensures SubstFn(liveIns[..i + 1], args[..i + 1])(v)
                  == ReplaceFn(liveIns[i], args[i])(SubstFn(from, to)(v))
    {
      SubstValueSnoc(v, from, to, liveIns[i], args[i]);
    }
    MapOperandsCompose(region, SubstFn(from, to), ReplaceFn(liveIns[i], args[i]),
                       SubstFn(liveIns[..i + 1], args[..i + 1]));
  }

  /** Rewriting a region's live-ins to arguments below `m` keeps it below
      `m`, terminator included. */
  lemma OutlinedBodyBelow(region: seq<Op>, liveIns: seq<Value>, args: seq<Value>, n: nat, m: nat)
    requires region != [] && OpsBelow(region, n) && |liveIns| == |args| && n <= m
    requires forall v :: v in args ==> v.id < m
    ensures OpsBelow(OutlinedBody(region, liveIns, args), m)
  {
    var f := SubstFn(liveIns, args);
    var moved := MapOperands(region, f);
    var body := OutlinedBody(region, liveIns, args);
    forall v: Value | v.id < n ensures f(v).id < m {
      SubstValueSpec(v, liveIns, args);
    }
    MapOperandsBelow(region, f, n, m);
    var last := |region| - 1;
    assert OpBelow(moved[last], m);
    assert body[last] == FuncReturn(moved[last].operands);
    forall j | 0 <= j < |body| ensures OpBelow(body[j], m) {
      if j < last {
        assert body[j] == moved[j];
      }
    }
  }

  /** No op of the outlined body, at any depth, uses a result of the
      outlined op: uses of live-ins became fresh arguments, and the region
      never used the op's own results. */
  lemma BodyAvoidsResults(op: Op, liveIns: seq<Value>, n: nat)
    requires Outlinable(op) && OpBelow(op, n) && liveIns == LiveIns(op.region)
    ensures var body := OutlinedBody(op.region, liveIns, FreshValues(n, TypesOf(liveIns)));
            forall v :: UsedIn(v, body) ==> v !in op.results
  {
    var region := op.region;
    var args := FreshValues(n, TypesOf(liveIns));
    var f := SubstFn(liveIns, args);
    var body := OutlinedBody(region, liveIns, args);
    BodyUsesAndDefs(region, liveIns, args);
    forall v | UsedIn(v, body) ensures v !in op.results {
      UsesMembers(body, v);
      var k :| 0 <= k < |Uses(region)| && MapValues(Uses(region), f)[k] == v;
      var u := Uses(region)[k];
      UsesMembers(region, u);
      SubstValueSpec(u, liveIns, args);
      if u in liveIns {
        assert v == args[IndexOf(u, liveIns)] && v.id >= n;
      }
    }
  }

  /** A rewrite that fixes every value but the op's results leaves the
      outlined body alone. */
  lemma RewireSkipsBody(op: Op, liveIns: seq<Value>, n: nat, rewire: Value -> Value)
    requires Outlinable(op) && OpBelow(op, n) && liveIns == LiveIns(op.region)
    requires forall v :: v !in op.results ==> rewire(v) == v
    ensures var body := OutlinedBody(op.region, liveIns, FreshValues(n, TypesOf(liveIns)));
            MapOperands(body, rewire) == body
  {
    var args := FreshValues(n, TypesOf(liveIns));
    var body := OutlinedBody(op.region, liveIns, args);
    BodyAvoidsResults(op, liveIns, n);
    FixesUsed(rewire, body);
    MapOperandsFixed(body, rewire);
  }

  /** Rewiring the op's results to the call's results touches neither the
      outlined body nor the call: neither uses the op's results. */
  lemma RewireSkipsOutlined(variant: Variant, op: Op, name: string, n: nat)
    requires Outlinable(op) && OpBelow(op, n)
    ensures var liveIns := LiveIns(op.region);
            var body := OutlinedBody(op.region, liveIns, FreshValues(n, TypesOf(liveIns)));
            var call := CallOp(variant, op, name, n);
            var rewire := SubstFn(op.results, call.results);
            MapOperands(body, rewire) == body && MapOperandsOf(call, rewire) == call
  {
    var liveIns := LiveIns(op.region);
    var call := CallOp(variant, op, name, n);
    var rewire := SubstFn(op.results, call.results);
    forall v | v !in op.results ensures rewire(v) == v {
      SubstValueSpec(v, op.results, call.results);
    }
    RewireSkipsBody(op, liveIns, n, rewire);
    LiveInsSpec(op.region);
    forall k | 0 <= k < |liveIns| ensures rewire(liveIns[k]) == liveIns[k] {
      assert liveIns[k] in liveIns;
    }
    assert MapValues(call.operands, rewire) == call.operands;
  }

  /** The edits of one outlining, in the order the pass makes them: after
      the function is appended, the op gets the `func` reference, the call is
      created before it, uses of the op's results are rewired and the op is
      erased. Together they put the call in the op's place and rewire the
      rest of the module, the new function untouched. */
  lemma OutlineEdits(funcs0: seq<Func>, funcs1: seq<Func>, p: Pos, emptied: Op, named: Op, call: Op,
                     fn: Func, rewire: Value -> Value)
    requires IsPos(funcs0, p) && funcs1 == SetOpAt(funcs0, p, emptied) + [fn]
    requires MapOperands(fn.body, rewire) == fn.body && MapOperandsOf(call, rewire) == call
    ensures var inserted := InsertOpAt(SetOpAt(funcs1, p, named), p, call);
            && IsPos(MapFuncs(inserted, rewire), Pos(p.fn, p.at + 1))
            && EraseOpAt(MapFuncs(inserted, rewire), Pos(p.fn, p.at + 1))
               == MapFuncs(SetOpAt(funcs0, p, call), rewire) + [fn]
            && IsPos(MapFuncs(SetOpAt(funcs0, p, call), rewire) + [fn], p)
            && OpAt(MapFuncs(SetOpAt(funcs0, p, call), rewire) + [fn], p) == call
  {
    InsertThenErase(funcs1, p, named, call, rewire);
    SetOpAtTwice(funcs0, p, emptied, call, [fn]);
    MapFuncsAppend(SetOpAt(funcs0, p, call), fn, rewire);
    assert fn.(body := MapOperands(fn.body, rewire)) == fn;
    MapOperandsAt(SetOpAt(funcs0, p, call)[p.fn].body, rewire, p.at);
  }

  /** The live-ins, older than the supply, are none of the arguments
      created from it. */
  lemma LiveInsNotArgs(op: Op, n: nat)
    requires OpBelow(op, n)
    ensures var liveIns := LiveIns(op.region);
            forall v :: v in liveIns ==> v !in FreshValues(n, TypesOf(liveIns))
  {
    LiveInsBelow(op, n);
  }

  /** Building the function keeps the module's invariants: the op's region
      emptied and the function appended under a fresh name, with values
      below the supply after its arguments were created. */
  lemma BuildKeepsValid(funcs: seq<Func>, p: Pos, op: Op, fn: Func, n: nat, m: nat)
    requires WellFormed(funcs, n)
    requires IsPos(funcs, p) && op == OpAt(funcs, p) && Outlinable(op)
    requires fn.name !in Names(funcs)
    requires m == n + |LiveIns(op.region)|
    requires var liveIns := LiveIns(op.region);
             fn.args == FreshValues(n, TypesOf(liveIns)) &&
             fn.body == OutlinedBody(op.region, liveIns, fn.args)
    ensures WellFormed(SetOpAt(funcs, p, op.(region := [])) + [fn], m)
  {
    var liveIns := LiveIns(op.region);
    var emptied := SetOpAt(funcs, p, op.(region := []));
    NamesOfEdits(funcs, p, op.(region := []), SubstFn([], []));
    SameNamesDistinct(funcs, emptied);
    NamesAppend(emptied, fn);
    assert OpBelow(op, n) by {
      assert OpsBelow(funcs[p.fn].body, n);
    }
    SetOpAtBelow(funcs, p, op.(region := []), n);
    FuncsBelowMono(emptied, n, m);
    forall v | v in fn.args ensures v.id < m {
      var k :| 0 <= k < |fn.args| && fn.args[k] == v;
    }
    OutlinedBodyBelow(op.region, liveIns, fn.args, n, m);
    FuncsBelowAppend(emptied, fn, m);
  }

  /** The module after one outlining keeps its symbol names distinct. */
  lemma OutlineKeepsNames(funcs: seq<Func>, p: Pos, call: Op, rewire: Value -> Value, fn: Func)
    requires NamesDistinct(funcs) && IsPos(funcs, p) && fn.name !in Names(funcs)
    ensures NamesDistinct(MapFuncs(SetOpAt(funcs, p, call), rewire) + [fn])
  {
    var edited := SetOpAt(funcs, p, call);
    NamesOfEdits(funcs, p, call, rewire);
    NamesOfEdits(edited, p, call, rewire);
    var mapped := MapFuncs(edited, rewire);
    SameNamesDistinct(funcs, mapped);
    NamesAppend(mapped, fn);
  }

  /** Replacing an op by `call`, rewiring `from` to `to` and appending `fn`
      keeps a module below `m` when all the new parts are below `m`. */
  lemma RewiredBelow(funcs: seq<Func>, p: Pos, call: Op, from: seq<Value>, to: seq<Value>, fn: Func, m: nat)
    requires FuncsBelow(funcs, m) && IsPos(funcs, p) && OpBelow(call, m) && |from| == |to|
    requires forall v :: v in to ==> v.id < m
    requires (forall v :: v in fn.args ==> v.id < m) && OpsBelow(fn.body, m)
    ensures FuncsBelow(MapFuncs(SetOpAt(funcs, p, call), SubstFn(from, to)) + [fn], m)
  {
    var rewire := SubstFn(from, to);
    SetOpAtBelow(funcs, p, call, m);
    forall v: Value | v.id < m ensures rewire(v).id < m {
      SubstValueSpec(v, from, to);
    }
    MapFuncsBelow(SetOpAt(funcs, p, call), rewire, m, m);
    FuncsBelowAppend(MapFuncs(SetOpAt(funcs, p, call), rewire), fn, m);
  }

  /** The call's operands are older than the supply, and its results are
      the values created after the function's arguments. */
  lemma CallBelow(variant: Variant, op: Op, name: string, n: nat)
    requires OpBelow(op, n)
    ensures var call := CallOp(variant, op, name, n);
            OpBelow(call, n + |LiveIns(op.region)| + |op.results|)
  {
    var call := CallOp(variant, op, name, n);
    var m := n + |LiveIns(op.region)| + |op.results|;
    LiveInsBelow(op, n);
    forall v | v in call.results ensures v.id < m {
      var k :| 0 <= k < |call.results| && call.results[k] == v;
    }
  }

  /** After one outlining the module keeps its invariants: unique symbol
      names, and every value older than the supply. */
  lemma OutlineKeepsValid(variant: Variant, funcs: seq<Func>, p: Pos, op: Op, call: Op, fn: Func,
                          rewire: Value -> Value, n: nat, m: nat)
    requires WellFormed(funcs, n)
    requires IsPos(funcs, p) && op == OpAt(funcs, p) && Outlinable(op)
    requires fn.name !in Names(funcs) && call == CallOp(variant, op, fn.name, n)
    requires rewire == SubstFn(op.results, call.results)
    requires m == n + |LiveIns(op.region)| + |op.results|
    requires var liveIns := LiveIns(op.region);
             fn.args == FreshValues(n, TypesOf(liveIns)) &&
             fn.body == OutlinedBody(op.region, liveIns, fn.args)
    ensures WellFormed(MapFuncs(SetOpAt(funcs, p, call), rewire) + [fn], m)
  {
    var liveIns := LiveIns(op.region);
    OutlineKeepsNames(funcs, p, call, SubstFn(op.results, call.results), fn);
    assert OpBelow(op, n) by {
      assert OpsBelow(funcs[p.fn].body, n);
    }
    CallBelow(variant, op, fn.name, n);
    FuncsBelowMono(funcs, n, m);
    forall v | v in fn.args ensures v.id < m {
      var k :| 0 <= k < |fn.args| && fn.args[k] == v;
    }
    OutlinedBodyBelow(op.region, liveIns, fn.args, n, m);
    RewiredBelow(funcs, p, call, op.results, call.results, fn, m);
  }

  /** One outlining, edit by edit: from the module with the function
      appended (`funcs1`), the op given its `func` reference (`named`), the
      call created before it, uses rewired and the op erased, the result is
      the original module with the call in the op's place, every use of the
      op's results rewired to the call's results, and the function
      appended; and it keeps the module's invariants. */
  lemma OutlineStep(variant: Variant, funcs0: seq<Func>, funcs1: seq<Func>, p: Pos, op: Op, liveIns: seq<Value>,
                    fn: Func, call: Op, n: nat, n1: nat, m: nat)
    requires WellFormed(funcs0, n)
    requires IsPos(funcs0, p) && op == OpAt(funcs0, p) && Outlinable(op)
    requires liveIns == LiveIns(op.region)
    requires fn.name !in Names(funcs0) && fn == OutlinedFunc(op, fn.name, n)
    requires funcs1 == SetOpAt(funcs0, p, op.(region := [])) + [fn]
    requires n1 == n + |liveIns|
    requires call == Op(CallKind(variant), liveIns, FreshValues(n1, fn.resultTypes),
                        OpAt(funcs1, p).attrs[FuncAttr := SymbolRefAttr(fn.name)], [])
    requires m == n1 + |fn.resultTypes|
    ensures var emptied := OpAt(funcs1, p);
            var named := emptied.(attrs := emptied.attrs[FuncAttr := SymbolRefAttr(fn.name)]);
            var rewire := SubstFn(emptied.results, call.results);
            var rewired := MapFuncs(InsertOpAt(SetOpAt(funcs1, p, named), p, call), rewire);
            var result := MapFuncs(SetOpAt(funcs0, p, call), rewire) + [fn];
            && call == CallOp(variant, op, fn.name, n)
            && IsPos(rewired, Pos(p.fn, p.at + 1))
            && EraseOpAt(rewired, Pos(p.fn, p.at + 1)) == result
            && result == OutlineModule(variant, funcs0, p, fn.name, n)
            && WellFormed(result, m) && m == n + |liveIns| + |op.results|
            && IsPos(result, p) && OpAt(result, p) == call
  {
    var liveIns := LiveIns(op.region);
    var emptied := OpAt(funcs1, p);
    assert emptied == op.(region := []);
    var named := emptied.(attrs := emptied.attrs[FuncAttr := SymbolRefAttr(fn.name)]);
    var rewire := SubstFn(op.results, call.results);
    assert OpBelow(op, n) by {
      assert OpsBelow(funcs0[p.fn].body, n);
    }
    RewireSkipsOutlined(variant, op, fn.name, n);
    OutlineEdits(funcs0, funcs1, p, op.(region := []), named, call, fn, rewire);
    OutlineKeepsValid(variant, funcs0, p, op, call, fn, rewire, n, m);
  }
}
