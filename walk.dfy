/**
 * The module walk of the two passes: the positions of the ops to outline,
 * in the order the walk meets them, and what one outlining does to the
 * ops the walk has still to reach.
 */
module Walk {
  import opened IR
  import opened RegionUses
  import opened Naming
  import opened Outlined
  import opened Pass

  /** The positions in `body` (the body of function `fi`) of ops of kind `k`,
      in order. */
  function MatchesIn(body: seq<Op>, fi: nat, k: OpKind): seq<Pos>
  {
    if body == [] then []
    else
      MatchesIn(body[..|body| - 1], fi, k)
        + (if body[|body| - 1].kind == k then [Pos(fi, |body| - 1)] else [])
  }

  /** The positions of the top-level ops of kind `k`, function by function,
      each body in order: the order in which the walk reaches them. */
  function Matches(funcs: seq<Func>, k: OpKind): seq<Pos>
  {
    if funcs == [] then []
    else Matches(funcs[..|funcs| - 1], k) + MatchesIn(funcs[|funcs| - 1].body, |funcs| - 1, k)
  }

  /** Walk order on positions. */
  predicate Before(a: Pos, b: Pos)
  {
    a.fn < b.fn || (a.fn == b.fn && a.at < b.at)
  }

  lemma {:induction false} MatchesInSpec(body: seq<Op>, fi: nat, k: OpKind)
    ensures forall q :: q in MatchesIn(body, fi, k) <==> q.fn == fi && q.at < |body| && body[q.at].kind == k
    ensures forall i, j :: 0 <= i < j < |MatchesIn(body, fi, k)| ==>
              MatchesIn(body, fi, k)[i].at < MatchesIn(body, fi, k)[j].at
  {
    if body != [] {
      var init := body[..|body| - 1];
      MatchesInSpec(init, fi, k);
    }
  }

  /** A position is listed exactly when an op of kind `k` stands there. */
  lemma {:induction false} MatchesSpec(funcs: seq<Func>, k: OpKind)
    ensures forall q :: q in Matches(funcs, k) <==> IsPos(funcs, q) && OpAt(funcs, q).kind == k
  {
    if funcs != [] {
      var init := funcs[..|funcs| - 1];
      var last := |funcs| - 1;
      MatchesSpec(init, k);
      MatchesInSpec(funcs[last].body, last, k);
      forall q ensures q in Matches(funcs, k) <==> IsPos(funcs, q) && OpAt(funcs, q).kind == k {
        if q.fn < last {
          assert funcs[q.fn] == init[q.fn];
        }
      }
    }
  }

  /** The positions are listed in walk order, hence each at most once. */
  lemma {:induction false} MatchesOrdered(funcs: seq<Func>, k: OpKind)
    ensures forall i, j :: 0 <= i < j < |Matches(funcs, k)| ==> Before(Matches(funcs, k)[i], Matches(funcs, k)[j])
  {
    if funcs != [] {
      var init := funcs[..|funcs| - 1];
      var last := |funcs| - 1;
      MatchesOrdered(init, k);
      MatchesSpec(init, k);
      MatchesInSpec(funcs[last].body, last, k);
      var a, b := Matches(init, k), MatchesIn(funcs[last].body, last, k);
      forall i, j | 0 <= i < j < |a + b| ensures Before((a + b)[i], (a + b)[j]) {
        if i < |a| && j >= |a| {
          assert a[i] in a && b[j - |a|] in b;
        } else if i >= |a| {
          assert (a + b)[i] == b[i - |a|] && (a + b)[j] == b[j - |a|];
        }
      }
    }
  }

  lemma MatchesInStep(body: seq<Op>, fi: nat, k: OpKind, j: nat)
    requires j < |body|
    ensures MatchesIn(body[..j + 1], fi, k) ==
      MatchesIn(body[..j], fi, k) + (if body[j].kind == k then [Pos(fi, j)] else [])
  {
    assert body[..j + 1][..j] == body[..j];
  }

  lemma MatchesStep(funcs: seq<Func>, k: OpKind, fi: nat)
    requires fi < |funcs|
    ensures Matches(funcs[..fi + 1], k) == Matches(funcs[..fi], k) + MatchesIn(funcs[fi].body, fi, k)
  {
    assert funcs[..fi + 1][..fi] == funcs[..fi];
  }

  // ---------------------------------------------------------------------
  // The state of the walk

  /** The ops the walk has still to reach are in place and outlinable. */
  ghost predicate Pending(funcs: seq<Func>, targets: seq<Pos>, t: nat, k: OpKind)
  {
    forall s :: t <= s < |targets| ==>
      IsPos(funcs, targets[s]) && OpAt(funcs, targets[s]).kind == k && Outlinable(OpAt(funcs, targets[s]))
  }

  /** No op of kind `k` sits inside the region of a top-level op. */
  ghost predicate NoneNested(funcs: seq<Func>, k: OpKind)
  {
    forall fi, j :: 0 <= fi < |funcs| && 0 <= j < |funcs[fi].body| ==> !Contains(funcs[fi].body[j].region, k)
  }

  /** The functions added since `funcs0` hold no op of kind `k` at top level. */
  ghost predicate AddedClean(funcs0: seq<Func>, funcs: seq<Func>, k: OpKind)
  {
    forall fi, j :: |funcs0| <= fi < |funcs| && 0 <= j < |funcs[fi].body| ==> funcs[fi].body[j].kind != k
  }

  /** The functions of `funcs0` keep their shape; the ops at the first `t`
      targets have become calls, every other op keeps its kind. */
  ghost predicate KindsSoFar(funcs0: seq<Func>, funcs: seq<Func>, targets: seq<Pos>, t: nat, callKind: OpKind)
    requires t <= |targets|
  {
    && |funcs0| <= |funcs|
    && (forall fi :: 0 <= fi < |funcs0| ==> |funcs[fi].body| == |funcs0[fi].body|)
    && (forall q :: IsPos(funcs0, q) ==>
          OpAt(funcs, q).kind == (if q in targets[..t] then callKind else OpAt(funcs0, q).kind))
  }

  /** The module after one outlining, position by position: the old ops
      rewired (the outlined op replaced by the call first), then the new
      function. */
  lemma StepShape(variant: Variant, funcs: seq<Func>, p: Pos, name: string, n: nat)
    requires IsPos(funcs, p) && OpAt(funcs, p).region != []
    ensures var op := OpAt(funcs, p);
            var call := CallOp(variant, op, name, n);
            var rewire := SubstFn(op.results, call.results);
            var next := OutlineModule(variant, funcs, p, name, n);
            && |next| == |funcs| + 1
            && next[|funcs|] == OutlinedFunc(op, name, n)
            && (forall fi :: 0 <= fi < |funcs| ==> |next[fi].body| == |funcs[fi].body|)
            && (forall q :: IsPos(funcs, q) && q != p ==> OpAt(next, q) == MapOperandsOf(OpAt(funcs, q), rewire))
            && OpAt(next, p) == MapOperandsOf(call, rewire)
  {
    var op := OpAt(funcs, p);
    var call := CallOp(variant, op, name, n);
    var rewire := SubstFn(op.results, call.results);
    var edited := SetOpAt(funcs, p, call);
    forall q | IsPos(funcs, q) ensures OpAt(MapFuncs(edited, rewire), q) == MapOperandsOf(OpAt(edited, q), rewire) {
      MapOperandsAt(edited[q.fn].body, rewire, q.at);
    }
  }

  /** Rewiring the results of one op to fresh values of the same types keeps
      every other outlinable op outlinable. */
  lemma OutlinableRewired(q: Op, from: seq<Value>, to: seq<Value>, n: nat)
    requires Outlinable(q) && OpBelow(q, n)
    requires |from| == |to| && TypesOf(from) == TypesOf(to)
    requires forall v :: v in to ==> v.id >= n
    ensures Outlinable(MapOperandsOf(q, SubstFn(from, to)))
  {
    var f := SubstFn(from, to);
    var r := MapOperandsOf(q, f);
    var last := |q.region| - 1;
    MapOperandsAt(q.region, f, last);
    forall k | 0 <= k < |q.region[last].operands|
      ensures TypesOf(r.region[last].operands)[k] == TypesOf(q.region[last].operands)[k]
    {
      SubstValueType(q.region[last].operands[k], from, to);
    }
    assert TypesOf(r.region[last].operands) == TypesOf(q.region[last].operands);
    UsesMapped(q.region, f);
    forall v | UsedIn(v, r.region) ensures v !in r.results {
      UsesMembers(r.region, v);
      var k :| 0 <= k < |Uses(q.region)| && MapValues(Uses(q.region), f)[k] == v;
      var u := Uses(q.region)[k];
      UsesMembers(q.region, u);
      SubstValueSpec(u, from, to);
      if u in from {
        assert v in to;
        assert v.id >= n;
      }
    }
  }

  /** The ops at the later targets are other ops: the walk lists each
      position once. */
  lemma LaterTargets(targets: seq<Pos>, t: nat, s: nat)
    requires forall i, j :: 0 <= i < j < |targets| ==> Before(targets[i], targets[j])
    requires t < s < |targets|
    ensures targets[s] != targets[t]
  {
    assert Before(targets[t], targets[s]);
  }

  /** After outlining the op at the walk's current target, the ops at the
      later targets are still in place, still of the target kind and still
      outlinable. */
  lemma StepPending(variant: Variant, funcs: seq<Func>, targets: seq<Pos>, t: nat, name: string, n: nat)
    requires FuncsBelow(funcs, n)
    requires t < |targets| && forall i, j :: 0 <= i < j < |targets| ==> Before(targets[i], targets[j])
    requires Pending(funcs, targets, t, TargetKind(variant))
    ensures Pending(OutlineModule(variant, funcs, targets[t], name, n), targets, t + 1, TargetKind(variant))
  {
    var p := targets[t];
    var op := OpAt(funcs, p);
    var call := CallOp(variant, op, name, n);
    StepShape(variant, funcs, p, name, n);
    var next := OutlineModule(variant, funcs, p, name, n);
    forall s | t + 1 <= s < |targets|
      ensures IsPos(next, targets[s]) && OpAt(next, targets[s]).kind == TargetKind(variant)
      ensures Outlinable(OpAt(next, targets[s]))
    {
      var q := targets[s];
      LaterTargets(targets, t, s);
      assert OpBelow(OpAt(funcs, q), n) by {
        assert OpsBelow(funcs[q.fn].body, n);
      }
      OutlinableRewired(OpAt(funcs, q), op.results, call.results, n);
    }
  }

  /** Outlining puts no target op inside any region: the call's region is
      empty, the other regions are only rewired, and the new function's ops
      have empty regions. */
  lemma StepNoneNested(variant: Variant, funcs: seq<Func>, p: Pos, name: string, n: nat, k: OpKind)
    requires IsPos(funcs, p) && Outlinable(OpAt(funcs, p))
    requires NoneNested(funcs, k)
    ensures NoneNested(OutlineModule(variant, funcs, p, name, n), k)
  {
    var op := OpAt(funcs, p);
    var call := CallOp(variant, op, name, n);
    var rewire := SubstFn(op.results, call.results);
    StepShape(variant, funcs, p, name, n);
    var next := OutlineModule(variant, funcs, p, name, n);
    forall fi, j | 0 <= fi < |next| && 0 <= j < |next[fi].body| ensures !Contains(next[fi].body[j].region, k) {
      if fi == |funcs| {
        var liveIns := LiveIns(op.region);
        var args := FreshValues(n, TypesOf(liveIns));
        BodyMovedInOrder(op.region, liveIns, args);
        if j < |op.region| - 1 {
          MapOperandsContains(op.region[j].region, SubstFn(liveIns, args), k);
          assert !Contains(op.region[j].region, k) by {
            assert !Contains(funcs[p.fn].body[p.at].region, k);
          }
        }
      } else if Pos(fi, j) == p {
        assert next[fi].body[j].region == MapOperands([], rewire) == [];
      } else {
        assert next[fi].body[j] == MapOperandsOf(funcs[fi].body[j], rewire) by {
          assert OpAt(next, Pos(fi, j)) == MapOperandsOf(OpAt(funcs, Pos(fi, j)), rewire);
        }
        MapOperandsContains(funcs[fi].body[j].region, rewire, k);
      }
    }
  }

  /** The functions outlining adds hold no target op at top level: the new
      function's ops are the region's ops, which are not targets since no
      target is nested, and a `func.return`. */
  lemma StepAddedClean(variant: Variant, funcs0: seq<Func>, funcs: seq<Func>, p: Pos, name: string, n: nat)
    requires |funcs0| <= |funcs| && IsPos(funcs, p) && Outlinable(OpAt(funcs, p))
    requires NoneNested(funcs, TargetKind(variant))
    requires AddedClean(funcs0, funcs, TargetKind(variant))
    ensures AddedClean(funcs0, OutlineModule(variant, funcs, p, name, n), TargetKind(variant))
  {
    var op := OpAt(funcs, p);
    var call := CallOp(variant, op, name, n);
    var rewire := SubstFn(op.results, call.results);
    StepShape(variant, funcs, p, name, n);
    var next := OutlineModule(variant, funcs, p, name, n);
    forall fi, j | |funcs0| <= fi < |next| && 0 <= j < |next[fi].body|
      ensures next[fi].body[j].kind != TargetKind(variant)
    {
      if fi == |funcs| {
        var liveIns := LiveIns(op.region);
        BodyMovedInOrder(op.region, liveIns, FreshValues(n, TypesOf(liveIns)));
        assert !Contains(funcs[p.fn].body[p.at].region, TargetKind(variant));
        if j < |op.region| - 1 {
          assert next[fi].body[j].kind == op.region[j].kind;
        }
      } else {
        assert OpAt(next, Pos(fi, j)).kind != TargetKind(variant);
      }
    }
  }

  /** Outlining the op at the current target turns it into a call and
      leaves the kind of every other op of the original module alone. */
  lemma StepKinds(variant: Variant, funcs0: seq<Func>, funcs: seq<Func>, targets: seq<Pos>, t: nat, name: string, n: nat)
    requires t < |targets| && IsPos(funcs, targets[t]) && OpAt(funcs, targets[t]).region != []
    requires KindsSoFar(funcs0, funcs, targets, t, CallKind(variant))
    ensures KindsSoFar(funcs0, OutlineModule(variant, funcs, targets[t], name, n), targets, t + 1, CallKind(variant))
    ensures |OutlineModule(variant, funcs, targets[t], name, n)| == |funcs| + 1
  {
    var p := targets[t];
    StepShape(variant, funcs, p, name, n);
    var next := OutlineModule(variant, funcs, p, name, n);
    assert targets[..t + 1] == targets[..t] + [p];
    forall q | IsPos(funcs0, q)
      ensures OpAt(next, q).kind == (if q in targets[..t + 1] then CallKind(variant) else OpAt(funcs0, q).kind)
    {
      assert IsPos(funcs, q);
    }
  }

  /** What the walk needs of the module: every target op is outlinable, and
      no target op sits inside another op's region. */
  ghost predicate Ready(funcs: seq<Func>, variant: Variant)
  {
    && (forall q :: IsPos(funcs, q) && OpAt(funcs, q).kind == TargetKind(variant) ==> Outlinable(OpAt(funcs, q)))
    && NoneNested(funcs, TargetKind(variant))
  }

  /** The state of the walk after its first `t` targets: the module has
      grown by one function per target, the later targets are pending, no
      target op is nested or in an added function, the kinds so far are
      settled. */
  ghost predicate Walked(variant: Variant, funcs0: seq<Func>, targets: seq<Pos>, t: nat, funcs: seq<Func>)
  {
    var k := TargetKind(variant);
    && t <= |targets|
    && |funcs| == |funcs0| + t
    && Pending(funcs, targets, t, k) && NoneNested(funcs, k) && AddedClean(funcs0, funcs, k)
    && KindsSoFar(funcs0, funcs, targets, t, CallKind(variant))
  }

  /** One step of the walk: outlining target `t` keeps the walk's state. */
  lemma WalkAdvance(variant: Variant, funcs0: seq<Func>, targets: seq<Pos>, t: nat,
                    before: seq<Func>, n: nat, after: seq<Func>, globallyUnique: bool, hash: Op -> Hash)
    requires FuncsBelow(before, n)
    requires t < |targets| && forall i, j :: 0 <= i < j < |targets| ==> Before(targets[i], targets[j])
    requires Walked(variant, funcs0, targets, t, before)
    requires IsPos(before, targets[t]) && OpAt(before, targets[t]).region != []
    requires after == OutlineModule(variant, before, targets[t],
                                    OutlinedName(OpAt(before, targets[t]), Names(before), globallyUnique, hash), n)
    ensures Walked(variant, funcs0, targets, t + 1, after)
  {
    var p := targets[t];
    var name := OutlinedName(OpAt(before, p), Names(before), globallyUnique, hash);
    StepPending(variant, before, targets, t, name, n);
    StepNoneNested(variant, before, p, name, n, TargetKind(variant));
    StepAddedClean(variant, funcs0, before, p, name, n);
    StepKinds(variant, funcs0, before, targets, t, name, n);
  }

  /** At the start of the walk, every listed target is pending. */
  lemma WalkStart(variant: Variant, funcs: seq<Func>)
    requires Ready(funcs, variant)
    ensures Walked(variant, funcs, Matches(funcs, TargetKind(variant)), 0, funcs)
    ensures forall i, j :: 0 <= i < j < |Matches(funcs, TargetKind(variant))| ==>
              Before(Matches(funcs, TargetKind(variant))[i], Matches(funcs, TargetKind(variant))[j])
  {
    MatchesSpec(funcs, TargetKind(variant));
    MatchesOrdered(funcs, TargetKind(variant));
    var targets := Matches(funcs, TargetKind(variant));
    forall s | 0 <= s < |targets|
      ensures IsPos(funcs, targets[s]) && OpAt(funcs, targets[s]).kind == TargetKind(variant)
    {
      assert targets[s] in targets;
    }
  }

  /** Once every listed target has been outlined, no op of the target kind is
      left anywhere in the module; the targets of the original functions are
      calls and their other ops keep their kinds. */
  lemma WalkDone(variant: Variant, funcs0: seq<Func>, targets: seq<Pos>, funcs: seq<Func>)
    requires targets == Matches(funcs0, TargetKind(variant))
    requires Walked(variant, funcs0, targets, |targets|, funcs)
    ensures forall fi :: 0 <= fi < |funcs| ==> !Contains(funcs[fi].body, TargetKind(variant))
    ensures forall q :: IsPos(funcs0, q) ==>
              IsPos(funcs, q) &&
              OpAt(funcs, q).kind ==
                (if OpAt(funcs0, q).kind == TargetKind(variant) then CallKind(variant) else OpAt(funcs0, q).kind)
    ensures |funcs| == |funcs0| + |targets|
  {
    var k := TargetKind(variant);
    MatchesSpec(funcs0, k);
    assert targets[..|targets|] == targets;
    forall q | IsPos(funcs, q) && q.fn < |funcs0| ensures OpAt(funcs, q).kind != k {
      assert IsPos(funcs0, q);
    }
  }

  /** After one outlining no op anywhere in the module, at any depth, uses
      a result of the erased op: the uses were rewired to the call's fresh
      results, and the outlined body never used them. */
  lemma ErasedResultsUnused(variant: Variant, funcs: seq<Func>, p: Pos, name: string, n: nat)
    requires WellFormed(funcs, n) && IsPos(funcs, p) && Outlinable(OpAt(funcs, p))
    ensures var next := OutlineModule(variant, funcs, p, name, n);
            forall fi, v :: 0 <= fi < |next| && UsedIn(v, next[fi].body) ==> v !in OpAt(funcs, p).results
  {
    var op := OpAt(funcs, p);
    var call := CallOp(variant, op, name, n);
    var rewire := SubstFn(op.results, call.results);
    var edited := SetOpAt(funcs, p, call);
    var next := OutlineModule(variant, funcs, p, name, n);
    assert OpBelow(op, n) by {
      assert OpsBelow(funcs[p.fn].body, n);
    }
    BodyAvoidsResults(op, LiveIns(op.region), n);
    forall fi, v | 0 <= fi < |next| && UsedIn(v, next[fi].body) ensures v !in op.results {
      if fi < |funcs| {
        assert next[fi].body == MapOperands(edited[fi].body, rewire);
        UsesMembers(next[fi].body, v);
        UsesMapped(edited[fi].body, rewire);
        var k :| 0 <= k < |Uses(edited[fi].body)| && MapValues(Uses(edited[fi].body), rewire)[k] == v;
        SubstValueSpec(Uses(edited[fi].body)[k], op.results, call.results);
      }
    }
  }
}
