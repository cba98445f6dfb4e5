/**
 * The live-ins of a region: values used inside it, at any depth of nesting,
 * but defined outside it, without duplicates, in first-use order (MLIR's
 * `getUsedValuesDefinedAbove` filling a `SetVector`).
 */
module RegionUses {
  import opened IR

  /** `v` is an operand of some op of `ops`, at any depth. */
  ghost predicate UsedIn(v: Value, ops: seq<Op>)
  {
    exists i :: 0 <= i < |ops| && (v in ops[i].operands || UsedIn(v, ops[i].region))
  }

  /** `v` is a result of some op of `ops`, at any depth. */
  predicate DefinedIn(v: Value, ops: seq<Op>)
  {
    exists i :: 0 <= i < |ops| && (v in ops[i].results || DefinedIn(v, ops[i].region))
  }

  /** The uses of a region in walk order: a post-order walk, so the uses
      nested in an op's region come before the op's own operands. */
  function Uses(ops: seq<Op>): seq<Value>
  {
    if ops == [] then []
    else Uses(ops[..|ops| - 1]) + Uses(ops[|ops| - 1].region) + ops[|ops| - 1].operands
  }

  /** The set-vector after inserting, in order, each use of `uses` that is not
      defined in `region`: an insert of a value already present does nothing. */
  function Collect(uses: seq<Value>, region: seq<Op>): seq<Value>
  {
    if uses == [] then []
    else
      var prev := Collect(uses[..|uses| - 1], region);
      var v := uses[|uses| - 1];
      if DefinedIn(v, region) || v in prev then prev else prev + [v]
  }

  function LiveIns(region: seq<Op>): seq<Value>
  {
    Collect(Uses(region), region)
  }

  /** The walk meets exactly the operands of the region's ops, at any depth. */
  lemma {:induction false} UsesMembers(ops: seq<Op>, v: Value)
    ensures v in Uses(ops) <==> UsedIn(v, ops)
  {
    if ops != [] {
      var init, last := ops[..|ops| - 1], ops[|ops| - 1];
      UsesMembers(init, v);
      UsesMembers(last.region, v);
      if UsedIn(v, init) {
        var i :| 0 <= i < |init| && (v in init[i].operands || UsedIn(v, init[i].region));
        assert ops[i] == init[i];
      }
      if UsedIn(v, ops) {
        var i :| 0 <= i < |ops| && (v in ops[i].operands || UsedIn(v, ops[i].region));
        if i < |ops| - 1 {
          assert init[i] == ops[i];
        }
      }
    }
  }

  /** Rewriting uses rewrites the walk: the uses of the rewritten region are
      the region's uses, each passed through `f`. */
  lemma {:induction false} UsesMapped(ops: seq<Op>, f: Value -> Value)
    ensures Uses(MapOperands(ops, f)) == MapValues(Uses(ops), f)
  {
    if ops != [] {
      var r := MapOperands(ops, f);
      var init, last := ops[..|ops| - 1], ops[|ops| - 1];
      assert r[..|r| - 1] == MapOperands(init, f);
      MapOperandsAt(ops, f, |ops| - 1);
      UsesMapped(init, f);
      UsesMapped(last.region, f);
      MapValuesAppend(Uses(init) + Uses(last.region), last.operands, f);
      MapValuesAppend(Uses(init), Uses(last.region), f);
    }
  }

  /** Rewriting uses keeps every definition. */
  lemma {:induction false} DefinedMapped(ops: seq<Op>, f: Value -> Value, v: Value)
    ensures DefinedIn(v, MapOperands(ops, f)) <==> DefinedIn(v, ops)
  {
    var r := MapOperands(ops, f);
    forall i | 0 <= i < |ops|
      ensures (v in r[i].results || DefinedIn(v, r[i].region)) <==> (v in ops[i].results || DefinedIn(v, ops[i].region))
    {
      MapOperandsAt(ops, f, i);
      DefinedMapped(ops[i].region, f, v);
    }
    if DefinedIn(v, ops) {
      var i :| 0 <= i < |ops| && (v in ops[i].results || DefinedIn(v, ops[i].region));
      assert v in r[i].results || DefinedIn(v, r[i].region);
    }
    if DefinedIn(v, r) {
      var i :| 0 <= i < |r| && (v in r[i].results || DefinedIn(v, r[i].region));
      assert v in ops[i].results || DefinedIn(v, ops[i].region);
    }
  }

  /** A rewrite that fixes every value used in `ops` leaves `ops` alone. */
  lemma {:induction false} FixesUsed(f: Value -> Value, ops: seq<Op>)
    requires forall v :: UsedIn(v, ops) ==> f(v) == v
    ensures Fixes(f, ops)
  {
    forall i | 0 <= i < |ops| ensures (forall v :: v in ops[i].operands ==> f(v) == v) && Fixes(f, ops[i].region) {
      forall v | UsedIn(v, ops[i].region) ensures f(v) == v {
        assert UsedIn(v, ops);
      }
      FixesUsed(f, ops[i].region);
      forall v | v in ops[i].operands ensures f(v) == v {
        assert UsedIn(v, ops);
      }
    }
  }

  /** Every value used in a region below `n` is below `n`. */
  lemma {:induction false} UsedBelow(ops: seq<Op>, n: nat, v: Value)
    requires OpsBelow(ops, n) && UsedIn(v, ops)
    ensures v.id < n
  {
    var i :| 0 <= i < |ops| && (v in ops[i].operands || UsedIn(v, ops[i].region));
    assert OpBelow(ops[i], n);
    if v !in ops[i].operands {
      UsedBelow(ops[i].region, n, v);
    }
  }

  /** A value is collected exactly when it is used and not defined in the region. */
  lemma {:induction false} CollectMembers(uses: seq<Value>, region: seq<Op>, v: Value)
    ensures v in Collect(uses, region) <==> v in uses && !DefinedIn(v, region)
  {
    if uses != [] {
      var init := uses[..|uses| - 1];
      CollectMembers(init, region, v);
      assert uses == init + [uses[|uses| - 1]];
    }
  }

  /** Nothing is collected twice. */
  lemma {:induction false} CollectDistinct(uses: seq<Value>, region: seq<Op>)
    ensures Distinct(Collect(uses, region))
  {
    if uses != [] {
      CollectDistinct(uses[..|uses| - 1], region);
    }
  }

  /** The collected values are in the order of their first use. */
  lemma {:induction false} CollectFirstUseOrder(uses: seq<Value>, region: seq<Op>, i: nat, j: nat)
    requires i < j < |Collect(uses, region)|
    ensures IndexOf(Collect(uses, region)[i], uses) < IndexOf(Collect(uses, region)[j], uses)
  {
    var r := Collect(uses, region);
    var init := uses[..|uses| - 1];
    var prev := Collect(init, region);
    var x, y := r[i], r[j];
    assert uses == init + [uses[|uses| - 1]];
    CollectMembers(init, region, x);
    CollectMembers(init, region, y);
    IndexOfPrefix(x, init, uses);
    IndexOfPrefix(y, init, uses);
    if j < |prev| {
      CollectFirstUseOrder(init, region, i, j);
    } else {
      // y is the value appended by the last use, which is its first use
      assert y == uses[|uses| - 1] && y !in prev;
      assert x in prev;
    }
  }

  /** A prefix that already contains `v` gives `v` the same first index. */
  lemma {:induction false} IndexOfPrefix(v: Value, init: seq<Value>, s: seq<Value>)
    requires init <= s
    ensures v in init ==> IndexOf(v, s) == IndexOf(v, init)
    ensures v !in init && v in s ==> IndexOf(v, s) >= |init|
  {
    if init != [] && s[0] != v {
      assert init[1..] <= s[1..];
      IndexOfPrefix(v, init[1..], s[1..]);
    }
  }

  /** The live-ins of a region: each value used in it and not defined in it,
      exactly once, ordered by first use. */
  lemma LiveInsSpec(region: seq<Op>)
    ensures Distinct(LiveIns(region))
    ensures forall v :: v in LiveIns(region) <==> UsedIn(v, region) && !DefinedIn(v, region)
    ensures forall i, j :: 0 <= i < j < |LiveIns(region)| ==>
      IndexOf(LiveIns(region)[i], Uses(region)) < IndexOf(LiveIns(region)[j], Uses(region))
  {
    CollectDistinct(Uses(region), region);
    forall v ensures v in LiveIns(region) <==> UsedIn(v, region) && !DefinedIn(v, region) {
      CollectMembers(Uses(region), region, v);
      UsesMembers(region, v);
    }
    forall i, j | 0 <= i < j < |LiveIns(region)|
      ensures IndexOf(LiveIns(region)[i], Uses(region)) < IndexOf(LiveIns(region)[j], Uses(region))
    {
      CollectFirstUseOrder(Uses(region), region, i, j);
    }
  }

  /** One more op extends the walk by the uses nested in its region, then
      its own operands. */
  lemma UsesStep(region: seq<Op>, i: nat)
    requires i < |region|
    ensures Uses(region[..i + 1]) == Uses(region[..i]) + Uses(region[i].region) + region[i].operands
  {
    assert region[..i + 1][..i] == region[..i];
  }

  /** One more use inserts it into the set-vector unless it is defined in
      the region or already there. */
  lemma CollectStep(uses: seq<Value>, v: Value, region: seq<Op>)
    ensures Collect(uses + [v], region) ==
      if DefinedIn(v, region) || v in Collect(uses, region) then Collect(uses, region)
      else Collect(uses, region) + [v]
  {
    assert (uses + [v])[..|uses|] == uses;
  }

  /** The uses walked so far, extended by op `i` of `ops`. */
  lemma WalkStep(walked: seq<Value>, ops: seq<Op>, i: nat)
    requires i < |ops|
    ensures walked + Uses(ops[..i + 1]) == walked + Uses(ops[..i]) + Uses(ops[i].region) + ops[i].operands
  {
    UsesStep(ops, i);
  }

  lemma AppendSlice(a: seq<Value>, s: seq<Value>, j: nat)
    requires j < |s|
    ensures a + s[..j + 1] == (a + s[..j]) + [s[j]]
  {
    assert s[..j + 1] == s[..j] + [s[j]];
  }

  /** Inserts, in order, each of `operands` not defined in `region` into
      the set-vector `acc`, which holds what the uses `walked` inserted. */
  method InsertOperands(operands: seq<Value>, region: seq<Op>, ghost walked: seq<Value>, acc: seq<Value>)
    returns (liveIns: seq<Value>)
    requires acc == Collect(walked, region)
    ensures liveIns == Collect(walked + operands, region)
  {
    liveIns := acc;
    assert walked + operands[..0] == walked;
    for j := 0 to |operands|
      invariant liveIns == Collect(walked + operands[..j], region)
    {
      var v := operands[j];
      AppendSlice(walked, operands, j);
      CollectStep(walked + operands[..j], v, region);
      if !DefinedIn(v, region) && v !in liveIns {
        liveIns := liveIns + [v];
      }
    }
    assert operands[..|operands|] == operands;
  }

  /** The walk of `ops`, a part of `region`: for each op, the uses nested
      in its region, then its operands, inserted into the set-vector `acc`,
      which holds what the uses `walked` inserted. */
  method InsertUses(ops: seq<Op>, region: seq<Op>, ghost walked: seq<Value>, acc: seq<Value>)
    returns (liveIns: seq<Value>)
    requires acc == Collect(walked, region)
    ensures liveIns == Collect(walked + Uses(ops), region)
    decreases ops
  {
    liveIns := acc;
    assert walked + Uses(ops[..0]) == walked;
    for i := 0 to |ops|
      invariant liveIns == Collect(walked + Uses(ops[..i]), region)
    {
      ghost var before := walked + Uses(ops[..i]);
      liveIns := InsertUses(ops[i].region, region, before, liveIns);
      liveIns := InsertOperands(ops[i].operands, region, before + Uses(ops[i].region), liveIns);
      WalkStep(walked, ops, i);
    }
    assert ops[..|ops|] == ops;
  }

  /** `getUsedValuesDefinedAbove(region, region, liveIns)`: walk the region,
      nested regions included, and insert each use not defined in it. */
  method GetUsedValuesDefinedAbove(region: seq<Op>) returns (liveIns: seq<Value>)
    ensures liveIns == LiveIns(region)
  {
    liveIns := InsertUses(region, region, [], []);
    assert [] + Uses(region) == Uses(region);
  }
}
