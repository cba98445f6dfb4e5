/**
 * A small abstract IR: SSA values with a type, operations with operands,
 * results, attributes and one region, and functions with an entry block.
 * Values and operations are plain data; the module that owns them is the
 * class `Outlining.Module`.
 */
module IR {

  /** A type, identified by its printed form (`tensor<2xf32>`, ...). */
  type Type = string

  /** An SSA value: its identity and its type. Two values are the same value
      exactly when their ids and types agree. */
  datatype Value = Value(id: nat, ty: Type)

  /** Attribute values the pass looks at: strings (`device`), symbol
      references (`func`) and anything else, kept opaque. */
  datatype Attr = StringAttr(str: string) | SymbolRefAttr(symbol: string) | OtherAttr(text: string)

  datatype OpKind =
    | ClusterOp        // tf_device.cluster
    | LaunchOp         // tf_device.launch
    | ClusterFuncOp    // tf_device.cluster_func
    | LaunchFuncOp     // tf_device.launch_func
    | DeviceReturnOp   // tf_device.return
    | FuncReturnOp     // func.return
    | OtherOp(name: string)

  /** An operation with its (single-block) region; ops without a region
      have `region == []`. */
  datatype Op = Op(kind: OpKind, operands: seq<Value>, results: seq<Value>,
                   attrs: map<string, Attr>, region: seq<Op>)

  datatype Visibility = Public | Private

  /** A `func.func`: name, visibility, function type (inputs -> resultTypes)
      and its single entry block (block arguments and ops). */
  datatype Func = Func(name: string, visibility: Visibility, inputs: seq<Type>,
                       resultTypes: seq<Type>, args: seq<Value>, body: seq<Op>)

  /** The place of an op in a module: the index of its function and its
      index in that function's body. */
  datatype Pos = Pos(fn: nat, at: nat)

  const DeviceAttr: string := "device"
  const FuncAttr: string := "func"

  function TypesOf(vs: seq<Value>): seq<Type>
  {
    seq(|vs|, i requires 0 <= i < |vs| => vs[i].ty)
  }

  /** The values a builder creates for `types`: ids counted up from `first`. */
  function FreshValues(first: nat, types: seq<Type>): seq<Value>
  {
    seq(|types|, i requires 0 <= i < |types| => Value(first + i, types[i]))
  }

  /** The new values have the requested types, are pairwise distinct and
      have ids in `[first, first + |types|)`, so they are fresh in a module
      whose values are all below `first`. */
  lemma FreshValuesSpec(first: nat, types: seq<Type>)
    ensures TypesOf(FreshValues(first, types)) == types
    ensures forall i, j :: 0 <= i < j < |types| ==> FreshValues(first, types)[i] != FreshValues(first, types)[j]
    ensures forall v :: v in FreshValues(first, types) ==> first <= v.id < first + |types|
  {
  }

  function Names(funcs: seq<Func>): seq<string>
  {
    seq(|funcs|, i requires 0 <= i < |funcs| => funcs[i].name)
  }

  ghost predicate NamesDistinct(funcs: seq<Func>)
  {
    forall i, j :: 0 <= i < j < |funcs| ==> funcs[i].name != funcs[j].name
  }

  // ---------------------------------------------------------------------
  // Positions

  predicate IsPos(funcs: seq<Func>, p: Pos)
  {
    p.fn < |funcs| && p.at < |funcs[p.fn].body|
  }

  function OpAt(funcs: seq<Func>, p: Pos): Op
    requires IsPos(funcs, p)
  {
    funcs[p.fn].body[p.at]
  }

  /** `funcs` with the op at `p` replaced by `op`. */
  function SetOpAt(funcs: seq<Func>, p: Pos, op: Op): (r: seq<Func>)
    requires IsPos(funcs, p)
    ensures |r| == |funcs| && IsPos(r, p) && OpAt(r, p) == op
    ensures forall i :: 0 <= i < |r| && i != p.fn ==> r[i] == funcs[i]
    ensures r[p.fn] == funcs[p.fn].(body := r[p.fn].body)
    ensures |r[p.fn].body| == |funcs[p.fn].body|
    ensures forall j :: 0 <= j < |r[p.fn].body| && j != p.at ==> r[p.fn].body[j] == funcs[p.fn].body[j]
  {
    funcs[p.fn := funcs[p.fn].(body := funcs[p.fn].body[p.at := op])]
  }

  /** Putting back the op that is already there changes nothing. */
  lemma SetOpAtSame(funcs: seq<Func>, p: Pos)
    requires IsPos(funcs, p)
    ensures SetOpAt(funcs, p, OpAt(funcs, p)) == funcs
  {
    assert funcs[p.fn].body[p.at := OpAt(funcs, p)] == funcs[p.fn].body;
    assert funcs[p.fn].(body := funcs[p.fn].body) == funcs[p.fn];
  }

  /** A second replacement at the same place overrides the first, and
      functions appended later are not touched. */
  lemma SetOpAtTwice(funcs: seq<Func>, p: Pos, first: Op, second: Op, more: seq<Func>)
    requires IsPos(funcs, p)
    ensures IsPos(SetOpAt(funcs, p, first) + more, p)
    ensures SetOpAt(SetOpAt(funcs, p, first) + more, p, second) == SetOpAt(funcs, p, second) + more
  {
    var a := SetOpAt(SetOpAt(funcs, p, first) + more, p, second);
    var b := SetOpAt(funcs, p, second) + more;
    assert |a| == |b|;
    forall i | 0 <= i < |a| ensures a[i] == b[i] {
      if i == p.fn {
        assert a[i].body == b[i].body;
      }
    }
  }

  // ---------------------------------------------------------------------
  // Rewriting uses

  function MapValues(vs: seq<Value>, f: Value -> Value): seq<Value>
  {
    seq(|vs|, i requires 0 <= i < |vs| => f(vs[i]))
  }

  lemma MapValuesAppend(a: seq<Value>, b: seq<Value>, f: Value -> Value)
    ensures MapValues(a + b, f) == MapValues(a, f) + MapValues(b, f)
  {
  }

  /** Every use (operand), at any depth of nesting, passed through `f`;
      definitions (results), kinds and attributes are untouched. */
  function MapOperands(ops: seq<Op>, f: Value -> Value): (r: seq<Op>)
    ensures |r| == |ops|
  {
    seq(|ops|, i requires 0 <= i < |ops| => MapOperandsOf(ops[i], f))
  }

  function MapOperandsOf(op: Op, f: Value -> Value): Op
  {
    op.(operands := MapValues(op.operands, f), region := MapOperands(op.region, f))
  }

  /** Op `i` of a rewritten list is op `i` rewritten: same kind, results
      and attributes, each operand passed through `f`. */
  lemma MapOperandsAt(ops: seq<Op>, f: Value -> Value, i: nat)
    requires i < |ops|
    ensures MapOperands(ops, f)[i] == MapOperandsOf(ops[i], f)
    ensures var r := MapOperands(ops, f)[i];
            r.kind == ops[i].kind && r.results == ops[i].results && r.attrs == ops[i].attrs
            && |r.operands| == |ops[i].operands|
            && (forall m :: 0 <= m < |ops[i].operands| ==> r.operands[m] == f(ops[i].operands[m]))
            && (ops[i].region == [] ==> r.region == [])
  {
  }

  function MapFuncs(funcs: seq<Func>, f: Value -> Value): (r: seq<Func>)
    ensures |r| == |funcs|
  {
    seq(|funcs|, i requires 0 <= i < |funcs| => funcs[i].(body := MapOperands(funcs[i].body, f)))
  }

  /** One use replacement: `from` becomes `to`. */
  function Replace(v: Value, from: Value, to: Value): Value
  {
    if v == from then to else v
  }

  function ReplaceFn(from: Value, to: Value): Value -> Value
  {
    v => Replace(v, from, to)
  }

  /** Simultaneous replacement: `from[k]` becomes `to[k]` (the first `k` at
      which `v` occurs in `from`); any other value stays. */
  function SubstValue(v: Value, from: seq<Value>, to: seq<Value>): Value
  {
    if from == [] || to == [] then v
    else if v == from[0] then to[0]
    else SubstValue(v, from[1..], to[1..])
  }

  function SubstFn(from: seq<Value>, to: seq<Value>): Value -> Value
  {
    v => SubstValue(v, from, to)
  }

  /** The position of `v` in `s` (|s| when absent). */
  function IndexOf(v: Value, s: seq<Value>): (k: nat)
    ensures k <= |s|
    ensures k < |s| ==> s[k] == v
    ensures forall j :: 0 <= j < k ==> s[j] != v
    ensures k == |s| <==> v !in s
  {
    if s == [] then 0 else if s[0] == v then 0 else 1 + IndexOf(v, s[1..])
  }

  ghost predicate Distinct(s: seq<Value>)
  {
    forall i, j :: 0 <= i < j < |s| ==> s[i] != s[j]
  }

  /** Substitution sends a member of `from` to its partner in `to`, and
      leaves every other value alone. */
  lemma {:induction false} SubstValueSpec(v: Value, from: seq<Value>, to: seq<Value>)
    requires |from| == |to|
    ensures v in from ==> SubstValue(v, from, to) == to[IndexOf(v, from)]
    ensures v !in from ==> SubstValue(v, from, to) == v
  {
    if from != [] && v != from[0] {
      SubstValueSpec(v, from[1..], to[1..]);
    }
  }

  /** Replacing the pairs one at a time, as a loop over them does, is the
      simultaneous substitution, provided no value put in earlier is
      replaced later. */
  lemma {:induction false} SubstValueSnoc(v: Value, from: seq<Value>, to: seq<Value>, a: Value, b: Value)
    requires |from| == |to| && a !in to
    ensures SubstValue(v, from + [a], to + [b]) == Replace(SubstValue(v, from, to), a, b)
  {
    if from == [] {
      assert from + [a] == [a];
      assert to + [b] == [b];
    } else {
      assert (from + [a])[1..] == from[1..] + [a];
      assert (to + [b])[1..] == to[1..] + [b];
      if v != from[0] {
        SubstValueSnoc(v, from[1..], to[1..], a, b);
      }
    }
  }

  /** Substitution keeps types when each value is replaced by one of the
      same type. */
  lemma {:induction false} SubstValueType(v: Value, from: seq<Value>, to: seq<Value>)
    requires |from| == |to| && TypesOf(from) == TypesOf(to)
    ensures SubstValue(v, from, to).ty == v.ty
  {
    if from != [] && v != from[0] {
      assert TypesOf(from[1..]) == TypesOf(from)[1..];
      assert TypesOf(to[1..]) == TypesOf(to)[1..];
      SubstValueType(v, from[1..], to[1..]);
    } else if from != [] {
      assert TypesOf(from)[0] == TypesOf(to)[0];
    }
  }

  /** Two rewrites in a row are one rewrite by the composed map. */
  lemma {:induction false} MapOperandsCompose(ops: seq<Op>, f: Value -> Value, g: Value -> Value, h: Value -> Value)
    requires forall v :: h(v) == g(f(v))
    ensures MapOperands(MapOperands(ops, f), g) == MapOperands(ops, h)
  {
    forall i | 0 <= i < |ops|
      ensures MapOperands(MapOperands(ops, f), g)[i] == MapOperands(ops, h)[i]
    {
      MapOperandsCompose(ops[i].region, f, g, h);
    }
  }

  /** A rewrite that fixes every use it meets changes nothing. */
  ghost predicate Fixes(f: Value -> Value, ops: seq<Op>)
  {
    forall i :: 0 <= i < |ops| ==>
      (forall v :: v in ops[i].operands ==> f(v) == v) && Fixes(f, ops[i].region)
  }

  lemma {:induction false} MapOperandsFixed(ops: seq<Op>, f: Value -> Value)
    requires Fixes(f, ops)
    ensures MapOperands(ops, f) == ops
  {
    forall i | 0 <= i < |ops| ensures MapOperands(ops, f)[i] == ops[i] {
      MapOperandsFixed(ops[i].region, f);
      assert MapValues(ops[i].operands, f) == ops[i].operands;
    }
  }

  // ---------------------------------------------------------------------
  // Kinds at any depth

  /** Some op of kind `k` occurs in `ops`, at any depth. */
  ghost predicate Contains(ops: seq<Op>, k: OpKind)
  {
    exists i :: 0 <= i < |ops| && (ops[i].kind == k || Contains(ops[i].region, k))
  }

  /** Rewriting uses neither creates nor removes ops of any kind. */
  lemma {:induction false} MapOperandsContains(ops: seq<Op>, f: Value -> Value, k: OpKind)
    ensures Contains(MapOperands(ops, f), k) <==> Contains(ops, k)
  {
    var r := MapOperands(ops, f);
    forall i | 0 <= i < |ops|
      ensures Contains(r[i].region, k) <==> Contains(ops[i].region, k)
    {
      MapOperandsAt(ops, f, i);
      MapOperandsContains(ops[i].region, f, k);
    }
    if Contains(ops, k) {
      var i :| 0 <= i < |ops| && (ops[i].kind == k || Contains(ops[i].region, k));
      assert r[i] == MapOperandsOf(ops[i], f);
      assert r[i].kind == ops[i].kind;
    }
    if Contains(r, k) {
      var i :| 0 <= i < |r| && (r[i].kind == k || Contains(r[i].region, k));
      assert r[i] == MapOperandsOf(ops[i], f);
      assert r[i].kind == ops[i].kind;
    }
  }

  // ---------------------------------------------------------------------
  // Value ids below the module's supply

  ghost predicate OpBelow(op: Op, n: nat)
  {
    (forall v :: v in op.operands ==> v.id < n) &&
    (forall v :: v in op.results ==> v.id < n) &&
    OpsBelow(op.region, n)
  }

  ghost predicate OpsBelow(ops: seq<Op>, n: nat)
  {
    forall i :: 0 <= i < |ops| ==> OpBelow(ops[i], n)
  }

  ghost predicate FuncsBelow(funcs: seq<Func>, n: nat)
  {
    forall i :: 0 <= i < |funcs| ==>
      (forall v :: v in funcs[i].args ==> v.id < n) && OpsBelow(funcs[i].body, n)
  }

  lemma {:induction false} OpsBelowMono(ops: seq<Op>, n: nat, m: nat)
    requires OpsBelow(ops, n) && n <= m
    ensures OpsBelow(ops, m)
  {
    forall i | 0 <= i < |ops| ensures OpBelow(ops[i], m) {
      OpsBelowMono(ops[i].region, n, m);
    }
  }

  /** A rewrite that maps ids below `n` to ids below `m` keeps a tree of ops
      below `m`. */
  lemma {:induction false} MapOperandsBelow(ops: seq<Op>, f: Value -> Value, n: nat, m: nat)
    requires OpsBelow(ops, n) && n <= m
    requires forall v: Value :: v.id < n ==> f(v).id < m
    ensures OpsBelow(MapOperands(ops, f), m)
  {
    forall i | 0 <= i < |ops| ensures OpBelow(MapOperands(ops, f)[i], m) {
      MapOperandsBelow(ops[i].region, f, n, m);
      var r := MapOperands(ops, f)[i];
      forall v | v in r.operands ensures v.id < m {
        var j :| 0 <= j < |r.operands| && r.operands[j] == v;
        assert v == f(ops[i].operands[j]);
      }
    }
  }

  lemma {:induction false} MapOperandsIdentity(ops: seq<Op>, f: Value -> Value)
    requires forall v :: f(v) == v
    ensures MapOperands(ops, f) == ops
  {
    forall i | 0 <= i < |ops| ensures MapOperands(ops, f)[i] == ops[i] {
      MapOperandsIdentity(ops[i].region, f);
      assert MapValues(ops[i].operands, f) == ops[i].operands;
    }
  }

  // ---------------------------------------------------------------------
  // Editing a module's op lists

  /** `funcs` with `op` inserted before position `p` (or at the end of the
      body when `p.at` is its length). */
  function InsertOpAt(funcs: seq<Func>, p: Pos, op: Op): seq<Func>
    requires p.fn < |funcs| && p.at <= |funcs[p.fn].body|
  {
    var body := funcs[p.fn].body;
    funcs[p.fn := funcs[p.fn].(body := body[..p.at] + [op] + body[p.at..])]
  }

  /** `funcs` without the op at `p`. */
  function EraseOpAt(funcs: seq<Func>, p: Pos): seq<Func>
    requires IsPos(funcs, p)
  {
    var body := funcs[p.fn].body;
    funcs[p.fn := funcs[p.fn].(body := body[..p.at] + body[p.at + 1..])]
  }

  /** Creating `call` before the op at `p` (which by then is `orig`), rewriting
      uses, and erasing `orig` is rewriting uses in the module where `call`
      stands in place of the op. */
  lemma InsertThenErase(funcs: seq<Func>, p: Pos, orig: Op, call: Op, f: Value -> Value)
    requires IsPos(funcs, p)
    ensures var inserted := InsertOpAt(SetOpAt(funcs, p, orig), p, call);
            IsPos(MapFuncs(inserted, f), Pos(p.fn, p.at + 1)) &&
            EraseOpAt(MapFuncs(inserted, f), Pos(p.fn, p.at + 1)) == MapFuncs(SetOpAt(funcs, p, call), f)
  {
    var b := funcs[p.fn].body;
    var withOld := SetOpAt(funcs, p, orig);
    var inserted := InsertOpAt(withOld, p, call);
    var b2 := inserted[p.fn].body;
    assert b2 == b[p.at := orig][..p.at] + [call] + b[p.at := orig][p.at..];
    assert |b2| == |b| + 1;
    var mapped := MapFuncs(inserted, f);
    var erased := EraseOpAt(mapped, Pos(p.fn, p.at + 1));
    var goal := MapFuncs(SetOpAt(funcs, p, call), f);
    var eb := erased[p.fn].body;
    var gb := goal[p.fn].body;
    assert |eb| == |gb|;
    forall j | 0 <= j < |eb| ensures eb[j] == gb[j] {
      if j <= p.at {
        assert eb[j] == MapOperandsOf(b2[j], f);
      } else {
        assert eb[j] == MapOperandsOf(b2[j + 1], f);
      }
    }
    assert eb == gb;
    forall fi | 0 <= fi < |erased| ensures erased[fi] == goal[fi] {
      if fi == p.fn {
        assert erased[fi] == goal[fi].(body := eb);
      }
    }
  }

  lemma MapFuncsAppend(funcs: seq<Func>, fn: Func, f: Value -> Value)
    ensures MapFuncs(funcs + [fn], f) == MapFuncs(funcs, f) + [fn.(body := MapOperands(fn.body, f))]
  {
  }

  // ---------------------------------------------------------------------
  // Invariants of the module: value ids and symbol names

  lemma SetOpAtBelow(funcs: seq<Func>, p: Pos, op: Op, n: nat)
    requires FuncsBelow(funcs, n) && IsPos(funcs, p) && OpBelow(op, n)
    ensures FuncsBelow(SetOpAt(funcs, p, op), n)
  {
    var r := SetOpAt(funcs, p, op);
    assert OpsBelow(r[p.fn].body, n);
  }

  lemma FuncsBelowMono(funcs: seq<Func>, n: nat, m: nat)
    requires FuncsBelow(funcs, n) && n <= m
    ensures FuncsBelow(funcs, m)
  {
    forall i | 0 <= i < |funcs| ensures OpsBelow(funcs[i].body, m) {
      OpsBelowMono(funcs[i].body, n, m);
    }
  }

  lemma FuncsBelowAppend(funcs: seq<Func>, fn: Func, n: nat)
    requires FuncsBelow(funcs, n)
    requires (forall v :: v in fn.args ==> v.id < n) && OpsBelow(fn.body, n)
    ensures FuncsBelow(funcs + [fn], n)
  {
  }

  lemma MapFuncsBelow(funcs: seq<Func>, f: Value -> Value, n: nat, m: nat)
    requires FuncsBelow(funcs, n) && n <= m
    requires forall v: Value :: v.id < n ==> f(v).id < m
    ensures FuncsBelow(MapFuncs(funcs, f), m)
  {
    forall i | 0 <= i < |funcs| ensures OpsBelow(MapFuncs(funcs, f)[i].body, m) {
      MapOperandsBelow(funcs[i].body, f, n, m);
    }
  }

  lemma NamesAppend(funcs: seq<Func>, fn: Func)
    requires NamesDistinct(funcs) && fn.name !in Names(funcs)
    ensures NamesDistinct(funcs + [fn])
  {
    forall i | 0 <= i < |funcs| ensures funcs[i].name != fn.name {
      assert Names(funcs)[i] == funcs[i].name;
    }
  }

  /** The invariant of a module: symbol names are unique, and every value
      is older than the supply `n`. */
  ghost predicate WellFormed(funcs: seq<Func>, n: nat)
  {
    NamesDistinct(funcs) && FuncsBelow(funcs, n)
  }

  lemma SameNamesDistinct(a: seq<Func>, b: seq<Func>)
    requires NamesDistinct(a) && Names(a) == Names(b)
    ensures NamesDistinct(b)
  {
    forall i, j | 0 <= i < j < |b| ensures b[i].name != b[j].name {
      assert Names(b)[i] == a[i].name && Names(b)[j] == a[j].name;
    }
  }

  /** Editing ops leaves the symbol names alone. */
  lemma NamesOfEdits(funcs: seq<Func>, p: Pos, op: Op, f: Value -> Value)
    requires IsPos(funcs, p)
    ensures Names(SetOpAt(funcs, p, op)) == Names(funcs)
    ensures Names(MapFuncs(funcs, f)) == Names(funcs)
  {
  }
}
