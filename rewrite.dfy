/**
 * Symbol rewriting and the verifier: `setOwnersToTargetClass` walks a merged
 * method's instructions, rebinds copied-method calls, shadowed fields and
 * the mixin's own references to the target class, inserts the garbage
 * argument load before calls that need it, and runs `verify` on every
 * rewritten instruction.
 */
module Rewriting {
  import opened ClassModel

  /** `MIXIN_BASE` in internal (slash-separated) form. */
  const MIXIN_PACKAGE: string := "net/runelite/mixins"

  /** `CopiedMethod`: the public copy added to the target, and whether calls to it need a garbage argument. */
  datatype CopiedMethod = CopiedMethod(obMethod: Method, hasGarbageValue: bool)

  /** What one rewriting pass reads: the mixin, the target class name and the two tables. */
  datatype Context = Context(mixin: ClassFile, target: Name,
                             shadowFields: map<FieldRef, Field>,
                             copiedMethods: map<MethodRef, CopiedMethod>)

  /** The local slot of the garbage argument: one less for a static copy, which has no receiver in slot 0. */
  function GarbageIndex(c: CopiedMethod): int {
    if c.obMethod.IsStatic() then c.obMethod.descriptor.Size() - 1 else c.obMethod.descriptor.Size()
  }

  /** The rebinding of one instruction's pool reference, in three tiers. */
  function Rebind(ctx: Context, i: Instruction): (r: Instruction)
    ensures r.FieldInsn? == i.FieldInsn? && r.InvokeInsn? == i.InvokeInsn?
    ensures !i.FieldInsn? && !i.InvokeInsn? ==> r == i
    ensures i.FieldInsn? ==> r.fieldOp == i.fieldOp
    ensures i.InvokeInsn? ==> r.invokeOp == i.invokeOp
    // tier 1: copied methods and shadowed fields
    ensures i.InvokeInsn? && i.callee in ctx.copiedMethods ==>
              r.callee == ctx.copiedMethods[i.callee].obMethod.PoolMethod()
    ensures i.FieldInsn? && i.field in ctx.shadowFields ==>
              r.field == ctx.shadowFields[i.field].PoolField()
    // tier 2: anything else owned by the mixin moves to the target, same name and type
    ensures i.InvokeInsn? && i.callee !in ctx.copiedMethods && i.callee.owner == ctx.mixin.name ==>
              r.callee == MethodRef(ctx.target, i.callee.name, i.callee.sig)
    ensures i.FieldInsn? && i.field !in ctx.shadowFields && i.field.owner == ctx.mixin.name ==>
              r.field == FieldRef(ctx.target, i.field.name, i.field.ty)
    // tier 3: everything else is untouched
    ensures i.InvokeInsn? && i.callee !in ctx.copiedMethods && i.callee.owner != ctx.mixin.name ==> r == i
    ensures i.FieldInsn? && i.field !in ctx.shadowFields && i.field.owner != ctx.mixin.name ==> r == i
  {
    match i
    case InvokeInsn(op, m) =>
      if m in ctx.copiedMethods then InvokeInsn(op, ctx.copiedMethods[m].obMethod.PoolMethod())
      else if m.owner == ctx.mixin.name then InvokeInsn(op, MethodRef(ctx.target, m.name, m.sig))
      else i
    case FieldInsn(op, f) =>
      if f in ctx.shadowFields then FieldInsn(op, ctx.shadowFields[f].PoolField())
      else if f.owner == ctx.mixin.name then FieldInsn(op, FieldRef(ctx.target, f.name, f.ty))
      else i
    case _ => i
  }

  /** A call to a copied method whose obfuscated signature carries the extra garbage parameter. */
  predicate NeedsGarbage(ctx: Context, i: Instruction) {
    i.InvokeInsn? && i.callee in ctx.copiedMethods && ctx.copiedMethods[i.callee].hasGarbageValue
  }

  function GarbageLoad(ctx: Context, i: Instruction): Instruction
    requires NeedsGarbage(ctx, i)
  {
    ILoad(GarbageIndex(ctx.copiedMethods[i.callee]))
  }

  /** What replaces one instruction in the rewritten list. */
  function Emitted(ctx: Context, i: Instruction): seq<Instruction> {
    (if NeedsGarbage(ctx, i) then [GarbageLoad(ctx, i)] else []) + [Rebind(ctx, i)]
  }

  predicate InMixinPackage(owner: Name) {
    |MIXIN_PACKAGE| <= |owner| && owner[..|MIXIN_PACKAGE|] == MIXIN_PACKAGE
  }

  /** `getMyField`, resolved against the mixin class: its first field with that name and type. */
  function MyField(mixin: ClassFile, f: FieldRef): Option<Field> {
    match FirstIndex(mixin.fields, (g: Field) => g.name == f.name && g.ty == f.ty)
    case None => None
    case Some(k) => Some(mixin.fields[k])
  }

  predicate IsInstanceFieldOp(op: FieldOp) {
    op == GetField || op == PutField
  }

  /** `verify`: the instructions merged code may not contain. */
  function Verify(mixin: ClassFile, i: Instruction): (r: Option<InjectionError>)
    ensures r == Some(InvokeDynamicNotSupported) <==> i.InvokeDynamic?
    ensures (r.Some? && r.value.InstanceFieldAccessOnMixin?) <==>
              i.FieldInsn? && i.field.owner == mixin.name && IsInstanceFieldOp(i.fieldOp)
    ensures (r.Some? && r.value.NonPublicStaticFieldAccess?) <==>
              i.FieldInsn? && i.field.owner == mixin.name && !IsInstanceFieldOp(i.fieldOp)
              && MyField(mixin, i.field).Some? && !MyField(mixin, i.field).value.IsPublic()
    ensures (r.Some? && r.value.CrossMixinStaticCall?) <==>
              i.InvokeInsn? && i.invokeOp == InvokeStatic
              && i.callee.owner != mixin.name && InMixinPackage(i.callee.owner)
    ensures r.Some? ==> r.value.InvokeDynamicNotSupported? || r.value.InstanceFieldAccessOnMixin?
                        || r.value.NonPublicStaticFieldAccess? || r.value.CrossMixinStaticCall?
  {
    match i
    case FieldInsn(op, f) =>
      if f.owner == mixin.name then
        if op == PutField || op == GetField then Some(InstanceFieldAccessOnMixin(f))
        else match MyField(mixin, f)
          case Some(g) => if !g.IsPublic() then Some(NonPublicStaticFieldAccess(f)) else None
          case None => None
      else None
    case InvokeInsn(op, m) =>
      if op == InvokeStatic && m.owner != mixin.name && InMixinPackage(m.owner)
      then Some(CrossMixinStaticCall(m)) else None
    case InvokeDynamic => Some(InvokeDynamicNotSupported)
    case _ => None
  }

  function Prepend(s: seq<Instruction>, r: Result<seq<Instruction>>): Result<seq<Instruction>> {
    match r
    case Ok(rest) => Ok(s + rest)
    case Err(e) => Err(e)
  }

  lemma PrependEmpty(r: Result<seq<Instruction>>)
    ensures Prepend([], r) == r
  {
    if r.Ok? { assert [] + r.value == r.value; }
  }

  lemma PrependTwice(a: seq<Instruction>, b: seq<Instruction>, r: Result<seq<Instruction>>)
    ensures Prepend(a, Prepend(b, r)) == Prepend(a + b, r)
  {
    if r.Ok? { assert a + (b + r.value) == (a + b) + r.value; }
  }

  /** The whole pass over a method's code: the rewritten list, or the first verifier failure. */
  function Rewrite(ctx: Context, code: seq<Instruction>): Result<seq<Instruction>>
    decreases |code|
  {
    if code == [] then Ok([])
    else match Verify(ctx.mixin, Rebind(ctx, code[0]))
      case Some(e) => Err(e)
      case None => Prepend(Emitted(ctx, code[0]), Rewrite(ctx, code[1..]))
  }

  /** `setOwnersToTargetClass`: the source's walk, inserting the garbage load before the call. */
  method SetOwnersToTargetClass(ctx: Context, code: seq<Instruction>) returns (r: Result<seq<Instruction>>)
    ensures r == Rewrite(ctx, code)
  {
    var out: seq<Instruction> := [];
    var k := 0;
    assert code[k..] == code;
    PrependEmpty(Rewrite(ctx, code));
    while k < |code|
      invariant k <= |code|
      invariant Rewrite(ctx, code) == Prepend(out, Rewrite(ctx, code[k..]))
    {
      var i := code[k];
      var inserted: seq<Instruction> := [];
      if i.InvokeInsn? {
        if i.callee in ctx.copiedMethods {
          var copiedMethod := ctx.copiedMethods[i.callee];
          i := InvokeInsn(i.invokeOp, copiedMethod.obMethod.PoolMethod());
          if copiedMethod.hasGarbageValue {
            inserted := [ILoad(GarbageIndex(copiedMethod))];
          }
        } else if i.callee.owner == ctx.mixin.name {
          i := InvokeInsn(i.invokeOp, MethodRef(ctx.target, i.callee.name, i.callee.sig));
        }
      } else if i.FieldInsn? {
        if i.field in ctx.shadowFields {
          i := FieldInsn(i.fieldOp, ctx.shadowFields[i.field].PoolField());
        } else if i.field.owner == ctx.mixin.name {
          i := FieldInsn(i.fieldOp, FieldRef(ctx.target, i.field.name, i.field.ty));
        }
      }
      assert code[k..][0] == code[k] && code[k..][1..] == code[k + 1..];
      assert i == Rebind(ctx, code[k]) && inserted + [i] == Emitted(ctx, code[k]);
      var failure := Verify(ctx.mixin, i);
      if failure.Some? {
        return Err(failure.value);
      }
      PrependTwice(out, inserted + [i], Rewrite(ctx, code[k + 1..]));
      assert out + (inserted + [i]) == out + inserted + [i];
      out := out + inserted + [i];
      k := k + 1;
    }
    assert code[k..] == [];
    assert out + [] == out;
    return Ok(out);
  }

  /** Number of calls in `code` that gain a garbage load. */
  function GarbageCount(ctx: Context, code: seq<Instruction>): nat
    decreases |code|
  {
    if code == [] then 0
    else (if NeedsGarbage(ctx, code[0]) then 1 else 0) + GarbageCount(ctx, code[1..])
  }

  /** Where the rewritten `code[k]` lands: after `k` earlier instructions and every load inserted so far. */
  function Position(ctx: Context, code: seq<Instruction>, k: nat): nat
    requires k < |code|
  {
    k + GarbageCount(ctx, code[..k + 1])
  }

  /**
   * Rewriting keeps every instruction, in order, and adds exactly one load,
   * directly before each call to a garbage-valued copy.
   */
  lemma {:induction false} RewriteLayout(ctx: Context, code: seq<Instruction>)
    requires Rewrite(ctx, code).Ok?
    ensures |Rewrite(ctx, code).value| == |code| + GarbageCount(ctx, code)
    ensures forall k :: 0 <= k < |code| ==>
              Position(ctx, code, k) < |Rewrite(ctx, code).value|
              && Rewrite(ctx, code).value[Position(ctx, code, k)] == Rebind(ctx, code[k])
    ensures forall k :: 0 <= k < |code| && NeedsGarbage(ctx, code[k]) ==>
              1 <= Position(ctx, code, k)
              && Rewrite(ctx, code).value[Position(ctx, code, k) - 1] == GarbageLoad(ctx, code[k])
    decreases |code|
  {
    if code != [] {
      var rest := code[1..];
      var e := Emitted(ctx, code[0]);
      RewriteLayout(ctx, rest);
      var restOut := Rewrite(ctx, rest).value;
      var out := Rewrite(ctx, code).value;
      assert out == e + restOut;
      var g0 := if NeedsGarbage(ctx, code[0]) then 1 else 0;
      assert |e| == 1 + g0;
      forall k | 0 <= k < |code|
        ensures Position(ctx, code, k) < |out| && out[Position(ctx, code, k)] == Rebind(ctx, code[k])
        ensures NeedsGarbage(ctx, code[k]) ==> 1 <= Position(ctx, code, k) && out[Position(ctx, code, k) - 1] == GarbageLoad(ctx, code[k])
      {
        PositionShift(ctx, code, k);
        if k > 0 {
          assert rest[k - 1] == code[k];
          var p := Position(ctx, rest, k - 1);
          assert out[|e| + p] == restOut[p];
          if NeedsGarbage(ctx, code[k]) {
            assert out[|e| + p - 1] == restOut[p - 1];
          }
        }
      }
    }
  }

  /** The first instruction lands after its own load, if any; a later one after everything the first emits. */
  lemma PositionShift(ctx: Context, code: seq<Instruction>, k: nat)
    requires k < |code|
    ensures k == 0 ==> Position(ctx, code, k) == |Emitted(ctx, code[0])| - 1
    ensures k > 0 ==> Position(ctx, code, k) == |Emitted(ctx, code[0])| + Position(ctx, code[1..], k - 1)
  {
    assert code[..k + 1][0] == code[0];
    assert code[..k + 1][1..] == code[1..][..k];
    if k == 0 {
      assert code[..1][1..] == [];
      assert GarbageCount(ctx, code[..1]) == (if NeedsGarbage(ctx, code[0]) then 1 else 0) + GarbageCount(ctx, []);
    }
  }

  /** The pass fails exactly when some rewritten instruction is rejected, and with the first one's error. */
  lemma {:induction false} RewriteFailsAtFirstRejected(ctx: Context, code: seq<Instruction>)
    ensures Rewrite(ctx, code).Err? <==>
              exists k :: 0 <= k < |code| && Verify(ctx.mixin, Rebind(ctx, code[k])).Some?
    ensures Rewrite(ctx, code).Err? ==>
              exists k :: 0 <= k < |code| && Verify(ctx.mixin, Rebind(ctx, code[k])) == Some(Rewrite(ctx, code).error)
                          && forall j :: 0 <= j < k ==> Verify(ctx.mixin, Rebind(ctx, code[j])).None?
    decreases |code|
  {
    if code != [] {
      var rest := code[1..];
      RewriteFailsAtFirstRejected(ctx, rest);
      if Verify(ctx.mixin, Rebind(ctx, code[0])).None? {
        assert forall k :: 1 <= k < |code| ==> code[k] == rest[k - 1];
        if Rewrite(ctx, code).Err? {
          var k :| 0 <= k < |rest| && Verify(ctx.mixin, Rebind(ctx, rest[k])) == Some(Rewrite(ctx, rest).error)
                   && forall j :: 0 <= j < k ==> Verify(ctx.mixin, Rebind(ctx, rest[j])).None?;
          assert Verify(ctx.mixin, Rebind(ctx, code[k + 1])) == Some(Rewrite(ctx, code).error);
        } else {
          forall k | 0 <= k < |code| ensures Verify(ctx.mixin, Rebind(ctx, code[k])).None? {
            if k > 0 { assert code[k] == rest[k - 1]; }
          }
        }
      }
    }
  }

  /**
   * The tables send nothing back to the mixin: the target is another class,
   * and no shadowed field or copied method is owned by the mixin.
   */
  predicate RebindsAwayFromMixin(ctx: Context) {
    && ctx.target != ctx.mixin.name
    && (forall f :: f in ctx.shadowFields ==> ctx.shadowFields[f].owner != ctx.mixin.name)
    && (forall m :: m in ctx.copiedMethods ==> ctx.copiedMethods[m].obMethod.owner != ctx.mixin.name)
  }

  /** After rewriting, no field or method reference names the mixin class any more. */
  lemma {:induction false} RewriteLeavesNoMixinReference(ctx: Context, code: seq<Instruction>)
    requires RebindsAwayFromMixin(ctx)
    requires Rewrite(ctx, code).Ok?
    ensures forall i :: i in Rewrite(ctx, code).value && i.FieldInsn? ==> i.field.owner != ctx.mixin.name
    ensures forall i :: i in Rewrite(ctx, code).value && i.InvokeInsn? ==> i.callee.owner != ctx.mixin.name
    decreases |code|
  {
    if code != [] {
      RewriteLeavesNoMixinReference(ctx, code[1..]);
      var out := Rewrite(ctx, code).value;
      assert out == Emitted(ctx, code[0]) + Rewrite(ctx, code[1..]).value;
    }
  }

  /** A cross-mixin static call: after rebinding, an invokestatic into another class of the mixin package. */
  predicate CrossMixinCall(ctx: Context, i: Instruction) {
    var r := Rebind(ctx, i);
    r.InvokeInsn? && r.invokeOp == InvokeStatic && InMixinPackage(r.callee.owner)
  }

  /**
   * On code rewritten away from the mixin, the verifier's field checks can
   * never fire: the pass fails exactly on an invokedynamic or a static call
   * into another mixin, with that error.
   */
  lemma RewriteRejectsExactly(ctx: Context, code: seq<Instruction>)
    requires RebindsAwayFromMixin(ctx)
    ensures Rewrite(ctx, code).Err? <==>
              exists k :: 0 <= k < |code| && (code[k].InvokeDynamic? || CrossMixinCall(ctx, code[k]))
    ensures Rewrite(ctx, code).Err? ==>
              Rewrite(ctx, code).error.InvokeDynamicNotSupported? || Rewrite(ctx, code).error.CrossMixinStaticCall?
  {
    RewriteFailsAtFirstRejected(ctx, code);
    forall k | 0 <= k < |code|
      ensures Verify(ctx.mixin, Rebind(ctx, code[k])).Some? <==> (code[k].InvokeDynamic? || CrossMixinCall(ctx, code[k]))
      ensures Verify(ctx.mixin, Rebind(ctx, code[k])).Some? ==>
                Verify(ctx.mixin, Rebind(ctx, code[k])).value.InvokeDynamicNotSupported?
                || Verify(ctx.mixin, Rebind(ctx, code[k])).value.CrossMixinStaticCall?
    {
      var r := Rebind(ctx, code[k]);
      assert r.FieldInsn? ==> r.field.owner != ctx.mixin.name;
      assert r.InvokeInsn? ==> r.callee.owner != ctx.mixin.name;
    }
  }
}
