/**
 * The per-target merge, `inject(mixinCf, cf, shadowFields)`: first every
 * @Copy method adds a public copy of the vanilla method it names to the
 * target and records it in the copied-method table; then every @Inject
 * method is rewritten and appended to the target, and every @Replace
 * method's rewritten code replaces the code of the vanilla method it names.
 */
module Merge {
  import opened ClassModel
  import opened Lookup
  import opened Rewriting
  import Fields

  /** What the merge reads besides the vanilla group: the deobfuscated group, the mapping and the shadow table. */
  datatype Env = Env(deob: seq<ClassFile>, mapping: Mapping, shadowFields: map<FieldRef, Field>)

  /**
   * The vanilla method a @Copy or @Replace names, before it is looked up:
   * the deobfuscated method, the vanilla class of its class, and its
   * obfuscated name and signature.
   */
  datatype ObTarget = ObTarget(deobMethod: Method, obClass: Option<nat>, obName: Option<Name>, obSignature: Signature)

  /** The obfuscated signature of a deobfuscated method, its own descriptor when it has none. */
  function ObSignature(deobMethod: Method): (r: Signature)
    ensures ObfuscatedSignatureOf(deobMethod.annotations).Some? ==> r == ObfuscatedSignatureOf(deobMethod.annotations).value
    ensures ObfuscatedSignatureOf(deobMethod.annotations).None? ==> r == deobMethod.descriptor
  {
    match ObfuscatedSignatureOf(deobMethod.annotations)
    case Some(s) => s
    case None => deobMethod.descriptor
  }

  /** The deobfuscated class of the target: `toDeobClass`, then a lookup in the deobfuscated group. */
  function DeobClassOf(env: Env, target: Name): Option<nat> {
    FindClass(env.deob, env.mapping.toDeobClass(target))
  }

  /**
   * Resolving the method `ref` of a @Copy or @Replace mixin method `m` for
   * the target class: `findDeobMethod` from the target's deobfuscated
   * class, the static-ness check, and the obfuscated names of what was found.
   */
  function ResolveOb(classes: seq<ClassFile>, env: Env, target: Name, mixinName: Name, m: Method, ref: Name): (r: Result<ObTarget>)
    ensures r.Ok? && r.value.obClass.Some? ==> r.value.obClass.value < |classes|
  {
    match DeobClassOf(env, target)
    case None => Err(NullDereference)
    case Some(d) =>
      match DeobMethodLookup(env.deob, d, ref)
      case None => Err(DeobMethodNotFound(ref, mixinName))
      case Some(hit) =>
        var deobCf := env.deob[hit.cls];
        var deobMethod := deobCf.methods[hit.index];
        if m.IsStatic() != deobMethod.IsStatic() then Err(StaticnessMismatch(m.PoolMethod(), deobMethod.IsStatic()))
        else
          Ok(ObTarget(deobMethod,
                      FindClass(classes, NameElement(deobCf.annotations, ObfuscatedNameType)),
                      NameElement(deobMethod.annotations, ObfuscatedNameType),
                      ObSignature(deobMethod)))
  }

  /** What resolving a @Copy or @Replace reference yields, and when it fails. */
  lemma ResolveObSpec(classes: seq<ClassFile>, env: Env, target: Name, mixinName: Name, m: Method, ref: Name)
    // a target with no deobfuscated class is dereferenced anyway
    ensures var r := ResolveOb(classes, env, target, mixinName, m, ref);
            DeobClassOf(env, target).None? <==> r == Err(NullDereference)
    ensures var r := ResolveOb(classes, env, target, mixinName, m, ref);
            DeobClassOf(env, target).Some? ==>
              ((r == Err(DeobMethodNotFound(ref, mixinName))) <==>
               forall k :: 0 <= k < |env.deob| ==> !HasMethodNamed(env.deob[k], ref))
    ensures var r := ResolveOb(classes, env, target, mixinName, m, ref);
            r.Err? ==> r.error in {NullDereference, DeobMethodNotFound(ref, mixinName),
                                   StaticnessMismatch(m.PoolMethod(), !m.IsStatic())}
    // the method found, in the target's own deobfuscated class when it has one
    ensures var r := ResolveOb(classes, env, target, mixinName, m, ref);
            r.Ok? || (r.Err? && r.error.StaticnessMismatch?) ==>
              DeobClassOf(env, target).Some?
              && var hit := DeobMethodLookup(env.deob, DeobClassOf(env, target).value, ref);
                 hit.Some?
                 && (r.Ok? ==> r.value.deobMethod == env.deob[hit.value.cls].methods[hit.value.index])
                 && (r.Err? <==> env.deob[hit.value.cls].methods[hit.value.index].IsStatic() != m.IsStatic())
    ensures var r := ResolveOb(classes, env, target, mixinName, m, ref);
            r.Ok? ==> r.value.deobMethod.name == ref && r.value.deobMethod.IsStatic() == m.IsStatic()
    ensures var r := ResolveOb(classes, env, target, mixinName, m, ref);
            r.Ok? ==> r.value.obName == NameElement(r.value.deobMethod.annotations, ObfuscatedNameType)
                      && r.value.obSignature == ObSignature(r.value.deobMethod)
    ensures var r := ResolveOb(classes, env, target, mixinName, m, ref);
            r.Ok? ==> exists k :: 0 <= k < |env.deob| && r.value.deobMethod in env.deob[k].methods
                                  && r.value.obClass == FindClass(classes, NameElement(env.deob[k].annotations, ObfuscatedNameType))
  {
  }

  /** Two class groups with the same names, class by class. */
  predicate SameNames(a: seq<ClassFile>, b: seq<ClassFile>) {
    |a| == |b| && forall k :: 0 <= k < |a| ==> a[k].name == b[k].name
  }

  lemma FindClassSameNames(a: seq<ClassFile>, b: seq<ClassFile>, name: Option<Name>)
    requires SameNames(a, b)
    ensures FindClass(a, name) == FindClass(b, name)
  {
    var ra, rb := FindClass(a, name), FindClass(b, name);
    if ra.Some? && rb.Some? {
      assert name == Some(b[ra.value].name);
      assert name == Some(a[rb.value].name);
    }
  }

  /** Resolving reads the vanilla group only through its class names. */
  lemma ResolveObSameNames(a: seq<ClassFile>, b: seq<ClassFile>, env: Env, target: Name, mixinName: Name, m: Method, ref: Name)
    requires SameNames(a, b)
    ensures ResolveOb(a, env, target, mixinName, m, ref) == ResolveOb(b, env, target, mixinName, m, ref)
  {
    match DeobClassOf(env, target)
    case None =>
    case Some(d) =>
      match DeobMethodLookup(env.deob, d, ref)
      case None =>
      case Some(hit) =>
        FindClassSameNames(a, b, NameElement(env.deob[hit.cls].annotations, ObfuscatedNameType));
  }

  function AddMethod(c: ClassFile, m: Method): ClassFile {
    c.(methods := c.methods + [m])
  }

  /** The public copy of vanilla method `obMethod` a @Copy of `ref` adds to the target. */
  function CopyOf(obMethod: Method, target: Name, ref: Name, obSignature: Signature): (r: Method)
    ensures r.owner == target && r.name == "copy$" + ref && r.descriptor == obSignature
    ensures Public in r.access && Private !in r.access && Protected !in r.access
    ensures r.IsStatic() == obMethod.IsStatic()
    ensures r.access == SetPublic(obMethod.access)
    ensures r.code == obMethod.code && r.exceptions == obMethod.exceptions && r.annotations == obMethod.annotations
  {
    Method(target, "copy$" + ref, obSignature, SetPublic(obMethod.access), obMethod.code, obMethod.exceptions, obMethod.annotations)
  }

  /** The public method an @Inject method becomes in the target, with its rewritten code and no exceptions. */
  function InjectedMethod(m: Method, target: Name, code: seq<Instruction>): (r: Method)
    ensures r.owner == target && r.name == m.name && r.descriptor == m.descriptor && r.code == code
    ensures Public in r.access && Private !in r.access && Protected !in r.access
    ensures r.IsStatic() == m.IsStatic()
    ensures r.access == SetPublic(m.access)
    ensures r.exceptions == [] && r.annotations == []
  {
    Method(target, m.name, m.descriptor, SetPublic(m.access), code, [], [])
  }

  /** The state of the copy loop: the vanilla group and the copied-method table. */
  datatype MergeState = MergeState(classes: seq<ClassFile>, copied: map<MethodRef, CopiedMethod>)

  function CopyName(m: Method): Option<Name> {
    NameElement(m.annotations, CopyType)
  }

  /**
   * `c` is the entry a @Copy method `m` records for target `t`: its own
   * `copy$` method, with the signature its resolution gives, and the
   * garbage flag set iff the deobfuscated descriptor has fewer arguments
   * than the obfuscated signature.
   */
  predicate OwnCopy(classes: seq<ClassFile>, env: Env, mixin: ClassFile, t: nat, m: Method, c: CopiedMethod)
    requires t < |classes|
  {
    && CopyName(m).Some?
    && var ob := ResolveOb(classes, env, classes[t].name, mixin.name, m, CopyName(m).value);
       && ob.Ok?
       && c.obMethod.name == "copy$" + CopyName(m).value
       && c.obMethod.descriptor == ob.value.obSignature
       && (c.hasGarbageValue <==> ob.value.deobMethod.descriptor.Size() < ob.value.obSignature.Size())
  }

  lemma OwnCopySameNames(a: seq<ClassFile>, b: seq<ClassFile>, env: Env, mixin: ClassFile, t: nat, m: Method, c: CopiedMethod)
    requires SameNames(a, b) && t < |a|
    ensures OwnCopy(a, env, mixin, t, m, c) == OwnCopy(b, env, mixin, t, m, c)
  {
    if CopyName(m).Some? {
      ResolveObSameNames(a, b, env, a[t].name, mixin.name, m, CopyName(m).value);
    }
  }

  /** One method of the copy loop. */
  function CopyStep(st: MergeState, env: Env, mixin: ClassFile, t: nat, m: Method): (r: Result<MergeState>)
    requires t < |st.classes|
    ensures r.Ok? ==> |r.value.classes| == |st.classes|
  {
    match CopyName(m)
    case None => Ok(st)
    case Some(ref) =>
      match ResolveOb(st.classes, env, st.classes[t].name, mixin.name, m, ref)
      case Err(e) => Err(e)
      case Ok(ob) =>
        match ob.obClass
        case None => Err(NullDereference)
        case Some(oc) =>
          match FindMethod(st.classes[oc].methods, ob.obName, ob.obSignature)
          case None => Err(ObMethodNotFound(ob.obName, mixin.name))
          case Some(j) =>
            var copy := CopyOf(st.classes[oc].methods[j], st.classes[t].name, ref, ob.obSignature);
            var hasGarbageValue := ob.deobMethod.descriptor.Size() < ob.obSignature.Size();
            Ok(MergeState(st.classes[t := AddMethod(st.classes[t], copy)],
                          st.copied[m.PoolMethod() := CopiedMethod(copy, hasGarbageValue)]))
  }

  /** One @Copy: the target gains one method at the end, and the table maps the mixin method to it. */
  lemma CopyStepShape(st: MergeState, env: Env, mixin: ClassFile, t: nat, m: Method)
    requires t < |st.classes|
    ensures var r := CopyStep(st, env, mixin, t, m);
            CopyName(m).None? ==> r == Ok(st)
    ensures var r := CopyStep(st, env, mixin, t, m);
            CopyName(m).Some? && r.Ok? ==>
              m.PoolMethod() in r.value.copied
              && var c := r.value.copied[m.PoolMethod()];
                 && r.value.classes == st.classes[t := st.classes[t].(methods := st.classes[t].methods + [c.obMethod])]
                 && r.value.copied == st.copied[m.PoolMethod() := c]
                 && c.obMethod.owner == st.classes[t].name && c.obMethod.name == "copy$" + CopyName(m).value
                 && Public in c.obMethod.access
  {
    var r := CopyStep(st, env, mixin, t, m);
    if CopyName(m).Some? && r.Ok? {
      var ref := CopyName(m).value;
      var ob := ResolveOb(st.classes, env, st.classes[t].name, mixin.name, m, ref).value;
      var oc := ob.obClass.value;
      var j := FindMethod(st.classes[oc].methods, ob.obName, ob.obSignature).value;
      var copy := CopyOf(st.classes[oc].methods[j], st.classes[t].name, ref, ob.obSignature);
      assert r.value.copied[m.PoolMethod()].obMethod == copy;
    }
  }

  /** One @Copy: the copy is of the resolved vanilla method, and a missing one is reported. */
  lemma CopyStepEffect(st: MergeState, env: Env, mixin: ClassFile, t: nat, m: Method)
    requires t < |st.classes|
    // the copy is of the vanilla method with the resolved obfuscated name and signature
    ensures var r := CopyStep(st, env, mixin, t, m);
            CopyName(m).Some? && r.Ok? ==>
              var ob := ResolveOb(st.classes, env, st.classes[t].name, mixin.name, m, CopyName(m).value);
              ob.Ok? && ob.value.obClass.Some? && ob.value.obClass.value < |st.classes|
              && var oc := ob.value.obClass.value;
                 var c := r.value.copied[m.PoolMethod()];
                 exists j :: 0 <= j < |st.classes[oc].methods|
                   && ob.value.obName == Some(st.classes[oc].methods[j].name)
                   && st.classes[oc].methods[j].descriptor == ob.value.obSignature
                   && c.obMethod == CopyOf(st.classes[oc].methods[j], st.classes[t].name, CopyName(m).value, ob.value.obSignature)
                   && (c.hasGarbageValue <==> ob.value.deobMethod.descriptor.Size() < ob.value.obSignature.Size())
    // a resolved vanilla class without that method is reported as such
    ensures var r := CopyStep(st, env, mixin, t, m);
            CopyName(m).Some? ==>
              var ob := ResolveOb(st.classes, env, st.classes[t].name, mixin.name, m, CopyName(m).value);
              (r.Err? && r.error.ObMethodNotFound?) <==>
              (ob.Ok? && ob.value.obClass.Some? && ob.value.obClass.value < |st.classes|
               && forall j :: 0 <= j < |st.classes[ob.value.obClass.value].methods| ==>
                    !(ob.value.obName == Some(st.classes[ob.value.obClass.value].methods[j].name)
                      && st.classes[ob.value.obClass.value].methods[j].descriptor == ob.value.obSignature))
    // a failed resolution is reported as is, a missing vanilla class is dereferenced anyway,
    // and a @Copy whose vanilla method is found succeeds
    ensures var r := CopyStep(st, env, mixin, t, m);
            CopyName(m).Some? ==>
              var ob := ResolveOb(st.classes, env, st.classes[t].name, mixin.name, m, CopyName(m).value);
              && (ob.Err? ==> r == Err(ob.error))
              && (ob.Ok? && ob.value.obClass.None? ==> r == Err(NullDereference))
              && (ob.Ok? && ob.value.obClass.Some?
                  && (exists j :: 0 <= j < |st.classes[ob.value.obClass.value].methods|
                        && ob.value.obName == Some(st.classes[ob.value.obClass.value].methods[j].name)
                        && st.classes[ob.value.obClass.value].methods[j].descriptor == ob.value.obSignature)
                  ==> r.Ok?)
  {
    var r := CopyStep(st, env, mixin, t, m);
    if CopyName(m).Some? {
      var ref := CopyName(m).value;
      var ob := ResolveOb(st.classes, env, st.classes[t].name, mixin.name, m, ref);
      if ob.Ok? && ob.value.obClass.Some? {
        var oc := ob.value.obClass.value;
        var found := FindMethod(st.classes[oc].methods, ob.value.obName, ob.value.obSignature);
        if found.Some? {
          var j := found.value;
          var copy := CopyOf(st.classes[oc].methods[j], st.classes[t].name, ref, ob.value.obSignature);
          var garbage := ob.value.deobMethod.descriptor.Size() < ob.value.obSignature.Size();
          assert r == Ok(MergeState(st.classes[t := AddMethod(st.classes[t], copy)],
                                    st.copied[m.PoolMethod() := CopiedMethod(copy, garbage)]));
          assert r.value.copied[m.PoolMethod()] == CopiedMethod(copy, garbage);
          assert st.classes[oc].methods[j].descriptor == ob.value.obSignature;
        } else {
          assert r == Err(ObMethodNotFound(ob.value.obName, mixin.name));
        }
      } else if ob.Ok? {
        assert r == Err(NullDereference);
      } else {
        assert r == Err(ob.error);
      }
    }
  }

  /** The copy loop over the mixin's methods, stopping at the first failure. */
  function CopyPhase(st: MergeState, env: Env, mixin: ClassFile, t: nat, methods: seq<Method>): (r: Result<MergeState>)
    requires t < |st.classes|
    ensures r.Ok? ==> |r.value.classes| == |st.classes|
    decreases |methods|
  {
    if methods == [] then Ok(st)
    else match CopyStep(st, env, mixin, t, methods[0])
      case Err(e) => Err(e)
      case Ok(next) => CopyPhase(next, env, mixin, t, methods[1..])
  }

  function SetCode(c: ClassFile, j: nat, code: seq<Instruction>): ClassFile
    requires j < |c.methods|
  {
    c.(methods := c.methods[j := c.methods[j].(code := code)])
  }

  /** The rewriting context for the target: the mixin, the target's name and both tables. */
  function ContextFor(classes: seq<ClassFile>, env: Env, copied: map<MethodRef, CopiedMethod>, mixin: ClassFile, t: nat): Context
    requires t < |classes|
  {
    Context(mixin, classes[t].name, env.shadowFields, copied)
  }

  /** One method of the second loop: @Inject wins over @Replace, anything else is skipped. */
  function MergeStep(classes: seq<ClassFile>, env: Env, copied: map<MethodRef, CopiedMethod>,
                     mixin: ClassFile, t: nat, m: Method): (r: Result<seq<ClassFile>>)
    requires t < |classes|
    ensures r.Ok? ==> |r.value| == |classes|
  {
    var ctx := ContextFor(classes, env, copied, mixin, t);
    if HasInject(m.annotations) then
      match Rewrite(ctx, m.code)
      case Err(e) => Err(e)
      case Ok(code) => Ok(classes[t := AddMethod(classes[t], InjectedMethod(m, classes[t].name, code))])
    else match NameElement(m.annotations, ReplaceType)
      case None => Ok(classes)
      case Some(ref) =>
        match ResolveOb(classes, env, classes[t].name, mixin.name, m, ref)
        case Err(e) => Err(e)
        case Ok(ob) => ReplaceCode(classes, ctx, m, ob)
  }

  /** The @Replace half of `MergeStep`, once the vanilla method is resolved. */
  function ReplaceCode(classes: seq<ClassFile>, ctx: Context, m: Method, ob: ObTarget): (r: Result<seq<ClassFile>>)
    requires ob.obClass.Some? ==> ob.obClass.value < |classes|
    ensures r.Ok? ==> |r.value| == |classes|
  {
    match ob.obClass
    case None => Err(NullDereference)
    case Some(oc) =>
      match FindMethod(classes[oc].methods, ob.obName, ob.obSignature)
      // the source sets the code of a method it never checked for null
      case None => Err(NullDereference)
      case Some(j) =>
        match Rewrite(ctx, m.code)
        case Err(e) => Err(e)
        case Ok(code) => Ok(classes[oc := SetCode(classes[oc], j, code)])
  }

  /**
   * One method of the second loop: an @Inject method is rewritten and
   * appended to the target; otherwise a @Replace method's rewritten code
   * replaces the code of the vanilla method it resolves to; anything else
   * changes nothing.
   */
  lemma MergeStepSpec(classes: seq<ClassFile>, env: Env, copied: map<MethodRef, CopiedMethod>,
                      mixin: ClassFile, t: nat, m: Method)
    requires t < |classes|
    // @Inject: the rewritten method is appended to the target, or the rewrite's failure is reported
    ensures var r := MergeStep(classes, env, copied, mixin, t, m);
            HasInject(m.annotations) ==>
              var code := Rewrite(ContextFor(classes, env, copied, mixin, t), m.code);
              && (r.Err? <==> code.Err?) && (r.Err? ==> r.error == code.error)
              && (r.Ok? ==> r.value == classes[t := classes[t].(methods := classes[t].methods
                                                     + [InjectedMethod(m, classes[t].name, code.value)])])
    // @Replace: only the code of the resolved vanilla method changes
    ensures var r := MergeStep(classes, env, copied, mixin, t, m);
            !HasInject(m.annotations) && NameElement(m.annotations, ReplaceType).Some? && r.Ok? ==>
              var ob := ResolveOb(classes, env, classes[t].name, mixin.name, m, NameElement(m.annotations, ReplaceType).value);
              var code := Rewrite(ContextFor(classes, env, copied, mixin, t), m.code);
              ob.Ok? && ob.value.obClass.Some? && ob.value.obClass.value < |classes| && code.Ok?
              && var oc := ob.value.obClass.value;
                 exists j :: 0 <= j < |classes[oc].methods|
                   && ob.value.obName == Some(classes[oc].methods[j].name)
                   && classes[oc].methods[j].descriptor == ob.value.obSignature
                   && r.value == classes[oc := classes[oc].(methods := classes[oc].methods[j := classes[oc].methods[j].(code := code.value)])]
    // @Replace failures: the resolution's error; a null dereference for a missing vanilla class or
    // method; once the vanilla method is found, the step fails exactly when the rewrite does
    ensures var r := MergeStep(classes, env, copied, mixin, t, m);
            !HasInject(m.annotations) && NameElement(m.annotations, ReplaceType).Some? ==>
              var ob := ResolveOb(classes, env, classes[t].name, mixin.name, m, NameElement(m.annotations, ReplaceType).value);
              var code := Rewrite(ContextFor(classes, env, copied, mixin, t), m.code);
              && (ob.Err? ==> r == Err(ob.error))
              && (ob.Ok? && ob.value.obClass.None? ==> r == Err(NullDereference))
              && (ob.Ok? && ob.value.obClass.Some? ==>
                    var oc := ob.value.obClass.value;
                    if exists j :: 0 <= j < |classes[oc].methods|
                         && ob.value.obName == Some(classes[oc].methods[j].name)
                         && classes[oc].methods[j].descriptor == ob.value.obSignature
                    then (r.Err? <==> code.Err?) && (r.Err? ==> r.error == code.error)
                    else r == Err(NullDereference))
    ensures var r := MergeStep(classes, env, copied, mixin, t, m);
            !HasInject(m.annotations) && NameElement(m.annotations, ReplaceType).None? ==> r == Ok(classes)
  {
    var r := MergeStep(classes, env, copied, mixin, t, m);
    if !HasInject(m.annotations) && NameElement(m.annotations, ReplaceType).Some? {
      var ctx := ContextFor(classes, env, copied, mixin, t);
      var ob := ResolveOb(classes, env, classes[t].name, mixin.name, m, NameElement(m.annotations, ReplaceType).value);
      if ob.Ok? && ob.value.obClass.Some? {
        var oc := ob.value.obClass.value;
        var found := FindMethod(classes[oc].methods, ob.value.obName, ob.value.obSignature);
        assert r == ReplaceCode(classes, ctx, m, ob.value);
        if found.Some? {
          var j := found.value;
          if r.Ok? {
            assert r.value == classes[oc := SetCode(classes[oc], j, Rewrite(ctx, m.code).value)];
          }
        }
      }
    }
  }

  /** The second loop over the mixin's methods, stopping at the first failure. */
  function MergePhase(classes: seq<ClassFile>, env: Env, copied: map<MethodRef, CopiedMethod>,
                      mixin: ClassFile, t: nat, methods: seq<Method>): (r: Result<seq<ClassFile>>)
    requires t < |classes|
    ensures r.Ok? ==> |r.value| == |classes|
    decreases |methods|
  {
    if methods == [] then Ok(classes)
    else match MergeStep(classes, env, copied, mixin, t, methods[0])
      case Err(e) => Err(e)
      case Ok(next) => MergePhase(next, env, copied, mixin, t, methods[1..])
  }

  /** `inject(mixinCf, cf, shadowFields)` for target `t`: the copy loop with an empty table, then the second loop. */
  function InjectInto(classes: seq<ClassFile>, env: Env, mixin: ClassFile, t: nat): (r: Result<MergeState>)
    requires t < |classes|
    ensures r.Ok? ==> |r.value.classes| == |classes|
  {
    match CopyPhase(MergeState(classes, map[]), env, mixin, t, mixin.methods)
    case Err(e) => Err(e)
    case Ok(st) =>
      match MergePhase(st.classes, env, st.copied, mixin, t, mixin.methods)
      case Err(e) => Err(e)
      case Ok(merged) => Ok(MergeState(merged, st.copied))
  }

  /** Two methods that differ at most in their code. */
  predicate SameButCode(a: Method, b: Method) {
    a == b.(code := a.code)
  }

  /**
   * `after` is `before` with `added` appended to the methods of class `t`
   * and possibly other code in place: nothing but method lists changes,
   * only `t`'s list grows, and every method is, up to its code, the old
   * one at its index or the corresponding added one.
   */
  ghost predicate MethodsGrown(before: seq<ClassFile>, after: seq<ClassFile>, t: nat, added: seq<Method>) {
    && |after| == |before| && t < |before|
    && (forall k :: 0 <= k < |before| ==> after[k] == before[k].(methods := after[k].methods))
    && (forall k :: 0 <= k < |before| ==> |after[k].methods| == |before[k].methods| + (if k == t then |added| else 0))
    && (forall k, j :: 0 <= k < |before| && 0 <= j < |before[k].methods| ==> SameButCode(after[k].methods[j], before[k].methods[j]))
    && (forall j :: |before[t].methods| <= j < |after[t].methods| ==>
          SameButCode(after[t].methods[j], added[j - |before[t].methods|]))
  }

  lemma MethodsGrownRefl(a: seq<ClassFile>, t: nat)
    requires t < |a|
    ensures MethodsGrown(a, a, t, [])
  {
  }

  lemma {:induction false} MethodsGrownTrans(a: seq<ClassFile>, b: seq<ClassFile>, c: seq<ClassFile>, t: nat,
                                             added1: seq<Method>, added2: seq<Method>)
    requires MethodsGrown(a, b, t, added1) && MethodsGrown(b, c, t, added2)
    ensures MethodsGrown(a, c, t, added1 + added2)
  {
    var n := |a[t].methods|;
    var n1 := |b[t].methods|;
    forall k, j | 0 <= k < |a| && 0 <= j < |a[k].methods|
      ensures SameButCode(c[k].methods[j], a[k].methods[j])
    {
      assert SameButCode(b[k].methods[j], a[k].methods[j]);
    }
    forall j | n <= j < |c[t].methods|
      ensures SameButCode(c[t].methods[j], (added1 + added2)[j - n])
    {
      if j < n1 {
        assert SameButCode(b[t].methods[j], added1[j - n]);
      } else {
        assert SameButCode(c[t].methods[j], added2[j - n1]);
      }
    }
  }

  /** The @Inject methods of a mixin, in order. */
  function Injects(methods: seq<Method>): (r: seq<Method>)
    ensures forall m :: m in r <==> m in methods && HasInject(m.annotations)
    decreases |methods|
  {
    if methods == [] then []
    else (if HasInject(methods[0].annotations) then [methods[0]] else []) + Injects(methods[1..])
  }

  /** What each @Inject method becomes in the target, up to its code. */
  function InjectShapes(methods: seq<Method>, target: Name): (r: seq<Method>)
    ensures |r| == |Injects(methods)|
    ensures forall i :: 0 <= i < |r| ==> r[i] == InjectedMethod(Injects(methods)[i], target, Injects(methods)[i].code)
    decreases |methods|
  {
    if methods == [] then []
    else
      var m := methods[0];
      (if HasInject(m.annotations) then [InjectedMethod(m, target, m.code)] else []) + InjectShapes(methods[1..], target)
  }

  /** The @Copy references of a mixin's methods, in order. */
  function CopyRefs(methods: seq<Method>): (r: seq<Name>)
    ensures |r| <= |methods|
    decreases |methods|
  {
    if methods == [] then []
    else (if CopyName(methods[0]).Some? then [CopyName(methods[0]).value] else []) + CopyRefs(methods[1..])
  }

  /** Every @Copy method's reference is among them. */
  lemma {:induction false} CopyRefsHas(methods: seq<Method>, m: Method)
    requires m in methods && CopyName(m).Some?
    ensures CopyName(m).value in CopyRefs(methods)
    decreases |methods|
  {
    if methods[0] != m {
      CopyRefsHas(methods[1..], m);
    }
  }

  /** The copy loop keeps everything but the target's method list and the table. */
  ghost predicate CopiesAppended(before: MergeState, after: MergeState, env: Env, mixin: ClassFile, t: nat, methods: seq<Method>) {
    CopiesLaidOut(before.classes, after.classes, t, CopyRefs(methods)) && CopiesRecorded(before, after, env, mixin, t, methods)
  }

  /** One public copy per reference in `refs`, in order, appended to the target; nothing else changes. */
  ghost predicate CopiesLaidOut(before: seq<ClassFile>, after: seq<ClassFile>, t: nat, refs: seq<Name>) {
    && |after| == |before| && t < |before|
    && (forall k :: 0 <= k < |before| && k != t ==> after[k] == before[k])
    && after[t] == before[t].(methods := after[t].methods)
    && before[t].methods <= after[t].methods
    && |after[t].methods| == |before[t].methods| + |refs|
    && (forall j :: |before[t].methods| <= j < |after[t].methods| ==>
          after[t].methods[j].owner == before[t].name
          && after[t].methods[j].name == "copy$" + refs[j - |before[t].methods|]
          && Public in after[t].methods[j].access)
  }

  /**
   * The table gains the @Copy methods' pool references; each new entry is
   * one of the appended copies, and it is the own copy of a @Copy method
   * with that pool reference.
   */
  ghost predicate CopiesRecorded(before: MergeState, after: MergeState, env: Env, mixin: ClassFile, t: nat, methods: seq<Method>) {
    && |after.classes| == |before.classes| && t < |before.classes|
    && |before.classes[t].methods| <= |after.classes[t].methods|
    && (forall key :: key in after.copied <==>
          key in before.copied || exists m :: m in methods && CopyName(m).Some? && m.PoolMethod() == key)
    && (forall key :: key in after.copied ==>
          (key in before.copied && after.copied[key] == before.copied[key])
          || (after.copied[key].obMethod in after.classes[t].methods[|before.classes[t].methods|..]
              && exists m :: m in methods && m.PoolMethod() == key && OwnCopy(before.classes, env, mixin, t, m, after.copied[key])))
  }

  lemma {:induction false} CopyRefsConcat(a: seq<Method>, b: seq<Method>)
    ensures CopyRefs(a + b) == CopyRefs(a) + CopyRefs(b)
    decreases |a|
  {
    if a != [] {
      var head := if CopyName(a[0]).Some? then [CopyName(a[0]).value] else [];
      assert (a + b)[0] == a[0];
      assert (a + b)[1..] == a[1..] + b;
      assert CopyRefs(a + b) == head + CopyRefs(a[1..] + b);
      CopyRefsConcat(a[1..], b);
      assert head + (CopyRefs(a[1..]) + CopyRefs(b)) == (head + CopyRefs(a[1..])) + CopyRefs(b);
    } else {
      assert a + b == b;
    }
  }

  /** A state that gained one copy for `m`, at the end of the target and under `m`'s pool reference. */
  lemma OneCopyAppended(st: MergeState, after: MergeState, env: Env, mixin: ClassFile, t: nat, m: Method, c: CopiedMethod)
    requires t < |st.classes| && CopyName(m).Some?
    requires after.classes == st.classes[t := st.classes[t].(methods := st.classes[t].methods + [c.obMethod])]
    requires after.copied == st.copied[m.PoolMethod() := c]
    requires c.obMethod.owner == st.classes[t].name && c.obMethod.name == "copy$" + CopyName(m).value
    requires Public in c.obMethod.access
    requires OwnCopy(st.classes, env, mixin, t, m, c)
    ensures CopiesAppended(st, after, env, mixin, t, [m])
  {
    var n := |st.classes[t].methods|;
    assert m in [m];
    assert CopyRefs([m]) == [CopyName(m).value];
    assert after.classes[t].methods[n..] == [c.obMethod];
    assert after.classes[t].methods[n + 0] == c.obMethod;
  }

  lemma NoCopyAppended(st: MergeState, env: Env, mixin: ClassFile, t: nat, m: Method)
    requires t < |st.classes| && CopyName(m).None?
    ensures CopiesAppended(st, st, env, mixin, t, [m])
  {
    assert CopyRefs([m]) == [];
    assert st.classes[t].methods[|st.classes[t].methods|..] == [];
  }

  lemma CopyStepAppends(st: MergeState, env: Env, mixin: ClassFile, t: nat, m: Method)
    requires t < |st.classes|
    requires CopyStep(st, env, mixin, t, m).Ok?
    ensures CopiesAppended(st, CopyStep(st, env, mixin, t, m).value, env, mixin, t, [m])
  {
    CopyStepShape(st, env, mixin, t, m);
    CopyStepEffect(st, env, mixin, t, m);
    var after := CopyStep(st, env, mixin, t, m).value;
    if CopyName(m).Some? {
      OneCopyAppended(st, after, env, mixin, t, m, after.copied[m.PoolMethod()]);
    } else {
      NoCopyAppended(st, env, mixin, t, m);
    }
  }

  lemma {:induction false} CopiesLaidOutTrans(a: seq<ClassFile>, b: seq<ClassFile>, c: seq<ClassFile>, t: nat,
                                              refs1: seq<Name>, refs2: seq<Name>)
    requires CopiesLaidOut(a, b, t, refs1) && CopiesLaidOut(b, c, t, refs2)
    ensures CopiesLaidOut(a, c, t, refs1 + refs2)
  {
    var n := |a[t].methods|;
    var n1 := |b[t].methods|;
    assert c[t].methods[..n1] == b[t].methods;
    forall j | n <= j < |c[t].methods|
      ensures c[t].methods[j].owner == a[t].name
              && c[t].methods[j].name == "copy$" + (refs1 + refs2)[j - n]
              && Public in c[t].methods[j].access
    {
      assert b[t].name == a[t].name;
      if j < n1 {
        assert c[t].methods[j] == c[t].methods[..n1][j];
      }
    }
  }

  lemma {:induction false} CopiesRecordedTrans(a: MergeState, b: MergeState, c: MergeState, env: Env, mixin: ClassFile,
                                               t: nat, ms1: seq<Method>, ms2: seq<Method>)
    requires CopiesRecorded(a, b, env, mixin, t, ms1) && CopiesRecorded(b, c, env, mixin, t, ms2)
    requires b.classes[t].methods <= c.classes[t].methods
    requires SameNames(a.classes, b.classes)
    ensures CopiesRecorded(a, c, env, mixin, t, ms1 + ms2)
  {
    var n := |a.classes[t].methods|;
    var n1 := |b.classes[t].methods|;
    assert forall x :: x in ms1 + ms2 <==> x in ms1 || x in ms2;
    assert c.classes[t].methods[n..] == b.classes[t].methods[n..] + c.classes[t].methods[n1..];
    forall key | key in c.copied && !(key in a.copied && c.copied[key] == a.copied[key])
      ensures c.copied[key].obMethod in c.classes[t].methods[n..]
      ensures exists m :: m in ms1 + ms2 && m.PoolMethod() == key && OwnCopy(a.classes, env, mixin, t, m, c.copied[key])
    {
      if !(key in b.copied && c.copied[key] == b.copied[key]) {
        assert c.copied[key].obMethod in c.classes[t].methods[n1..];
        var m :| m in ms2 && m.PoolMethod() == key && OwnCopy(b.classes, env, mixin, t, m, c.copied[key]);
        OwnCopySameNames(a.classes, b.classes, env, mixin, t, m, c.copied[key]);
      } else {
        assert b.copied[key].obMethod in b.classes[t].methods[n..];
        var m :| m in ms1 && m.PoolMethod() == key && OwnCopy(a.classes, env, mixin, t, m, b.copied[key]);
      }
    }
  }

  lemma CopiesAppendedTrans(a: MergeState, b: MergeState, c: MergeState, env: Env, mixin: ClassFile, t: nat,
                             ms1: seq<Method>, ms2: seq<Method>)
    requires CopiesAppended(a, b, env, mixin, t, ms1) && CopiesAppended(b, c, env, mixin, t, ms2)
    ensures CopiesAppended(a, c, env, mixin, t, ms1 + ms2)
  {
    CopyRefsConcat(ms1, ms2);
    CopiesLaidOutTrans(a.classes, b.classes, c.classes, t, CopyRefs(ms1), CopyRefs(ms2));
    assert SameNames(a.classes, b.classes) by {
      forall k | 0 <= k < |a.classes| ensures a.classes[k].name == b.classes[k].name {
        if k == t { assert b.classes[t] == a.classes[t].(methods := b.classes[t].methods); }
      }
    }
    CopiesRecordedTrans(a, b, c, env, mixin, t, ms1, ms2);
  }

  /** The copy loop: see `CopiesAppended`. */
  lemma {:induction false} CopyPhaseLayout(st: MergeState, env: Env, mixin: ClassFile, t: nat, methods: seq<Method>)
    requires t < |st.classes|
    ensures CopyPhase(st, env, mixin, t, methods).Ok? ==>
              CopiesAppended(st, CopyPhase(st, env, mixin, t, methods).value, env, mixin, t, methods)
    decreases |methods|
  {
    var r := CopyPhase(st, env, mixin, t, methods);
    if methods == [] {
      assert st.classes[t].methods[|st.classes[t].methods|..] == [];
    } else if r.Ok? {
      var m := methods[0];
      CopyStepAppends(st, env, mixin, t, m);
      var mid := CopyStep(st, env, mixin, t, m).value;
      CopyPhaseLayout(mid, env, mixin, t, methods[1..]);
      CopiesAppendedTrans(st, mid, r.value, env, mixin, t, [m], methods[1..]);
      assert [m] + methods[1..] == methods;
    }
  }

  lemma AppendGrows(classes: seq<ClassFile>, t: nat, added: Method, shape: Method)
    requires t < |classes| && SameButCode(added, shape)
    ensures MethodsGrown(classes, classes[t := classes[t].(methods := classes[t].methods + [added])], t, [shape])
  {
  }

  lemma SetCodeGrows(classes: seq<ClassFile>, t: nat, oc: nat, j: nat, code: seq<Instruction>)
    requires t < |classes| && oc < |classes| && j < |classes[oc].methods|
    ensures MethodsGrown(classes, classes[oc := classes[oc].(methods := classes[oc].methods[j := classes[oc].methods[j].(code := code)])], t, [])
  {
  }

  /** One method of the second loop, in the terms of `MethodsGrown`. */
  lemma MergeStepGrows(classes: seq<ClassFile>, env: Env, copied: map<MethodRef, CopiedMethod>,
                       mixin: ClassFile, t: nat, m: Method)
    requires t < |classes|
    requires MergeStep(classes, env, copied, mixin, t, m).Ok?
    ensures MethodsGrown(classes, MergeStep(classes, env, copied, mixin, t, m).value, t,
                         if HasInject(m.annotations) then [InjectedMethod(m, classes[t].name, m.code)] else [])
  {
    var after := MergeStep(classes, env, copied, mixin, t, m).value;
    if HasInject(m.annotations) {
      var code := Rewrite(ContextFor(classes, env, copied, mixin, t), m.code).value;
      AppendGrows(classes, t, InjectedMethod(m, classes[t].name, code), InjectedMethod(m, classes[t].name, m.code));
    } else if NameElement(m.annotations, ReplaceType).Some? {
      var ob := ResolveOb(classes, env, classes[t].name, mixin.name, m, NameElement(m.annotations, ReplaceType).value);
      var code := Rewrite(ContextFor(classes, env, copied, mixin, t), m.code).value;
      var oc := ob.value.obClass.value;
      var j := FindMethod(classes[oc].methods, ob.value.obName, ob.value.obSignature).value;
      assert after == classes[oc := classes[oc].(methods := classes[oc].methods[j := classes[oc].methods[j].(code := code)])];
      SetCodeGrows(classes, t, oc, j, code);
    } else {
      MethodsGrownRefl(classes, t);
    }
  }

  /** The second loop: every @Inject method appended in order, every other change only to code. */
  lemma {:induction false} MergePhaseLayout(classes: seq<ClassFile>, env: Env, copied: map<MethodRef, CopiedMethod>,
                                            mixin: ClassFile, t: nat, methods: seq<Method>)
    requires t < |classes|
    ensures MergePhase(classes, env, copied, mixin, t, methods).Ok? ==>
              MethodsGrown(classes, MergePhase(classes, env, copied, mixin, t, methods).value, t,
                           InjectShapes(methods, classes[t].name))
    decreases |methods|
  {
    var r := MergePhase(classes, env, copied, mixin, t, methods);
    if methods == [] {
      MethodsGrownRefl(classes, t);
    } else if r.Ok? {
      var m := methods[0];
      MergeStepGrows(classes, env, copied, mixin, t, m);
      var mid := MergeStep(classes, env, copied, mixin, t, m).value;
      assert mid[t].name == classes[t].name;
      MergePhaseLayout(mid, env, copied, mixin, t, methods[1..]);
      MethodsGrownTrans(classes, mid, r.value, t,
                        if HasInject(m.annotations) then [InjectedMethod(m, classes[t].name, m.code)] else [],
                        InjectShapes(methods[1..], classes[t].name));
    }
  }

  lemma LaidOutGrows(before: seq<ClassFile>, after: seq<ClassFile>, t: nat, refs: seq<Name>)
    requires CopiesLaidOut(before, after, t, refs)
    ensures MethodsGrown(before, after, t, after[t].methods[|before[t].methods|..])
  {
    assert after[t].methods[..|before[t].methods|] == before[t].methods;
    forall k, j | 0 <= k < |before| && 0 <= j < |before[k].methods|
      ensures SameButCode(after[k].methods[j], before[k].methods[j])
    {
      if k == t { assert after[t].methods[j] == after[t].methods[..|before[t].methods|][j]; }
    }
  }

  /**
   * `inject(mixinCf, cf, shadowFields)` as a whole: the target's methods
   * become its old methods, then one public copy per @Copy method in
   * order, then one public method per @Inject method in order (each up
   * to code that a @Replace may swap); no other class gains a method, and
   * the copied-method table holds exactly the @Copy methods, each bound
   * to its own `copy$` method with the garbage flag its resolution gives.
   */
  lemma InjectIntoLayout(classes: seq<ClassFile>, env: Env, mixin: ClassFile, t: nat)
    requires t < |classes|
    requires InjectInto(classes, env, mixin, t).Ok?
    ensures var st := CopyPhase(MergeState(classes, map[]), env, mixin, t, mixin.methods).value;
            t < |st.classes| && |classes[t].methods| <= |st.classes[t].methods|
    ensures var st := CopyPhase(MergeState(classes, map[]), env, mixin, t, mixin.methods).value;
            var copies := st.classes[t].methods[|classes[t].methods|..];
            var r := InjectInto(classes, env, mixin, t).value;
            && |copies| == |CopyRefs(mixin.methods)|
            && (forall i :: 0 <= i < |copies| ==>
                  copies[i].owner == classes[t].name && copies[i].name == "copy$" + CopyRefs(mixin.methods)[i]
                  && Public in copies[i].access)
            && MethodsGrown(classes, r.classes, t, copies + InjectShapes(mixin.methods, classes[t].name))
            && (forall key :: key in r.copied <==>
                  exists m :: m in mixin.methods && CopyName(m).Some? && m.PoolMethod() == key)
            // each @Copy method is bound to its own copy
            && (forall key :: key in r.copied ==>
                  r.copied[key].obMethod in copies
                  && exists m :: m in mixin.methods && m.PoolMethod() == key && OwnCopy(classes, env, mixin, t, m, r.copied[key]))
  {
    var st0 := MergeState(classes, map[]);
    var st := CopyPhase(st0, env, mixin, t, mixin.methods).value;
    InjectIntoMethods(classes, env, mixin, t);
    CopyPhaseLayout(st0, env, mixin, t, mixin.methods);
    RecordedFromEmpty(classes, st, env, mixin, t, mixin.methods);
    var merged := MergePhase(st.classes, env, st.copied, mixin, t, mixin.methods).value;
    assert InjectInto(classes, env, mixin, t).value == MergeState(merged, st.copied);
  }

  /** The method-list half of `InjectIntoLayout`. */
  lemma InjectIntoMethods(classes: seq<ClassFile>, env: Env, mixin: ClassFile, t: nat)
    requires t < |classes|
    requires InjectInto(classes, env, mixin, t).Ok?
    ensures var st := CopyPhase(MergeState(classes, map[]), env, mixin, t, mixin.methods).value;
            t < |st.classes| && |classes[t].methods| <= |st.classes[t].methods|
    ensures var st := CopyPhase(MergeState(classes, map[]), env, mixin, t, mixin.methods).value;
            var copies := st.classes[t].methods[|classes[t].methods|..];
            && |copies| == |CopyRefs(mixin.methods)|
            && (forall i :: 0 <= i < |copies| ==>
                  copies[i].owner == classes[t].name && copies[i].name == "copy$" + CopyRefs(mixin.methods)[i]
                  && Public in copies[i].access)
            && MethodsGrown(classes, InjectInto(classes, env, mixin, t).value.classes, t,
                            copies + InjectShapes(mixin.methods, classes[t].name))
  {
    var st0 := MergeState(classes, map[]);
    var st := CopyPhase(st0, env, mixin, t, mixin.methods).value;
    CopyPhaseLayout(st0, env, mixin, t, mixin.methods);
    LaidOutCopies(classes, st.classes, t, CopyRefs(mixin.methods));
    LaidOutGrows(classes, st.classes, t, CopyRefs(mixin.methods));
    MergePhaseLayout(st.classes, env, st.copied, mixin, t, mixin.methods);
    var merged := MergePhase(st.classes, env, st.copied, mixin, t, mixin.methods).value;
    MethodsGrownTrans(classes, st.classes, merged, t, st.classes[t].methods[|classes[t].methods|..],
                      InjectShapes(mixin.methods, classes[t].name));
    assert InjectInto(classes, env, mixin, t).value == MergeState(merged, st.copied);
  }

  /** The appended copies, indexed from the first one. */
  lemma LaidOutCopies(before: seq<ClassFile>, after: seq<ClassFile>, t: nat, refs: seq<Name>)
    requires CopiesLaidOut(before, after, t, refs)
    ensures var copies := after[t].methods[|before[t].methods|..];
            && |copies| == |refs|
            && forall i :: 0 <= i < |copies| ==>
                 copies[i].owner == before[t].name && copies[i].name == "copy$" + refs[i]
                 && Public in copies[i].access
  {
    var n := |before[t].methods|;
    var copies := after[t].methods[n..];
    forall i | 0 <= i < |copies|
      ensures copies[i].owner == before[t].name && copies[i].name == "copy$" + refs[i]
              && Public in copies[i].access
    {
      assert copies[i] == after[t].methods[n + i];
    }
  }

  /** The table a copy loop records when it starts from an empty one. */
  lemma RecordedFromEmpty(classes: seq<ClassFile>, st: MergeState, env: Env, mixin: ClassFile, t: nat, methods: seq<Method>)
    requires CopiesRecorded(MergeState(classes, map[]), st, env, mixin, t, methods)
    ensures t < |classes| && |classes[t].methods| <= |st.classes[t].methods|
    ensures forall key :: key in st.copied <==>
              exists m :: m in methods && CopyName(m).Some? && m.PoolMethod() == key
    ensures forall key :: key in st.copied ==>
              st.copied[key].obMethod in st.classes[t].methods[|classes[t].methods|..]
              && exists m :: m in methods && m.PoolMethod() == key && OwnCopy(classes, env, mixin, t, m, st.copied[key])
  {
  }

  /** No field or method reference in `code` names the class `owner`. */
  predicate NoReferenceTo(code: seq<Instruction>, owner: Name) {
    && (forall i :: i in code && i.FieldInsn? ==> i.field.owner != owner)
    && (forall i :: i in code && i.InvokeInsn? ==> i.callee.owner != owner)
  }

  /** Every method that is new in `after`, or differs from the one at its index in `before`, references no `owner`. */
  ghost predicate ChangedMethodsClean(before: seq<ClassFile>, after: seq<ClassFile>, owner: Name) {
    && |after| == |before|
    && (forall k :: 0 <= k < |before| ==> |before[k].methods| <= |after[k].methods|)
    && (forall k, j :: 0 <= k < |after| && 0 <= j < |after[k].methods|
          && (j >= |before[k].methods| || after[k].methods[j] != before[k].methods[j])
          ==> NoReferenceTo(after[k].methods[j].code, owner))
  }

  lemma {:induction false} ChangedMethodsCleanTrans(a: seq<ClassFile>, b: seq<ClassFile>, c: seq<ClassFile>, owner: Name)
    requires ChangedMethodsClean(a, b, owner) && ChangedMethodsClean(b, c, owner)
    ensures ChangedMethodsClean(a, c, owner)
  {
    forall k, j | 0 <= k < |c| && 0 <= j < |c[k].methods| && (j >= |a[k].methods| || c[k].methods[j] != a[k].methods[j])
      ensures NoReferenceTo(c[k].methods[j].code, owner)
    {
      if j < |b[k].methods| && c[k].methods[j] == b[k].methods[j] {
        assert NoReferenceTo(b[k].methods[j].code, owner);
      }
    }
  }

  lemma AppendClean(classes: seq<ClassFile>, t: nat, added: Method, owner: Name)
    requires t < |classes| && NoReferenceTo(added.code, owner)
    ensures ChangedMethodsClean(classes, classes[t := classes[t].(methods := classes[t].methods + [added])], owner)
  {
  }

  lemma SetCodeClean(classes: seq<ClassFile>, oc: nat, j: nat, code: seq<Instruction>, owner: Name)
    requires oc < |classes| && j < |classes[oc].methods| && NoReferenceTo(code, owner)
    ensures ChangedMethodsClean(classes, classes[oc := classes[oc].(methods := classes[oc].methods[j := classes[oc].methods[j].(code := code)])], owner)
  {
  }

  /** One method of the second loop adds or changes only code rewritten away from the mixin. */
  lemma MergeStepClean(classes: seq<ClassFile>, env: Env, copied: map<MethodRef, CopiedMethod>,
                       mixin: ClassFile, t: nat, m: Method)
    requires t < |classes|
    requires RebindsAwayFromMixin(ContextFor(classes, env, copied, mixin, t))
    requires MergeStep(classes, env, copied, mixin, t, m).Ok?
    ensures ChangedMethodsClean(classes, MergeStep(classes, env, copied, mixin, t, m).value, mixin.name)
  {
    var ctx := ContextFor(classes, env, copied, mixin, t);
    var after := MergeStep(classes, env, copied, mixin, t, m).value;
    if HasInject(m.annotations) {
      var code := Rewrite(ctx, m.code).value;
      RewriteLeavesNoMixinReference(ctx, m.code);
      AppendClean(classes, t, InjectedMethod(m, classes[t].name, code), mixin.name);
    } else if NameElement(m.annotations, ReplaceType).Some? {
      var code := Rewrite(ctx, m.code).value;
      RewriteLeavesNoMixinReference(ctx, m.code);
      var ob := ResolveOb(classes, env, classes[t].name, mixin.name, m, NameElement(m.annotations, ReplaceType).value);
      var oc := ob.value.obClass.value;
      var j := FindMethod(classes[oc].methods, ob.value.obName, ob.value.obSignature).value;
      assert after == classes[oc := classes[oc].(methods := classes[oc].methods[j := classes[oc].methods[j].(code := code)])];
      SetCodeClean(classes, oc, j, code, mixin.name);
    }
  }

  lemma {:induction false} MergePhaseClean(classes: seq<ClassFile>, env: Env, copied: map<MethodRef, CopiedMethod>,
                                           mixin: ClassFile, t: nat, methods: seq<Method>)
    requires t < |classes|
    requires RebindsAwayFromMixin(ContextFor(classes, env, copied, mixin, t))
    requires MergePhase(classes, env, copied, mixin, t, methods).Ok?
    ensures ChangedMethodsClean(classes, MergePhase(classes, env, copied, mixin, t, methods).value, mixin.name)
    decreases |methods|
  {
    if methods != [] {
      var m := methods[0];
      MergeStepClean(classes, env, copied, mixin, t, m);
      var mid := MergeStep(classes, env, copied, mixin, t, m).value;
      MergeStepGrows(classes, env, copied, mixin, t, m);
      assert mid[t].name == classes[t].name;
      MergePhaseClean(mid, env, copied, mixin, t, methods[1..]);
      ChangedMethodsCleanTrans(classes, mid, MergePhase(classes, env, copied, mixin, t, methods).value, mixin.name);
    }
  }

  /**
   * When the target is not the mixin and no shadowed field belongs to the
   * mixin, every method the second loop adds or changes is free of
   * references to the mixin class; so the verifier's field checks on the
   * mixin can never fire there.
   */
  lemma InjectIntoLeavesNoMixinReference(classes: seq<ClassFile>, env: Env, mixin: ClassFile, t: nat)
    requires t < |classes| && classes[t].name != mixin.name
    requires forall f :: f in env.shadowFields ==> env.shadowFields[f].owner != mixin.name
    requires InjectInto(classes, env, mixin, t).Ok?
    ensures var st := CopyPhase(MergeState(classes, map[]), env, mixin, t, mixin.methods).value;
            ChangedMethodsClean(st.classes, InjectInto(classes, env, mixin, t).value.classes, mixin.name)
  {
    var st0 := MergeState(classes, map[]);
    var st := CopyPhase(st0, env, mixin, t, mixin.methods).value;
    CopyPhaseLayout(st0, env, mixin, t, mixin.methods);
    RecordedCopiesOwned(st0, st, env, mixin, t, mixin.methods);
    MergePhaseClean(st.classes, env, st.copied, mixin, t, mixin.methods);
  }

  /** Starting from an empty table, every recorded copy belongs to the target. */
  lemma RecordedCopiesOwned(st0: MergeState, st: MergeState, env: Env, mixin: ClassFile, t: nat, methods: seq<Method>)
    requires st0.copied == map[]
    requires CopiesAppended(st0, st, env, mixin, t, methods)
    ensures st.classes[t].name == st0.classes[t].name
    ensures forall key :: key in st.copied ==> st.copied[key].obMethod.owner == st0.classes[t].name
  {
    var n := |st0.classes[t].methods|;
    forall key | key in st.copied
      ensures st.copied[key].obMethod.owner == st0.classes[t].name
    {
      assert st.copied[key].obMethod in st.classes[t].methods[n..] by {
        assert key !in st0.copied;
      }
      var j :| 0 <= j < |st.classes[t].methods[n..]| && st.classes[t].methods[n..][j] == st.copied[key].obMethod;
      assert st.classes[t].methods[n + j] == st.copied[key].obMethod;
    }
  }

  /** `inject(mixinCf, cf, shadowFields)` for each target of one mixin in turn, each with a fresh copied-method table. */
  function MergeTargets(classes: seq<ClassFile>, env: Env, mixin: ClassFile, targets: seq<nat>): (r: Result<seq<ClassFile>>)
    requires forall t :: t in targets ==> t < |classes|
    ensures r.Ok? ==> |r.value| == |classes|
    decreases |targets|
  {
    if targets == [] then Ok(classes)
    else
      assert targets[0] in targets;
      match InjectInto(classes, env, mixin, targets[0])
      case Err(e) => Err(e)
      case Ok(st) =>
        assert forall t :: t in targets[1..] ==> t in targets;
        MergeTargets(st.classes, env, mixin, targets[1..])
  }

  /** The merge over all mixins, in the map's iteration order. */
  function MergeAll(classes: seq<ClassFile>, env: Env, entries: seq<Fields.MixinEntry>): (r: Result<seq<ClassFile>>)
    requires Fields.TargetsValid(entries, |classes|)
    ensures r.Ok? ==> |r.value| == |classes|
    decreases |entries|
  {
    if entries == [] then Ok(classes)
    else
      assert entries[0] in entries;
      assert forall e :: e in entries[1..] ==> e in entries;
      match MergeTargets(classes, env, entries[0].mixin, entries[0].targets)
      case Err(e) => Err(e)
      case Ok(next) => MergeAll(next, env, entries[1..])
  }

  /**
   * `after` keeps every class of `before` but for its method list, and
   * every old method but for its code; method lists only grow.
   */
  ghost predicate MethodsKept(before: seq<ClassFile>, after: seq<ClassFile>) {
    && |after| == |before|
    && (forall k :: 0 <= k < |before| ==>
          after[k] == before[k].(methods := after[k].methods) && |before[k].methods| <= |after[k].methods|)
    && (forall k, j :: 0 <= k < |before| && 0 <= j < |before[k].methods| ==> SameButCode(after[k].methods[j], before[k].methods[j]))
  }

  lemma MethodsKeptRefl(a: seq<ClassFile>)
    ensures MethodsKept(a, a)
  {
  }

  lemma MethodsKeptTrans(a: seq<ClassFile>, b: seq<ClassFile>, c: seq<ClassFile>)
    requires MethodsKept(a, b) && MethodsKept(b, c)
    ensures MethodsKept(a, c)
  {
  }

  /** The merge into one target keeps every class and every method but for code. */
  lemma InjectIntoKept(classes: seq<ClassFile>, env: Env, mixin: ClassFile, t: nat)
    requires t < |classes|
    requires InjectInto(classes, env, mixin, t).Ok?
    ensures MethodsKept(classes, InjectInto(classes, env, mixin, t).value.classes)
  {
    InjectIntoLayout(classes, env, mixin, t);
  }

  lemma {:induction false} MergeTargetsKept(classes: seq<ClassFile>, env: Env, mixin: ClassFile, targets: seq<nat>)
    requires forall t :: t in targets ==> t < |classes|
    requires MergeTargets(classes, env, mixin, targets).Ok?
    ensures MethodsKept(classes, MergeTargets(classes, env, mixin, targets).value)
    decreases |targets|
  {
    if targets == [] {
      MethodsKeptRefl(classes);
    } else {
      assert targets[0] in targets;
      assert forall t :: t in targets[1..] ==> t in targets;
      InjectIntoKept(classes, env, mixin, targets[0]);
      var next := InjectInto(classes, env, mixin, targets[0]).value.classes;
      MergeTargetsKept(next, env, mixin, targets[1..]);
      MethodsKeptTrans(classes, next, MergeTargets(classes, env, mixin, targets).value);
    }
  }

  /**
   * The merge over all mixins: no class is lost, no field changes, no
   * method is removed, renamed or re-signed; only code is replaced and
   * methods are added.
   */
  lemma {:induction false} MergeAllKept(classes: seq<ClassFile>, env: Env, entries: seq<Fields.MixinEntry>)
    requires Fields.TargetsValid(entries, |classes|)
    requires MergeAll(classes, env, entries).Ok?
    ensures MethodsKept(classes, MergeAll(classes, env, entries).value)
    decreases |entries|
  {
    if entries == [] {
      MethodsKeptRefl(classes);
    } else {
      assert entries[0] in entries;
      assert forall e :: e in entries[1..] ==> e in entries;
      MergeTargetsKept(classes, env, entries[0].mixin, entries[0].targets);
      var next := MergeTargets(classes, env, entries[0].mixin, entries[0].targets).value;
      MergeAllKept(next, env, entries[1..]);
      MethodsKeptTrans(classes, next, MergeAll(classes, env, entries).value);
    }
  }

  /** Class `c` has a method that is `shape` up to its code. */
  ghost predicate HasShape(c: ClassFile, shape: Method) {
    exists j :: 0 <= j < |c.methods| && SameButCode(c.methods[j], shape)
  }

  /** Class `c` has a public method of its own named `copy$` + `ref`. */
  ghost predicate HasCopy(c: ClassFile, ref: Name) {
    exists j :: 0 <= j < |c.methods| && c.methods[j].owner == c.name && c.methods[j].name == "copy$" + ref
                && Public in c.methods[j].access
  }

  /**
   * Class `c` carries what merging `mixin` into it adds: each @Inject
   * method, up to its code, and the copy of each @Copy method.
   */
  ghost predicate Carries(c: ClassFile, mixin: ClassFile) {
    forall m :: m in mixin.methods ==>
      && (HasInject(m.annotations) ==> HasShape(c, InjectedMethod(m, c.name, m.code)))
      && (CopyName(m).Some? ==> HasCopy(c, CopyName(m).value))
  }

  /** What a class carries survives a step that only adds methods and changes code. */
  lemma CarriesKept(c: ClassFile, d: ClassFile, mixin: ClassFile)
    requires d == c.(methods := d.methods) && |c.methods| <= |d.methods|
    requires forall j :: 0 <= j < |c.methods| ==> SameButCode(d.methods[j], c.methods[j])
    requires Carries(c, mixin)
    ensures Carries(d, mixin)
  {
    forall m | m in mixin.methods
      ensures HasInject(m.annotations) ==> HasShape(d, InjectedMethod(m, d.name, m.code))
      ensures CopyName(m).Some? ==> HasCopy(d, CopyName(m).value)
    {
      if HasInject(m.annotations) {
        var j :| 0 <= j < |c.methods| && SameButCode(c.methods[j], InjectedMethod(m, c.name, m.code));
        assert SameButCode(d.methods[j], InjectedMethod(m, d.name, m.code));
      }
      if CopyName(m).Some? {
        var j :| 0 <= j < |c.methods| && c.methods[j].owner == c.name && c.methods[j].name == "copy$" + CopyName(m).value
                 && Public in c.methods[j].access;
        assert SameButCode(d.methods[j], c.methods[j]);
      }
    }
  }

  /** The merge into target `t` leaves it carrying the mixin's @Inject methods and copies. */
  lemma InjectIntoCarries(classes: seq<ClassFile>, env: Env, mixin: ClassFile, t: nat)
    requires t < |classes|
    requires InjectInto(classes, env, mixin, t).Ok?
    ensures t < |InjectInto(classes, env, mixin, t).value.classes|
    ensures Carries(InjectInto(classes, env, mixin, t).value.classes[t], mixin)
  {
    InjectIntoMethods(classes, env, mixin, t);
    var st := CopyPhase(MergeState(classes, map[]), env, mixin, t, mixin.methods).value;
    LayoutCarries(classes, InjectInto(classes, env, mixin, t).value.classes, t, mixin,
                  st.classes[t].methods[|classes[t].methods|..]);
  }

  /**
   * A class whose methods grew by the copies for the mixin's @Copy
   * references and then its @Inject methods, each up to code, carries
   * what the mixin adds.
   */
  lemma LayoutCarries(before: seq<ClassFile>, after: seq<ClassFile>, t: nat, mixin: ClassFile, copies: seq<Method>)
    requires t < |before|
    requires |copies| == |CopyRefs(mixin.methods)|
    requires forall i :: 0 <= i < |copies| ==>
               copies[i].owner == before[t].name && copies[i].name == "copy$" + CopyRefs(mixin.methods)[i]
               && Public in copies[i].access
    requires MethodsGrown(before, after, t, copies + InjectShapes(mixin.methods, before[t].name))
    ensures t < |after| && Carries(after[t], mixin)
  {
    forall m | m in mixin.methods
      ensures HasInject(m.annotations) ==> HasShape(after[t], InjectedMethod(m, after[t].name, m.code))
      ensures CopyName(m).Some? ==> HasCopy(after[t], CopyName(m).value)
    {
      if HasInject(m.annotations) {
        LayoutHasShape(before, after, t, mixin, copies, m);
      }
      if CopyName(m).Some? {
        LayoutHasCopy(before, after, t, mixin, copies, m);
      }
    }
  }

  /** One appended method of a `MethodsGrown` step. */
  lemma GrownAt(before: seq<ClassFile>, after: seq<ClassFile>, t: nat, added: seq<Method>, i: nat)
    requires MethodsGrown(before, after, t, added) && i < |added|
    ensures |before[t].methods| + i < |after[t].methods| && after[t].name == before[t].name
    ensures SameButCode(after[t].methods[|before[t].methods| + i], added[i])
  {
  }

  lemma LayoutHasShape(before: seq<ClassFile>, after: seq<ClassFile>, t: nat, mixin: ClassFile, copies: seq<Method>, m: Method)
    requires t < |before|
    requires MethodsGrown(before, after, t, copies + InjectShapes(mixin.methods, before[t].name))
    requires m in mixin.methods && HasInject(m.annotations)
    ensures t < |after| && HasShape(after[t], InjectedMethod(m, after[t].name, m.code))
  {
    var shapes := InjectShapes(mixin.methods, before[t].name);
    var i :| 0 <= i < |Injects(mixin.methods)| && Injects(mixin.methods)[i] == m;
    assert (copies + shapes)[|copies| + i] == shapes[i];
    GrownAt(before, after, t, copies + shapes, |copies| + i);
  }

  lemma LayoutHasCopy(before: seq<ClassFile>, after: seq<ClassFile>, t: nat, mixin: ClassFile, copies: seq<Method>, m: Method)
    requires t < |before|
    requires |copies| == |CopyRefs(mixin.methods)|
    requires forall i :: 0 <= i < |copies| ==>
               copies[i].owner == before[t].name && copies[i].name == "copy$" + CopyRefs(mixin.methods)[i]
               && Public in copies[i].access
    requires MethodsGrown(before, after, t, copies + InjectShapes(mixin.methods, before[t].name))
    requires m in mixin.methods && CopyName(m).Some?
    ensures t < |after| && HasCopy(after[t], CopyName(m).value)
  {
    var added := copies + InjectShapes(mixin.methods, before[t].name);
    CopyRefsHas(mixin.methods, m);
    var i :| 0 <= i < |CopyRefs(mixin.methods)| && CopyRefs(mixin.methods)[i] == CopyName(m).value;
    assert added[i] == copies[i];
    GrownAt(before, after, t, added, i);
  }

  /** Every target of a mixin ends up carrying what the mixin adds. */
  lemma {:induction false} MergeTargetsCarries(classes: seq<ClassFile>, env: Env, mixin: ClassFile, targets: seq<nat>)
    requires forall t :: t in targets ==> t < |classes|
    requires MergeTargets(classes, env, mixin, targets).Ok?
    ensures forall t :: t in targets ==> Carries(MergeTargets(classes, env, mixin, targets).value[t], mixin)
    decreases |targets|
  {
    if targets != [] {
      var r := MergeTargets(classes, env, mixin, targets).value;
      var t0 := targets[0];
      assert t0 in targets;
      assert forall t :: t in targets[1..] ==> t in targets;
      var next := InjectInto(classes, env, mixin, t0).value.classes;
      InjectIntoCarries(classes, env, mixin, t0);
      MergeTargetsKept(next, env, mixin, targets[1..]);
      MergeTargetsCarries(next, env, mixin, targets[1..]);
      assert r == MergeTargets(next, env, mixin, targets[1..]).value;
      CarriesKept(next[t0], r[t0], mixin);
      forall t | t in targets ensures Carries(r[t], mixin) {
        if t != t0 { assert t in targets[1..]; }
      }
    }
  }

  /** Two class groups where `after` keeps what `before` carries for each mixin at each of its targets. */
  lemma AllCarriesKept(before: seq<ClassFile>, after: seq<ClassFile>, entries: seq<Fields.MixinEntry>)
    requires MethodsKept(before, after)
    requires forall e, t :: e in entries && t in e.targets && t < |before| ==> Carries(before[t], e.mixin)
    ensures forall e, t :: e in entries && t in e.targets && t < |after| ==> Carries(after[t], e.mixin)
  {
    forall e, t | e in entries && t in e.targets && t < |after| ensures Carries(after[t], e.mixin) {
      CarriesKept(before[t], after[t], e.mixin);
    }
  }

  /**
   * The merge over all mixins: every target of every mixin ends up with
   * that mixin's @Inject methods, up to code a later @Replace may swap,
   * and its @Copy copies.
   */
  lemma {:induction false} MergeAllCarries(classes: seq<ClassFile>, env: Env, entries: seq<Fields.MixinEntry>)
    requires Fields.TargetsValid(entries, |classes|)
    requires MergeAll(classes, env, entries).Ok?
    ensures forall e, t :: e in entries && t in e.targets ==> Carries(MergeAll(classes, env, entries).value[t], e.mixin)
    decreases |entries|
  {
    if entries != [] {
      var e0 := entries[0];
      var r := MergeAll(classes, env, entries).value;
      assert e0 in entries;
      assert forall e :: e in entries[1..] ==> e in entries;
      var next := MergeTargets(classes, env, e0.mixin, e0.targets).value;
      MergeTargetsCarries(classes, env, e0.mixin, e0.targets);
      MergeAllCarries(next, env, entries[1..]);
      MergeAllKept(next, env, entries[1..]);
      assert r == MergeAll(next, env, entries[1..]).value;
      AllCarriesKept(next, r, [e0]);
      forall e, t | e in entries && t in e.targets ensures Carries(r[t], e.mixin) {
        if e != e0 { assert e in entries[1..]; } else { assert e in [e0]; }
      }
    }
  }

  // First failures. Each merge loop stops at its first failing step; the
  // error of the whole loop is that step's error, the step taken on the
  // state all earlier steps produced.

  /** Step `i` of the copy loop fails with `e`, after every earlier step succeeded. */
  ghost predicate CopyFailsAt(st: MergeState, env: Env, mixin: ClassFile, t: nat, methods: seq<Method>, i: int, e: InjectionError) {
    && t < |st.classes| && 0 <= i < |methods|
    && var pre := CopyPhase(st, env, mixin, t, methods[..i]);
       pre.Ok? && CopyStep(pre.value, env, mixin, t, methods[i]) == Err(e)
  }

  lemma CopyFailsAtShift(st: MergeState, env: Env, mixin: ClassFile, t: nat, methods: seq<Method>, i: int, e: InjectionError)
    requires t < |st.classes| && methods != []
    ensures var s := CopyStep(st, env, mixin, t, methods[0]);
            CopyFailsAt(st, env, mixin, t, methods, i, e) <==>
              (i == 0 && s == Err(e)) || (i >= 1 && s.Ok? && CopyFailsAt(s.value, env, mixin, t, methods[1..], i - 1, e))
  {
    assert methods[..0] == [];
    if 1 <= i < |methods| {
      assert methods[..i][0] == methods[0] && methods[..i][1..] == methods[1..][..i - 1];
      assert methods[1..][i - 1] == methods[i];
    }
  }

  /** The copy loop fails exactly with the error of its first failing step. */
  lemma {:induction false} CopyPhaseFirstFailure(st: MergeState, env: Env, mixin: ClassFile, t: nat, methods: seq<Method>)
    requires t < |st.classes|
    ensures forall i, e :: CopyFailsAt(st, env, mixin, t, methods, i, e) ==> CopyPhase(st, env, mixin, t, methods) == Err(e)
    ensures CopyPhase(st, env, mixin, t, methods).Err? ==>
              exists i :: CopyFailsAt(st, env, mixin, t, methods, i, CopyPhase(st, env, mixin, t, methods).error)
    decreases |methods|
  {
    if methods != [] {
      var s := CopyStep(st, env, mixin, t, methods[0]);
      forall i, e ensures CopyFailsAt(st, env, mixin, t, methods, i, e) <==>
                          (i == 0 && s == Err(e)) || (i >= 1 && s.Ok? && CopyFailsAt(s.value, env, mixin, t, methods[1..], i - 1, e)) {
        CopyFailsAtShift(st, env, mixin, t, methods, i, e);
      }
      if s.Ok? {
        CopyPhaseFirstFailure(s.value, env, mixin, t, methods[1..]);
        var r := CopyPhase(st, env, mixin, t, methods);
        if r.Err? {
          var i :| CopyFailsAt(s.value, env, mixin, t, methods[1..], i, r.error);
          assert CopyFailsAt(st, env, mixin, t, methods, i + 1, r.error);
        }
      } else {
        assert CopyFailsAt(st, env, mixin, t, methods, 0, s.error);
      }
    }
  }

  /** Step `i` of the second loop fails with `e`, after every earlier step succeeded. */
  ghost predicate MergeFailsAt(classes: seq<ClassFile>, env: Env, copied: map<MethodRef, CopiedMethod>,
                               mixin: ClassFile, t: nat, methods: seq<Method>, i: int, e: InjectionError) {
    && t < |classes| && 0 <= i < |methods|
    && var pre := MergePhase(classes, env, copied, mixin, t, methods[..i]);
       pre.Ok? && MergeStep(pre.value, env, copied, mixin, t, methods[i]) == Err(e)
  }

  lemma MergeFailsAtShift(classes: seq<ClassFile>, env: Env, copied: map<MethodRef, CopiedMethod>,
                          mixin: ClassFile, t: nat, methods: seq<Method>, i: int, e: InjectionError)
    requires t < |classes| && methods != []
    ensures var s := MergeStep(classes, env, copied, mixin, t, methods[0]);
            MergeFailsAt(classes, env, copied, mixin, t, methods, i, e) <==>
              (i == 0 && s == Err(e)) || (i >= 1 && s.Ok? && MergeFailsAt(s.value, env, copied, mixin, t, methods[1..], i - 1, e))
  {
    assert methods[..0] == [];
    if 1 <= i < |methods| {
      assert methods[..i][0] == methods[0] && methods[..i][1..] == methods[1..][..i - 1];
      assert methods[1..][i - 1] == methods[i];
    }
  }

  /** The second loop fails exactly with the error of its first failing step. */
  lemma {:induction false} MergePhaseFirstFailure(classes: seq<ClassFile>, env: Env, copied: map<MethodRef, CopiedMethod>,
                                                  mixin: ClassFile, t: nat, methods: seq<Method>)
    requires t < |classes|
    ensures forall i, e :: MergeFailsAt(classes, env, copied, mixin, t, methods, i, e) ==>
              MergePhase(classes, env, copied, mixin, t, methods) == Err(e)
    ensures MergePhase(classes, env, copied, mixin, t, methods).Err? ==>
              exists i :: MergeFailsAt(classes, env, copied, mixin, t, methods, i,
                                       MergePhase(classes, env, copied, mixin, t, methods).error)
    decreases |methods|
  {
    if methods != [] {
      var s := MergeStep(classes, env, copied, mixin, t, methods[0]);
      forall i, e ensures MergeFailsAt(classes, env, copied, mixin, t, methods, i, e) <==>
                          (i == 0 && s == Err(e)) || (i >= 1 && s.Ok? && MergeFailsAt(s.value, env, copied, mixin, t, methods[1..], i - 1, e)) {
        MergeFailsAtShift(classes, env, copied, mixin, t, methods, i, e);
      }
      if s.Ok? {
        MergePhaseFirstFailure(s.value, env, copied, mixin, t, methods[1..]);
        var r := MergePhase(classes, env, copied, mixin, t, methods);
        if r.Err? {
          var i :| MergeFailsAt(s.value, env, copied, mixin, t, methods[1..], i, r.error);
          assert MergeFailsAt(classes, env, copied, mixin, t, methods, i + 1, r.error);
        }
      } else {
        assert MergeFailsAt(classes, env, copied, mixin, t, methods, 0, s.error);
      }
    }
  }

  /**
   * Per-target `inject` fails with the error of the first failing step of
   * the copy loop, or, once every copy succeeded, with that of the first
   * failing step of the second loop.
   */
  lemma InjectIntoFirstFailure(classes: seq<ClassFile>, env: Env, mixin: ClassFile, t: nat)
    requires t < |classes|
    ensures forall i, e :: CopyFailsAt(MergeState(classes, map[]), env, mixin, t, mixin.methods, i, e) ==>
              InjectInto(classes, env, mixin, t) == Err(e)
    ensures var cp := CopyPhase(MergeState(classes, map[]), env, mixin, t, mixin.methods);
            cp.Ok? ==>
              forall i, e :: MergeFailsAt(cp.value.classes, env, cp.value.copied, mixin, t, mixin.methods, i, e) ==>
                InjectInto(classes, env, mixin, t) == Err(e)
    ensures var cp := CopyPhase(MergeState(classes, map[]), env, mixin, t, mixin.methods);
            var r := InjectInto(classes, env, mixin, t);
            r.Err? ==>
              (exists i :: CopyFailsAt(MergeState(classes, map[]), env, mixin, t, mixin.methods, i, r.error))
              || (cp.Ok? && exists i :: MergeFailsAt(cp.value.classes, env, cp.value.copied, mixin, t, mixin.methods, i, r.error))
  {
    var st0 := MergeState(classes, map[]);
    CopyPhaseFirstFailure(st0, env, mixin, t, mixin.methods);
    var cp := CopyPhase(st0, env, mixin, t, mixin.methods);
    if cp.Ok? {
      MergePhaseFirstFailure(cp.value.classes, env, cp.value.copied, mixin, t, mixin.methods);
    }
  }

  /** The merge into target `targets[i]` fails with `e`, after the merges into every earlier target succeeded. */
  ghost predicate TargetFailsAt(classes: seq<ClassFile>, env: Env, mixin: ClassFile, targets: seq<nat>, i: int, e: InjectionError) {
    && (forall t :: t in targets ==> t < |classes|) && 0 <= i < |targets|
    && (assert forall t :: t in targets[..i] ==> t in targets;
        var pre := MergeTargets(classes, env, mixin, targets[..i]);
        pre.Ok? && (assert targets[i] in targets; InjectInto(pre.value, env, mixin, targets[i]) == Err(e)))
  }

  lemma TargetFailsAtShift(classes: seq<ClassFile>, env: Env, mixin: ClassFile, targets: seq<nat>, i: int, e: InjectionError)
    requires (forall t :: t in targets ==> t < |classes|) && targets != []
    ensures assert targets[0] in targets;
            var s := InjectInto(classes, env, mixin, targets[0]);
            TargetFailsAt(classes, env, mixin, targets, i, e) <==>
              (i == 0 && s == Err(e))
              || (i >= 1 && s.Ok? && TargetFailsAt(s.value.classes, env, mixin, targets[1..], i - 1, e))
  {
    assert targets[0] in targets;
    assert targets[..0] == [];
    assert forall t :: t in targets[1..] ==> t in targets;
    if 1 <= i < |targets| {
      assert targets[..i][0] == targets[0] && targets[..i][1..] == targets[1..][..i - 1];
      assert targets[1..][i - 1] == targets[i];
    }
  }

  /** The merge into one mixin's targets fails exactly with the error of the first target whose merge fails. */
  lemma {:induction false} MergeTargetsFirstFailure(classes: seq<ClassFile>, env: Env, mixin: ClassFile, targets: seq<nat>)
    requires forall t :: t in targets ==> t < |classes|
    ensures forall i, e :: TargetFailsAt(classes, env, mixin, targets, i, e) ==> MergeTargets(classes, env, mixin, targets) == Err(e)
    ensures MergeTargets(classes, env, mixin, targets).Err? ==>
              exists i :: TargetFailsAt(classes, env, mixin, targets, i, MergeTargets(classes, env, mixin, targets).error)
    decreases |targets|
  {
    if targets != [] {
      assert targets[0] in targets;
      assert forall t :: t in targets[1..] ==> t in targets;
      var s := InjectInto(classes, env, mixin, targets[0]);
      forall i, e ensures TargetFailsAt(classes, env, mixin, targets, i, e) <==>
                          (i == 0 && s == Err(e))
                          || (i >= 1 && s.Ok? && TargetFailsAt(s.value.classes, env, mixin, targets[1..], i - 1, e)) {
        TargetFailsAtShift(classes, env, mixin, targets, i, e);
      }
      if s.Ok? {
        MergeTargetsFirstFailure(s.value.classes, env, mixin, targets[1..]);
        var r := MergeTargets(classes, env, mixin, targets);
        if r.Err? {
          var i :| TargetFailsAt(s.value.classes, env, mixin, targets[1..], i, r.error);
          assert TargetFailsAt(classes, env, mixin, targets, i + 1, r.error);
        }
      } else {
        assert TargetFailsAt(classes, env, mixin, targets, 0, s.error);
      }
    }
  }

  /** The merge of mixin `entries[i]` fails with `e`, after the merges of every earlier mixin succeeded. */
  ghost predicate MixinFailsAt(classes: seq<ClassFile>, env: Env, entries: seq<Fields.MixinEntry>, i: int, e: InjectionError) {
    && Fields.TargetsValid(entries, |classes|) && 0 <= i < |entries|
    && (assert forall x :: x in entries[..i] ==> x in entries;
        var pre := MergeAll(classes, env, entries[..i]);
        pre.Ok? && (assert entries[i] in entries;
                    MergeTargets(pre.value, env, entries[i].mixin, entries[i].targets) == Err(e)))
  }

  lemma MixinFailsAtShift(classes: seq<ClassFile>, env: Env, entries: seq<Fields.MixinEntry>, i: int, e: InjectionError)
    requires Fields.TargetsValid(entries, |classes|) && entries != []
    ensures assert entries[0] in entries;
            var s := MergeTargets(classes, env, entries[0].mixin, entries[0].targets);
            MixinFailsAt(classes, env, entries, i, e) <==>
              (i == 0 && s == Err(e))
              || (i >= 1 && s.Ok? && MixinFailsAt(s.value, env, entries[1..], i - 1, e))
  {
    assert entries[0] in entries;
    assert entries[..0] == [];
    assert forall x :: x in entries[1..] ==> x in entries;
    if 1 <= i < |entries| {
      assert entries[..i][0] == entries[0] && entries[..i][1..] == entries[1..][..i - 1];
      assert entries[1..][i - 1] == entries[i];
    }
  }

  /** The merge over all mixins fails exactly with the error of the first mixin whose merge fails. */
  lemma {:induction false} MergeAllFirstFailure(classes: seq<ClassFile>, env: Env, entries: seq<Fields.MixinEntry>)
    requires Fields.TargetsValid(entries, |classes|)
    ensures forall i, e :: MixinFailsAt(classes, env, entries, i, e) ==> MergeAll(classes, env, entries) == Err(e)
    ensures MergeAll(classes, env, entries).Err? ==>
              exists i :: MixinFailsAt(classes, env, entries, i, MergeAll(classes, env, entries).error)
    decreases |entries|
  {
    if entries != [] {
      assert entries[0] in entries;
      assert forall x :: x in entries[1..] ==> x in entries;
      var s := MergeTargets(classes, env, entries[0].mixin, entries[0].targets);
      forall i, e ensures MixinFailsAt(classes, env, entries, i, e) <==>
                          (i == 0 && s == Err(e)) || (i >= 1 && s.Ok? && MixinFailsAt(s.value, env, entries[1..], i - 1, e)) {
        MixinFailsAtShift(classes, env, entries, i, e);
      }
      if s.Ok? {
        MergeAllFirstFailure(s.value, env, entries[1..]);
        var r := MergeAll(classes, env, entries);
        if r.Err? {
          var i :| MixinFailsAt(s.value, env, entries[1..], i, r.error);
          assert MixinFailsAt(classes, env, entries, i + 1, r.error);
        }
      } else {
        assert MixinFailsAt(classes, env, entries, 0, s.error);
      }
    }
  }
}
