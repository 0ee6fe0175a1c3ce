/**
 * The injector itself: an object holding the vanilla class group, the
 * deobfuscated group and mapping it reads, and the two tables
 * (`injectedFields`, `shadowFields`) its phases fill. Its methods change
 * that state step by step and are each proved equal to the functional
 * description of the phase in the modules they import.
 */
module Injector {
  import opened ClassModel
  import opened Lookup
  import opened Rewriting
  import opened Merge
  import Fields
  import Shadows
  import Tables

  /** A mixin as discovered: the class and the interfaces its @Mixin annotations name. */
  datatype MixinDecl = MixinDecl(mixin: ClassFile, implementInto: seq<Name>)

  /** No class of the group implements `iface`. */
  predicate Unimplemented(classes: seq<ClassFile>, iface: Name) {
    forall k :: 0 <= k < |classes| ==> iface !in classes[k].interfaces
  }

  /** `k` is the first class of the group implementing `iface`. */
  predicate FirstImplementer(classes: seq<ClassFile>, iface: Name, k: nat) {
    k < |classes| && iface in classes[k].interfaces && forall k' :: 0 <= k' < k ==> iface !in classes[k'].interfaces
  }

  /** The mixins before `i` all found their targets. */
  lemma ImplementedBefore(classes: seq<ClassFile>, decls: seq<MixinDecl>, entries: seq<Fields.MixinEntry>, i: nat)
    requires i <= |decls| && |entries| == i
    requires forall i' :: 0 <= i' < i ==>
               |entries[i'].targets| == |decls[i'].implementInto|
               && forall j :: 0 <= j < |decls[i'].implementInto| ==>
                    FirstImplementer(classes, decls[i'].implementInto[j], entries[i'].targets[j])
    ensures forall i', j' :: 0 <= i' < i && 0 <= j' < |decls[i'].implementInto| ==>
              !Unimplemented(classes, decls[i'].implementInto[j'])
  {
    forall i', j' | 0 <= i' < i && 0 <= j' < |decls[i'].implementInto|
      ensures !Unimplemented(classes, decls[i'].implementInto[j'])
    {
      assert FirstImplementer(classes, decls[i'].implementInto[j'], entries[i'].targets[j']);
    }
  }

  /**
   * `inject(mixinClasses)` as a whole: fields first, then shadows, then
   * the merge into every target of every mixin; the first failure ends it.
   */
  function InjectAllMixins(classes: seq<ClassFile>, injected: map<Name, Field>, shadows: map<FieldRef, Field>,
                           deob: seq<ClassFile>, mapping: Mapping, entries: seq<Fields.MixinEntry>): Result<seq<ClassFile>>
    requires Fields.TargetsValid(entries, |classes|)
  {
    var fs := Fields.InjectAll(Fields.FieldState(classes, injected), entries);
    match Shadows.ShadowAll(shadows, entries, fs.injected, deob, mapping)
    case Err(e) => Err(e)
    case Ok(table) => MergeAll(fs.classes, Env(deob, mapping, table), entries)
  }

  /**
   * What a successful run leaves: the @Inject fields of every mixin are
   * appended to its targets, every @Shadow field is bound in the shadow
   * table, and the merge keeps every class and method, changing only code
   * and adding methods, and leaves every target of every mixin with that
   * mixin's @Inject methods (up to code) and @Copy copies. A failed run
   * failed in the shadow phase, or in the merge of the first mixin whose
   * merge fails.
   */
  lemma InjectAllMixinsEffect(classes: seq<ClassFile>, injected: map<Name, Field>, shadows: map<FieldRef, Field>,
                              deob: seq<ClassFile>, mapping: Mapping, entries: seq<Fields.MixinEntry>)
    requires Fields.TargetsValid(entries, |classes|)
    ensures var fs := Fields.InjectAll(Fields.FieldState(classes, injected), entries);
            var sh := Shadows.ShadowAll(shadows, entries, fs.injected, deob, mapping);
            var r := InjectAllMixins(classes, injected, shadows, deob, mapping, entries);
            && Fields.FieldsInjected(classes, fs.classes, Fields.Contributions(entries))
            && (sh.Err? ==> r == Err(sh.error))
            && (r.Ok? ==> sh.Ok? && Tables.MapFilled(shadows, sh.value,
                                                     Shadows.ShadowPairs(Shadows.AllFields(entries), fs.injected, deob, mapping))
                          && MethodsKept(fs.classes, r.value)
                          // every target of every mixin gained that mixin's @Inject methods and @Copy copies
                          && forall e, t :: e in entries && t in e.targets ==> Carries(r.value[t], e.mixin))
            // once the shadow table is built, the run fails with the error of the first mixin whose merge fails
            && (sh.Ok? ==>
                  && (forall i, e :: MixinFailsAt(fs.classes, Env(deob, mapping, sh.value), entries, i, e) ==> r == Err(e))
                  && (r.Err? ==> exists i :: MixinFailsAt(fs.classes, Env(deob, mapping, sh.value), entries, i, r.error)))
  {
    var fs := Fields.InjectAll(Fields.FieldState(classes, injected), entries);
    Fields.InjectAllEffect(Fields.FieldState(classes, injected), entries);
    Shadows.ShadowAllEffect(shadows, entries, fs.injected, deob, mapping);
    var sh := Shadows.ShadowAll(shadows, entries, fs.injected, deob, mapping);
    if sh.Ok? {
      MergeAllFirstFailure(fs.classes, Env(deob, mapping, sh.value), entries);
      if InjectAllMixins(classes, injected, shadows, deob, mapping, entries).Ok? {
        MergeAllKept(fs.classes, Env(deob, mapping, sh.value), entries);
        MergeAllCarries(fs.classes, Env(deob, mapping, sh.value), entries);
      }
    }
  }

  class MixinInjector {
    /** The deobfuscated class group and the mapping between it and the vanilla group. */
    const deob: seq<ClassFile>
    const mapping: Mapping
    /** The vanilla class group the mixins are injected into. */
    var vanilla: seq<ClassFile>
    /** Static @Inject fields of single-target mixins, by name. */
    var injectedFields: map<Name, Field>
    /** What each @Shadow field stands for, by its pool reference. */
    var shadowFields: map<FieldRef, Field>

    constructor (vanilla: seq<ClassFile>, deob: seq<ClassFile>, mapping: Mapping)
      ensures this.vanilla == vanilla && this.deob == deob && this.mapping == mapping
      ensures injectedFields == map[] && shadowFields == map[]
    {
      this.vanilla := vanilla;
      this.deob := deob;
      this.mapping := mapping;
      injectedFields := map[];
      shadowFields := map[];
    }

    /**
     * The discovery loop of `inject()`: each mixin's targets are the first
     * vanilla classes implementing the interfaces its @Mixin annotations
     * name; a mixin naming an interface no class implements is an error.
     */
    method FindTargets(decls: seq<MixinDecl>) returns (r: Result<seq<Fields.MixinEntry>>)
      ensures r.Ok? ==> |r.value| == |decls| && Fields.TargetsValid(r.value, |vanilla|)
      ensures r.Ok? ==> forall i :: 0 <= i < |decls| ==>
                          r.value[i].mixin == decls[i].mixin && |r.value[i].targets| == |decls[i].implementInto|
                          && forall j :: 0 <= j < |decls[i].implementInto| ==>
                               FirstImplementer(vanilla, decls[i].implementInto[j], r.value[i].targets[j])
      ensures r.Err? <==> exists i, j :: 0 <= i < |decls| && 0 <= j < |decls[i].implementInto|
                                         && Unimplemented(vanilla, decls[i].implementInto[j])
      // the error names the first unimplemented interface, in mixin order and then annotation order
      ensures r.Err? ==> exists i, j :: 0 <= i < |decls| && 0 <= j < |decls[i].implementInto|
                                        && Unimplemented(vanilla, decls[i].implementInto[j])
                                        && r.error == NoImplementingClass(decls[i].implementInto[j], decls[i].mixin.name)
                                        && (forall i', j' :: 0 <= i' < i && 0 <= j' < |decls[i'].implementInto| ==>
                                              !Unimplemented(vanilla, decls[i'].implementInto[j']))
                                        && (forall j' :: 0 <= j' < j ==> !Unimplemented(vanilla, decls[i].implementInto[j']))
    {
      var entries: seq<Fields.MixinEntry> := [];
      var i := 0;
      while i < |decls|
        invariant i <= |decls| && |entries| == i && Fields.TargetsValid(entries, |vanilla|)
        invariant forall i' :: 0 <= i' < i ==>
                    entries[i'].mixin == decls[i'].mixin && |entries[i'].targets| == |decls[i'].implementInto|
                    && forall j :: 0 <= j < |decls[i'].implementInto| ==>
                         FirstImplementer(vanilla, decls[i'].implementInto[j], entries[i'].targets[j])
      {
        var ifaces := decls[i].implementInto;
        var targets: seq<nat> := [];
        var j := 0;
        while j < |ifaces|
          invariant j <= |ifaces| && |targets| == j
          invariant forall j' :: 0 <= j' < j ==> FirstImplementer(vanilla, ifaces[j'], targets[j'])
        {
          var cf := FindVanillaForInterface(vanilla, ifaces[j]);
          if cf.None? {
            ImplementedBefore(vanilla, decls, entries, i);
            forall j' | 0 <= j' < j ensures !Unimplemented(vanilla, ifaces[j']) {
              assert FirstImplementer(vanilla, ifaces[j'], targets[j']);
            }
            return Err(NoImplementingClass(ifaces[j], decls[i].mixin.name));
          }
          targets := targets + [cf.value];
          j := j + 1;
        }
        entries := entries + [Fields.MixinEntry(decls[i].mixin, targets)];
        i := i + 1;
      }
      r := Ok(entries);
      forall i, j | 0 <= i < |decls| && 0 <= j < |decls[i].implementInto|
        ensures !Unimplemented(vanilla, decls[i].implementInto[j])
      {
        assert FirstImplementer(vanilla, decls[i].implementInto[j], entries[i].targets[j]);
      }
    }

    /** The innermost loop of `injectFields`: one mixin's fields against target `t`. */
    method InjectFieldsInto(fields: seq<Field>, t: nat, single: bool)
      requires t < |vanilla|
      modifies this
      ensures Fields.FieldState(vanilla, injectedFields)
              == Fields.InjectFieldsInto(old(Fields.FieldState(vanilla, injectedFields)), fields, t, single)
      ensures shadowFields == old(shadowFields)
    {
      ghost var result := Fields.InjectFieldsInto(Fields.FieldState(vanilla, injectedFields), fields, t, single);
      var j := 0;
      while j < |fields|
        invariant j <= |fields| && |vanilla| == |old(vanilla)|
        invariant shadowFields == old(shadowFields)
        invariant result == Fields.InjectFieldsInto(Fields.FieldState(vanilla, injectedFields), fields[j..], t, single)
      {
        var field := fields[j];
        assert fields[j..][0] == field && fields[j..][1..] == fields[j + 1..];
        if Fields.IsInjectField(field) {
          var copy := Fields.InjectedCopy(field, vanilla[t].name);
          vanilla := vanilla[t := Fields.AddField(vanilla[t], copy)];
          if field.IsStatic() && single {
            injectedFields := injectedFields[field.name := copy];
          }
        }
        j := j + 1;
      }
    }

    /** The loop over one mixin's targets; `single` says whether it has exactly one. */
    method InjectTargets(mixin: ClassFile, targets: seq<nat>, single: bool)
      requires forall t :: t in targets ==> t < |vanilla|
      modifies this
      ensures Fields.FieldState(vanilla, injectedFields)
              == Fields.InjectTargets(old(Fields.FieldState(vanilla, injectedFields)), mixin, targets, single)
      ensures shadowFields == old(shadowFields)
    {
      ghost var result := Fields.InjectTargets(Fields.FieldState(vanilla, injectedFields), mixin, targets, single);
      var ti := 0;
      while ti < |targets|
        invariant ti <= |targets| && |vanilla| == |old(vanilla)|
        invariant shadowFields == old(shadowFields)
        invariant forall t :: t in targets ==> t < |vanilla|
        invariant forall t :: t in targets[ti..] ==> t in targets
        invariant result == Fields.InjectTargets(Fields.FieldState(vanilla, injectedFields), mixin, targets[ti..], single)
      {
        assert targets[ti] in targets[ti..];
        assert targets[ti..][0] == targets[ti] && targets[ti..][1..] == targets[ti + 1..];
        InjectFieldsInto(mixin.fields, targets[ti], single);
        ti := ti + 1;
      }
    }

    /** `injectFields`: copies every @Inject field of every mixin into each of its targets. */
    method InjectFields(entries: seq<Fields.MixinEntry>)
      requires Fields.TargetsValid(entries, |vanilla|)
      modifies this
      ensures Fields.FieldState(vanilla, injectedFields)
              == Fields.InjectAll(old(Fields.FieldState(vanilla, injectedFields)), entries)
      ensures shadowFields == old(shadowFields)
    {
      ghost var result := Fields.InjectAll(Fields.FieldState(vanilla, injectedFields), entries);
      var i := 0;
      while i < |entries|
        invariant i <= |entries| && |vanilla| == |old(vanilla)|
        invariant shadowFields == old(shadowFields)
        invariant Fields.TargetsValid(entries[i..], |vanilla|)
        invariant result == Fields.InjectAll(Fields.FieldState(vanilla, injectedFields), entries[i..])
      {
        var e := entries[i];
        assert entries[i..][0] == e && entries[i..][1..] == entries[i + 1..];
        assert e in entries[i..];
        InjectTargets(e.mixin, e.targets, |e.targets| == 1);
        i := i + 1;
      }
    }
  
    /** The loop of `findShadowFields` over one mixin's fields. */
    method FindShadowFieldsOf(fields: seq<Field>) returns (err: Option<InjectionError>)
      modifies this
      ensures vanilla == old(vanilla) && injectedFields == old(injectedFields)
      ensures var spec := Shadows.ShadowFieldsOf(old(shadowFields), fields, injectedFields, deob, mapping);
              && (err.None? <==> spec.Ok?)
              && (spec.Ok? ==> shadowFields == spec.value)
              && (spec.Err? ==> err == Some(spec.error))
    {
      ghost var spec := Shadows.ShadowFieldsOf(shadowFields, fields, injectedFields, deob, mapping);
      var j := 0;
      while j < |fields|
        invariant j <= |fields| && vanilla == old(vanilla) && injectedFields == old(injectedFields)
        invariant spec == Shadows.ShadowFieldsOf(shadowFields, fields[j..], injectedFields, deob, mapping)
      {
        var field := fields[j];
        assert fields[j..][0] == field && fields[j..][1..] == fields[j + 1..];
        var shadow := NameElement(field.annotations, ShadowType);
        if shadow.Some? {
          if !field.IsStatic() {
            return Some(ShadowOfNonStaticField(field.PoolField()));
          }
          var shadowName := shadow.value;
          if shadowName in injectedFields {
            // a field injected by a mixin wins
            shadowFields := shadowFields[field.PoolField() := injectedFields[shadowName]];
          } else {
            var shadowField := FindDeobField(deob, shadowName);
            if shadowField.None? {
              return Some(ShadowOfNonexistentField(shadowName));
            }
            shadowFields := shadowFields[field.PoolField() := mapping.toObField(shadowField.value)];
          }
        }
        j := j + 1;
      }
      err := None;
    }

    /** `findShadowFields`: binds every @Shadow field of every mixin, or reports the first that cannot be. */
    method FindShadowFields(entries: seq<Fields.MixinEntry>) returns (err: Option<InjectionError>)
      modifies this
      ensures vanilla == old(vanilla) && injectedFields == old(injectedFields)
      ensures var spec := Shadows.ShadowAll(old(shadowFields), entries, injectedFields, deob, mapping);
              && (err.None? <==> spec.Ok?)
              && (spec.Ok? ==> shadowFields == spec.value)
              && (spec.Err? ==> err == Some(spec.error))
    {
      ghost var spec := Shadows.ShadowAll(shadowFields, entries, injectedFields, deob, mapping);
      var i := 0;
      while i < |entries|
        invariant i <= |entries| && vanilla == old(vanilla) && injectedFields == old(injectedFields)
        invariant spec == Shadows.ShadowAll(shadowFields, entries[i..], injectedFields, deob, mapping)
      {
        assert entries[i..][0] == entries[i] && entries[i..][1..] == entries[i + 1..];
        err := FindShadowFieldsOf(entries[i].mixin.fields);
        if err.Some? {
          return;
        }
        i := i + 1;
      }
      err := None;
    }

    /**
     * The lookups `inject` makes for a @Copy or @Replace of `ref`:
     * `findDeobMethod` from the target's deobfuscated class, the
     * static-ness check, and the vanilla class, name and signature of what
     * was found.
     */
    method ResolveOb(target: Name, mixinName: Name, m: Method, ref: Name) returns (r: Result<ObTarget>)
      ensures r == Merge.ResolveOb(vanilla, Env(deob, mapping, shadowFields), target, mixinName, m, ref)
    {
      var deobCls := FindClass(deob, mapping.toDeobClass(target));
      if deobCls.None? {
        return Err(NullDereference);
      }
      var hit := FindDeobMethod(deob, deobCls.value, ref);
      if hit.None? {
        return Err(DeobMethodNotFound(ref, mixinName));
      }
      var deobCf := deob[hit.value.cls];
      var deobMethod := deobCf.methods[hit.value.index];
      if m.IsStatic() != deobMethod.IsStatic() {
        return Err(StaticnessMismatch(m.PoolMethod(), deobMethod.IsStatic()));
      }
      var obSignature := ObfuscatedSignatureOf(deobMethod.annotations);
      if obSignature.None? {
        obSignature := Some(deobMethod.descriptor);
      }
      r := Ok(ObTarget(deobMethod, FindClass(vanilla, NameElement(deobCf.annotations, ObfuscatedNameType)),
                       NameElement(deobMethod.annotations, ObfuscatedNameType), obSignature.value));
    }

    /** One method of the first loop of `inject`: a @Copy method's vanilla method is copied into target `t`. */
    method CopyMethod(mixin: ClassFile, t: nat, m: Method, copiedMethods: map<MethodRef, CopiedMethod>)
      returns (r: Result<map<MethodRef, CopiedMethod>>)
      requires t < |vanilla|
      modifies this
      ensures injectedFields == old(injectedFields) && shadowFields == old(shadowFields)
      ensures var spec := CopyStep(MergeState(old(vanilla), copiedMethods), Env(deob, mapping, shadowFields), mixin, t, m);
              && (r.Ok? <==> spec.Ok?)
              && (spec.Ok? ==> MergeState(vanilla, r.value) == spec.value)
              && (spec.Err? ==> r == Err(spec.error))
    {
      var classes := vanilla;
      var copyName := NameElement(m.annotations, CopyType);
      if copyName.None? {
        return Ok(copiedMethods);
      }
      var deobMethodName := copyName.value;
      var ob := ResolveOb(classes[t].name, mixin.name, m, deobMethodName);
      if ob.Err? {
        return Err(ob.error);
      }
      if ob.value.obClass.None? {
        return Err(NullDereference);
      }
      var obCls := ob.value.obClass.value;
      var obMethod := FindMethod(classes[obCls].methods, ob.value.obName, ob.value.obSignature);
      if obMethod.None? {
        return Err(ObMethodNotFound(ob.value.obName, mixin.name));
      }
      var copy := CopyOf(classes[obCls].methods[obMethod.value], classes[t].name, deobMethodName, ob.value.obSignature);
      var hasGarbageValue := ob.value.deobMethod.descriptor.Size() < ob.value.obSignature.Size();
      vanilla := classes[t := AddMethod(classes[t], copy)];
      r := Ok(copiedMethods[m.PoolMethod() := CopiedMethod(copy, hasGarbageValue)]);
    }

    /** The first loop of `inject`: every @Copy method's vanilla method is copied into target `t`. */
    method CopyMethods(mixin: ClassFile, t: nat) returns (r: Result<map<MethodRef, CopiedMethod>>)
      requires t < |vanilla|
      modifies this
      ensures injectedFields == old(injectedFields) && shadowFields == old(shadowFields)
      ensures var spec := CopyPhase(MergeState(old(vanilla), map[]), Env(deob, mapping, shadowFields), mixin, t, mixin.methods);
              && (r.Ok? <==> spec.Ok?)
              && (spec.Ok? ==> MergeState(vanilla, r.value) == spec.value)
              && (spec.Err? ==> r == Err(spec.error))
    {
      var env := Env(deob, mapping, shadowFields);
      ghost var spec := CopyPhase(MergeState(vanilla, map[]), env, mixin, t, mixin.methods);
      var copiedMethods: map<MethodRef, CopiedMethod> := map[];
      var methods := mixin.methods;
      var i := 0;
      while i < |methods|
        invariant i <= |methods| && |vanilla| == |old(vanilla)|
        invariant injectedFields == old(injectedFields) && shadowFields == old(shadowFields)
        invariant spec == CopyPhase(MergeState(vanilla, copiedMethods), env, mixin, t, methods[i..])
      {
        assert methods[i..][0] == methods[i] && methods[i..][1..] == methods[i + 1..];
        r := CopyMethod(mixin, t, methods[i], copiedMethods);
        if r.Err? {
          return;
        }
        copiedMethods := r.value;
        i := i + 1;
      }
      r := Ok(copiedMethods);
    }

    /** One method of the second loop of `inject`: @Inject wins over @Replace, anything else is skipped. */
    method MergeMethod(mixin: ClassFile, t: nat, copiedMethods: map<MethodRef, CopiedMethod>, m: Method)
      returns (err: Option<InjectionError>)
      requires t < |vanilla|
      modifies this
      ensures injectedFields == old(injectedFields) && shadowFields == old(shadowFields)
      ensures var spec := MergeStep(old(vanilla), Env(deob, mapping, shadowFields), copiedMethods, mixin, t, m);
              && (err.None? <==> spec.Ok?)
              && (spec.Ok? ==> vanilla == spec.value)
              && (spec.Err? ==> err == Some(spec.error))
    {
      var ctx := Context(mixin, vanilla[t].name, shadowFields, copiedMethods);
      if HasInject(m.annotations) {
        var code := SetOwnersToTargetClass(ctx, m.code);
        if code.Err? {
          return Some(code.error);
        }
        vanilla := vanilla[t := AddMethod(vanilla[t], InjectedMethod(m, vanilla[t].name, code.value))];
        return None;
      }
      var replaceName := NameElement(m.annotations, ReplaceType);
      if replaceName.None? {
        return None;
      }
      var ob := ResolveOb(vanilla[t].name, mixin.name, m, replaceName.value);
      if ob.Err? {
        return Some(ob.error);
      }
      if ob.value.obClass.None? {
        return Some(NullDereference);
      }
      var obCls := ob.value.obClass.value;
      var obMethod := FindMethod(vanilla[obCls].methods, ob.value.obName, ob.value.obSignature);
      if obMethod.None? {
        // the source sets the code of a method it never checked for null
        return Some(NullDereference);
      }
      var code := SetOwnersToTargetClass(ctx, m.code);
      if code.Err? {
        return Some(code.error);
      }
      vanilla := vanilla[obCls := SetCode(vanilla[obCls], obMethod.value, code.value)];
      err := None;
    }

    /** The second loop of `inject`: @Inject methods are added to target `t`, @Replace methods replace vanilla code. */
    method MergeMethods(mixin: ClassFile, t: nat, copiedMethods: map<MethodRef, CopiedMethod>) returns (err: Option<InjectionError>)
      requires t < |vanilla|
      modifies this
      ensures injectedFields == old(injectedFields) && shadowFields == old(shadowFields)
      ensures var spec := MergePhase(old(vanilla), Env(deob, mapping, shadowFields), copiedMethods, mixin, t, mixin.methods);
              && (err.None? <==> spec.Ok?)
              && (spec.Ok? ==> vanilla == spec.value)
              && (spec.Err? ==> err == Some(spec.error))
    {
      var env := Env(deob, mapping, shadowFields);
      ghost var spec := MergePhase(vanilla, env, copiedMethods, mixin, t, mixin.methods);
      var methods := mixin.methods;
      var i := 0;
      while i < |methods|
        invariant i <= |methods| && |vanilla| == |old(vanilla)|
        invariant injectedFields == old(injectedFields) && shadowFields == old(shadowFields)
        invariant spec == MergePhase(vanilla, env, copiedMethods, mixin, t, methods[i..])
      {
        assert methods[i..][0] == methods[i] && methods[i..][1..] == methods[i + 1..];
        ghost var step := MergeStep(vanilla, env, copiedMethods, mixin, t, methods[i]);
        assert spec == if step.Err? then Err(step.error)
                       else MergePhase(step.value, env, copiedMethods, mixin, t, methods[i + 1..]);
        err := MergeMethod(mixin, t, copiedMethods, methods[i]);
        if err.Some? {
          return;
        }
        i := i + 1;
      }
      err := None;
    }

    /** `inject(mixinCf, cf, shadowFields)`: the copy loop with a fresh table, then the second loop. */
    method InjectInto(mixin: ClassFile, t: nat) returns (err: Option<InjectionError>)
      requires t < |vanilla|
      modifies this
      ensures injectedFields == old(injectedFields) && shadowFields == old(shadowFields)
      ensures var spec := Merge.InjectInto(old(vanilla), Env(deob, mapping, shadowFields), mixin, t);
              && (err.None? <==> spec.Ok?)
              && (spec.Ok? ==> vanilla == spec.value.classes)
              && (spec.Err? ==> err == Some(spec.error))
    {
      var copied := CopyMethods(mixin, t);
      if copied.Err? {
        return Some(copied.error);
      }
      err := MergeMethods(mixin, t, copied.value);
    }

    /** The loop of `inject(mixinClasses)` over one mixin's targets. */
    method InjectMixin(mixin: ClassFile, targets: seq<nat>) returns (err: Option<InjectionError>)
      requires forall t :: t in targets ==> t < |vanilla|
      modifies this
      ensures injectedFields == old(injectedFields) && shadowFields == old(shadowFields)
      ensures var spec := MergeTargets(old(vanilla), Env(deob, mapping, shadowFields), mixin, targets);
              && (err.None? <==> spec.Ok?)
              && (spec.Ok? ==> vanilla == spec.value)
              && (spec.Err? ==> err == Some(spec.error))
    {
      var env := Env(deob, mapping, shadowFields);
      ghost var spec := MergeTargets(vanilla, env, mixin, targets);
      var ti := 0;
      while ti < |targets|
        invariant ti <= |targets| && |vanilla| == |old(vanilla)|
        invariant injectedFields == old(injectedFields) && shadowFields == old(shadowFields)
        invariant forall t :: t in targets ==> t < |vanilla|
        invariant forall t :: t in targets[ti..] ==> t in targets
        invariant spec == MergeTargets(vanilla, env, mixin, targets[ti..])
      {
        assert targets[ti] in targets[ti..];
        assert targets[ti..][0] == targets[ti] && targets[ti..][1..] == targets[ti + 1..];
        // a fresh copy of the mixin per target: the same immutable value here
        err := InjectInto(mixin, targets[ti]);
        if err.Some? {
          return;
        }
        ti := ti + 1;
      }
      err := None;
    }

    /** `inject(mixinClasses)`: fields, then shadows, then every target of every mixin. */
    method Inject(entries: seq<Fields.MixinEntry>) returns (err: Option<InjectionError>)
      requires Fields.TargetsValid(entries, |vanilla|)
      modifies this
      ensures var spec := InjectAllMixins(old(vanilla), old(injectedFields), old(shadowFields), deob, mapping, entries);
              && (err.None? <==> spec.Ok?)
              && (spec.Ok? ==> vanilla == spec.value)
              && (spec.Err? ==> err == Some(spec.error))
      ensures err.None? ==>
                injectedFields == Fields.InjectAll(old(Fields.FieldState(vanilla, injectedFields)), entries).injected
      ensures err.None? ==>
                var sh := Shadows.ShadowAll(old(shadowFields), entries,
                                            Fields.InjectAll(old(Fields.FieldState(vanilla, injectedFields)), entries).injected,
                                            deob, mapping);
                sh.Ok? && shadowFields == sh.value
    {
      InjectFields(entries);
      err := FindShadowFields(entries);
      if err.Some? {
        return;
      }
      var env := Env(deob, mapping, shadowFields);
      ghost var spec := MergeAll(vanilla, env, entries);
      var i := 0;
      while i < |entries|
        invariant i <= |entries| && |vanilla| == |old(vanilla)|
        invariant env == Env(deob, mapping, shadowFields)
        invariant injectedFields == Fields.InjectAll(old(Fields.FieldState(vanilla, injectedFields)), entries).injected
        invariant Fields.TargetsValid(entries[i..], |vanilla|)
        invariant spec == MergeAll(vanilla, env, entries[i..])
      {
        var e := entries[i];
        assert entries[i..][0] == e && entries[i..][1..] == entries[i + 1..];
        assert e in entries[i..];
        err := InjectMixin(e.mixin, e.targets);
        if err.Some? {
          return;
        }
        i := i + 1;
      }
      err := None;
    }
  }
}
