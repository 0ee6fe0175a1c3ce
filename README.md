# MixinInjector, modelled in Dafny

This project models the mixin injector of the RuneLite client injector
(`MixinInjector.java`). The injector merges hand-written "mixin" classes
into the obfuscated ("vanilla") game classes. It runs in four phases:

1. **Target discovery.** Each mixin's `@Mixin` annotations name
   interfaces. The first vanilla class implementing each one is a target.
2. **`injectFields`.** Every `@Inject` field of a mixin is cloned, made
   public, into each of its targets. A static one of a single-target mixin
   is also recorded by name in the injected-field table.
3. **`findShadowFields`.** Every `@Shadow` field must be static. It is
   bound to what it stands for: an injected field of that name first,
   otherwise the vanilla counterpart of the first static field of that
   name in the deobfuscated group.
4. **Per-target `inject`.** For each target of each mixin:
   - Every `@Copy` method adds a public `copy$<name>` clone of the vanilla
     method it names, and records it in a copied-method table.
   - Every `@Inject` method is rewritten and appended to the target.
   - Every other `@Replace` method's rewritten code replaces the code of
     the vanilla method it names.

   Rewriting (`setOwnersToTargetClass`) does three things to every
   instruction. It rebinds calls to copied methods and accesses to
   shadowed fields. It moves every other reference to the mixin class onto
   the target. It inserts a garbage-argument load before calls to copies
   whose obfuscated signature has one more parameter. `verify` then
   rejects invokedynamic, cross-mixin static calls, and instance or
   non-public field accesses on the mixin.

Classes, fields, methods, instructions and pool references are datatypes.
The vanilla group is a sequence of class files, and a target is an index
into it. The two tables are maps. The deobfuscation mapping
(`toDeobClass`, `toObField`) is a parameter.

Each phase has two forms:

- a functional specification: folds with early failure, in modules
  `Fields`, `Shadows`, `Lookup`, `Rewriting` and `Merge`;
- an imperative form: class `Injector.MixinInjector`, whose fields are the
  vanilla group and the two tables, and whose loops are proved equal to
  those folds.

Lemmas about the folds state what each phase promises.

Where the source dereferences a lookup result it never checked, the model
returns the error `NullDereference`. This happens when the target has no
deobfuscated class, when the obfuscated class is not found (for both
`@Copy` and `@Replace`), and when a `@Replace`'s vanilla method is missing.

One consequence is proved. Once code is rewritten away from the mixin, the
verifier's two field checks can never fire. A rewrite fails exactly on an
invokedynamic or a static call into another mixin-package class
(`Rewriting.RewriteRejectsExactly`).

## Model

Source paths are relative to the repository root. `MixinInjector.java`
stands for `runescape-client-injector-plugin/src/main/java/net/runelite/injector/MixinInjector.java`
(the table uses the full path).

| member | source | states |
|---|---|---|
| ClassModel.SetPublic | runescape-client-injector-plugin/src/main/java/net/runelite/injector/MixinInjector.java:173-174 | `setPublic` sets public, clears private and protected, and keeps every other flag |
| ClassModel.Find | runescape-client-injector-plugin/src/main/java/net/runelite/injector/MixinInjector.java:166-170 | `Annotations.find`: an annotation of the type is found iff one exists, and it is the first annotation of that type |
| ClassModel.NameElement | runescape-client-injector-plugin/src/main/java/net/runelite/injector/MixinInjector.java:310-311 | the element of a @Copy/@Replace/@Shadow/@ObfuscatedName annotation exists iff the annotation does, and it is the name the first annotation of that type carries |
| ClassModel.ObfuscatedSignatureOf | runescape-client-injector-plugin/src/main/java/net/runelite/injector/MixinInjector.java:331 | the obfuscated signature is present iff the method has an @ObfuscatedSignature annotation, and it is the signature the first such annotation carries |
| ClassModel.FindClass | runescape-client-injector-plugin/src/main/java/net/runelite/injector/MixinInjector.java:327-328 | `findClass`: the first class with that name; none iff no class has it |
| ClassModel.FindMethodNamed | runescape-client-injector-plugin/src/main/java/net/runelite/injector/MixinInjector.java:480 | `findMethod(name)`: the first method with that name; none iff no method has it |
| ClassModel.FindMethod | runescape-client-injector-plugin/src/main/java/net/runelite/injector/MixinInjector.java:338 | `findMethod(name, signature)`: a method with that name and descriptor; none iff there is no such method |
| Fields.InjectedCopy | runescape-client-injector-plugin/src/main/java/net/runelite/injector/MixinInjector.java:172-175 | the injected field belongs to the target, is public, and keeps the name, type, constant value and staticness, and carries no annotations; its flags are the mixin field's with `setPublic` applied, so every other flag is kept |
| Fields.InjectedCopiesAre | runescape-client-injector-plugin/src/main/java/net/runelite/injector/MixinInjector.java:164-176 | a target receives a copy of exactly the mixin's @Inject fields and nothing else |
| Fields.InjectFieldsIntoEffect | runescape-client-injector-plugin/src/main/java/net/runelite/injector/MixinInjector.java:164-186 | one target's field list becomes old fields followed by the copies in field order; the table gains each static copy iff the mixin has a single target |
| Fields.InjectFieldsIntoInjects | runescape-client-injector-plugin/src/main/java/net/runelite/injector/MixinInjector.java:164-186 | the same pass, stated in the whole-run terms: every (target, @Inject field) pair is present, and nothing else is appended |
| Fields.InjectTargetsEffect | runescape-client-injector-plugin/src/main/java/net/runelite/injector/MixinInjector.java:162-187 | one mixin: every target gains the copies of every @Inject field, and only fields change |
| Fields.InjectAllEffect | runescape-client-injector-plugin/src/main/java/net/runelite/injector/MixinInjector.java:144-190 | `injectFields`: every target of every mixin gains, after its old fields, a copy of each @Inject field of each of its mixins and no other field, and nothing but fields changes. The table gains exactly the static @Inject fields of single-target mixins, keyed by name |
| Fields.InjectTargetsAppends | runescape-client-injector-plugin/src/main/java/net/runelite/injector/MixinInjector.java:162-187 | one mixin, class by class: a class's fields become its old fields followed by the mixin's copies once for each time the class is among the targets; nothing else in the class changes |
| Fields.InjectAllAppends | runescape-client-injector-plugin/src/main/java/net/runelite/injector/MixinInjector.java:144-190 | `injectFields`, class by class: a class's fields become its old fields followed by exactly those copies, mixin by mixin in iteration order, so each copy appears once per (mixin, occurrence of the class among its targets); nothing else in the class changes |
| Shadows.ResolveShadow | runescape-client-injector-plugin/src/main/java/net/runelite/injector/MixinInjector.java:220-245 | a non-static @Shadow field is an error. An injected field of the name wins. Otherwise the result is `toObField` of `DeobStaticField`, the first static deobfuscated field of that name. Missing both is an error |
| Shadows.ShadowFieldsOfEffect | runescape-client-injector-plugin/src/main/java/net/runelite/injector/MixinInjector.java:215-248 | one mixin: fails iff some @Shadow field cannot be resolved, with the error of the first such field in field order; otherwise every @Shadow field is bound to its resolution |
| Shadows.ShadowAllEffect | runescape-client-injector-plugin/src/main/java/net/runelite/injector/MixinInjector.java:198-250 | `findShadowFields`: fails iff some mixin has an unresolvable @Shadow field, with the error of the first one in mixin order and then field order. Otherwise the table gains every @Shadow field of every mixin, bound to its resolution, and keeps its old entries |
| Lookup.FindVanillaForInterface | runescape-client-injector-plugin/src/main/java/net/runelite/injector/MixinInjector.java:265-278 | the first vanilla class implementing the interface; none iff no class implements it |
| Lookup.DeobStaticField | runescape-client-injector-plugin/src/main/java/net/runelite/injector/MixinInjector.java:280-293 | a static deobfuscated field with the name; none iff no class has one |
| Lookup.DeobStaticFieldIsFirst | runescape-client-injector-plugin/src/main/java/net/runelite/injector/MixinInjector.java:282-289 | the field `DeobStaticField` finds is the first static field of that name: no earlier class has one, and no earlier field of its class is one |
| Lookup.FindDeobField | runescape-client-injector-plugin/src/main/java/net/runelite/injector/MixinInjector.java:280-293 | the nested loop returns exactly `DeobStaticField` |
| Lookup.OtherClassLookup | runescape-client-injector-plugin/src/main/java/net/runelite/injector/MixinInjector.java:485-496 | the first class other than the skipped one that has a method of the name, with that method's index; none iff no such class |
| Lookup.DeobMethodLookup | runescape-client-injector-plugin/src/main/java/net/runelite/injector/MixinInjector.java:478-500 | `findDeobMethod`: the deobfuscated class's own method of that name when it has one, else the first other class's; none iff no class has one |
| Lookup.FindDeobMethod | runescape-client-injector-plugin/src/main/java/net/runelite/injector/MixinInjector.java:478-500 | the loop returns exactly `DeobMethodLookup` |
| Rewriting.Rebind | runescape-client-injector-plugin/src/main/java/net/runelite/injector/MixinInjector.java:425-472 | the three tiers. A copied method or shadowed field goes to its table entry. Any other reference owned by the mixin moves to the target with the same name and type. Anything else is unchanged. The opcode never changes |
| Rewriting.Verify | runescape-client-injector-plugin/src/main/java/net/runelite/injector/MixinInjector.java:502-538 | each rejection iff its condition: invokedynamic; an instance access to a mixin field; a static access to a non-public mixin field; an invokestatic into another mixin-package class |
| Rewriting.SetOwnersToTargetClass | runescape-client-injector-plugin/src/main/java/net/runelite/injector/MixinInjector.java:414-476 | the list-iterator loop returns exactly the rewrite specification |
| Rewriting.RewriteLayout | runescape-client-injector-plugin/src/main/java/net/runelite/injector/MixinInjector.java:434-444 | every instruction is kept in order, rebound. Exactly one load of the garbage slot (size, minus one for a static copy) is inserted, directly before each call to a garbage-valued copy |
| Rewriting.RewriteFailsAtFirstRejected | runescape-client-injector-plugin/src/main/java/net/runelite/injector/MixinInjector.java:419-475 | the pass fails iff some rebound instruction is rejected, and then with the first one's error |
| Rewriting.RewriteLeavesNoMixinReference | runescape-client-injector-plugin/src/main/java/net/runelite/injector/MixinInjector.java:429-471 | when the target and table entries are not the mixin, rewritten code references no field or method of the mixin |
| Rewriting.RewriteRejectsExactly | runescape-client-injector-plugin/src/main/java/net/runelite/injector/MixinInjector.java:502-537 | on such code, rewriting fails iff an instruction is invokedynamic or a static call into another mixin-package class, and only with those two errors |
| Merge.ObSignature | runescape-client-injector-plugin/src/main/java/net/runelite/injector/MixinInjector.java:331-336 | the obfuscated signature when annotated, the deobfuscated descriptor otherwise |
| Merge.ResolveObSpec | runescape-client-injector-plugin/src/main/java/net/runelite/injector/MixinInjector.java:311-336 | fails with a null dereference iff the target has no deobfuscated class. It fails with "deob method not found" iff no deobfuscated class has the method, and with a staticness mismatch iff the found method's staticness differs. On success it yields the `findDeobMethod` hit, its obfuscated name and signature, and the vanilla class named by its class's @ObfuscatedName |
| Merge.CopyOf | runescape-client-injector-plugin/src/main/java/net/runelite/injector/MixinInjector.java:344-349 | the copy belongs to the target, is named `copy$` + the reference, has the obfuscated signature, and keeps code, exceptions, annotations and staticness; its flags are the vanilla method's with `setPublic` applied |
| Merge.InjectedMethod | runescape-client-injector-plugin/src/main/java/net/runelite/injector/MixinInjector.java:362-366 | the injected method belongs to the target, keeps name and descriptor, carries the rewritten code and has no exceptions or annotations; its flags are the mixin method's with `setPublic` applied |
| Merge.CopyStepShape | runescape-client-injector-plugin/src/main/java/net/runelite/injector/MixinInjector.java:308-354 | a non-@Copy method changes nothing. A @Copy appends one public `copy$` method to the target, and the table maps the mixin method to that copy |
| Merge.CopyStepEffect | runescape-client-injector-plugin/src/main/java/net/runelite/injector/MixinInjector.java:313-353 | the copy is `CopyOf` the vanilla method with the resolved obfuscated name and signature. The garbage flag holds iff the deobfuscated descriptor is shorter. A failed resolution reports its own error, a missing vanilla class is a null dereference, a missing vanilla method is reported iff it is missing, and a @Copy whose vanilla method is found succeeds |
| Merge.CopyPhaseLayout | runescape-client-injector-plugin/src/main/java/net/runelite/injector/MixinInjector.java:305-355 | the first loop appends one public `copy$` method per @Copy, in order, to the target only. The table holds exactly the @Copy methods, each bound to its own `copy$` method, with the signature and garbage flag its resolution gives |
| Merge.MergeStepSpec | runescape-client-injector-plugin/src/main/java/net/runelite/injector/MixinInjector.java:358-410 | @Inject wins over @Replace. An @Inject appends the rewritten method, or reports the rewrite's error. A @Replace changes only the code of the resolved vanilla method. A failed @Replace resolution reports its own error, and a missing vanilla class or method is a null dereference. Once the method is found, a @Replace fails exactly when the rewrite does, with the rewrite's error. Anything else changes nothing |
| Merge.MergeStepGrows | runescape-client-injector-plugin/src/main/java/net/runelite/injector/MixinInjector.java:358-410 | one step of the second loop, as growth: only the target's list grows, by the @Inject method, and every other method changes at most its code |
| Merge.MergePhaseLayout | runescape-client-injector-plugin/src/main/java/net/runelite/injector/MixinInjector.java:357-411 | the second loop appends the @Inject methods in order, each up to code, and otherwise changes only code |
| Merge.InjectIntoLayout | runescape-client-injector-plugin/src/main/java/net/runelite/injector/MixinInjector.java:295-412 | per-target `inject`: the target's methods become its old methods, then the copies in @Copy order, then the @Inject methods in order. Only code changes elsewhere. The copied table holds exactly the @Copy methods, each bound to its own `copy$` copy, with the signature and garbage flag its resolution gives |
| Merge.MergeStepClean | runescape-client-injector-plugin/src/main/java/net/runelite/injector/MixinInjector.java:358-410 | a method the second loop adds or changes carries no reference to the mixin, provided the tables point away from it |
| Merge.MergePhaseClean | runescape-client-injector-plugin/src/main/java/net/runelite/injector/MixinInjector.java:357-411 | the same for the whole second loop |
| Merge.InjectIntoLeavesNoMixinReference | runescape-client-injector-plugin/src/main/java/net/runelite/injector/MixinInjector.java:295-412 | when the target is not the mixin and no shadowed field belongs to it, nothing the per-target merge adds or changes references the mixin |
| Merge.InjectIntoCarries | runescape-client-injector-plugin/src/main/java/net/runelite/injector/MixinInjector.java:306-373 | after per-target `inject` the target has each @Inject method of the mixin, up to code, and a public `copy$` method of its own for each @Copy |
| Merge.MergeTargetsCarries | runescape-client-injector-plugin/src/main/java/net/runelite/injector/MixinInjector.java:119-129 | every target of one mixin ends up with those methods, although later targets are merged after it |
| Merge.MergeAllCarries | runescape-client-injector-plugin/src/main/java/net/runelite/injector/MixinInjector.java:117-133 | every target of every mixin ends up with that mixin's @Inject methods, up to code, and its copies, whatever the mixins merged after it |
| Merge.InjectIntoKept | runescape-client-injector-plugin/src/main/java/net/runelite/injector/MixinInjector.java:295-412 | per-target `inject` keeps every class and every method, changing only code and adding methods |
| Merge.CopyPhaseFirstFailure | runescape-client-injector-plugin/src/main/java/net/runelite/injector/MixinInjector.java:305-355 | the first loop fails exactly with the error of its first failing step, taken on the state the earlier, successful steps left |
| Merge.MergePhaseFirstFailure | runescape-client-injector-plugin/src/main/java/net/runelite/injector/MixinInjector.java:357-411 | the second loop fails exactly with the error of its first failing step, taken on the classes the earlier, successful steps left |
| Merge.InjectIntoFirstFailure | runescape-client-injector-plugin/src/main/java/net/runelite/injector/MixinInjector.java:295-412 | per-target `inject` fails with the first failing copy step's error, or, once every copy succeeded, with the first failing second-loop step's error |
| Merge.MergeTargetsFirstFailure | runescape-client-injector-plugin/src/main/java/net/runelite/injector/MixinInjector.java:119-129 | the merge into one mixin's targets fails exactly with the error of the first target whose `inject` fails |
| Merge.MergeAllFirstFailure | runescape-client-injector-plugin/src/main/java/net/runelite/injector/MixinInjector.java:117-133 | the merge over all mixins fails exactly with the error of the first mixin whose merge fails |
| Merge.MergeTargetsKept | runescape-client-injector-plugin/src/main/java/net/runelite/injector/MixinInjector.java:119-129 | the same across all targets of one mixin |
| Merge.MergeAllKept | runescape-client-injector-plugin/src/main/java/net/runelite/injector/MixinInjector.java:117-133 | the same across all mixins |
| Injector.InjectAllMixinsEffect | runescape-client-injector-plugin/src/main/java/net/runelite/injector/MixinInjector.java:113-135 | a run injects every @Inject field and fails with the shadow error if shadow resolution fails. On success the shadow table is filled, the merge keeps every class and method, adding methods and replacing code only, and every target of every mixin ends up with that mixin's @Inject methods, up to code, and its @Copy copies. Once the shadow table is built, a failed run fails with the error of the first mixin whose merge fails |
| Injector.MixinInjector.constructor | runescape-client-injector-plugin/src/main/java/net/runelite/injector/MixinInjector.java:58-68 | the injector starts with the given groups and mapping and two empty tables |
| Injector.MixinInjector.FindTargets | runescape-client-injector-plugin/src/main/java/net/runelite/injector/MixinInjector.java:88-108 | each mixin's targets are the first implementers of its @Mixin interfaces, in order. It fails iff some interface has no implementer, with the first such interface, in mixin order and then annotation order, and its mixin |
| Injector.MixinInjector.InjectFieldsInto | runescape-client-injector-plugin/src/main/java/net/runelite/injector/MixinInjector.java:164-186 | the field loop leaves the state `InjectFieldsInto` describes |
| Injector.MixinInjector.InjectTargets | runescape-client-injector-plugin/src/main/java/net/runelite/injector/MixinInjector.java:162-187 | the target loop leaves the state `InjectTargets` describes |
| Injector.MixinInjector.InjectFields | runescape-client-injector-plugin/src/main/java/net/runelite/injector/MixinInjector.java:144-190 | `injectFields` leaves exactly the classes and table `InjectAll` describes, and does not touch the shadow table |
| Injector.MixinInjector.FindShadowFieldsOf | runescape-client-injector-plugin/src/main/java/net/runelite/injector/MixinInjector.java:215-248 | the field loop fails iff `ShadowFieldsOf` does, with its error, and otherwise leaves its table |
| Injector.MixinInjector.FindShadowFields | runescape-client-injector-plugin/src/main/java/net/runelite/injector/MixinInjector.java:198-250 | `findShadowFields` fails iff `ShadowAll` does, with its error. Otherwise it leaves its table. Classes and injected fields are untouched |
| Injector.MixinInjector.ResolveOb | runescape-client-injector-plugin/src/main/java/net/runelite/injector/MixinInjector.java:313-336 | the lookups of a @Copy/@Replace return exactly `Merge.ResolveOb` |
| Injector.MixinInjector.CopyMethod | runescape-client-injector-plugin/src/main/java/net/runelite/injector/MixinInjector.java:308-354 | one @Copy leaves the state, or reports the error, that `CopyStep` describes |
| Injector.MixinInjector.CopyMethods | runescape-client-injector-plugin/src/main/java/net/runelite/injector/MixinInjector.java:302-355 | the first loop, starting from an empty copied table, leaves the state or reports the error that `CopyPhase` describes |
| Injector.MixinInjector.MergeMethod | runescape-client-injector-plugin/src/main/java/net/runelite/injector/MixinInjector.java:360-410 | one @Inject/@Replace leaves the classes, or reports the error, that `MergeStep` describes |
| Injector.MixinInjector.MergeMethods | runescape-client-injector-plugin/src/main/java/net/runelite/injector/MixinInjector.java:357-411 | the second loop leaves the classes, or reports the error, that `MergePhase` describes |
| Injector.MixinInjector.InjectInto | runescape-client-injector-plugin/src/main/java/net/runelite/injector/MixinInjector.java:295-412 | per-target `inject` leaves exactly the classes `Merge.InjectInto` describes, or reports its error |
| Injector.MixinInjector.InjectMixin | runescape-client-injector-plugin/src/main/java/net/runelite/injector/MixinInjector.java:119-129 | one mixin's targets are merged in order, as `MergeTargets` describes |
| Injector.MixinInjector.Inject | runescape-client-injector-plugin/src/main/java/net/runelite/injector/MixinInjector.java:113-135 | `inject(mixinClasses)` leaves exactly the classes `InjectAllMixins` describes, or reports its error; on success the injected-field table is the one `InjectAll` builds, and the shadow table is the one `ShadowAll` builds from it |

## Left out

- The classpath scan in `inject()` (lines 72-80, 88-90) is not modelled. Loading classes from the class loader and `loadClass` (252-263) become the `MixinDecl` and `MixinEntry` values that are passed in. Their `IOException` paths cannot arise.
- Class names are compared in internal form. The `.`-to-`/` conversion of Java class names is not modelled.
- `ClassGroup.initialize` (298-300) is not modelled. `getMyField` (515) is resolved against the mixin's own fields by name and type.
- The debug log (372) is not modelled.
- `toDeobClass` and `toObField` are parameters.
- `toObField` is total, so the assertion at 244 always holds.
- The assertion at 366 is not modelled. It is a Java `assert`, so with assertions disabled a declared exception on an @Inject method is dropped without a check; the injected method gets no exceptions.
- Every unchecked dereference of a lookup result aborts with `NullDereference`: lines 314, 338, 380, 406 and 407. Null pool references (446, 464) and a null `getField()` in `verify` (508) cannot arise, because every reference is a value.
- The identity comparison of pool classes at 526 is modelled as a comparison of names. Rewritten code never calls the mixin itself (`RewriteLeavesNoMixinReference`), so the two agree on all code that `verify` sees.
- The iteration order of the `HashMap` of mixins is not modelled. Mixins are an arbitrary sequence of entries.
- Injector.MixinInjector.Inject: after a failure, the classes and tables hold whatever the phases had done so far. The contract states only the error, as the source gives no guarantee about partial state.
- Injector.MixinInjector.InjectInto: the same holds for a failure part-way through one target.
- Sharing is not modelled. The source shares `Code` objects between a copy and its vanilla method, and mutates instruction lists in place; the model uses values. The fresh mixin copy made per target (122-126) is the same immutable value here.
- Merge.MergeStep, Merge.CopyStep, Merge.CopyPhase, Merge.MergePhase, Merge.InjectInto, Merge.MergeTargets and Merge.MergeAll: their own contracts state only that the group keeps its size. What they do is stated by the lemmas about them listed above: `CopyStepShape`, `CopyStepEffect`, `CopyPhaseLayout`, `MergeStepSpec`, `MergePhaseLayout`, `InjectIntoLayout`, `InjectIntoCarries`, `MergeTargetsCarries`, `MergeAllCarries`, the `*FirstFailure` lemmas and the `*Kept` lemmas.
- Fields.InjectField, Fields.InjectFieldsInto, Fields.InjectTargets and Fields.InjectAll: their own contracts state only that the group keeps its size. What they do is stated by `InjectFieldsIntoEffect`, `InjectFieldsIntoInjects`, `InjectTargetsEffect`, `InjectAllEffect`, `InjectTargetsAppends` and `InjectAllAppends`.
- Injector.InjectAllMixinsEffect: for the merge phase it states what every target ends up carrying and that nothing is lost. It does not state the order of methods across several mixins, nor the final code of a method a @Replace rewrote, because a later mixin may replace that code again. The exact per-target layout is `Merge.InjectIntoLayout`.
- Lookup.DeobStaticField: its own contract says only that the field found is a static field of that name. That it is the first one is `Lookup.DeobStaticFieldIsFirst`, kept apart because on the function it makes every caller's proof too costly.
