/**
 * `injectFields`: every @Inject field of every mixin is cloned into each of
 * its targets, and static ones of single-target mixins enter the
 * injected-field table. Specified here as folds over the source's loops;
 * the imperative pass lives in the Injector module.
 */
module Fields {
  import opened ClassModel
  import opened Tables

  /** One entry of the `Map<Class, List<ClassFile>>` input: a mixin and the indices of its targets. */
  datatype MixinEntry = MixinEntry(mixin: ClassFile, targets: seq<nat>)

  predicate TargetsValid(entries: seq<MixinEntry>, n: nat) {
    forall e, t :: e in entries && t in e.targets ==> t < n
  }

  /** The field `injectFields` appends to a target for one @Inject field. */
  function InjectedCopy(f: Field, target: Name): (r: Field)
    ensures r.owner == target && r.IsPublic()
    ensures r.name == f.name && r.ty == f.ty && r.value == f.value
    ensures r.IsStatic() == f.IsStatic()
    // every other access flag of the mixin field is kept
    ensures r.access == SetPublic(f.access)
    // the new field carries no annotations
    ensures r.annotations == []
  {
    Field(target, f.name, f.ty, SetPublic(f.access), f.value, [])
  }

  predicate IsInjectField(f: Field) {
    HasInject(f.annotations)
  }

  /** The copies one target receives from a mixin's fields, in field order. */
  function InjectedCopies(fields: seq<Field>, target: Name): seq<Field>
    decreases |fields|
  {
    if fields == [] then []
    else (if IsInjectField(fields[0]) then [InjectedCopy(fields[0], target)] else [])
         + InjectedCopies(fields[1..], target)
  }

  /** A field is among the copies iff it is the copy of one of the @Inject fields. */
  lemma {:induction false} InjectedCopiesAre(fields: seq<Field>, target: Name)
    ensures forall g :: g in InjectedCopies(fields, target) <==>
              exists f :: f in fields && IsInjectField(f) && g == InjectedCopy(f, target)
    decreases |fields|
  {
    if fields != [] {
      InjectedCopiesAre(fields[1..], target);
      forall g | g in InjectedCopies(fields, target)
        ensures exists f :: f in fields && IsInjectField(f) && g == InjectedCopy(f, target)
      {
        if !(IsInjectField(fields[0]) && g == InjectedCopy(fields[0], target)) {
          assert g in InjectedCopies(fields[1..], target);
          var f :| f in fields[1..] && IsInjectField(f) && g == InjectedCopy(f, target);
        }
      }
      forall f | f in fields && IsInjectField(f)
        ensures InjectedCopy(f, target) in InjectedCopies(fields, target)
      {
        if f != fields[0] {
          assert f in fields[1..];
        }
      }
    }
  }

  /** The injector's state during `injectFields`: the vanilla classes and the injected-field table. */
  datatype FieldState = FieldState(classes: seq<ClassFile>, injected: map<Name, Field>)

  function AddField(c: ClassFile, f: Field): ClassFile {
    c.(fields := c.fields + [f])
  }

  /** The names of a class group, in order. */
  function Names(classes: seq<ClassFile>): (r: seq<Name>)
    ensures |r| == |classes| && forall k :: 0 <= k < |classes| ==> r[k] == classes[k].name
  {
    seq(|classes|, k requires 0 <= k < |classes| => classes[k].name)
  }

  /** One mixin field against one target class. */
  function InjectField(st: FieldState, f: Field, t: nat, single: bool): (r: FieldState)
    requires t < |st.classes|
    ensures |r.classes| == |st.classes|
  {
    if !IsInjectField(f) then st
    else
      var copy := InjectedCopy(f, st.classes[t].name);
      FieldState(st.classes[t := AddField(st.classes[t], copy)],
                 if f.IsStatic() && single then st.injected[f.name := copy] else st.injected)
  }

  /** The inner loop: all of a mixin's fields against one target. */
  function InjectFieldsInto(st: FieldState, fields: seq<Field>, t: nat, single: bool): (r: FieldState)
    requires t < |st.classes|
    ensures |r.classes| == |st.classes|
    decreases |fields|
  {
    if fields == [] then st
    else InjectFieldsInto(InjectField(st, fields[0], t, single), fields[1..], t, single)
  }

  /** The loop over one mixin's targets; `single` says whether the mixin has exactly one. */
  function InjectTargets(st: FieldState, mixin: ClassFile, targets: seq<nat>, single: bool): (r: FieldState)
    requires forall t :: t in targets ==> t < |st.classes|
    ensures |r.classes| == |st.classes|
    decreases |targets|
  {
    if targets == [] then st
    else
      assert targets[0] in targets;
      assert forall t :: t in targets[1..] ==> t in targets;
      InjectTargets(InjectFieldsInto(st, mixin.fields, targets[0], single), mixin, targets[1..], single)
  }

  /** `injectFields` over all mixins, in the map's iteration order. */
  function InjectAll(st: FieldState, entries: seq<MixinEntry>): (r: FieldState)
    requires TargetsValid(entries, |st.classes|)
    ensures |r.classes| == |st.classes|
    decreases |entries|
  {
    if entries == [] then st
    else
      var e := entries[0];
      InjectAll(InjectTargets(st, e.mixin, e.targets, |e.targets| == 1), entries[1..])
  }

  /** Every (target, @Inject field) pair of a run: each @Inject field of a mixin, for each of its targets. */
  ghost function Contributions(entries: seq<MixinEntry>): set<(nat, Field)> {
    set e, t, f | e in entries && t in e.targets && f in e.mixin.fields && IsInjectField(f) :: (t, f)
  }

  /**
   * The entries a run puts into the injected-field table: the copy of each
   * static @Inject field of a mixin with exactly one target, keyed by name.
   */
  ghost function TableEntries(names: seq<Name>, entries: seq<MixinEntry>): set<(Name, Field)> {
    set e, t, f | e in entries && |e.targets| == 1 && t in e.targets && t < |names|
                  && f in e.mixin.fields && IsInjectField(f) && f.IsStatic()
                :: (f.name, InjectedCopy(f, names[t]))
  }

  /** The entries one mixin's loop puts into the table when it has a single target. */
  ghost function TargetTableEntries(names: seq<Name>, fields: seq<Field>, targets: seq<nat>): set<(Name, Field)> {
    set t, f | t in targets && t < |names| && f in fields && IsInjectField(f) && f.IsStatic()
             :: (f.name, InjectedCopy(f, names[t]))
  }

  /**
   * `after` is `before` with fields appended: nothing but the field lists
   * changes, old fields stay in front, every appended field is the copy
   * of a contributing @Inject field for that class, and every
   * contributing field's copy is there.
   */
  ghost predicate FieldsInjected(before: seq<ClassFile>, after: seq<ClassFile>, pairs: set<(nat, Field)>) {
    && |after| == |before|
    && (forall k :: 0 <= k < |before| ==> after[k] == before[k].(fields := after[k].fields))
    && (forall k :: 0 <= k < |before| ==> before[k].fields <= after[k].fields)
    && (forall k, g :: 0 <= k < |before| && g in after[k].fields[|before[k].fields|..] ==>
          exists f :: (k, f) in pairs && g == InjectedCopy(f, before[k].name))
    && (forall k, f :: 0 <= k < |before| && (k, f) in pairs ==> InjectedCopy(f, before[k].name) in after[k].fields)
  }

  lemma {:induction false} FieldsInjectedTrans(a: seq<ClassFile>, b: seq<ClassFile>, c: seq<ClassFile>,
                                               p1: set<(nat, Field)>, p2: set<(nat, Field)>)
    requires FieldsInjected(a, b, p1) && FieldsInjected(b, c, p2)
    ensures FieldsInjected(a, c, p1 + p2)
  {
    forall k | 0 <= k < |a|
      ensures c[k] == a[k].(fields := c[k].fields)
      ensures a[k].fields <= c[k].fields
      ensures c[k].fields[|a[k].fields|..] == b[k].fields[|a[k].fields|..] + c[k].fields[|b[k].fields|..]
    {
      assert b[k].name == a[k].name;
      assert c[k].fields[..|b[k].fields|] == b[k].fields;
    }
    forall k, g | 0 <= k < |a| && g in c[k].fields[|a[k].fields|..]
      ensures exists f :: (k, f) in p1 + p2 && g == InjectedCopy(f, a[k].name)
    {
      if g in b[k].fields[|a[k].fields|..] {
        var f :| (k, f) in p1 && g == InjectedCopy(f, a[k].name);
      } else {
        assert g in c[k].fields[|b[k].fields|..];
        assert b[k].name == a[k].name;
        var f :| (k, f) in p2 && g == InjectedCopy(f, b[k].name);
      }
    }
    forall k, f | 0 <= k < |a| && (k, f) in p1 + p2
      ensures InjectedCopy(f, a[k].name) in c[k].fields
    {
      assert b[k].name == a[k].name;
      if (k, f) in p1 {
        assert c[k].fields[..|b[k].fields|] == b[k].fields;
        var j :| 0 <= j < |b[k].fields| && b[k].fields[j] == InjectedCopy(f, a[k].name);
        assert c[k].fields[j] == b[k].fields[j];
      }
    }
  }

  /** Closed form of the inner loop: the target gains its copies in field order, and a single-target mixin fills the table. */
  lemma InjectFieldsIntoEffect(st: FieldState, fields: seq<Field>, t: nat, single: bool)
    requires t < |st.classes|
    ensures InjectFieldsInto(st, fields, t, single).classes
            == st.classes[t := st.classes[t].(fields := st.classes[t].fields + InjectedCopies(fields, st.classes[t].name))]
    ensures MapFilled(st.injected, InjectFieldsInto(st, fields, t, single).injected,
                      if single then TargetTableEntries(Names(st.classes), fields, [t]) else {})
  {
    InjectFieldsIntoClasses(st, fields, t, single);
    InjectFieldsIntoTable(st, fields, t, single);
  }

  lemma {:induction false} InjectFieldsIntoClasses(st: FieldState, fields: seq<Field>, t: nat, single: bool)
    requires t < |st.classes|
    ensures InjectFieldsInto(st, fields, t, single).classes
            == st.classes[t := st.classes[t].(fields := st.classes[t].fields + InjectedCopies(fields, st.classes[t].name))]
    decreases |fields|
  {
    var name := st.classes[t].name;
    if fields == [] {
      assert st.classes[t].fields + [] == st.classes[t].fields;
      assert st.classes[t := st.classes[t].(fields := st.classes[t].fields)] == st.classes;
    } else {
      var f := fields[0];
      var mid := InjectField(st, f, t, single);
      assert mid.classes[t].name == name;
      InjectFieldsIntoClasses(mid, fields[1..], t, single);
      var head := if IsInjectField(f) then [InjectedCopy(f, name)] else [];
      assert mid.classes == st.classes[t := st.classes[t].(fields := st.classes[t].fields + head)];
      assert InjectedCopies(fields, name) == head + InjectedCopies(fields[1..], name);
      assert st.classes[t].fields + head + InjectedCopies(fields[1..], name)
          == st.classes[t].fields + InjectedCopies(fields, name);
    }
  }

  lemma {:induction false} InjectFieldsIntoTable(st: FieldState, fields: seq<Field>, t: nat, single: bool)
    requires t < |st.classes|
    ensures MapFilled(st.injected, InjectFieldsInto(st, fields, t, single).injected,
                      if single then TargetTableEntries(Names(st.classes), fields, [t]) else {})
    decreases |fields|
  {
    var name := st.classes[t].name;
    var names := Names(st.classes);
    if fields == [] {
      NothingFills(st.injected);
    } else {
      var f := fields[0];
      var mid := InjectField(st, f, t, single);
      assert Names(mid.classes) == names;
      InjectFieldsIntoTable(mid, fields[1..], t, single);
      var r := InjectFieldsInto(st, fields, t, single);
      assert r == InjectFieldsInto(mid, fields[1..], t, single);
      if single {
        var p1: set<(Name, Field)> := if IsInjectField(f) && f.IsStatic() then {(f.name, InjectedCopy(f, name))} else {};
        var p2 := TargetTableEntries(names, fields[1..], [t]);
        if IsInjectField(f) && f.IsStatic() {
          PutFills(st.injected, f.name, InjectedCopy(f, name));
        } else {
          NothingFills(st.injected);
        }
        MapFilledTrans(st.injected, mid.injected, r.injected, p1, p2);
        TargetTableEntriesCons(names, fields, t);
      } else {
        assert mid.injected == st.injected;
        NothingFills(st.injected);
      }
    }
  }

  /** The table entries for one target split into the first field's and the rest's. */
  lemma TargetTableEntriesCons(names: seq<Name>, fields: seq<Field>, t: nat)
    requires fields != [] && t < |names|
    ensures TargetTableEntries(names, fields, [t])
            == (if IsInjectField(fields[0]) && fields[0].IsStatic()
                then {(fields[0].name, InjectedCopy(fields[0], names[t]))} else {})
               + TargetTableEntries(names, fields[1..], [t])
  {
    forall x | x in TargetTableEntries(names, fields, [t])
      ensures x in TargetTableEntries(names, fields[1..], [t]) || x == (fields[0].name, InjectedCopy(fields[0], names[t]))
    {
      var t', g :| t' in [t] && t' < |names| && g in fields && IsInjectField(g) && g.IsStatic()
                   && x == (g.name, InjectedCopy(g, names[t']));
      if g != fields[0] { assert g in fields[1..]; }
    }
  }

  /** The inner loop, in the terms of `FieldsInjected`. */
  lemma InjectFieldsIntoInjects(st: FieldState, mixin: ClassFile, t: nat, single: bool)
    requires t < |st.classes|
    ensures FieldsInjected(st.classes, InjectFieldsInto(st, mixin.fields, t, single).classes,
                           Contributions([MixinEntry(mixin, [t])]))
  {
    var after := InjectFieldsInto(st, mixin.fields, t, single).classes;
    var name := st.classes[t].name;
    var pairs := Contributions([MixinEntry(mixin, [t])]);
    InjectFieldsIntoEffect(st, mixin.fields, t, single);
    InjectedCopiesAre(mixin.fields, name);
    forall k, g | 0 <= k < |st.classes| && g in after[k].fields[|st.classes[k].fields|..]
      ensures exists f :: (k, f) in pairs && g == InjectedCopy(f, st.classes[k].name)
    {
      assert k == t;
      assert after[k].fields[|st.classes[k].fields|..] == InjectedCopies(mixin.fields, name);
      var f :| f in mixin.fields && IsInjectField(f) && g == InjectedCopy(f, name);
      assert (k, f) in pairs by {
        assert MixinEntry(mixin, [t]) in [MixinEntry(mixin, [t])];
      }
    }
    forall k, f | 0 <= k < |st.classes| && (k, f) in pairs
      ensures InjectedCopy(f, st.classes[k].name) in after[k].fields
    {
      assert k == t && f in mixin.fields && IsInjectField(f);
      assert InjectedCopy(f, name) in InjectedCopies(mixin.fields, name);
    }
  }

  lemma FieldsInjectedRefl(a: seq<ClassFile>)
    ensures FieldsInjected(a, a, {})
  {
    assert forall k :: 0 <= k < |a| ==> a[k].fields[|a[k].fields|..] == [];
  }

  lemma ContributionsOfTargets(mixin: ClassFile, targets: seq<nat>)
    requires targets != []
    ensures Contributions([MixinEntry(mixin, targets)])
            == Contributions([MixinEntry(mixin, [targets[0]])]) + Contributions([MixinEntry(mixin, targets[1..])])
  {
    var t := targets[0];
    forall x | x in Contributions([MixinEntry(mixin, targets)])
      ensures x in Contributions([MixinEntry(mixin, [t])]) + Contributions([MixinEntry(mixin, targets[1..])])
    {
      var e, t', f :| e in [MixinEntry(mixin, targets)] && t' in e.targets && f in e.mixin.fields
                      && IsInjectField(f) && x == (t', f);
      if t' != t {
        assert t' in targets[1..];
        assert MixinEntry(mixin, targets[1..]) in [MixinEntry(mixin, targets[1..])];
      } else {
        assert MixinEntry(mixin, [t]) in [MixinEntry(mixin, [t])];
      }
    }
    forall x | x in Contributions([MixinEntry(mixin, [t])]) + Contributions([MixinEntry(mixin, targets[1..])])
      ensures x in Contributions([MixinEntry(mixin, targets)])
    {
      assert MixinEntry(mixin, targets) in [MixinEntry(mixin, targets)];
    }
  }

  lemma ContributionsOfEntries(entries: seq<MixinEntry>)
    requires entries != []
    ensures Contributions(entries) == Contributions([entries[0]]) + Contributions(entries[1..])
  {
    forall x | x in Contributions(entries) ensures x in Contributions([entries[0]]) + Contributions(entries[1..]) {
      var e', t, f :| e' in entries && t in e'.targets && f in e'.mixin.fields && IsInjectField(f) && x == (t, f);
      if e' != entries[0] { assert e' in entries[1..]; }
    }
  }

  lemma TargetTableEntriesOfTargets(names: seq<Name>, fields: seq<Field>, targets: seq<nat>)
    requires targets != []
    ensures TargetTableEntries(names, fields, targets)
            == TargetTableEntries(names, fields, [targets[0]]) + TargetTableEntries(names, fields, targets[1..])
  {
    forall x | x in TargetTableEntries(names, fields, targets)
      ensures x in TargetTableEntries(names, fields, [targets[0]]) + TargetTableEntries(names, fields, targets[1..])
    {
      var t', f :| t' in targets && t' < |names| && f in fields && IsInjectField(f) && f.IsStatic()
                   && x == (f.name, InjectedCopy(f, names[t']));
      if t' != targets[0] { assert t' in targets[1..]; }
    }
  }

  lemma TableEntriesOfEntries(names: seq<Name>, entries: seq<MixinEntry>)
    requires entries != []
    ensures TableEntries(names, entries)
            == (if |entries[0].targets| == 1 then TargetTableEntries(names, entries[0].mixin.fields, entries[0].targets) else {})
               + TableEntries(names, entries[1..])
  {
    var e := entries[0];
    forall x | x in TableEntries(names, entries)
      ensures x in (if |e.targets| == 1 then TargetTableEntries(names, e.mixin.fields, e.targets) else {})
                   + TableEntries(names, entries[1..])
    {
      var e', t, f :| e' in entries && |e'.targets| == 1 && t in e'.targets && t < |names|
                      && f in e'.mixin.fields && IsInjectField(f) && f.IsStatic()
                      && x == (f.name, InjectedCopy(f, names[t]));
      if e' != e { assert e' in entries[1..]; }
    }
    forall x | x in (if |e.targets| == 1 then TargetTableEntries(names, e.mixin.fields, e.targets) else {})
                    + TableEntries(names, entries[1..])
      ensures x in TableEntries(names, entries)
    {
      assert e in entries;
    }
  }

  /** One mixin's loop over its targets. */
  lemma {:induction false} InjectTargetsEffect(st: FieldState, mixin: ClassFile, targets: seq<nat>, single: bool)
    requires forall t :: t in targets ==> t < |st.classes|
    ensures FieldsInjected(st.classes, InjectTargets(st, mixin, targets, single).classes,
                           Contributions([MixinEntry(mixin, targets)]))
    ensures MapFilled(st.injected, InjectTargets(st, mixin, targets, single).injected,
                      if single then TargetTableEntries(Names(st.classes), mixin.fields, targets) else {})
    decreases |targets|
  {
    var names := Names(st.classes);
    var r := InjectTargets(st, mixin, targets, single);
    if targets == [] {
      NothingFills(st.injected);
      FieldsInjectedRefl(st.classes);
      assert Contributions([MixinEntry(mixin, targets)]) == {};
      assert TargetTableEntries(names, mixin.fields, targets) == {};
    } else {
      var t := targets[0];
      assert t in targets;
      assert forall t' :: t' in targets[1..] ==> t' in targets;
      var mid := InjectFieldsInto(st, mixin.fields, t, single);
      InjectFieldsIntoEffect(st, mixin.fields, t, single);
      InjectFieldsIntoInjects(st, mixin, t, single);
      assert Names(mid.classes) == names;
      InjectTargetsEffect(mid, mixin, targets[1..], single);
      assert r == InjectTargets(mid, mixin, targets[1..], single);
      FieldsInjectedTrans(st.classes, mid.classes, r.classes,
                          Contributions([MixinEntry(mixin, [t])]), Contributions([MixinEntry(mixin, targets[1..])]));
      ContributionsOfTargets(mixin, targets);
      if single {
        MapFilledTrans(st.injected, mid.injected, r.injected,
                       TargetTableEntries(names, mixin.fields, [t]), TargetTableEntries(names, mixin.fields, targets[1..]));
        TargetTableEntriesOfTargets(names, mixin.fields, targets);
      } else {
        NothingFills(st.injected);
      }
    }
  }

  /** The copies class `k` gains from one mixin: the mixin's copies once for each time `k` is among its targets. */
  function TargetCopies(k: nat, targets: seq<nat>, fields: seq<Field>, name: Name): seq<Field>
    decreases |targets|
  {
    if targets == [] then []
    else (if targets[0] == k then InjectedCopies(fields, name) else []) + TargetCopies(k, targets[1..], fields, name)
  }

  /** The copies class `k` gains over a whole run, mixin by mixin in iteration order. */
  function RunCopies(k: nat, entries: seq<MixinEntry>, name: Name): seq<Field>
    decreases |entries|
  {
    if entries == [] then []
    else TargetCopies(k, entries[0].targets, entries[0].mixin.fields, name) + RunCopies(k, entries[1..], name)
  }

  /** One mixin's loop, class by class: class `k` gains exactly `TargetCopies`, in order. */
  lemma {:induction false} InjectTargetsAppends(st: FieldState, mixin: ClassFile, targets: seq<nat>, single: bool, k: nat)
    requires forall t :: t in targets ==> t < |st.classes|
    requires k < |st.classes|
    ensures InjectTargets(st, mixin, targets, single).classes[k]
            == st.classes[k].(fields := st.classes[k].fields + TargetCopies(k, targets, mixin.fields, st.classes[k].name))
    decreases |targets|
  {
    var c := st.classes[k];
    if targets == [] {
      assert c.fields + [] == c.fields;
    } else {
      var t := targets[0];
      assert t in targets;
      assert forall t' :: t' in targets[1..] ==> t' in targets;
      var mid := InjectFieldsInto(st, mixin.fields, t, single);
      InjectFieldsIntoClasses(st, mixin.fields, t, single);
      var head := if t == k then InjectedCopies(mixin.fields, c.name) else [];
      assert mid.classes[k] == c.(fields := c.fields + head);
      InjectTargetsAppends(mid, mixin, targets[1..], single, k);
      assert InjectTargets(st, mixin, targets, single) == InjectTargets(mid, mixin, targets[1..], single);
      assert c.fields + head + TargetCopies(k, targets[1..], mixin.fields, c.name)
          == c.fields + TargetCopies(k, targets, mixin.fields, c.name);
    }
  }

  /**
   * `injectFields`, class by class: class `k` gains exactly `RunCopies`,
   * so each mixin contributes its copies once per time it targets `k`,
   * in mixin order and then field order, and nothing else changes.
   */
  lemma {:induction false} InjectAllAppends(st: FieldState, entries: seq<MixinEntry>, k: nat)
    requires TargetsValid(entries, |st.classes|)
    requires k < |st.classes|
    ensures InjectAll(st, entries).classes[k]
            == st.classes[k].(fields := st.classes[k].fields + RunCopies(k, entries, st.classes[k].name))
    decreases |entries|
  {
    var c := st.classes[k];
    if entries == [] {
      assert c.fields + [] == c.fields;
    } else {
      var e := entries[0];
      assert e in entries;
      var mid := InjectTargets(st, e.mixin, e.targets, |e.targets| == 1);
      InjectTargetsAppends(st, e.mixin, e.targets, |e.targets| == 1, k);
      var head := TargetCopies(k, e.targets, e.mixin.fields, c.name);
      assert TargetsValid(entries[1..], |mid.classes|) by {
        forall e', t | e' in entries[1..] && t in e'.targets ensures t < |mid.classes| {
          assert e' in entries;
        }
      }
      InjectAllAppends(mid, entries[1..], k);
      assert InjectAll(st, entries) == InjectAll(mid, entries[1..]);
      assert c.fields + head + RunCopies(k, entries[1..], c.name) == c.fields + RunCopies(k, entries, c.name);
    }
  }

  /**
   * `injectFields` as a whole: every target gains a public copy of each
   * @Inject field of each of its mixins and nothing else, and the table
   * gains exactly the copies of static @Inject fields of single-target
   * mixins, keyed by field name. The exact list, with multiplicity and
   * order, is the one `InjectAllAppends` gives.
   */
  lemma {:induction false} InjectAllEffect(st: FieldState, entries: seq<MixinEntry>)
    requires TargetsValid(entries, |st.classes|)
    ensures FieldsInjected(st.classes, InjectAll(st, entries).classes, Contributions(entries))
    ensures MapFilled(st.injected, InjectAll(st, entries).injected, TableEntries(Names(st.classes), entries))
    decreases |entries|
  {
    var names := Names(st.classes);
    var r := InjectAll(st, entries);
    if entries == [] {
      NothingFills(st.injected);
      FieldsInjectedRefl(st.classes);
    } else {
      var e := entries[0];
      var single := |e.targets| == 1;
      assert e in entries;
      var mid := InjectTargets(st, e.mixin, e.targets, single);
      InjectTargetsEffect(st, e.mixin, e.targets, single);
      assert Names(mid.classes) == names;
      assert TargetsValid(entries[1..], |mid.classes|) by {
        forall e', t | e' in entries[1..] && t in e'.targets ensures t < |mid.classes| {
          assert e' in entries;
        }
      }
      InjectAllEffect(mid, entries[1..]);
      assert r == InjectAll(mid, entries[1..]);
      assert [e] == [MixinEntry(e.mixin, e.targets)];
      FieldsInjectedTrans(st.classes, mid.classes, r.classes, Contributions([e]), Contributions(entries[1..]));
      ContributionsOfEntries(entries);
      MapFilledTrans(st.injected, mid.injected, r.injected,
                     if single then TargetTableEntries(names, e.mixin.fields, e.targets) else {},
                     TableEntries(names, entries[1..]));
      TableEntriesOfEntries(names, entries);
    }
  }
}
