/**
 * `findShadowFields`: every static @Shadow field of every mixin is bound to
 * the field it stands for, a field injected by a single-target mixin
 * first, otherwise a static field of the deobfuscated group mapped to its
 * vanilla counterpart.
 */
module Shadows {
  import opened ClassModel
  import opened Tables
  import Lookup
  import Fields

  /** The name a field's @Shadow annotation gives, if it has one. */
  function ShadowName(f: Field): Option<Name> {
    NameElement(f.annotations, ShadowType)
  }

  /** What one @Shadow field called `name` resolves to, or why it cannot be shadowed. */
  function ResolveShadow(f: Field, name: Name, injected: map<Name, Field>,
                         deob: seq<ClassFile>, mapping: Mapping): (r: Result<Field>)
    ensures !f.IsStatic() <==> r == Err(ShadowOfNonStaticField(f.PoolField()))
    // an injected field of that name wins over the deobfuscated search
    ensures f.IsStatic() && name in injected ==> r == Ok(injected[name])
    // otherwise the vanilla counterpart of the first static deobfuscated field of that name
    ensures f.IsStatic() && name !in injected && r.Ok? ==>
              Lookup.DeobStaticField(deob, name).Some? && r.value == mapping.toObField(Lookup.DeobStaticField(deob, name).value)
    ensures f.IsStatic() ==>
              (r.Err? <==> name !in injected
                           && forall k, g :: 0 <= k < |deob| && g in deob[k].fields ==> !Lookup.IsStaticNamed(g, name))
    ensures r.Err? ==> r.error == ShadowOfNonStaticField(f.PoolField()) || r.error == ShadowOfNonexistentField(name)
  {
    if !f.IsStatic() then Err(ShadowOfNonStaticField(f.PoolField()))
    else if name in injected then Ok(injected[name])
    else match Lookup.DeobStaticField(deob, name)
      case None => Err(ShadowOfNonexistentField(name))
      case Some(g) => Ok(mapping.toObField(g))
  }

  /** The inner loop over one mixin's fields, stopping at the first failure. */
  function ShadowFieldsOf(table: map<FieldRef, Field>, fields: seq<Field>, injected: map<Name, Field>,
                          deob: seq<ClassFile>, mapping: Mapping): Result<map<FieldRef, Field>>
    decreases |fields|
  {
    if fields == [] then Ok(table)
    else match ShadowName(fields[0])
      case None => ShadowFieldsOf(table, fields[1..], injected, deob, mapping)
      case Some(name) =>
        match ResolveShadow(fields[0], name, injected, deob, mapping)
        case Err(e) => Err(e)
        case Ok(g) => ShadowFieldsOf(table[fields[0].PoolField() := g], fields[1..], injected, deob, mapping)
  }

  /** `findShadowFields` over all mixins, in the map's iteration order. */
  function ShadowAll(table: map<FieldRef, Field>, entries: seq<Fields.MixinEntry>, injected: map<Name, Field>,
                     deob: seq<ClassFile>, mapping: Mapping): Result<map<FieldRef, Field>>
    decreases |entries|
  {
    if entries == [] then Ok(table)
    else match ShadowFieldsOf(table, entries[0].mixin.fields, injected, deob, mapping)
      case Err(e) => Err(e)
      case Ok(t) => ShadowAll(t, entries[1..], injected, deob, mapping)
  }

  /** A @Shadow field among `fields` that cannot be resolved, with its error. */
  ghost predicate FailsIn(fields: seq<Field>, e: InjectionError, injected: map<Name, Field>,
                          deob: seq<ClassFile>, mapping: Mapping) {
    exists f :: f in fields && ShadowName(f).Some?
                && ResolveShadow(f, ShadowName(f).value, injected, deob, mapping) == Err(e)
  }

  /** A field that is not a @Shadow field, or one that resolves. */
  predicate Resolves(f: Field, injected: map<Name, Field>, deob: seq<ClassFile>, mapping: Mapping) {
    ShadowName(f).None? || ResolveShadow(f, ShadowName(f).value, injected, deob, mapping).Ok?
  }

  /** `fields[i]` is the first @Shadow field that cannot be resolved, with error `e`. */
  ghost predicate FailsFirstAt(fields: seq<Field>, i: int, e: InjectionError, injected: map<Name, Field>,
                               deob: seq<ClassFile>, mapping: Mapping) {
    && 0 <= i < |fields| && ShadowName(fields[i]).Some?
    && ResolveShadow(fields[i], ShadowName(fields[i]).value, injected, deob, mapping) == Err(e)
    && forall j :: 0 <= j < i ==> Resolves(fields[j], injected, deob, mapping)
  }

  lemma NoFailureResolves(fields: seq<Field>, injected: map<Name, Field>, deob: seq<ClassFile>, mapping: Mapping)
    requires forall e :: !FailsIn(fields, e, injected, deob, mapping)
    ensures forall f :: f in fields ==> Resolves(f, injected, deob, mapping)
  {
    forall f | f in fields ensures Resolves(f, injected, deob, mapping) {
      if !Resolves(f, injected, deob, mapping) {
        assert FailsIn(fields, ResolveShadow(f, ShadowName(f).value, injected, deob, mapping).error, injected, deob, mapping);
      }
    }
  }

  lemma ResolvesNoFailure(fields: seq<Field>, injected: map<Name, Field>, deob: seq<ClassFile>, mapping: Mapping)
    requires forall f :: f in fields ==> Resolves(f, injected, deob, mapping)
    ensures forall e :: !FailsIn(fields, e, injected, deob, mapping)
  {
  }

  /** A first failure stays first when fields that all resolve come before it, and when any fields come after. */
  lemma FailsFirstAtConcat(a: seq<Field>, b: seq<Field>, i: int, e: InjectionError,
                           injected: map<Name, Field>, deob: seq<ClassFile>, mapping: Mapping)
    ensures FailsFirstAt(a, i, e, injected, deob, mapping) ==> FailsFirstAt(a + b, i, e, injected, deob, mapping)
    ensures (forall f :: f in a ==> Resolves(f, injected, deob, mapping)) && FailsFirstAt(b, i, e, injected, deob, mapping)
            ==> FailsFirstAt(a + b, |a| + i, e, injected, deob, mapping)
  {
    if (forall f :: f in a ==> Resolves(f, injected, deob, mapping)) && FailsFirstAt(b, i, e, injected, deob, mapping) {
      forall j | 0 <= j < |a| + i ensures Resolves((a + b)[j], injected, deob, mapping) {
        if j < |a| { assert (a + b)[j] in a; } else { assert (a + b)[j] == b[j - |a|]; }
      }
    }
  }

  /** Each resolvable @Shadow field among `fields`, keyed by its pool reference. */
  ghost function ShadowPairs(fields: seq<Field>, injected: map<Name, Field>,
                             deob: seq<ClassFile>, mapping: Mapping): set<(FieldRef, Field)> {
    set f | f in fields && ShadowName(f).Some? && ResolveShadow(f, ShadowName(f).value, injected, deob, mapping).Ok?
          :: (f.PoolField(), ResolveShadow(f, ShadowName(f).value, injected, deob, mapping).value)
  }

  /** The fields of all mixins of a run. */
  function AllFields(entries: seq<Fields.MixinEntry>): (r: seq<Field>)
    ensures forall f :: f in r <==> exists e :: e in entries && f in e.mixin.fields
    decreases |entries|
  {
    if entries == [] then []
    else
      var rest := AllFields(entries[1..]);
      assert forall e :: e in entries[1..] ==> e in entries;
      assert forall e :: e in entries ==> e == entries[0] || e in entries[1..];
      entries[0].mixin.fields + rest
  }

  lemma FailsInConcat(a: seq<Field>, b: seq<Field>, injected: map<Name, Field>, deob: seq<ClassFile>, mapping: Mapping)
    ensures forall e :: FailsIn(a + b, e, injected, deob, mapping) <==>
                        FailsIn(a, e, injected, deob, mapping) || FailsIn(b, e, injected, deob, mapping)
  {
    assert forall f :: f in a + b <==> f in a || f in b;
  }

  lemma ShadowPairsConcat(a: seq<Field>, b: seq<Field>, injected: map<Name, Field>, deob: seq<ClassFile>, mapping: Mapping)
    ensures ShadowPairs(a + b, injected, deob, mapping)
            == ShadowPairs(a, injected, deob, mapping) + ShadowPairs(b, injected, deob, mapping)
  {
    assert forall f :: f in a + b <==> f in a || f in b;
  }

  /**
   * One mixin's fields: the pass fails exactly when one of its @Shadow
   * fields cannot be resolved, with the first such field's error; otherwise every
   * @Shadow field is bound to its resolution.
   */
  lemma ShadowFieldsOfEffect(table: map<FieldRef, Field>, fields: seq<Field>,
                             injected: map<Name, Field>, deob: seq<ClassFile>, mapping: Mapping)
    ensures ShadowFieldsOf(table, fields, injected, deob, mapping).Err? <==>
              exists e :: FailsIn(fields, e, injected, deob, mapping)
    ensures ShadowFieldsOf(table, fields, injected, deob, mapping).Err? ==>
              FailsIn(fields, ShadowFieldsOf(table, fields, injected, deob, mapping).error, injected, deob, mapping)
    // the error is that of the first field, in field order, that cannot be resolved
    ensures ShadowFieldsOf(table, fields, injected, deob, mapping).Err? ==>
              exists i :: FailsFirstAt(fields, i, ShadowFieldsOf(table, fields, injected, deob, mapping).error, injected, deob, mapping)
    ensures ShadowFieldsOf(table, fields, injected, deob, mapping).Ok? ==>
              MapFilled(table, ShadowFieldsOf(table, fields, injected, deob, mapping).value,
                        ShadowPairs(fields, injected, deob, mapping))
  {
    var r := ShadowFieldsOf(table, fields, injected, deob, mapping);
    ShadowFieldsOfFirst(table, fields, injected, deob, mapping);
    ShadowFieldsOfFills(table, fields, injected, deob, mapping);
    if r.Err? {
      var i :| FailsFirstAt(fields, i, r.error, injected, deob, mapping);
      var f := fields[i];
      assert f in fields && ShadowName(f).Some?
             && ResolveShadow(f, ShadowName(f).value, injected, deob, mapping) == Err(r.error);
      assert FailsIn(fields, r.error, injected, deob, mapping);
    } else {
      ResolvesNoFailure(fields, injected, deob, mapping);
    }
  }

  /** The pass stops at the first unresolvable @Shadow field, and succeeds only when every field resolves. */
  lemma {:induction false} ShadowFieldsOfFirst(table: map<FieldRef, Field>, fields: seq<Field>,
                                               injected: map<Name, Field>, deob: seq<ClassFile>, mapping: Mapping)
    ensures ShadowFieldsOf(table, fields, injected, deob, mapping).Err? ==>
              exists i :: FailsFirstAt(fields, i, ShadowFieldsOf(table, fields, injected, deob, mapping).error, injected, deob, mapping)
    ensures ShadowFieldsOf(table, fields, injected, deob, mapping).Ok? ==>
              forall f :: f in fields ==> Resolves(f, injected, deob, mapping)
    decreases |fields|
  {
    var r := ShadowFieldsOf(table, fields, injected, deob, mapping);
    if fields != [] {
      var f := fields[0];
      var rest := fields[1..];
      assert fields == [f] + rest;
      var next := table;
      if ShadowName(f).Some? {
        var res := ResolveShadow(f, ShadowName(f).value, injected, deob, mapping);
        if res.Err? {
          assert r == Err(res.error);
          assert FailsFirstAt(fields, 0, res.error, injected, deob, mapping);
          return;
        }
        next := table[f.PoolField() := res.value];
      }
      assert r == ShadowFieldsOf(next, rest, injected, deob, mapping);
      ShadowFieldsOfFirst(next, rest, injected, deob, mapping);
      assert Resolves(f, injected, deob, mapping);
      if r.Err? {
        var i :| FailsFirstAt(rest, i, r.error, injected, deob, mapping);
        FailsFirstAtConcat([f], rest, i, r.error, injected, deob, mapping);
      } else {
        assert forall g :: g in fields ==> g == f || g in rest;
      }
    }
  }

  /** A pass that succeeds binds every resolvable @Shadow field and keeps the rest of the table. */
  lemma {:induction false} ShadowFieldsOfFills(table: map<FieldRef, Field>, fields: seq<Field>,
                                               injected: map<Name, Field>, deob: seq<ClassFile>, mapping: Mapping)
    ensures ShadowFieldsOf(table, fields, injected, deob, mapping).Ok? ==>
              MapFilled(table, ShadowFieldsOf(table, fields, injected, deob, mapping).value,
                        ShadowPairs(fields, injected, deob, mapping))
    decreases |fields|
  {
    var r := ShadowFieldsOf(table, fields, injected, deob, mapping);
    if fields == [] {
      NothingFills(table);
      assert ShadowPairs(fields, injected, deob, mapping) == {};
    } else if r.Ok? {
      var f := fields[0];
      var rest := fields[1..];
      assert fields == [f] + rest;
      ShadowPairsConcat([f], rest, injected, deob, mapping);
      ShadowPairsOne(f, injected, deob, mapping);
      var next := table;
      if ShadowName(f).Some? {
        var res := ResolveShadow(f, ShadowName(f).value, injected, deob, mapping);
        next := table[f.PoolField() := res.value];
        PutFills(table, f.PoolField(), res.value);
      } else {
        NothingFills(table);
      }
      assert r == ShadowFieldsOf(next, rest, injected, deob, mapping);
      ShadowFieldsOfFills(next, rest, injected, deob, mapping);
      MapFilledTrans(table, next, r.value, ShadowPairs([f], injected, deob, mapping), ShadowPairs(rest, injected, deob, mapping));
    }
  }

  /** The pair one field contributes: its resolution when it is a @Shadow field that resolves. */
  lemma ShadowPairsOne(f: Field, injected: map<Name, Field>, deob: seq<ClassFile>, mapping: Mapping)
    ensures ShadowPairs([f], injected, deob, mapping)
            == if ShadowName(f).Some? && ResolveShadow(f, ShadowName(f).value, injected, deob, mapping).Ok?
               then {(f.PoolField(), ResolveShadow(f, ShadowName(f).value, injected, deob, mapping).value)}
               else {}
  {
    assert f in [f];
  }

  /**
   * `findShadowFields` as a whole: it fails exactly when some mixin has an
   * unresolvable @Shadow field, with the first such field's error; otherwise the
   * table gains every @Shadow field of every mixin, bound to its resolution.
   */
  lemma {:induction false} ShadowAllEffect(table: map<FieldRef, Field>, entries: seq<Fields.MixinEntry>,
                                           injected: map<Name, Field>, deob: seq<ClassFile>, mapping: Mapping)
    ensures ShadowAll(table, entries, injected, deob, mapping).Err? <==>
              exists e :: FailsIn(AllFields(entries), e, injected, deob, mapping)
    ensures ShadowAll(table, entries, injected, deob, mapping).Err? ==>
              FailsIn(AllFields(entries), ShadowAll(table, entries, injected, deob, mapping).error, injected, deob, mapping)
    // the error is that of the first unresolvable field, in mixin order and then field order
    ensures ShadowAll(table, entries, injected, deob, mapping).Err? ==>
              exists i :: FailsFirstAt(AllFields(entries), i, ShadowAll(table, entries, injected, deob, mapping).error,
                                       injected, deob, mapping)
    ensures ShadowAll(table, entries, injected, deob, mapping).Ok? ==>
              MapFilled(table, ShadowAll(table, entries, injected, deob, mapping).value,
                        ShadowPairs(AllFields(entries), injected, deob, mapping))
    decreases |entries|
  {
    var r := ShadowAll(table, entries, injected, deob, mapping);
    if entries == [] {
      NothingFills(table);
      assert ShadowPairs([], injected, deob, mapping) == {};
    } else {
      var fields := entries[0].mixin.fields;
      var rest := AllFields(entries[1..]);
      assert AllFields(entries) == fields + rest;
      ShadowFieldsOfEffect(table, fields, injected, deob, mapping);
      FailsInConcat(fields, rest, injected, deob, mapping);
      ShadowPairsConcat(fields, rest, injected, deob, mapping);
      match ShadowFieldsOf(table, fields, injected, deob, mapping)
      case Err(e) =>
        var i :| FailsFirstAt(fields, i, e, injected, deob, mapping);
        FailsFirstAtConcat(fields, rest, i, e, injected, deob, mapping);
      case Ok(t) =>
        ShadowAllEffect(t, entries[1..], injected, deob, mapping);
        assert forall e :: !FailsIn(fields, e, injected, deob, mapping);
        if r.Err? {
          NoFailureResolves(fields, injected, deob, mapping);
          var i :| FailsFirstAt(rest, i, r.error, injected, deob, mapping);
          FailsFirstAtConcat(fields, rest, i, r.error, injected, deob, mapping);
        }
        if r.Ok? {
          MapFilledTrans(table, t, r.value, ShadowPairs(fields, injected, deob, mapping), ShadowPairs(rest, injected, deob, mapping));
        }
    }
  }
}
