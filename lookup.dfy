/**
 * The searches of MixinInjector: the vanilla class implementing a mixin's
 * interface, the deobfuscated static field a shadow names, and the
 * deobfuscated method a @Copy or @Replace names. Each is a method with the
 * source's loop, proved equal to a specification function.
 */
module Lookup {
  import opened ClassModel

  /** `findVanillaForInterface`: the first class (in group order) that implements `iface`. */
  method FindVanillaForInterface(classes: seq<ClassFile>, iface: Name) returns (r: Option<nat>)
    ensures r.Some? ==> r.value < |classes| && iface in classes[r.value].interfaces
    ensures r.Some? ==> forall k :: 0 <= k < r.value ==> iface !in classes[k].interfaces
    ensures r.None? <==> forall k :: 0 <= k < |classes| ==> iface !in classes[k].interfaces
  {
    var k := 0;
    while k < |classes|
      invariant k <= |classes|
      invariant forall k' :: 0 <= k' < k ==> iface !in classes[k'].interfaces
    {
      var interfaces := classes[k].interfaces;
      var j := 0;
      while j < |interfaces|
        invariant j <= |interfaces|
        invariant forall j' :: 0 <= j' < j ==> interfaces[j'] != iface
      {
        if interfaces[j] == iface {
          return Some(k);
        }
        j := j + 1;
      }
      k := k + 1;
    }
    return None;
  }

  predicate IsStaticNamed(f: Field, name: Name) {
    f.name == name && f.IsStatic()
  }

  /**
   * Field `j` of class `k` is the first static field called `name`: no
   * earlier class has one, and no earlier field of class `k` is one.
   */
  predicate FirstStaticNamed(classes: seq<ClassFile>, name: Name, k: int, j: int) {
    && 0 <= k < |classes| && 0 <= j < |classes[k].fields| && IsStaticNamed(classes[k].fields[j], name)
    && (forall k', j' :: 0 <= k' < k && 0 <= j' < |classes[k'].fields| ==> !IsStaticNamed(classes[k'].fields[j'], name))
    && (forall j' :: 0 <= j' < j ==> !IsStaticNamed(classes[k].fields[j'], name))
  }

  /** The first static field called `name`, scanning classes in order and each class's fields in order. */
  function DeobStaticField(classes: seq<ClassFile>, name: Name): (r: Option<Field>)
    ensures r.Some? ==> IsStaticNamed(r.value, name)
    ensures r.Some? ==> exists k :: 0 <= k < |classes| && r.value in classes[k].fields
    ensures r.None? <==> forall k, f :: 0 <= k < |classes| && f in classes[k].fields ==> !IsStaticNamed(f, name)
    decreases |classes|
  {
    if classes == [] then None
    else match FirstIndex(classes[0].fields, (f: Field) => IsStaticNamed(f, name))
      case Some(j) => Some(classes[0].fields[j])
      case None =>
        var rest := DeobStaticField(classes[1..], name);
        assert forall k :: 0 <= k < |classes| - 1 ==> classes[1..][k] == classes[k + 1];
        rest
  }

  /** The field found is the first one in class order, then field order. */
  lemma {:induction false} DeobStaticFieldIsFirst(classes: seq<ClassFile>, name: Name)
    ensures DeobStaticField(classes, name).Some? ==>
              exists k, j :: FirstStaticNamed(classes, name, k, j) && DeobStaticField(classes, name).value == classes[k].fields[j]
    decreases |classes|
  {
    if classes != [] {
      var p := (f: Field) => IsStaticNamed(f, name);
      var first := FirstIndex(classes[0].fields, p);
      if first.Some? {
        assert FirstStaticNamed(classes, name, 0, first.value);
      } else {
        var tail := classes[1..];
        DeobStaticFieldIsFirst(tail, name);
        var rest := DeobStaticField(tail, name);
        if rest.Some? {
          var k, j :| FirstStaticNamed(tail, name, k, j) && rest.value == tail[k].fields[j];
          ShiftFirstStaticNamed(classes, name, k, j);
        }
      }
    }
  }

  lemma ShiftFirstStaticNamed(classes: seq<ClassFile>, name: Name, k: nat, j: nat)
    requires classes != [] && FirstStaticNamed(classes[1..], name, k, j)
    requires forall j' :: 0 <= j' < |classes[0].fields| ==> !IsStaticNamed(classes[0].fields[j'], name)
    ensures FirstStaticNamed(classes, name, k + 1, j)
  {
    assert forall k' :: 0 <= k' < |classes| - 1 ==> classes[1..][k'] == classes[k' + 1];
  }

  /** `findDeobField`: the loop that computes `DeobStaticField`. */
  method FindDeobField(classes: seq<ClassFile>, name: Name) returns (r: Option<Field>)
    ensures r == DeobStaticField(classes, name)
  {
    var k := 0;
    while k < |classes|
      invariant k <= |classes|
      invariant DeobStaticField(classes, name) == DeobStaticField(classes[k..], name)
    {
      var fields := classes[k].fields;
      var j := 0;
      while j < |fields|
        invariant j <= |fields|
        invariant forall j' :: 0 <= j' < j ==> !IsStaticNamed(fields[j'], name)
      {
        if fields[j].name == name && fields[j].IsStatic() {
          assert classes[k..][0] == classes[k];
          return Some(fields[j]);
        }
        j := j + 1;
      }
      assert classes[k..][0] == classes[k] && classes[k..][1..] == classes[k + 1..];
      k := k + 1;
    }
    return None;
  }

  /** Where a deobfuscated method was found: class index and method index. */
  datatype MethodHit = MethodHit(cls: nat, index: nat)

  predicate HasMethodNamed(c: ClassFile, name: Name) {
    FindMethodNamed(c.methods, name).Some?
  }

  /** The first class from `k` on, other than `skip`, that has a method named `name`. */
  function OtherClassLookup(classes: seq<ClassFile>, skip: nat, name: Name, k: nat): (r: Option<MethodHit>)
    requires k <= |classes|
    ensures r.Some? ==> k <= r.value.cls < |classes| && r.value.cls != skip
    ensures r.Some? ==> FindMethodNamed(classes[r.value.cls].methods, name) == Some(r.value.index)
    ensures r.Some? ==> forall k' :: k <= k' < r.value.cls && k' != skip ==> !HasMethodNamed(classes[k'], name)
    ensures r.None? <==> forall k' :: k <= k' < |classes| && k' != skip ==> !HasMethodNamed(classes[k'], name)
    decreases |classes| - k
  {
    if k == |classes| then None
    else if k != skip && HasMethodNamed(classes[k], name) then
      Some(MethodHit(k, FindMethodNamed(classes[k].methods, name).value))
    else OtherClassLookup(classes, skip, name, k + 1)
  }

  /**
   * The method `findDeobMethod` finds: the first method named `name` in the
   * deobfuscated class `d` itself, otherwise in the first other class that
   * has one; none when no class has it.
   */
  function DeobMethodLookup(classes: seq<ClassFile>, d: nat, name: Name): (r: Option<MethodHit>)
    requires d < |classes|
    ensures r.Some? ==> r.value.cls < |classes| && FindMethodNamed(classes[r.value.cls].methods, name) == Some(r.value.index)
    ensures r.Some? && r.value.cls != d ==> !HasMethodNamed(classes[d], name)
    ensures r.Some? && r.value.cls != d ==> forall k :: 0 <= k < r.value.cls ==> !HasMethodNamed(classes[k], name)
    ensures HasMethodNamed(classes[d], name) ==> r.Some? && r.value.cls == d
    ensures r.None? <==> forall k :: 0 <= k < |classes| ==> !HasMethodNamed(classes[k], name)
  {
    match FindMethodNamed(classes[d].methods, name)
    case Some(j) => Some(MethodHit(d, j))
    case None => OtherClassLookup(classes, d, name, 0)
  }

  /** `findDeobMethod`: the source's loop, which stops at the first other class that has the method. */
  method FindDeobMethod(classes: seq<ClassFile>, d: nat, name: Name) returns (r: Option<MethodHit>)
    requires d < |classes|
    ensures r == DeobMethodLookup(classes, d, name)
  {
    var own := FindMethodNamed(classes[d].methods, name);
    if own.Some? {
      return Some(MethodHit(d, own.value));
    }
    var k := 0;
    while k < |classes|
      invariant k <= |classes|
      invariant forall k' :: 0 <= k' < k && k' != d ==> !HasMethodNamed(classes[k'], name)
    {
      if k != d {
        var found := FindMethodNamed(classes[k].methods, name);
        if found.Some? {
          return Some(MethodHit(k, found.value));
        }
      }
      k := k + 1;
    }
    return None;
  }
}
