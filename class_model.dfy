/**
 * The in-memory class model the injector works on: class files, fields,
 * methods, instructions and the structural pool references (owner, name,
 * type) that instructions carry. It mirrors the parts of the bytecode
 * library that MixinInjector.java reads or writes, as plain values.
 */
module ClassModel {

  type Name = string

  datatype Option<T> = None | Some(value: T)

  /** A method signature; `Size()` is the number of arguments. */
  datatype Signature = Signature(arguments: seq<string>, returnType: string) {
    function Size(): nat { |arguments| }
  }

  /** Pool references: structural keys, compared by value. */
  datatype FieldRef = FieldRef(owner: Name, name: Name, ty: string)
  datatype MethodRef = MethodRef(owner: Name, name: Name, sig: Signature)

  datatype AccessFlag = Public | Private | Protected | Static | Final | OtherFlag(bit: nat)
  type Access = set<AccessFlag>

  /** `setPublic()`: clears the private and protected bits and sets the public bit. */
  function SetPublic(access: Access): (r: Access)
    ensures Public in r && Private !in r && Protected !in r
    ensures forall f :: f in access && f != Private && f != Protected ==> f in r
    ensures forall f :: f in r && f != Public ==> f in access
  {
    access - {Private, Protected} + {Public}
  }

  /** The annotation types the injector looks for, and everything else. */
  datatype AnnotationType =
    | InjectType | ShadowType | CopyType | ReplaceType
    | ObfuscatedNameType | ObfuscatedSignatureType | OtherType(descriptor: string)

  datatype Annotation =
    | Inject
    | Shadow(target: Name)
    | Copy(target: Name)
    | Replace(target: Name)
    | ObfuscatedName(obName: Name)
    | ObfuscatedSignature(obSignature: Signature)
    | OtherAnnotation(descriptor: string)
  {
    function Type(): AnnotationType {
      match this
      case Inject => InjectType
      case Shadow(_) => ShadowType
      case Copy(_) => CopyType
      case Replace(_) => ReplaceType
      case ObfuscatedName(_) => ObfuscatedNameType
      case ObfuscatedSignature(_) => ObfuscatedSignatureType
      case OtherAnnotation(d) => OtherType(d)
    }
  }

  /** The first index of `xs` whose element satisfies `p`. */
  function FirstIndex<T>(xs: seq<T>, p: T -> bool): (r: Option<nat>)
    ensures r.Some? ==> r.value < |xs| && p(xs[r.value])
    ensures r.Some? ==> forall k :: 0 <= k < r.value ==> !p(xs[k])
    ensures r.None? <==> forall k :: 0 <= k < |xs| ==> !p(xs[k])
  {
    if xs == [] then None
    else if p(xs[0]) then Some(0)
    else match FirstIndex(xs[1..], p)
      case None => None
      case Some(k) => Some(k + 1)
  }

  /** `k` is the index of the first annotation of type `ty`. */
  predicate FirstOfType(annotations: seq<Annotation>, ty: AnnotationType, k: int) {
    0 <= k < |annotations| && annotations[k].Type() == ty
    && forall j :: 0 <= j < k ==> annotations[j].Type() != ty
  }

  /** The index of the first annotation of the given type. */
  function FindIndex(annotations: seq<Annotation>, ty: AnnotationType): (r: Option<nat>)
    ensures r.Some? ==> FirstOfType(annotations, ty, r.value)
    ensures r.None? <==> forall k :: 0 <= k < |annotations| ==> annotations[k].Type() != ty
  {
    FirstIndex(annotations, (a: Annotation) => a.Type() == ty)
  }

  /** `Annotations.find(type)`: the first annotation of the given type. */
  function Find(annotations: seq<Annotation>, ty: AnnotationType): (r: Option<Annotation>)
    ensures r.Some? <==> exists k :: 0 <= k < |annotations| && annotations[k].Type() == ty
    ensures r.Some? ==> r.value.Type() == ty && r.value in annotations
    ensures r.Some? <==> FindIndex(annotations, ty).Some?
    ensures r.Some? ==> r.value == annotations[FindIndex(annotations, ty).value]
  {
    match FindIndex(annotations, ty)
    case None => None
    case Some(k) => Some(annotations[k])
  }

  predicate HasInject(annotations: seq<Annotation>) {
    Find(annotations, InjectType).Some?
  }

  /** The element of the first annotation of a type that carries a name. */
  function NameElement(annotations: seq<Annotation>, ty: AnnotationType): (r: Option<Name>)
    requires ty in {ShadowType, CopyType, ReplaceType, ObfuscatedNameType}
    ensures r.Some? <==> Find(annotations, ty).Some?
    // the name carried by the first annotation of that type
    ensures r.Some? ==> var a := annotations[FindIndex(annotations, ty).value];
                        r.value == (if ty == ObfuscatedNameType then a.obName else a.target)
  {
    match Find(annotations, ty)
    case None => None
    case Some(a) => Some(if a.ObfuscatedName? then a.obName else a.target)
  }

  /** `DeobAnnotations.getObfuscatedSignature`: null when the annotation is absent. */
  function ObfuscatedSignatureOf(annotations: seq<Annotation>): (r: Option<Signature>)
    ensures r.Some? <==> Find(annotations, ObfuscatedSignatureType).Some?
    // the signature carried by the first such annotation
    ensures r.Some? ==> r.value == annotations[FindIndex(annotations, ObfuscatedSignatureType).value].obSignature
  {
    match Find(annotations, ObfuscatedSignatureType)
    case None => None
    case Some(a) => Some(a.obSignature)
  }

  datatype Constant = IntConstant(i: int) | LongConstant(l: int) | StringConstant(s: string) | OtherConstant(text: string)

  datatype Field = Field(owner: Name, name: Name, ty: string, access: Access,
                         value: Option<Constant>, annotations: seq<Annotation>)
  {
    predicate IsStatic() { Static in access }
    predicate IsPublic() { Public in access }
    function PoolField(): FieldRef { FieldRef(owner, name, ty) }
  }

  datatype FieldOp = GetField | PutField | GetStatic | PutStatic
  datatype InvokeOp = InvokeVirtual | InvokeSpecial | InvokeStatic | InvokeInterface

  /**
   * Instructions, reduced to what rewriting and verification inspect:
   * field accesses and invocations carry a pool reference; every other
   * opcode is kept opaquely.
   */
  datatype Instruction =
    | FieldInsn(fieldOp: FieldOp, field: FieldRef)
    | InvokeInsn(invokeOp: InvokeOp, callee: MethodRef)
    | InvokeDynamic
    | ILoad(index: int)
    | Opaque(opcode: nat)

  datatype Method = Method(owner: Name, name: Name, descriptor: Signature, access: Access,
                           code: seq<Instruction>, exceptions: seq<Name>, annotations: seq<Annotation>)
  {
    predicate IsStatic() { Static in access }
    function PoolMethod(): MethodRef { MethodRef(owner, name, descriptor) }
  }

  datatype ClassFile = ClassFile(name: Name, interfaces: seq<Name>, fields: seq<Field>,
                                 methods: seq<Method>, annotations: seq<Annotation>)

  /** `ClassGroup.findClass(name)`: the first class with that name; none for a null name. */
  function FindClass(classes: seq<ClassFile>, name: Option<Name>): (r: Option<nat>)
    ensures r.Some? ==> r.value < |classes| && name == Some(classes[r.value].name)
    ensures r.Some? ==> forall k :: 0 <= k < r.value ==> name != Some(classes[k].name)
    ensures r.None? <==> forall k :: 0 <= k < |classes| ==> name != Some(classes[k].name)
  {
    FirstIndex(classes, (c: ClassFile) => name == Some(c.name))
  }

  /** `ClassFile.findMethod(name)`: the first method with that name. */
  function FindMethodNamed(methods: seq<Method>, name: Name): (r: Option<nat>)
    ensures r.Some? ==> r.value < |methods| && methods[r.value].name == name
    ensures r.Some? ==> forall k :: 0 <= k < r.value ==> methods[k].name != name
    ensures r.None? <==> forall k :: 0 <= k < |methods| ==> methods[k].name != name
  {
    FirstIndex(methods, (m: Method) => m.name == name)
  }

  /** `ClassFile.findMethod(name, signature)`: none for a null name. */
  function FindMethod(methods: seq<Method>, name: Option<Name>, sig: Signature): (r: Option<nat>)
    ensures r.Some? ==> r.value < |methods| && name == Some(methods[r.value].name) && methods[r.value].descriptor == sig
    ensures r.None? <==> forall k :: 0 <= k < |methods| ==> !(name == Some(methods[k].name) && methods[k].descriptor == sig)
  {
    FirstIndex(methods, (m: Method) => name == Some(m.name) && m.descriptor == sig)
  }

  /** Every failure the injector reports; each one aborts the whole run. */
  datatype InjectionError =
    | NoImplementingClass(iface: Name, mixinName: Name)
    | ShadowOfNonStaticField(shadow: FieldRef)
    | ShadowOfNonexistentField(shadowName: Name)
    | DeobMethodNotFound(deobName: Name, mixinName: Name)
    | StaticnessMismatch(mixinMethod: MethodRef, shouldBeStatic: bool)
    | ObMethodNotFound(obName: Option<Name>, mixin: Name)
    | InstanceFieldAccessOnMixin(instanceField: FieldRef)
    | NonPublicStaticFieldAccess(staticField: FieldRef)
    | CrossMixinStaticCall(staticCallee: MethodRef)
    | InvokeDynamicNotSupported
      /** The source dereferences a lookup result it never checked for null. */
    | NullDereference

  datatype Result<T> = Ok(value: T) | Err(error: InjectionError)

  /**
   * The deobfuscation mapping, an external oracle: the deobfuscated class
   * name of a vanilla class (or none), and the vanilla field of a
   * deobfuscated field.
   */
  datatype Mapping = Mapping(toDeobClass: Name -> Option<Name>, toObField: Field -> Field)
}
