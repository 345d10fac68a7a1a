/** The fragment of the Jimple intermediate representation that the reflective-call inliner
    reads and writes. Locals and labels (NopStmt objects) are named by ids that a per-body
    counter hands out, so "fresh" means "not below the counter". */
module Jimple {
  import opened Wrappers
  import opened Library

  datatype PrimKind = Boolean | Byte | Char | Short | Int | Long | Float | Double

  datatype Type = Prim(kind: PrimKind) | RefType(className: string) | ArrayType(elem: Type)

  /** A local variable; `id` is its name, unique within its body. */
  datatype Local = Local(id: nat, ty: Type)

  /** Immediate operands. */
  datatype Value =
    | Loc(l: Local)
    | IntConst(n: int)
    | StringConst(s: string)
    | ClassConst(name: string)
    | NullConst

  datatype InvokeKind = StaticInvoke | VirtualInvoke | SpecialInvoke | InterfaceInvoke

  /** A method reference, with one value per method: the library methods the inliner names are
      written `LibraryRef`, the two references the inliner builds with Scene.makeMethodRef, from
      a class and a method name, keep that structured form, and any other method is known by its
      signature. `Signature` gives the signature of each of them. */
  datatype MethodRef =
    | BySignature(sig: string)
    | LibraryRef(lib: LibraryMethod)
    | UnboxValue(prim: PrimKind)      // `<Boxed: p pValue()>` of a primitive kind p
    | NoArgConstructor(cls: string)   // `<cls: void <init>()>`

  /** An invoke expression: `base` is the receiver local of an instance invoke. */
  datatype InvokeExpr = InvokeExpr(kind: InvokeKind, methodRef: MethodRef, base: Option<Local>, args: seq<Value>)

  /** Right-hand sides of assignments. `Other` stands for any expression the inliner never
      looks into (arithmetic, field reads, ...). */
  datatype Rhs =
    | Val(v: Value)
    | New(ty: Type)
    | Cast(v: Value, ty: Type)
    | ArrayRef(arr: Local, index: int)
    | Invoke(ie: InvokeExpr)
    | StaticFieldRef(cls: string, field: string)
    | OtherRhs(code: nat)

  /** Statements. A label is a `Nop`; branches name the label they jump to. `OtherStmt`
      stands for statements the inliner never rewrites (returns, throws, stores, ...). */
  datatype Stmt =
    | Nop(labelId: nat)
    | Assign(lhs: Local, rhs: Rhs)
    | IfZero(cond: Local, target: nat)
    | Goto(target: nat)
    | InvokeStmt(ie: InvokeExpr)
    | OtherStmt(code: nat)

  /** Stmt.containsInvokeExpr() / getInvokeExpr(). */
  function InvokeOf(s: Stmt): (r: Option<InvokeExpr>)
    ensures r.Some? <==> s.InvokeStmt? || (s.Assign? && s.rhs.Invoke?)
  {
    match s
    case InvokeStmt(ie) => Some(ie)
    case Assign(_, Invoke(ie)) => Some(ie)
    case _ => None
  }

  // ----- names of types and methods, as Soot prints them -----

  function PrimName(k: PrimKind): (name: string)
    ensures |name| <= 7
  {
    match k
    case Boolean => "boolean"
    case Byte => "byte"
    case Char => "char"
    case Short => "short"
    case Int => "int"
    case Long => "long"
    case Float => "float"
    case Double => "double"
  }

  /** PrimType.boxedType(). */
  function BoxedClass(k: PrimKind): (cls: string)
    ensures |cls| <= 19
  {
    match k
    case Boolean => "java.lang.Boolean"
    case Byte => "java.lang.Byte"
    case Char => "java.lang.Character"
    case Short => "java.lang.Short"
    case Int => "java.lang.Integer"
    case Long => "java.lang.Long"
    case Float => "java.lang.Float"
    case Double => "java.lang.Double"
  }

  /** The method `<Boxed: p pValue()>` that unwraps a boxed primitive, e.g. Integer.intValue(). */
  function UnboxSig(k: PrimKind): string {
    "<" + BoxedClass(k) + ": " + PrimName(k) + " " + PrimName(k) + "Value()>"
  }

  /** The no-argument constructor of a class. */
  function InitSig(cls: string): string {
    "<" + cls + ": void <init>()>"
  }

  /** SootMethodRef.getSignature(). */
  function Signature(m: MethodRef): string {
    match m
    case BySignature(sig) => sig
    case LibraryRef(m) => LibrarySignature(m)
    case UnboxValue(k) => UnboxSig(k)
    case NoArgConstructor(cls) => InitSig(cls)
  }

  /** The one-value-per-method convention of `MethodRef`: the signature of a library method is
      never written `BySignature`. */
  ghost predicate CanonicalRef(m: MethodRef) {
    m.BySignature? ==> forall lib :: m.sig != LibrarySignature(lib)
  }

  /** The library methods, by signature. */
  const LibraryBySignature: map<string, LibraryMethod> := map[
    LibrarySignature(Reflective(ClassForName)) := Reflective(ClassForName),
    LibrarySignature(Reflective(ClassNewInstance)) := Reflective(ClassNewInstance),
    LibrarySignature(Reflective(ConstructorNewInstance)) := Reflective(ConstructorNewInstance),
    LibrarySignature(Reflective(MethodInvoke)) := Reflective(MethodInvoke),
    LibrarySignature(Known(ClassForName)) := Known(ClassForName),
    LibrarySignature(Known(ClassNewInstance)) := Known(ClassNewInstance),
    LibrarySignature(Known(ConstructorNewInstance)) := Known(ConstructorNewInstance),
    LibrarySignature(Known(MethodInvoke)) := Known(MethodInvoke),
    LibrarySignature(GetFalse) := GetFalse,
    LibrarySignature(SetAdd) := SetAdd]

  /** The library method whose signature is `sig`, if there is one. */
  function LibraryOf(sig: string): Option<LibraryMethod> {
    if sig in LibraryBySignature then Some(LibraryBySignature[sig]) else None
  }

  /** LibraryOf finds the library method of a library signature, and only of one. */
  lemma LibraryOfSignature(sig: string)
    ensures LibraryOf(sig).Some? ==> LibrarySignature(LibraryOf(sig).value) == sig
    ensures LibraryOf(sig).None? ==> forall lib :: LibrarySignature(lib) != sig
  {
    if LibraryOf(sig).None? {
      forall lib ensures LibrarySignature(lib) != sig {
        match lib {
          case Reflective(k) => match k { case ClassForName => case ClassNewInstance => case ConstructorNewInstance => case MethodInvoke => }
          case Known(k) => match k { case ClassForName => case ClassNewInstance => case ConstructorNewInstance => case MethodInvoke => }
          case GetFalse =>
          case SetAdd =>
        }
      }
    }
  }

  /** The reference `Scene.getMethod(sig).makeRef()` yields: the library method when `sig` is
      the signature of one, the signature itself otherwise. */
  function RefOf(sig: string): MethodRef {
    match LibraryOf(sig)
    case Some(lib) => LibraryRef(lib)
    case None => BySignature(sig)
  }

  /** RefOf keeps the signature and follows the one-value-per-method convention. */
  lemma RefOfSignature(sig: string)
    ensures Signature(RefOf(sig)) == sig && CanonicalRef(RefOf(sig))
    ensures RefOf(sig).LibraryRef? <==> LibraryOf(sig).Some?
  {
    LibraryOfSignature(sig);
  }

  const BooleanType: Type := Prim(Boolean)

  // ----- ids: every local and label a statement mentions -----

  predicate ValueBelow(v: Value, n: nat) {
    v.Loc? ==> v.l.id < n
  }

  predicate InvokeBelow(ie: InvokeExpr, n: nat) {
    && (ie.base.Some? ==> ie.base.value.id < n)
    && forall i :: 0 <= i < |ie.args| ==> ValueBelow(ie.args[i], n)
  }

  predicate RhsBelow(r: Rhs, n: nat) {
    match r
    case Val(v) => ValueBelow(v, n)
    case Cast(v, _) => ValueBelow(v, n)
    case ArrayRef(a, _) => a.id < n
    case Invoke(ie) => InvokeBelow(ie, n)
    case _ => true
  }

  /** Every local and label of `s` has an id below `n`. */
  predicate StmtBelow(s: Stmt, n: nat) {
    match s
    case Nop(l) => l < n
    case Assign(x, r) => x.id < n && RhsBelow(r, n)
    case IfZero(c, l) => c.id < n && l < n
    case Goto(l) => l < n
    case InvokeStmt(ie) => InvokeBelow(ie, n)
    case OtherStmt(_) => true
  }

  predicate AllBelow(units: seq<Stmt>, n: nat) {
    forall i {:trigger StmtBelow(units[i], n)} :: 0 <= i < |units| ==> StmtBelow(units[i], n)
  }

  lemma StmtBelowMono(s: Stmt, n: nat, m: nat)
    requires StmtBelow(s, n) && n <= m
    ensures StmtBelow(s, m)
  {
    match s
    case Assign(x, r) =>
    case InvokeStmt(ie) =>
    case _ =>
  }

  lemma AllBelowMono(units: seq<Stmt>, n: nat, m: nat)
    requires AllBelow(units, n) && n <= m
    ensures AllBelow(units, m)
  {
    forall i | 0 <= i < |units| ensures StmtBelow(units[i], m) {
      StmtBelowMono(units[i], n, m);
    }
  }

  lemma AllBelowConcat(a: seq<Stmt>, b: seq<Stmt>, n: nat)
    requires AllBelow(a, n) && AllBelow(b, n)
    ensures AllBelow(a + b, n)
  {
  }

  /** Replacing one unit by fresh ones keeps the whole body below the new counter. */
  lemma SpliceBelow(units: seq<Stmt>, pos: nat, mid: seq<Stmt>, n0: nat, n: nat)
    requires pos < |units| && AllBelow(units, n0) && n0 <= n && AllBelow(mid, n)
    ensures AllBelow(units[..pos] + mid + units[pos + 1..], n)
  {
    AllBelowMono(units, n0, n);
    var r := units[..pos] + mid + units[pos + 1..];
    forall i | 0 <= i < |r| ensures StmtBelow(r[i], n) {
      if i < pos {
        assert r[i] == units[i];
      } else if i >= pos + |mid| {
        assert r[i] == units[i - |mid| + 1];
      } else {
        assert r[i] == mid[i - pos];
      }
    }
  }

  /** Concatenation of a sequence of blocks. */
  function Flatten(blocks: seq<seq<Stmt>>): (r: seq<Stmt>)
  {
    if blocks == [] then [] else Flatten(blocks[..|blocks| - 1]) + blocks[|blocks| - 1]
  }
}
