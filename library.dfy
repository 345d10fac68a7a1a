/** The library methods the reflective-call inliner names by signature: the four reflective
    calls it looks for, the four registration routines of soot.rtlib.ReflectiveCalls, the
    opaque predicate of its guards and Set.add of the registry. */
module Library {

  /** ReflectionTraceInfo.Kind: the four reflective calls the trace records. */
  datatype Kind = ClassForName | ClassNewInstance | ConstructorNewInstance | MethodInvoke

  /** The order in which the driver and the registry visit the kinds of one method. */
  const Kinds: seq<Kind> := [ClassForName, ClassNewInstance, ConstructorNewInstance, MethodInvoke]

  datatype LibraryMethod =
    | Reflective(kind: Kind)   // the reflective call of a kind
    | Known(kind: Kind)        // ReflectiveCalls.known…: the registration call of a kind
    | GetFalse                 // OpaquePredicate.getFalse()
    | SetAdd                   // java.util.Set.add(Object)

  /** The signature of a library method, as Soot prints it (written in pieces). */
  function LibrarySignature(m: LibraryMethod): (sig: string)
    ensures |sig| == SignatureLength(m) && sig[|sig| - 4] != '>'
  {
    match m
    case Reflective(ClassForName) => "<java.lang.Class: " + "java.lang.Class " + "forName(java.lang.String)>"
    case Reflective(ClassNewInstance) => "<java.lang.Class: " + "java.lang.Object " + "newInstance()>"
    case Reflective(ConstructorNewInstance) => "<java.lang.reflect." + "Constructor: " + "java.lang.Object " + "newInstance(" + "java.lang.Object[])>"
    case Reflective(MethodInvoke) => "<java.lang.reflect." + "Method: " + "java.lang.Object " + "invoke(java.lang.Object," + "java.lang.Object[])>"
    case Known(ClassForName) => "<soot.rtlib." + "ReflectiveCalls: " + "void knownClassForName(" + "int,java.lang.String)>"
    case Known(ClassNewInstance) => "<soot.rtlib." + "ReflectiveCalls: " + "void knownClassNewInstance(" + "int,java.lang.Class)>"
    case Known(ConstructorNewInstance) => "<soot.rtlib." + "ReflectiveCalls: " + "void knownConstructorNewInstance(" + "int,java.lang.reflect." + "Constructor)>"
    case Known(MethodInvoke) => "<soot.rtlib." + "ReflectiveCalls: " + "void knownMethodInvoke(" + "int,java.lang.Object," + "java.lang.reflect.Method)>"
    case GetFalse => "<soot.rtlib." + "OpaquePredicate: " + "boolean getFalse()>"
    case SetAdd => "<java.util.Set: " + "boolean " + "add(java.lang.Object)>"
  }

  /** The length of each library signature; no two are alike. */
  function SignatureLength(m: LibraryMethod): (n: nat)
    ensures n >= 46
  {
    match m
    case Reflective(ClassForName) => 60
    case Reflective(ClassNewInstance) => 49
    case Reflective(ConstructorNewInstance) => 81
    case Reflective(MethodInvoke) => 88
    case Known(ClassForName) => 74
    case Known(ClassNewInstance) => 77
    case Known(ConstructorNewInstance) => 97
    case Known(MethodInvoke) => 99
    case GetFalse => 48
    case SetAdd => 46
  }

  /** Different library methods have different signatures, so naming a library method by its
      constructor loses nothing. */
  lemma LibrarySignatureInjective(a: LibraryMethod, b: LibraryMethod)
    requires LibrarySignature(a) == LibrarySignature(b)
    ensures a == b
  {
  }
}
