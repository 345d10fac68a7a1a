/** What ReflectiveCallsInliner emits, as functions of its inputs. The imperative methods in
    module Inliner are proved to produce exactly these units; module InlinerLemmas proves what
    the units look like and how the two passes share call-site ids. */
module InlinerSpec {
  import opened Wrappers
  import opened Jimple
  import opened Decimal
  import opened Library

  /** What Scene.getMethod tells about a method signature. */
  datatype MethodInfo = MethodInfo(declaringClass: string, paramTypes: seq<Type>, isStatic: bool)

  /** The program database, reduced to the two lookups the inliner makes. */
  datatype Scene = Scene(methods: map<string, MethodInfo>, classes: set<string>)

  /** The exceptions the rewrite can raise. */
  datatype Error =
    | NoSuchMethod(sig: string)        // Scene.getMethod on an unknown signature
    | NoSuchClass(name: string)        // Scene.getSootClass on an unknown class
    | NotAnInstanceInvoke              // the (InstanceInvokeExpr) cast of a matched call fails
    | MissingArgument(index: nat)      // getArg on an index the call does not have
    | ArgumentNotLocal(index: nat)     // the (Local) cast of the argument array fails
    | NoInsertionPoint                 // the static initialiser has no second-to-last unit

  /** Units emitted so far, and the next unused id of the body's counter. */
  datatype Emitted = Emitted(units: seq<Stmt>, next: nat)

  /** `s` holds an invoke whose signature is the one of kind `k`. */
  predicate Matches(s: Stmt, k: Kind) {
    InvokeOf(s).Some? && InvokeOf(s).value.methodRef == LibraryRef(Reflective(k))
  }

  /** The `known…(callSiteId, …)` registration call for a matched invoke: a static call of
      the kind's `known…` method whose first argument is the call-site id, and whose second is
      the class name (Class.forName) or the receiver object (Method.invoke) taken from argument 0,
      and the receiver of the call otherwise. Method.invoke passes the Method, the call's
      receiver, as a third operand. It raises when an operand is missing. */
  function KnownCall(k: Kind, id: nat, ie: InvokeExpr): (r: Result<Stmt, Error>)
    ensures r.Err? <==> (k != ClassForName && ie.base.None?) || ((k == ClassForName || k == MethodInvoke) && |ie.args| < 1)
    ensures r.Ok? ==>
              && r.value.InvokeStmt? && r.value.ie.kind == StaticInvoke && r.value.ie.base.None?
              && r.value.ie.methodRef == LibraryRef(Known(k))
              && |r.value.ie.args| == (if k == MethodInvoke then 3 else 2) && r.value.ie.args[0] == IntConst(id)
              && r.value.ie.args[1] == (if k == ClassForName || k == MethodInvoke then ie.args[0] else Loc(ie.base.value))
              && (k == MethodInvoke ==> r.value.ie.args[2] == Loc(ie.base.value))
  {
    match k
    case ClassForName =>
      if |ie.args| < 1 then Err(MissingArgument(0))
      else Ok(InvokeStmt(InvokeExpr(StaticInvoke, LibraryRef(Known(k)), None, [IntConst(id), ie.args[0]])))
    case ClassNewInstance =>
      if ie.base.None? then Err(NotAnInstanceInvoke)
      else Ok(InvokeStmt(InvokeExpr(StaticInvoke, LibraryRef(Known(k)), None, [IntConst(id), Loc(ie.base.value)])))
    case ConstructorNewInstance =>
      if ie.base.None? then Err(NotAnInstanceInvoke)
      else Ok(InvokeStmt(InvokeExpr(StaticInvoke, LibraryRef(Known(k)), None, [IntConst(id), Loc(ie.base.value)])))
    case MethodInvoke =>
      if ie.base.None? then Err(NotAnInstanceInvoke)
      else if |ie.args| < 1 then Err(MissingArgument(0))
      else Ok(InvokeStmt(InvokeExpr(StaticInvoke, LibraryRef(Known(k)), None, [IntConst(id), ie.args[0], Loc(ie.base.value)])))
  }

  /** String.replace(from, to). */
  function Replace(s: string, from: char, to: char): (r: string)
    ensures |r| == |s|
    ensures forall i :: 0 <= i < |s| ==> r[i] == (if s[i] == from then to else s[i])
  {
    if s == [] then [] else Replace(s[..|s| - 1], from, to) + [if s[|s| - 1] == from then to else s[|s| - 1]]
  }

  /** unboxParameter: turn `args[i]` into the parameter local `p` of type `ty`. The locals it
      creates are `next` (the Object read from the array) and `next + 1` (the cast value). */
  function UnboxParameter(args: Local, i: nat, p: Local, ty: Type, next: nat): seq<Stmt> {
    var boxed := Local(next, RefType("java.lang.Object"));
    var read := Assign(boxed, ArrayRef(args, i));
    match ty
    case Prim(k) =>
      var casted := Local(next + 1, RefType(BoxedClass(k)));
      [read, Assign(casted, Cast(Loc(boxed), RefType(BoxedClass(k)))),
       Assign(p, Invoke(InvokeExpr(VirtualInvoke, UnboxValue(k), Some(casted), [])))]
    case _ =>
      var casted := Local(next + 1, ty);
      [read, Assign(casted, Cast(Loc(boxed), ty)), Assign(p, Val(Loc(casted)))]
  }

  /** Units that unbox a whole parameter list, the parameter values to pass, and the counter. */
  datatype Unboxed = Unboxed(units: seq<Stmt>, params: seq<Value>, next: nat)

  /** The loop over the target's parameter types: parameter i gets local `next + 3i`, and its
      unboxing uses `next + 3i + 1` and `next + 3i + 2`. */
  function UnboxAll(args: Local, types: seq<Type>, next: nat): (u: Unboxed)
    ensures |u.units| == 3 * |types| && |u.params| == |types| && u.next == next + 3 * |types|
    ensures forall i :: 0 <= i < |types| ==> u.params[i] == Loc(Local(next + 3 * i, types[i]))
  {
    if types == [] then Unboxed([], [], next)
    else
      var prev := UnboxAll(args, types[..|types| - 1], next);
      var i := |types| - 1;
      var p := Local(prev.next, types[i]);
      Unboxed(prev.units + UnboxParameter(args, i, p, types[i], prev.next + 1), prev.params + [Loc(p)], prev.next + 3)
  }

  /** `(Local) ie.getArg(index)`. */
  function ArgLocal(ie: InvokeExpr, index: nat): Result<Local, Error> {
    if index >= |ie.args| then Err(MissingArgument(index))
    else if !ie.args[index].Loc? then Err(ArgumentNotLocal(index))
    else Ok(ie.args[index].l)
  }

  /** Unboxing of the argument array `ie.getArg(index)`; a target without parameters reads no
      argument at all. */
  function Unboxing(ie: InvokeExpr, index: nat, types: seq<Type>, next: nat): Result<Unboxed, Error> {
    if |types| == 0 then Ok(Unboxed([], [], next))
    else
      var args :- ArgLocal(ie, index);
      Ok(UnboxAll(args, types, next))
  }

  /** The kind-specific part of one attempt and the local that holds its result. */
  datatype Replacement = Replacement(units: seq<Stmt>, result: Local, next: nat)

  function ReplacementFor(k: Kind, target: string, ie: InvokeExpr, scene: Scene, next: nat): Result<Replacement, Error> {
    match k
    case ClassForName =>
      var freshLocal := Local(next, RefType("java.lang.Class"));
      Ok(Replacement([Assign(freshLocal, Val(ClassConst(Replace(target, '.', '/'))))], freshLocal, next + 1))
    case ClassNewInstance =>
      var ty := RefType(target);
      var freshLocal := Local(next, ty);
      if target !in scene.classes then Err(NoSuchClass(target))
      else Ok(Replacement([Assign(freshLocal, New(ty)), InvokeStmt(InvokeExpr(SpecialInvoke, NoArgConstructor(target), Some(freshLocal), []))], freshLocal, next + 1))
    case ConstructorNewInstance =>
      if target !in scene.methods then Err(NoSuchMethod(target))
      else
        var m := scene.methods[target];
        var u :- Unboxing(ie, 0, m.paramTypes, next);
        var ty := RefType(m.declaringClass);
        var freshLocal := Local(u.next, ty);
        Ok(Replacement(u.units + [Assign(freshLocal, New(ty)), InvokeStmt(InvokeExpr(SpecialInvoke, RefOf(target), Some(freshLocal), u.params))], freshLocal, u.next + 1))
    case MethodInvoke =>
      if target !in scene.methods then Err(NoSuchMethod(target))
      else if |ie.args| < 1 then Err(MissingArgument(0))
      else
        var m := scene.methods[target];
        var recv := ie.args[0];
        var u :- Unboxing(ie, 1, m.paramTypes, next);
        var ty := RefType(m.declaringClass);
        var freshLocal := Local(u.next, ty);
        var call := if m.isStatic then InvokeExpr(StaticInvoke, RefOf(target), None, u.params)
                    else InvokeExpr(VirtualInvoke, RefOf(target), Some(freshLocal), u.params);
        Ok(Replacement(u.units + [Assign(freshLocal, Cast(recv, ty)), InvokeStmt(call)], freshLocal, u.next + 1))
  }

  /** The placeholder guard of an attempt: `pred = getFalse(); if 0 == pred goto jump`. */
  function Guard(pred: Local, jump: nat): seq<Stmt> {
    [Assign(pred, Invoke(InvokeExpr(StaticInvoke, LibraryRef(GetFalse), None, []))), IfZero(pred, jump)]
  }

  /** One guarded attempt for `target`: its jump label is `next`, its guard local `next + 1`. */
  function Attempt(k: Kind, target: string, s: Stmt, ie: InvokeExpr, scene: Scene, endLabel: nat, next: nat): Result<Emitted, Error> {
    var jump := next;
    var pred := Local(next + 1, BooleanType);
    var r :- ReplacementFor(k, target, ie, scene, next + 2);
    var copy := if s.Assign? then [Assign(s.lhs, Val(Loc(r.result)))] else [];
    Ok(Emitted(Guard(pred, jump) + r.units + copy + [Goto(endLabel), Nop(jump)], r.next))
  }

  /** The attempt blocks of a target list, in the order of the list. */
  datatype Blocks = Blocks(blocks: seq<seq<Stmt>>, next: nat)

  function Attempts(k: Kind, targets: seq<string>, s: Stmt, ie: InvokeExpr, scene: Scene, endLabel: nat, next: nat): Result<Blocks, Error>
    decreases |targets|, 1
  {
    if targets == [] then Ok(Blocks([], next)) else AttemptsLast(k, targets, s, ie, scene, endLabel, next)
  }

  /** The attempts of a non-empty target list: those of all targets but the last, then the
      attempt for the last one. */
  function AttemptsLast(k: Kind, targets: seq<string>, s: Stmt, ie: InvokeExpr, scene: Scene, endLabel: nat, next: nat): Result<Blocks, Error>
    requires targets != []
    decreases |targets|, 0
  {
    var prev :- Attempts(k, targets[..|targets| - 1], s, ie, scene, endLabel, next);
    var a :- Attempt(k, targets[|targets| - 1], s, ie, scene, endLabel, prev.next);
    Ok(Blocks(prev.blocks + [a.units], a.next))
  }

  /** What one statement of the snapshot becomes: itself when it does not match, otherwise the
      registration call, the attempts, the statement itself as fallback and the end label. */
  function Rewrite(s: Stmt, k: Kind, targets: seq<string>, id: nat, scene: Scene, next: nat): Result<Emitted, Error> {
    if !Matches(s, k) then Ok(Emitted([s], next))
    else
      var ie := InvokeOf(s).value;
      var known :- KnownCall(k, id, ie);
      var endLabel := next;
      var a :- Attempts(k, targets, s, ie, scene, endLabel, next + 1);
      Ok(Emitted([known] + Flatten(a.blocks) + [s, Nop(endLabel)], a.next))
  }

  /** inlineRelectiveCalls on a body: every statement of the snapshot, in order. */
  function InlineUnits(units: seq<Stmt>, k: Kind, targets: seq<string>, id: nat, scene: Scene, next: nat): Result<Emitted, Error>
    decreases |units|, 1
  {
    if units == [] then Ok(Emitted([], next)) else InlineLast(units, k, targets, id, scene, next)
  }

  /** The pass over a non-empty snapshot: the pass over all statements but the last, then the
      rewrite of the last one. */
  function InlineLast(units: seq<Stmt>, k: Kind, targets: seq<string>, id: nat, scene: Scene, next: nat): Result<Emitted, Error>
    requires units != []
    decreases |units|, 0
  {
    var done :- InlineUnits(units[..|units| - 1], k, targets, id, scene, next);
    var last :- Rewrite(units[|units| - 1], k, targets, id, scene, done.next);
    Ok(Emitted(done.units + last.units, last.next))
  }

  // ----- the trace and the (method, kind) groups -----

  /** The four target lists the trace records for one method. */
  datatype Targets = Targets(classForName: seq<string>, classNewInstance: seq<string>,
                             constructorNewInstance: seq<string>, methodInvoke: seq<string>)

  function TargetsOf(t: Targets, k: Kind): seq<string> {
    match k
    case ClassForName => t.classForName
    case ClassNewInstance => t.classNewInstance
    case ConstructorNewInstance => t.constructorNewInstance
    case MethodInvoke => t.methodInvoke
  }

  /** A (method, kind) pair with a non-empty target list: one call-site id each. */
  datatype Group = Group(methodIndex: nat, kind: Kind, targets: seq<string>)

  /** The groups of method `m` among its first `n` kinds, in kind order. */
  function EntryGroups(m: nat, t: Targets, n: nat): seq<Group>
    requires n <= 4
  {
    if n == 0 then []
    else
      var k := Kinds[n - 1];
      EntryGroups(m, t, n - 1) + if TargetsOf(t, k) != [] then [Group(m, k, TargetsOf(t, k))] else []
  }

  /** All groups of a trace, method by method. */
  function Groups(trace: seq<Targets>): seq<Group> {
    if trace == [] then []
    else Groups(trace[..|trace| - 1]) + EntryGroups(|trace| - 1, trace[|trace| - 1], 4)
  }

  /** A body between two passes of inlineRelectiveCalls, with the next call-site id. */
  datatype PassState = PassState(units: seq<Stmt>, next: nat, id: nat)

  /** internalTransform's four blocks for one method, over its first `n` kinds. */
  function KindPasses(units: seq<Stmt>, t: Targets, n: nat, id: nat, scene: Scene, next: nat): Result<PassState, Error>
    requires n <= 4
    decreases n, 1
  {
    if n == 0 then Ok(PassState(units, next, id)) else KindPass(units, t, n, id, scene, next)
  }

  /** The block of the kind `Kinds[n - 1]`, after the blocks before it: a kind with recorded
      targets gets a pass with the current call-site id, which the pass then advances; a kind
      without targets is skipped. */
  function KindPass(units: seq<Stmt>, t: Targets, n: nat, id: nat, scene: Scene, next: nat): Result<PassState, Error>
    requires 0 < n <= 4
    decreases n, 0
  {
    var prev :- KindPasses(units, t, n - 1, id, scene, next);
    var k := Kinds[n - 1];
    if TargetsOf(t, k) == [] then Ok(prev)
    else
      var e :- InlineUnits(prev.units, k, TargetsOf(t, k), prev.id, scene, prev.next);
      Ok(PassState(e.units, e.next, prev.id + 1))
  }

  // ----- the registry written into soot.rtlib.ReflectiveCalls.<clinit> -----

  /** The name of the static Set field of ReflectiveCalls that holds the entries of a kind. */
  function RegistryField(k: Kind): string {
    match k
    case ClassForName => "classForName"
    case ClassNewInstance => "classNewInstance"
    case ConstructorNewInstance => "constructorNewInstance"
    case MethodInvoke => "methodInvoke"
  }

  /** The entry `callSiteId + target` (Java string concatenation of an int and a String; the
      id is never negative, so its rendering has no sign). */
  function RegistryKey(id: nat, target: string): (key: string)
    ensures |key| > |target| && key[|key| - |target|..] == target
    ensures AllDigits(key[..|key| - |target|]) && ParseNat(key[..|key| - |target|]) == id
    ensures key[..|key| - |target|] == NatToString(id)
  {
    var digits := NatToString(id);
    ParseNatToString(id);
    assert (digits + target)[..|digits|] == digits;
    digits + target
  }

  function AddStmt(setLocal: Local, id: nat, target: string): Stmt {
    InvokeStmt(InvokeExpr(InterfaceInvoke, LibraryRef(SetAdd), Some(setLocal), [StringConst(RegistryKey(id, target))]))
  }

  /** `setLocal.add(id + t)` for every target t, in order. */
  function AddUnits(setLocal: Local, id: nat, targets: seq<string>): seq<Stmt> {
    if targets == [] then []
    else AddUnits(setLocal, id, targets[..|targets| - 1]) + [AddStmt(setLocal, id, targets[|targets| - 1])]
  }

  /** The units of one group: load the kind's set into a freshLocal local, then one add per target. */
  function GroupRegistryUnits(k: Kind, targets: seq<string>, id: nat, setLocal: Local): seq<Stmt> {
    [Assign(setLocal, StaticFieldRef("soot.rtlib.ReflectiveCalls", RegistryField(k)))] + AddUnits(setLocal, id, targets)
  }

  /** The registry units of a group list: group j has id `id0 + j` and set local `next + j`. */
  function RegistryUnits(gs: seq<Group>, id0: nat, next: nat): seq<Stmt>
    decreases |gs|, 1
  {
    if gs == [] then [] else RegistryLast(gs, id0, next)
  }

  /** The registry units of a non-empty group list: those of all groups but the last, then the
      last group's. */
  function RegistryLast(gs: seq<Group>, id0: nat, next: nat): seq<Stmt>
    requires gs != []
    decreases |gs|, 0
  {
    var j := |gs| - 1;
    RegistryUnits(gs[..j], id0, next) + GroupRegistryUnits(gs[j].kind, gs[j].targets, id0 + j, Local(next + j, RefType("java.util.Set")))
  }
}
