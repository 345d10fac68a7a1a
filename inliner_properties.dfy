/** What the rewrite promises, stated over the functions of module InlinerSpec: how a parameter
    is unboxed, what each kind's replacement computes, the shape of a guarded attempt and of a
    whole rewrite, what a pass keeps, and how its call-site ids line up with the registry. */
module InlinerProperties {
  import opened Wrappers
  import opened Jimple
  import opened Library
  import opened Decimal
  import opened InlinerSpec
  import opened InlinerLemmas

  /** Straight-line code that calls no library method: an assignment or a call of the
      program's own methods. */
  predicate Plain(s: Stmt) {
    && (s.Assign? || s.InvokeStmt?)
    && (InvokeOf(s).Some? ==> !InvokeOf(s).value.methodRef.LibraryRef?)
  }

  /** Constructor.newInstance and Method.invoke call each target by its signature; the target
      is one of the program's own methods when that signature is not a library method's. */
  predicate OwnTarget(k: Kind, target: string) {
    k == ConstructorNewInstance || k == MethodInvoke ==> LibraryOf(target).None?
  }

  predicate OwnTargets(k: Kind, targets: seq<string>) {
    forall i :: 0 <= i < |targets| ==> OwnTarget(k, targets[i])
  }

  /** The invoke of `s`, if any, names its method by the one-value-per-method convention. */
  ghost predicate CanonicalStmt(s: Stmt) {
    InvokeOf(s).Some? ==> CanonicalRef(InvokeOf(s).value.methodRef)
  }

  ghost predicate AllCanonical(u: seq<Stmt>) {
    forall i :: 0 <= i < |u| ==> CanonicalStmt(u[i])
  }

  // ----- unboxing: three units per parameter -----

  /** Parameter `i` of the target owns units 3i, 3i + 1 and 3i + 2 of the unboxing: the first
      reads element `i` of the argument array, the last stores the value into the local that is
      passed for that parameter. */
  lemma UnboxAllAt(args: Local, types: seq<Type>, next: nat, i: nat)
    requires i < |types|
    ensures var u := UnboxAll(args, types, next);
            && u.units[3 * i..3 * i + 3] == UnboxParameter(args, i, Local(next + 3 * i, types[i]), types[i], next + 3 * i + 1)
            && u.units[3 * i] == Assign(Local(next + 3 * i + 1, RefType("java.lang.Object")), ArrayRef(args, i))
            && u.units[3 * i + 2].Assign? && u.params[i] == Loc(u.units[3 * i + 2].lhs)
  {
    var p := Local(next + 3 * i, types[i]);
    var block := UnboxParameter(args, i, p, types[i], next + 3 * i + 1);
    var units := UnboxAll(args, types, next).units;
    UnboxAllSlice(args, types, next, i);
    UnboxParameterShape(args, i, p, types[i], next + 3 * i + 1);
    SliceIndex(units, 3 * i, block, 0);
    SliceIndex(units, 3 * i, block, 2);
  }

  /** The three units of parameter `i` sit at positions 3i to 3i + 2. */
  lemma {:induction false} UnboxAllSlice(args: Local, types: seq<Type>, next: nat, i: nat)
    requires i < |types|
    ensures UnboxAll(args, types, next).units[3 * i..3 * i + 3]
            == UnboxParameter(args, i, Local(next + 3 * i, types[i]), types[i], next + 3 * i + 1)
  {
    var init := types[..|types| - 1];
    var prev := UnboxAll(args, init, next);
    var j := |types| - 1;
    ghost var last := UnboxParameter(args, j, Local(prev.next, types[j]), types[j], prev.next + 1);
    assert UnboxAll(args, types, next).units == prev.units + last;
    if i < j {
      UnboxAllSlice(args, init, next, i);
      assert init[i] == types[i];
      SliceOfFront(prev.units, last, 3 * i, 3 * i + 3);
    } else {
      SliceOfFront(prev.units, last, |prev.units|, |prev.units| + 3);
    }
  }

  /** The unboxing of one parameter reads the array element into the first local it draws and
      ends by assigning the parameter's local. */
  lemma UnboxParameterShape(args: Local, i: nat, p: Local, ty: Type, next: nat)
    ensures var u := UnboxParameter(args, i, p, ty, next);
            && |u| == 3
            && u[0] == Assign(Local(next, RefType("java.lang.Object")), ArrayRef(args, i))
            && u[2].Assign? && u[2].lhs == p
  {
  }

  /** A slice of `a + b` that lies in `a`, or that is exactly `b`. */
  lemma SliceOfFront(a: seq<Stmt>, b: seq<Stmt>, lo: nat, hi: nat)
    requires lo <= hi <= |a| + |b|
    ensures hi <= |a| ==> (a + b)[lo..hi] == a[lo..hi]
    ensures lo == |a| && hi == |a| + |b| ==> (a + b)[lo..hi] == b
  {
  }

  // ----- the replacement of each kind -----

  /** What the replacement assigns to its result local, kind by kind: the class constant of
      the target with '.' turned into '/', a new object of the target class, a new object of
      the constructor's class, and for Method.invoke the receiver cast to the declaring class. */
  function ResultRhs(k: Kind, target: string, ie: InvokeExpr, scene: Scene): (rhs: Rhs)
    ensures k == ClassForName ==> rhs.Val? && rhs.v.ClassConst? && '.' !in rhs.v.name && |rhs.v.name| == |target|
  {
    match k
    case ClassForName => Val(ClassConst(Replace(target, '.', '/')))
    case ClassNewInstance => New(RefType(target))
    case ConstructorNewInstance =>
      if target in scene.methods then New(RefType(scene.methods[target].declaringClass)) else OtherRhs(0)
    case MethodInvoke =>
      if target in scene.methods && |ie.args| > 0 then Cast(ie.args[0], RefType(scene.methods[target].declaringClass))
      else OtherRhs(0)
  }

  /** The result local of a replacement is the last local it draws, and exactly one of its
      units assigns it: the assignment of `ResultRhs`. So for Method.invoke the destination
      receives the cast receiver, never the value the target method returns. */
  lemma ReplacementResult(k: Kind, target: string, ie: InvokeExpr, scene: Scene, next: nat)
    requires ReplacementFor(k, target, ie, scene, next).Ok?
    ensures var r := ReplacementFor(k, target, ie, scene, next).value;
            && r.next > next && r.result.id == r.next - 1
            && exists p :: && 0 <= p < |r.units| && r.units[p] == Assign(r.result, ResultRhs(k, target, ie, scene))
                           && forall q :: 0 <= q < |r.units| && q != p && r.units[q].Assign? ==> r.units[q].lhs != r.result
  {
    var r := ReplacementFor(k, target, ie, scene, next).value;
    match k
    case ClassForName =>
      assert r.units[0] == Assign(r.result, ResultRhs(k, target, ie, scene));
    case ClassNewInstance =>
      assert r.units[0] == Assign(r.result, ResultRhs(k, target, ie, scene));
    case ConstructorNewInstance =>
      var u := Unboxing(ie, 0, scene.methods[target].paramTypes, next).value;
      UnboxedLhsBelow(ie, 0, scene.methods[target].paramTypes, next);
      var p := |u.units|;
      assert r.units[p] == Assign(r.result, ResultRhs(k, target, ie, scene));
      assert forall q :: 0 <= q < |u.units| ==> r.units[q] == u.units[q];
    case MethodInvoke =>
      var u := Unboxing(ie, 1, scene.methods[target].paramTypes, next).value;
      UnboxedLhsBelow(ie, 1, scene.methods[target].paramTypes, next);
      var p := |u.units|;
      assert r.units[p] == Assign(r.result, ResultRhs(k, target, ie, scene));
      assert forall q :: 0 <= q < |u.units| ==> r.units[q] == u.units[q];
  }

  /** Every unit of an unboxing assigns a local drawn before the counter it ends with. */
  lemma UnboxedLhsBelow(ie: InvokeExpr, index: nat, types: seq<Type>, next: nat)
    requires Unboxing(ie, index, types, next).Ok?
    ensures var u := Unboxing(ie, index, types, next).value;
            && u.next == next + 3 * |types|
            && forall q :: 0 <= q < |u.units| ==> u.units[q].Assign? && u.units[q].lhs.id < u.next && Plain(u.units[q]) && CanonicalStmt(u.units[q])
  {
    if |types| > 0 {
      var args := ArgLocal(ie, index).value;
      assert Unboxing(ie, index, types, next).value == UnboxAll(args, types, next);
      UnboxAllAssigns(args, types, next);
    }
  }

  lemma {:induction false} UnboxAllAssigns(args: Local, types: seq<Type>, next: nat)
    ensures forall q :: 0 <= q < |UnboxAll(args, types, next).units| ==>
              && UnboxAll(args, types, next).units[q].Assign?
              && UnboxAll(args, types, next).units[q].lhs.id < UnboxAll(args, types, next).next
              && Plain(UnboxAll(args, types, next).units[q]) && CanonicalStmt(UnboxAll(args, types, next).units[q])
  {
    if types != [] {
      var init := types[..|types| - 1];
      var prev := UnboxAll(args, init, next);
      var all := UnboxAll(args, types, next);
      var last := UnboxParameter(args, |types| - 1, Local(prev.next, types[|types| - 1]), types[|types| - 1], prev.next + 1);
      UnboxAllAssigns(args, init, next);
      assert all.units == prev.units + last;
      forall q | 0 <= q < |all.units| ensures all.units[q].Assign? && all.units[q].lhs.id < all.next && Plain(all.units[q]) && CanonicalStmt(all.units[q]) {
        if q < |prev.units| {
          assert all.units[q] == prev.units[q];
        } else {
          UnboxParameterAssigns(args, |types| - 1, Local(prev.next, types[|types| - 1]), types[|types| - 1], prev.next + 1);
          assert all.units[q] == last[q - |prev.units|];
        }
      }
    }
  }

  lemma UnboxParameterAssigns(args: Local, i: nat, p: Local, ty: Type, next: nat)
    requires p.id < next
    ensures var u := UnboxParameter(args, i, p, ty, next);
            forall q :: 0 <= q < |u| ==> u[q].Assign? && u[q].lhs.id < next + 2 && Plain(u[q]) && CanonicalStmt(u[q])
  {
    match ty
    case Prim(k) =>
    case _ =>
  }

  /** The skeleton of each kind's replacement: Class.forName is one assignment, newInstance
      builds the object and calls its no-argument constructor, and the two calls that take an
      argument array unbox one parameter per three units and then call the target itself with
      the unboxed values, the constructor on the new object, a virtual method on the cast
      receiver and a static method on no receiver. */
  lemma ReplacementSkeleton(k: Kind, target: string, ie: InvokeExpr, scene: Scene, next: nat)
    requires ReplacementFor(k, target, ie, scene, next).Ok?
    ensures var r := ReplacementFor(k, target, ie, scene, next).value;
            var call := r.units[|r.units| - 1];
            && (k == ClassForName ==> |r.units| == 1)
            && (k == ClassNewInstance ==>
                 |r.units| == 2 && call == InvokeStmt(InvokeExpr(SpecialInvoke, NoArgConstructor(target), Some(r.result), [])))
            && (k == ConstructorNewInstance || k == MethodInvoke ==>
                 var m := scene.methods[target];
                 && |r.units| == 3 * |m.paramTypes| + 2
                 && call.InvokeStmt? && call.ie.methodRef == RefOf(target)
                 && |call.ie.args| == |m.paramTypes|
                 && (forall i :: 0 <= i < |m.paramTypes| ==>
                       r.units[3 * i + 2].Assign? && call.ie.args[i] == Loc(r.units[3 * i + 2].lhs)
                       && r.units[3 * i + 2].lhs.ty == m.paramTypes[i])
                 && (k == ConstructorNewInstance ==> call.ie.kind == SpecialInvoke && call.ie.base == Some(r.result))
                 && (k == MethodInvoke && m.isStatic ==> call.ie.kind == StaticInvoke && call.ie.base.None?)
                 && (k == MethodInvoke && !m.isStatic ==> call.ie.kind == VirtualInvoke && call.ie.base == Some(r.result)))
  {
    if k == ConstructorNewInstance || k == MethodInvoke {
      var m := scene.methods[target];
      var index := if k == ConstructorNewInstance then 0 else 1;
      var u := Unboxing(ie, index, m.paramTypes, next).value;
      var r := ReplacementFor(k, target, ie, scene, next).value;
      assert r.units[..|u.units|] == u.units;
      forall i | 0 <= i < |m.paramTypes|
        ensures r.units[3 * i + 2].Assign? && u.params[i] == Loc(r.units[3 * i + 2].lhs)
        ensures r.units[3 * i + 2].lhs.ty == m.paramTypes[i]
      {
        var args := ArgLocal(ie, index).value;
        UnboxAllAt(args, m.paramTypes, next, i);
        assert r.units[3 * i + 2] == u.units[3 * i + 2];
      }
    }
  }

  /** A replacement is straight-line code that calls no library method. */
  lemma ReplacementPlain(k: Kind, target: string, ie: InvokeExpr, scene: Scene, next: nat)
    requires ReplacementFor(k, target, ie, scene, next).Ok?
    requires OwnTarget(k, target)
    ensures var r := ReplacementFor(k, target, ie, scene, next).value;
            forall q :: 0 <= q < |r.units| ==> Plain(r.units[q])
  {
    var r := ReplacementFor(k, target, ie, scene, next).value;
    if k == ConstructorNewInstance || k == MethodInvoke {
      var index := if k == ConstructorNewInstance then 0 else 1;
      var u := Unboxing(ie, index, scene.methods[target].paramTypes, next).value;
      UnboxedLhsBelow(ie, index, scene.methods[target].paramTypes, next);
      forall q | 0 <= q < |r.units| ensures Plain(r.units[q]) {
        if q < |u.units| {
          assert r.units[q] == u.units[q];
        }
      }
    }
  }

  // ----- one guarded attempt -----

  /** Control never leaves `u` but through `endLabel`: every goto jumps to it, and every
      conditional branch jumps forward to a label inside `u`. */
  predicate JumpsInside(u: seq<Stmt>, endLabel: nat) {
    && (forall i :: 0 <= i < |u| && u[i].Goto? ==> u[i].target == endLabel)
    && (forall i :: 0 <= i < |u| && u[i].IfZero? ==> exists j :: i < j < |u| && u[j] == Nop(u[i].target))
  }

  /** The only library method `s` may call is the opaque predicate of a guard. */
  predicate OnlyGuardCalls(s: Stmt) {
    InvokeOf(s).Some? && InvokeOf(s).value.methodRef.LibraryRef? ==> InvokeOf(s).value.methodRef.lib == GetFalse
  }

  /** An attempt: the guard stores getFalse() in a fresh boolean local and, when it is zero,
      branches to the attempt's own closing label; otherwise the replacement runs, its result
      is copied into the destination of an assignment, and control jumps to the end label.
      Between the guard and the final goto the code is straight-line. */
  lemma AttemptShape(k: Kind, target: string, s: Stmt, ie: InvokeExpr, scene: Scene, endLabel: nat, next: nat)
    requires Attempt(k, target, s, ie, scene, endLabel, next).Ok?
    requires OwnTarget(k, target)
    ensures var u := Attempt(k, target, s, ie, scene, endLabel, next).value.units;
            var r := ReplacementFor(k, target, ie, scene, next + 2).value;
            var pred := Local(next + 1, BooleanType);
            && |u| == |r.units| + (if s.Assign? then 5 else 4)
            && u[0] == Assign(pred, Invoke(InvokeExpr(StaticInvoke, LibraryRef(GetFalse), None, [])))
            && u[1] == IfZero(pred, next) && u[|u| - 1] == Nop(next)
            && u[|u| - 2] == Goto(endLabel)
            && u[2..2 + |r.units|] == r.units
            && (s.Assign? ==> u[|u| - 3] == Assign(s.lhs, Val(Loc(r.result))))
            && (forall i :: 1 < i < |u| - 2 ==> Plain(u[i]))
  {
    var r := ReplacementFor(k, target, ie, scene, next + 2).value;
    var copy := if s.Assign? then [Assign(s.lhs, Val(Loc(r.result)))] else [];
    assert Attempt(k, target, s, ie, scene, endLabel, next).value.units ==
           Guard(Local(next + 1, BooleanType), next) + r.units + copy + [Goto(endLabel), Nop(next)];
    ReplacementPlain(k, target, ie, scene, next + 2);
    GuardedBlock(Local(next + 1, BooleanType), next, r.units, copy, endLabel);
  }

  /** The layout of `Guard + units + copy + [goto end, label]`, by position. */
  lemma GuardedBlock(pred: Local, jump: nat, units: seq<Stmt>, copy: seq<Stmt>, endLabel: nat)
    requires |copy| <= 1 && (forall q :: 0 <= q < |units| ==> Plain(units[q])) && (forall q :: 0 <= q < |copy| ==> Plain(copy[q]))
    ensures var u := Guard(pred, jump) + units + copy + [Goto(endLabel), Nop(jump)];
            && |u| == |units| + |copy| + 4
            && u[0] == Assign(pred, Invoke(InvokeExpr(StaticInvoke, LibraryRef(GetFalse), None, [])))
            && u[1] == IfZero(pred, jump) && u[|u| - 1] == Nop(jump) && u[|u| - 2] == Goto(endLabel)
            && u[2..2 + |units|] == units
            && (|copy| == 1 ==> u[|u| - 3] == copy[0])
            && (forall i :: 1 < i < |u| - 2 ==> Plain(u[i]))
  {
    var u := Guard(pred, jump) + units + copy + [Goto(endLabel), Nop(jump)];
    forall i | 1 < i < |u| - 2 ensures Plain(u[i]) {
      if i < 2 + |units| {
        assert u[i] == units[i - 2];
      } else {
        assert u[i] == copy[i - 2 - |units|];
      }
    }
  }

  /** Control stays inside `u` but for jumps to `endLabel`, and `u` calls no library method
      but getFalse(). */
  predicate Inside(u: seq<Stmt>, endLabel: nat) {
    JumpsInside(u, endLabel) && forall i :: 0 <= i < |u| ==> OnlyGuardCalls(u[i])
  }

  /** Gluing two pieces keeps control inside. */
  lemma JumpsInsideConcat(a: seq<Stmt>, b: seq<Stmt>, endLabel: nat)
    requires JumpsInside(a, endLabel) && JumpsInside(b, endLabel)
    ensures JumpsInside(a + b, endLabel)
  {
    var ab := a + b;
    forall i | 0 <= i < |ab| && ab[i].IfZero? ensures exists j :: i < j < |ab| && ab[j] == Nop(ab[i].target) {
      if i < |a| {
        assert a[i] == ab[i];
        var j :| i < j < |a| && a[j] == Nop(a[i].target);
        assert ab[j] == a[j];
      } else {
        assert b[i - |a|] == ab[i];
        var j :| i - |a| < j < |b| && b[j] == Nop(b[i - |a|].target);
        assert ab[j + |a|] == b[j];
      }
    }
  }

  lemma InsideConcat(a: seq<Stmt>, b: seq<Stmt>, endLabel: nat)
    requires Inside(a, endLabel) && Inside(b, endLabel)
    ensures Inside(a + b, endLabel)
  {
    JumpsInsideConcat(a, b, endLabel);
    var ab := a + b;
    forall i | 0 <= i < |ab| ensures OnlyGuardCalls(ab[i]) {
      if i < |a| {
        assert a[i] == ab[i];
      } else {
        assert b[i - |a|] == ab[i];
      }
    }
  }

  /** A guarded block keeps control inside. */
  lemma GuardedBlockInside(pred: Local, jump: nat, units: seq<Stmt>, copy: seq<Stmt>, endLabel: nat)
    requires |copy| <= 1 && (forall q :: 0 <= q < |units| ==> Plain(units[q])) && (forall q :: 0 <= q < |copy| ==> Plain(copy[q]))
    ensures Inside(Guard(pred, jump) + units + copy + [Goto(endLabel), Nop(jump)], endLabel)
  {
    var u := Guard(pred, jump) + units + copy + [Goto(endLabel), Nop(jump)];
    GuardedBlock(pred, jump, units, copy, endLabel);
    forall i | 0 <= i < |u| && u[i].IfZero? ensures exists j :: i < j < |u| && u[j] == Nop(u[i].target) {
      assert u[|u| - 1] == Nop(u[i].target);
    }
  }

  /** One attempt keeps control inside. */
  lemma AttemptInside(k: Kind, target: string, s: Stmt, ie: InvokeExpr, scene: Scene, endLabel: nat, next: nat)
    requires Attempt(k, target, s, ie, scene, endLabel, next).Ok?
    requires OwnTarget(k, target)
    ensures Inside(Attempt(k, target, s, ie, scene, endLabel, next).value.units, endLabel)
  {
    var r := ReplacementFor(k, target, ie, scene, next + 2).value;
    var copy := if s.Assign? then [Assign(s.lhs, Val(Loc(r.result)))] else [];
    assert Attempt(k, target, s, ie, scene, endLabel, next).value.units ==
           Guard(Local(next + 1, BooleanType), next) + r.units + copy + [Goto(endLabel), Nop(next)];
    ReplacementPlain(k, target, ie, scene, next + 2);
    GuardedBlockInside(Local(next + 1, BooleanType), next, r.units, copy, endLabel);
  }

  /** The attempts of a target list, glued together, keep control inside. */
  lemma {:induction false} AttemptsInside(k: Kind, targets: seq<string>, s: Stmt, ie: InvokeExpr, scene: Scene, endLabel: nat, next: nat)
    requires Attempts(k, targets, s, ie, scene, endLabel, next).Ok?
    requires OwnTargets(k, targets)
    ensures Inside(Flatten(Attempts(k, targets, s, ie, scene, endLabel, next).value.blocks), endLabel)
    decreases |targets|
  {
    if targets != [] {
      var init := targets[..|targets| - 1];
      var prev := Attempts(k, init, s, ie, scene, endLabel, next).value;
      var a := Attempt(k, targets[|targets| - 1], s, ie, scene, endLabel, prev.next).value;
      var blocks := Attempts(k, targets, s, ie, scene, endLabel, next).value.blocks;
      assert blocks == prev.blocks + [a.units];
      assert blocks[..|blocks| - 1] == prev.blocks;
      AttemptsInside(k, init, s, ie, scene, endLabel, next);
      AttemptInside(k, targets[|targets| - 1], s, ie, scene, endLabel, prev.next);
      InsideConcat(Flatten(prev.blocks), a.units, endLabel);
    }
  }

  // ----- the rewrite of one statement -----

  /** The rewrite of a matched statement: the registration call with the pass's call-site id
      comes first, the statement itself stays as the fallback, and the end label closes the
      block. Inside, every goto jumps to that end label and every guard branches forward to a
      label before it, the last one to the fallback. */
  lemma RewriteShape(s: Stmt, k: Kind, targets: seq<string>, id: nat, scene: Scene, next: nat)
    requires Matches(s, k) && Rewrite(s, k, targets, id, scene, next).Ok?
    requires OwnTargets(k, targets)
    ensures var u := Rewrite(s, k, targets, id, scene, next).value.units;
            && |u| >= 3
            && KnownCall(k, id, InvokeOf(s).value) == Ok(u[0])
            && u[|u| - 2] == s && u[|u| - 1] == Nop(next)
            && JumpsInside(u[..|u| - 1], next)
  {
    RewriteSplice(s, k, targets, id, scene, next);
    ghost var u := Rewrite(s, k, targets, id, scene, next).value.units;
    assert u[0].InvokeStmt?;
    SpliceJumps(u, s, next);
  }

  /** A matched statement's rewrite, in three parts: the registration call, the attempts, whose
      code keeps control inside and calls no library method but getFalse(), and the statement
      followed by the end label. */
  lemma RewriteSplice(s: Stmt, k: Kind, targets: seq<string>, id: nat, scene: Scene, next: nat)
    requires Matches(s, k) && Rewrite(s, k, targets, id, scene, next).Ok?
    requires OwnTargets(k, targets)
    ensures var u := Rewrite(s, k, targets, id, scene, next).value.units;
            && |u| >= 3
            && KnownCall(k, id, InvokeOf(s).value) == Ok(u[0])
            && u[|u| - 2] == s && u[|u| - 1] == Nop(next)
            && Inside(u[1..|u| - 2], next)
  {
    var ie := InvokeOf(s).value;
    var known := KnownCall(k, id, ie).value;
    var f := Flatten(Attempts(k, targets, s, ie, scene, next, next + 1).value.blocks);
    AttemptsInside(k, targets, s, ie, scene, next, next + 1);
    ghost var u := Rewrite(s, k, targets, id, scene, next).value.units;
    assert u == [known] + f + [s, Nop(next)];
    SpliceParts(u, known, f, s, next);
  }

  /** The parts of `[known] + f + [s, label]`. */
  lemma SpliceParts(u: seq<Stmt>, known: Stmt, f: seq<Stmt>, s: Stmt, endLabel: nat)
    requires u == [known] + f + [s, Nop(endLabel)]
    ensures |u| >= 3 && u[0] == known && u[1..|u| - 2] == f && u[|u| - 2] == s && u[|u| - 1] == Nop(endLabel)
  {
    assert u[1..|u| - 2] == f;
  }

  /** Control stays inside a splice whose first unit and whose fallback do not jump. */
  lemma SpliceJumps(u: seq<Stmt>, s: Stmt, endLabel: nat)
    requires |u| >= 3 && u[|u| - 2] == s && Inside(u[1..|u| - 2], endLabel)
    requires !u[0].Goto? && !u[0].IfZero? && !s.Goto? && !s.IfZero?
    ensures JumpsInside(u[..|u| - 1], endLabel)
  {
    var f := u[1..|u| - 2];
    assert JumpsInside([u[0]], endLabel);
    assert JumpsInside([s], endLabel);
    JumpsInsideConcat([u[0]], f, endLabel);
    JumpsInsideConcat([u[0]] + f, [s], endLabel);
    assert u[..|u| - 1] == [u[0]] + f + [s];
  }

  // ----- where each attempt sits -----

  /** The blocks lie one after another in their concatenation: block j occupies offsets
      offs[j] to offs[j + 1]. */
  lemma {:induction false} FlattenOffsets(blocks: seq<seq<Stmt>>) returns (offs: seq<nat>)
    ensures |offs| == |blocks| + 1 && offs[0] == 0 && offs[|blocks|] == |Flatten(blocks)|
    ensures forall j :: 0 <= j <= |blocks| ==> offs[j] <= |Flatten(blocks)|
    ensures forall j :: 0 <= j < |blocks| ==>
              offs[j] + |blocks[j]| == offs[j + 1] && Flatten(blocks)[offs[j]..offs[j + 1]] == blocks[j]
    decreases |blocks|
  {
    if blocks == [] {
      offs := [0];
    } else {
      var init, last := blocks[..|blocks| - 1], blocks[|blocks| - 1];
      var prev := FlattenOffsets(init);
      var f := Flatten(blocks);
      assert f == Flatten(init) + last;
      offs := prev + [|f|];
      forall j | 0 <= j < |blocks| ensures offs[j] + |blocks[j]| == offs[j + 1] && f[offs[j]..offs[j + 1]] == blocks[j] {
        if j < |init| {
          assert blocks[j] == init[j];
          assert f[offs[j]..offs[j + 1]] == Flatten(init)[prev[j]..prev[j + 1]];
        } else {
          assert f[offs[j]..offs[j + 1]] == last;
        }
      }
    }
  }

  /** An attempt draws at least its jump label, its guard local and its result local. */
  lemma AttemptAdvances(k: Kind, target: string, s: Stmt, ie: InvokeExpr, scene: Scene, endLabel: nat, next: nat)
    requires Attempt(k, target, s, ie, scene, endLabel, next).Ok?
    ensures Attempt(k, target, s, ie, scene, endLabel, next).value.next > next + 2
  {
    if k == ConstructorNewInstance || k == MethodInvoke {
      var index := if k == ConstructorNewInstance then 0 else 1;
      UnboxedLhsBelow(ie, index, scene.methods[target].paramTypes, next + 2);
    }
  }

  /** One attempt per target, in the order of the targets: attempt j is the attempt for
      `targets[j]` drawn from counter `starts[j]`, which is also its jump label, and the next
      attempt draws from where it stopped. */
  lemma {:induction false} AttemptsAt(k: Kind, targets: seq<string>, s: Stmt, ie: InvokeExpr, scene: Scene, endLabel: nat, next: nat)
    returns (starts: seq<nat>)
    requires Attempts(k, targets, s, ie, scene, endLabel, next).Ok?
    ensures var a := Attempts(k, targets, s, ie, scene, endLabel, next).value;
            && |a.blocks| == |targets| && |starts| == |targets| + 1
            && starts[0] == next && starts[|targets|] == a.next
            && forall j :: 0 <= j < |targets| ==>
                 && starts[j] + 2 < starts[j + 1]
                 && Attempt(k, targets[j], s, ie, scene, endLabel, starts[j]) == Ok(Emitted(a.blocks[j], starts[j + 1]))
    decreases |targets|
  {
    if targets == [] {
      starts := [next];
    } else {
      var n := |targets|;
      var init := targets[..n - 1];
      var prev := Attempts(k, init, s, ie, scene, endLabel, next).value;
      var e := Attempt(k, targets[n - 1], s, ie, scene, endLabel, prev.next).value;
      var a := Attempts(k, targets, s, ie, scene, endLabel, next).value;
      assert a.blocks == prev.blocks + [e.units] && a.next == e.next;
      var p := AttemptsAt(k, init, s, ie, scene, endLabel, next);
      AttemptAdvances(k, targets[n - 1], s, ie, scene, endLabel, prev.next);
      starts := p + [e.next];
      forall j | 0 <= j < n
        ensures starts[j] + 2 < starts[j + 1]
        ensures Attempt(k, targets[j], s, ie, scene, endLabel, starts[j]) == Ok(Emitted(a.blocks[j], starts[j + 1]))
      {
        if j < n - 1 {
          assert targets[j] == init[j] && a.blocks[j] == prev.blocks[j];
        }
      }
    }
  }

  /** The frame of an attempt: the guard, and the goto and the label that close it. */
  lemma AttemptFrame(k: Kind, target: string, s: Stmt, ie: InvokeExpr, scene: Scene, endLabel: nat, next: nat)
    requires Attempt(k, target, s, ie, scene, endLabel, next).Ok?
    ensures var u := Attempt(k, target, s, ie, scene, endLabel, next).value.units;
            && |u| >= 4 && u[1] == IfZero(Local(next + 1, BooleanType), next)
            && u[|u| - 2] == Goto(endLabel) && u[|u| - 1] == Nop(next)
  {
    var r := AttemptUnfold(k, target, s, ie, scene, endLabel, next);
  }

  /** Units lo to hi of `u` are the attempt for `target` drawn from counter `jump`, its jump
      label, which leaves the counter at `after`: its guard, the second unit, branches to the
      label that closes it, and the unit before that label jumps to the end label. */
  predicate AttemptSits(u: seq<Stmt>, lo: nat, hi: nat, k: Kind, target: string, s: Stmt, ie: InvokeExpr, scene: Scene,
                        endLabel: nat, jump: nat, after: nat) {
    && lo + 4 <= hi <= |u|
    && Attempt(k, target, s, ie, scene, endLabel, jump) == Ok(Emitted(u[lo..hi], after))
    && u[lo + 1] == IfZero(Local(jump + 1, BooleanType), jump)
    && u[hi - 2] == Goto(endLabel) && u[hi - 1] == Nop(jump)
  }

  /** Where each attempt sits in the rewrite of a matched statement: attempt j, for
      `targets[j]`, occupies units pos[j] to pos[j + 1], the first one right after the
      registration call and the last one right before the statement itself. So the label
      that closes attempt j, the target of its guard, is immediately followed by attempt
      j + 1 or, after the last attempt, by the statement. */
  lemma RewriteLayout(s: Stmt, k: Kind, targets: seq<string>, id: nat, scene: Scene, next: nat)
    returns (pos: seq<nat>, starts: seq<nat>)
    requires Matches(s, k) && Rewrite(s, k, targets, id, scene, next).Ok?
    ensures var u := Rewrite(s, k, targets, id, scene, next).value.units;
            && |pos| == |targets| + 1 && |starts| == |targets| + 1
            && pos[0] == 1 && pos[|targets|] == |u| - 2 && u[|u| - 2] == s
            && starts[0] == next + 1
            && forall j :: 0 <= j < |targets| ==>
                 AttemptSits(u, pos[j], pos[j + 1], k, targets[j], s, InvokeOf(s).value, scene, next, starts[j], starts[j + 1])
  {
    var ie := InvokeOf(s).value;
    var known := KnownCall(k, id, ie).value;
    var a := Attempts(k, targets, s, ie, scene, next, next + 1).value;
    var u := Rewrite(s, k, targets, id, scene, next).value.units;
    assert u == [known] + Flatten(a.blocks) + [s, Nop(next)];
    starts := AttemptsAt(k, targets, s, ie, scene, next, next + 1);
    pos := AttemptsInRewrite(u, known, a.blocks, k, targets, s, ie, scene, next, starts);
  }

  /** RewriteLayout, over the blocks of the attempts. */
  lemma AttemptsInRewrite(u: seq<Stmt>, known: Stmt, blocks: seq<seq<Stmt>>, k: Kind, targets: seq<string>, s: Stmt,
                          ie: InvokeExpr, scene: Scene, endLabel: nat, starts: seq<nat>) returns (pos: seq<nat>)
    requires u == [known] + Flatten(blocks) + [s, Nop(endLabel)]
    requires |blocks| == |targets| && |starts| == |targets| + 1
    requires forall j :: 0 <= j < |targets| ==>
               Attempt(k, targets[j], s, ie, scene, endLabel, starts[j]) == Ok(Emitted(blocks[j], starts[j + 1]))
    ensures |pos| == |targets| + 1 && pos[0] == 1 && pos[|targets|] == |u| - 2
    ensures forall j :: 0 <= j < |targets| ==>
              AttemptSits(u, pos[j], pos[j + 1], k, targets[j], s, ie, scene, endLabel, starts[j], starts[j + 1])
  {
    pos := BlocksInRewrite(u, known, blocks, s, endLabel);
    forall j | 0 <= j < |targets|
      ensures AttemptSits(u, pos[j], pos[j + 1], k, targets[j], s, ie, scene, endLabel, starts[j], starts[j + 1])
    {
      assert Attempt(k, targets[j], s, ie, scene, endLabel, starts[j]) == Ok(Emitted(blocks[j], starts[j + 1]));
      BlockSits(u, pos[j], pos[j + 1], blocks[j], k, targets[j], s, ie, scene, endLabel, starts[j], starts[j + 1]);
    }
  }

  /** An attempt found at units lo to hi of `u` sits there. */
  lemma BlockSits(u: seq<Stmt>, lo: nat, hi: nat, block: seq<Stmt>, k: Kind, target: string, s: Stmt, ie: InvokeExpr,
                  scene: Scene, endLabel: nat, jump: nat, after: nat)
    requires lo <= hi <= |u| && u[lo..hi] == block
    requires Attempt(k, target, s, ie, scene, endLabel, jump) == Ok(Emitted(block, after))
    ensures AttemptSits(u, lo, hi, k, target, s, ie, scene, endLabel, jump, after)
  {
    AttemptFrame(k, target, s, ie, scene, endLabel, jump);
    SliceEnds(u, lo, hi, block);
  }

  lemma SliceEnds(u: seq<Stmt>, lo: nat, hi: nat, block: seq<Stmt>)
    requires lo <= hi <= |u| && u[lo..hi] == block && |block| >= 4
    ensures u[lo + 1] == block[1] && u[hi - 2] == block[|block| - 2] && u[hi - 1] == block[|block| - 1]
  {
    assert u[lo..hi][1] == u[lo + 1];
    assert u[lo..hi][|block| - 2] == u[hi - 2];
  }

  /** The blocks of `[known] + Flatten(blocks) + [s, label]`: block j occupies units pos[j] to
      pos[j + 1]. */
  lemma BlocksInRewrite(u: seq<Stmt>, known: Stmt, blocks: seq<seq<Stmt>>, s: Stmt, endLabel: nat) returns (pos: seq<nat>)
    requires u == [known] + Flatten(blocks) + [s, Nop(endLabel)]
    ensures |pos| == |blocks| + 1 && pos[0] == 1 && pos[|blocks|] == |u| - 2
    ensures forall j :: 0 <= j <= |blocks| ==> 1 <= pos[j] <= |u| - 2
    ensures forall j :: 0 <= j < |blocks| ==> pos[j] + |blocks[j]| == pos[j + 1] && u[pos[j]..pos[j + 1]] == blocks[j]
  {
    var f := Flatten(blocks);
    var offs := FlattenOffsets(blocks);
    pos := seq(|offs|, i requires 0 <= i < |offs| => offs[i] + 1);
    forall j | 0 <= j < |blocks| ensures u[pos[j]..pos[j + 1]] == blocks[j] {
      BlockInRewrite(u, known, f, s, endLabel, offs[j], offs[j + 1]);
    }
  }

  /** A slice of `f` seen inside `[known] + f + [s, label]`. */
  lemma BlockInRewrite(u: seq<Stmt>, known: Stmt, f: seq<Stmt>, s: Stmt, endLabel: nat, lo: nat, hi: nat)
    requires u == [known] + f + [s, Nop(endLabel)] && lo <= hi <= |f|
    ensures u[lo + 1..hi + 1] == f[lo..hi]
  {
  }

  /** The number of gotos in `u`. */
  function Gotos(u: seq<Stmt>): (n: nat)
    ensures n <= |u|
  {
    if u == [] then 0 else Gotos(u[..|u| - 1]) + if u[|u| - 1].Goto? then 1 else 0
  }

  lemma {:induction false} GotosConcat(a: seq<Stmt>, b: seq<Stmt>)
    ensures Gotos(a + b) == Gotos(a) + Gotos(b)
    decreases |b|
  {
    if b != [] {
      assert (a + b)[..|a + b| - 1] == a + b[..|b| - 1];
      GotosConcat(a, b[..|b| - 1]);
    } else {
      assert a + b == a;
    }
  }

  lemma {:induction false} GotosNone(u: seq<Stmt>)
    requires forall i :: 0 <= i < |u| ==> !u[i].Goto?
    ensures Gotos(u) == 0
    decreases |u|
  {
    if u != [] {
      GotosNone(u[..|u| - 1]);
    }
  }

  /** A replacement is made of assignments and calls only. */
  lemma ReplacementStraight(k: Kind, target: string, ie: InvokeExpr, scene: Scene, next: nat)
    requires ReplacementFor(k, target, ie, scene, next).Ok?
    ensures var r := ReplacementFor(k, target, ie, scene, next).value;
            forall q :: 0 <= q < |r.units| ==> r.units[q].Assign? || r.units[q].InvokeStmt?
  {
    var r := ReplacementFor(k, target, ie, scene, next).value;
    if k == ConstructorNewInstance || k == MethodInvoke {
      var index := if k == ConstructorNewInstance then 0 else 1;
      var u := Unboxing(ie, index, scene.methods[target].paramTypes, next).value;
      UnboxedLhsBelow(ie, index, scene.methods[target].paramTypes, next);
      forall q | 0 <= q < |r.units| ensures r.units[q].Assign? || r.units[q].InvokeStmt? {
        if q < |u.units| {
          assert r.units[q] == u.units[q];
        }
      }
    }
  }

  /** Each attempt holds exactly one goto: the jump to the end label. */
  lemma AttemptGotos(k: Kind, target: string, s: Stmt, ie: InvokeExpr, scene: Scene, endLabel: nat, next: nat)
    requires Attempt(k, target, s, ie, scene, endLabel, next).Ok?
    ensures Gotos(Attempt(k, target, s, ie, scene, endLabel, next).value.units) == 1
  {
    var r := ReplacementFor(k, target, ie, scene, next + 2).value;
    var copy := if s.Assign? then [Assign(s.lhs, Val(Loc(r.result)))] else [];
    var g := Guard(Local(next + 1, BooleanType), next);
    var close := [Goto(endLabel), Nop(next)];
    assert Attempt(k, target, s, ie, scene, endLabel, next).value.units == g + r.units + copy + close;
    ReplacementStraight(k, target, ie, scene, next + 2);
    GotosNone(r.units);
    GotosNone(g);
    GotosNone(copy);
    assert close[..1] == [Goto(endLabel)];
    assert Gotos(close) == 1;
    GotosConcat(g, r.units);
    GotosConcat(g + r.units, copy);
    GotosConcat(g + r.units + copy, close);
  }

  lemma {:induction false} AttemptsGotos(k: Kind, targets: seq<string>, s: Stmt, ie: InvokeExpr, scene: Scene, endLabel: nat, next: nat)
    requires Attempts(k, targets, s, ie, scene, endLabel, next).Ok?
    ensures Gotos(Flatten(Attempts(k, targets, s, ie, scene, endLabel, next).value.blocks)) == |targets|
    decreases |targets|
  {
    if targets != [] {
      var init := targets[..|targets| - 1];
      var prev := Attempts(k, init, s, ie, scene, endLabel, next).value;
      var a := Attempt(k, targets[|targets| - 1], s, ie, scene, endLabel, prev.next).value;
      var blocks := Attempts(k, targets, s, ie, scene, endLabel, next).value.blocks;
      assert blocks == prev.blocks + [a.units];
      assert blocks[..|blocks| - 1] == prev.blocks;
      AttemptsGotos(k, init, s, ie, scene, endLabel, next);
      AttemptGotos(k, targets[|targets| - 1], s, ie, scene, endLabel, prev.next);
      GotosConcat(Flatten(prev.blocks), a.units);
    }
  }

  /** The rewrite of a matched statement holds exactly one goto per target. */
  lemma RewriteGotos(s: Stmt, k: Kind, targets: seq<string>, id: nat, scene: Scene, next: nat)
    requires Matches(s, k) && Rewrite(s, k, targets, id, scene, next).Ok?
    ensures Gotos(Rewrite(s, k, targets, id, scene, next).value.units) == |targets|
  {
    var ie := InvokeOf(s).value;
    var known := KnownCall(k, id, ie).value;
    var f := Flatten(Attempts(k, targets, s, ie, scene, next, next + 1).value.blocks);
    AttemptsGotos(k, targets, s, ie, scene, next, next + 1);
    assert Rewrite(s, k, targets, id, scene, next).value.units == [known] + f + [s, Nop(next)];
    assert Gotos([known]) == 0 && Gotos([s, Nop(next)]) == 0;
    GotosConcat([known], f);
    GotosConcat([known] + f, [s, Nop(next)]);
  }

  // ----- a whole pass -----

  /** A pass over statements none of which matches changes nothing. */
  lemma {:induction false} NoMatchNoChange(units: seq<Stmt>, k: Kind, targets: seq<string>, id: nat, scene: Scene, next: nat)
    requires forall i :: 0 <= i < |units| ==> !Matches(units[i], k)
    ensures InlineUnits(units, k, targets, id, scene, next) == Ok(Emitted(units, next))
    decreases |units|
  {
    if units != [] {
      var init := units[..|units| - 1];
      NoMatchNoChange(init, k, targets, id, scene, next);
      assert init + [units[|units| - 1]] == units;
    }
  }

  predicate Calls(s: Stmt, lib: LibraryMethod) {
    InvokeOf(s).Some? && InvokeOf(s).value.methodRef == LibraryRef(lib)
  }

  /** The statements of `u` that call `lib`, in order. */
  function CallsTo(u: seq<Stmt>, lib: LibraryMethod): (r: seq<Stmt>)
    ensures |r| <= |u| && forall i :: 0 <= i < |r| ==> Calls(r[i], lib)
  {
    if u == [] then []
    else CallsTo(u[..|u| - 1], lib) + if Calls(u[|u| - 1], lib) then [u[|u| - 1]] else []
  }

  lemma {:induction false} CallsToConcat(a: seq<Stmt>, b: seq<Stmt>, lib: LibraryMethod)
    ensures CallsTo(a + b, lib) == CallsTo(a, lib) + CallsTo(b, lib)
    decreases |b|
  {
    if b != [] {
      var init := b[..|b| - 1];
      assert (a + b)[..|a + b| - 1] == a + init;
      CallsToConcat(a, init, lib);
    } else {
      assert a + b == a;
    }
  }

  lemma {:induction false} CallsToNone(u: seq<Stmt>, lib: LibraryMethod)
    requires lib != GetFalse && forall i :: 0 <= i < |u| ==> OnlyGuardCalls(u[i])
    ensures CallsTo(u, lib) == []
    decreases |u|
  {
    if u != [] {
      CallsToNone(u[..|u| - 1], lib);
    }
  }

  /** The calls of a traced library method in `known + f + [s, label]`, where `f` only
      calls getFalse(). */
  lemma SplicedCalls(known: Stmt, f: seq<Stmt>, s: Stmt, endLabel: nat, lib: LibraryMethod)
    requires lib != GetFalse && forall i :: 0 <= i < |f| ==> OnlyGuardCalls(f[i])
    ensures CallsTo([known] + f + [s, Nop(endLabel)], lib) == CallsTo([known], lib) + CallsTo([s], lib)
  {
    assert [known] + f + [s, Nop(endLabel)] == [known] + f + [s] + [Nop(endLabel)];
    CallsToNone(f, lib);
    CallsToConcat([known] + f + [s], [Nop(endLabel)], lib);
    CallsToConcat([known] + f, [s], lib);
    CallsToConcat([known], f, lib);
    assert CallsTo([Nop(endLabel)], lib) == [];
  }

  /** The calls of a traced library method in a splice: those of its first unit and of its
      fallback. */
  lemma SpliceCalls(u: seq<Stmt>, s: Stmt, endLabel: nat, lib: LibraryMethod)
    requires lib != GetFalse
    requires |u| >= 3 && u[|u| - 2] == s && u[|u| - 1] == Nop(endLabel) && Inside(u[1..|u| - 2], endLabel)
    ensures CallsTo(u, lib) == CallsTo([u[0]], lib) + CallsTo([s], lib)
  {
    var f := u[1..|u| - 2];
    assert u == [u[0]] + f + [s, Nop(endLabel)];
    SplicedCalls(u[0], f, s, endLabel, lib);
  }

  /** What a rewrite contributes to the calls of a reflective method or a registration
      routine: the statement's own call stays, and a matched statement adds its registration
      call, and nothing else. */
  lemma RewriteCalls(s: Stmt, k: Kind, targets: seq<string>, id: nat, scene: Scene, next: nat, lib: LibraryMethod)
    requires lib.Reflective? || lib.Known?
    requires OwnTargets(k, targets)
    requires Rewrite(s, k, targets, id, scene, next).Ok?
    ensures var u := Rewrite(s, k, targets, id, scene, next).value.units;
            CallsTo(u, lib) == if Matches(s, k) && lib == Known(k) then [u[0]] + CallsTo([s], lib) else CallsTo([s], lib)
  {
    if Matches(s, k) {
      RewriteSplice(s, k, targets, id, scene, next);
      ghost var u := Rewrite(s, k, targets, id, scene, next).value.units;
      SpliceCalls(u, s, next, lib);
      assert CallsTo([u[0]], lib) == if lib == Known(k) then [u[0]] else [];
    }
  }

  /** A pass keeps every call of a reflective method, of any kind, exactly once and in order,
      and adds none: the inserted code only calls getFalse(), the registration routine and
      the program's own methods. */
  lemma {:induction false} PassKeepsReflectiveCalls(units: seq<Stmt>, k: Kind, targets: seq<string>, id: nat, scene: Scene, next: nat, lib: LibraryMethod)
    requires lib.Reflective?
    requires OwnTargets(k, targets)
    requires InlineUnits(units, k, targets, id, scene, next).Ok?
    ensures CallsTo(InlineUnits(units, k, targets, id, scene, next).value.units, lib) == CallsTo(units, lib)
    decreases |units|
  {
    if units != [] {
      var init, s := units[..|units| - 1], units[|units| - 1];
      InlineSplit(units, k, targets, id, scene, next);
      PassKeepsReflectiveCalls(init, k, targets, id, scene, next, lib);
      var done := InlineUnits(init, k, targets, id, scene, next).value;
      RewriteCalls(s, k, targets, id, scene, done.next, lib);
      CallsStep(done.units, Rewrite(s, k, targets, id, scene, done.next).value.units, units, lib);
    }
  }

  /** `kc` are the registration calls, with id `id`, of the reflective calls `ms`, one each
      and in the same order. */
  predicate RegisteredBy(kc: seq<Stmt>, ms: seq<Stmt>, k: Kind, id: nat) {
    && |kc| == |ms|
    && forall i :: 0 <= i < |kc| ==> InvokeOf(ms[i]).Some? && KnownCall(k, id, InvokeOf(ms[i]).value) == Ok(kc[i])
  }

  lemma RegisteredByConcat(kc1: seq<Stmt>, ms1: seq<Stmt>, kc2: seq<Stmt>, ms2: seq<Stmt>, k: Kind, id: nat)
    requires RegisteredBy(kc1, ms1, k, id) && RegisteredBy(kc2, ms2, k, id)
    ensures RegisteredBy(kc1 + kc2, ms1 + ms2, k, id)
  {
    var kc, ms := kc1 + kc2, ms1 + ms2;
    forall i | 0 <= i < |kc| ensures InvokeOf(ms[i]).Some? && KnownCall(k, id, InvokeOf(ms[i]).value) == Ok(kc[i]) {
      if i < |kc1| {
        assert kc[i] == kc1[i] && ms[i] == ms1[i];
      } else {
        assert kc[i] == kc2[i - |kc1|] && ms[i] == ms2[i - |kc1|];
      }
    }
  }

  /** The registration calls a rewrite leaves are those of the statement it rewrites. */
  lemma RewriteRegisters(s: Stmt, k: Kind, targets: seq<string>, id: nat, scene: Scene, next: nat)
    requires !Calls(s, Known(k))
    requires OwnTargets(k, targets)
    requires Rewrite(s, k, targets, id, scene, next).Ok?
    ensures RegisteredBy(CallsTo(Rewrite(s, k, targets, id, scene, next).value.units, Known(k)), CallsTo([s], Reflective(k)), k, id)
  {
    ghost var u := Rewrite(s, k, targets, id, scene, next).value.units;
    RewriteCalls(s, k, targets, id, scene, next, Known(k));
    if Matches(s, k) {
      RewriteShape(s, k, targets, id, scene, next);
    }
    RegistersFromCalls(u, s, k, id);
  }

  /** The step of RewriteRegisters that looks only at the rewritten units: their registration
      calls are the statement's own (none) plus, for a matched statement, its registration
      call at the head. */
  lemma RegistersFromCalls(u: seq<Stmt>, s: Stmt, k: Kind, id: nat)
    requires !Calls(s, Known(k))
    requires Matches(s, k) ==> |u| >= 1 && KnownCall(k, id, InvokeOf(s).value) == Ok(u[0])
    requires CallsTo(u, Known(k)) == if Matches(s, k) then [u[0]] + CallsTo([s], Known(k)) else CallsTo([s], Known(k))
    ensures RegisteredBy(CallsTo(u, Known(k)), CallsTo([s], Reflective(k)), k, id)
  {
    assert CallsTo([s], Known(k)) == [];
    if Matches(s, k) {
      assert CallsTo([s], Reflective(k)) == [s];
    } else {
      assert CallsTo([s], Reflective(k)) == [];
    }
  }

  /** One call-site id per pass: in a body without registration calls of kind `k`, the pass
      adds exactly one per matched statement, in order, each the registration call of that
      statement with the pass's id. */
  lemma {:induction false} PassRegistersEachCall(units: seq<Stmt>, k: Kind, targets: seq<string>, id: nat, scene: Scene, next: nat)
    requires CallsTo(units, Known(k)) == []
    requires OwnTargets(k, targets)
    requires InlineUnits(units, k, targets, id, scene, next).Ok?
    ensures RegisteredBy(CallsTo(InlineUnits(units, k, targets, id, scene, next).value.units, Known(k)), CallsTo(units, Reflective(k)), k, id)
    decreases |units|
  {
    if units != [] {
      var init, s := units[..|units| - 1], units[|units| - 1];
      InlineSplit(units, k, targets, id, scene, next);
      PassRegistersEachCall(init, k, targets, id, scene, next);
      var done := InlineUnits(init, k, targets, id, scene, next).value;
      RewriteRegisters(s, k, targets, id, scene, done.next);
      RegisteredStep(done.units, Rewrite(s, k, targets, id, scene, done.next).value.units, units, k, id);
    }
  }

  /** A pass over a non-empty snapshot is the pass over all statements but the last, followed
      by the rewrite of the last one. */
  lemma InlineSplit(units: seq<Stmt>, k: Kind, targets: seq<string>, id: nat, scene: Scene, next: nat)
    requires units != [] && InlineUnits(units, k, targets, id, scene, next).Ok?
    ensures InlineUnits(units[..|units| - 1], k, targets, id, scene, next).Ok?
    ensures Rewrite(units[|units| - 1], k, targets, id, scene, InlineUnits(units[..|units| - 1], k, targets, id, scene, next).value.next).Ok?
    ensures InlineUnits(units, k, targets, id, scene, next).value.units
            == InlineUnits(units[..|units| - 1], k, targets, id, scene, next).value.units
               + Rewrite(units[|units| - 1], k, targets, id, scene, InlineUnits(units[..|units| - 1], k, targets, id, scene, next).value.next).value.units
  {
  }

  /** The calls of `a + b` are those of `units` when `a` has the calls of all units but the last
      and `b` those of the last. */
  lemma CallsStep(a: seq<Stmt>, b: seq<Stmt>, units: seq<Stmt>, lib: LibraryMethod)
    requires units != []
    requires CallsTo(a, lib) == CallsTo(units[..|units| - 1], lib) && CallsTo(b, lib) == CallsTo([units[|units| - 1]], lib)
    ensures CallsTo(a + b, lib) == CallsTo(units, lib)
  {
    SplitLast(units);
    calc {
      CallsTo(a + b, lib);
    == { CallsToConcat(a, b, lib); }
      CallsTo(a, lib) + CallsTo(b, lib);
    == { CallsToConcat(units[..|units| - 1], [units[|units| - 1]], lib); }
      CallsTo(units[..|units| - 1] + [units[|units| - 1]], lib);
    }
  }

  /** Registration calls glued in the same way as the reflective calls they register. */
  lemma RegisteredStep(a: seq<Stmt>, b: seq<Stmt>, units: seq<Stmt>, k: Kind, id: nat)
    requires units != []
    requires RegisteredBy(CallsTo(a, Known(k)), CallsTo(units[..|units| - 1], Reflective(k)), k, id)
    requires RegisteredBy(CallsTo(b, Known(k)), CallsTo([units[|units| - 1]], Reflective(k)), k, id)
    ensures RegisteredBy(CallsTo(a + b, Known(k)), CallsTo(units, Reflective(k)), k, id)
  {
    var init, s := units[..|units| - 1], units[|units| - 1];
    SplitLast(units);
    CallsToConcat(a, b, Known(k));
    CallsToConcat(init, [s], Reflective(k));
    RegisteredByConcat(CallsTo(a, Known(k)), CallsTo(init, Reflective(k)), CallsTo(b, Known(k)), CallsTo([s], Reflective(k)), k, id);
  }

  lemma SplitLast(units: seq<Stmt>)
    requires units != []
    ensures units[..|units| - 1] + [units[|units| - 1]] == units
  {
  }

  // ----- method references stay canonical -----

  lemma AllCanonicalConcat(a: seq<Stmt>, b: seq<Stmt>)
    requires AllCanonical(a) && AllCanonical(b)
    ensures AllCanonical(a + b)
  {
    forall i | 0 <= i < |a + b| ensures CanonicalStmt((a + b)[i]) {
      if i < |a| {
        assert (a + b)[i] == a[i];
      } else {
        assert (a + b)[i] == b[i - |a|];
      }
    }
  }

  /** A replacement names every method it calls canonically: a target that is a library
      method is called as that library method. */
  lemma ReplacementCanonical(k: Kind, target: string, ie: InvokeExpr, scene: Scene, next: nat)
    requires ReplacementFor(k, target, ie, scene, next).Ok?
    ensures AllCanonical(ReplacementFor(k, target, ie, scene, next).value.units)
  {
    match k
    case ClassForName =>
    case ClassNewInstance =>
    case ConstructorNewInstance =>
      var m := scene.methods[target];
      var u := Unboxing(ie, 0, m.paramTypes, next).value;
      var freshLocal := Local(u.next, RefType(m.declaringClass));
      var assign := Assign(freshLocal, New(RefType(m.declaringClass)));
      var call := InvokeExpr(SpecialInvoke, RefOf(target), Some(freshLocal), u.params);
      TargetCallCanonical(u, assign, call, ie, 0, m.paramTypes, next, target);
      assert ReplacementFor(k, target, ie, scene, next).value.units == u.units + [assign, InvokeStmt(call)];
    case MethodInvoke =>
      var m := scene.methods[target];
      var u := Unboxing(ie, 1, m.paramTypes, next).value;
      var freshLocal := Local(u.next, RefType(m.declaringClass));
      var assign := Assign(freshLocal, Cast(ie.args[0], RefType(m.declaringClass)));
      var call := if m.isStatic then InvokeExpr(StaticInvoke, RefOf(target), None, u.params)
                  else InvokeExpr(VirtualInvoke, RefOf(target), Some(freshLocal), u.params);
      TargetCallCanonical(u, assign, call, ie, 1, m.paramTypes, next, target);
      assert ReplacementFor(k, target, ie, scene, next).value.units == u.units + [assign, InvokeStmt(call)];
  }

  /** Unboxing, one assignment, then the call of the target through RefOf. */
  lemma TargetCallCanonical(u: Unboxed, assign: Stmt, call: InvokeExpr, ie: InvokeExpr, index: nat, types: seq<Type>, next: nat, target: string)
    requires Unboxing(ie, index, types, next) == Ok(u)
    requires assign.Assign? && !assign.rhs.Invoke?
    requires call.methodRef == RefOf(target)
    ensures AllCanonical(u.units + [assign, InvokeStmt(call)])
  {
    UnboxedLhsBelow(ie, index, types, next);
    RefOfSignature(target);
    assert AllCanonical([assign, InvokeStmt(call)]);
    AllCanonicalConcat(u.units, [assign, InvokeStmt(call)]);
  }

  /** The replacement for a Constructor.newInstance or Method.invoke target that is the
      signature of a library method ends with a call of that library method; for a reflective
      method, that call matches the reflective call of its kind. */
  lemma LibraryTargetCallsLibrary(k: Kind, target: string, ie: InvokeExpr, scene: Scene, next: nat, lib: LibraryMethod)
    requires k == ConstructorNewInstance || k == MethodInvoke
    requires LibraryOf(target) == Some(lib)
    requires ReplacementFor(k, target, ie, scene, next).Ok?
    ensures var r := ReplacementFor(k, target, ie, scene, next).value;
            && r.units != [] && Calls(r.units[|r.units| - 1], lib)
            && (lib.Reflective? ==> Matches(r.units[|r.units| - 1], lib.kind))
  {
    ReplacementSkeleton(k, target, ie, scene, next);
  }

  lemma AttemptCanonical(k: Kind, target: string, s: Stmt, ie: InvokeExpr, scene: Scene, endLabel: nat, next: nat)
    requires Attempt(k, target, s, ie, scene, endLabel, next).Ok?
    ensures AllCanonical(Attempt(k, target, s, ie, scene, endLabel, next).value.units)
  {
    var r := AttemptUnfold(k, target, s, ie, scene, endLabel, next);
    ReplacementCanonical(k, target, ie, scene, next + 2);
    GuardedCanonical(Local(next + 1, BooleanType), next, r.units, s, r.result, endLabel);
  }

  /** An attempt around canonical replacement units is canonical. */
  lemma GuardedCanonical(pred: Local, jump: nat, units: seq<Stmt>, s: Stmt, result: Local, endLabel: nat)
    requires AllCanonical(units)
    ensures AllCanonical(Guard(pred, jump) + units + (if s.Assign? then [Assign(s.lhs, Val(Loc(result)))] else [])
                         + [Goto(endLabel), Nop(jump)])
  {
    var g := Guard(pred, jump);
    var copy := if s.Assign? then [Assign(s.lhs, Val(Loc(result)))] else [];
    var close := [Goto(endLabel), Nop(jump)];
    assert AllCanonical(g) && AllCanonical(copy) && AllCanonical(close);
    AllCanonicalConcat(g, units);
    AllCanonicalConcat(g + units, copy);
    AllCanonicalConcat(g + units + copy, close);
  }

  lemma {:induction false} AttemptsCanonical(k: Kind, targets: seq<string>, s: Stmt, ie: InvokeExpr, scene: Scene, endLabel: nat, next: nat)
    requires Attempts(k, targets, s, ie, scene, endLabel, next).Ok?
    ensures AllCanonical(Flatten(Attempts(k, targets, s, ie, scene, endLabel, next).value.blocks))
    decreases |targets|
  {
    if targets != [] {
      var init := targets[..|targets| - 1];
      var prev := Attempts(k, init, s, ie, scene, endLabel, next).value;
      var a := Attempt(k, targets[|targets| - 1], s, ie, scene, endLabel, prev.next).value;
      var blocks := Attempts(k, targets, s, ie, scene, endLabel, next).value.blocks;
      assert blocks == prev.blocks + [a.units];
      assert blocks[..|blocks| - 1] == prev.blocks;
      AttemptsCanonical(k, init, s, ie, scene, endLabel, next);
      AttemptCanonical(k, targets[|targets| - 1], s, ie, scene, endLabel, prev.next);
      AllCanonicalConcat(Flatten(prev.blocks), a.units);
    }
  }

  /** The rewrite of a statement whose own call is canonical names every method canonically. */
  lemma RewriteCanonical(s: Stmt, k: Kind, targets: seq<string>, id: nat, scene: Scene, next: nat)
    requires CanonicalStmt(s) && Rewrite(s, k, targets, id, scene, next).Ok?
    ensures AllCanonical(Rewrite(s, k, targets, id, scene, next).value.units)
  {
    if Matches(s, k) {
      var known, a := RewriteUnfold(s, k, targets, id, scene, next);
      AttemptsCanonical(k, targets, s, InvokeOf(s).value, scene, next, next + 1);
      SpliceCanonical(known, Flatten(a.blocks), s, next);
    } else {
      assert Rewrite(s, k, targets, id, scene, next).value.units == [s];
    }
  }

  /** A splice of canonical parts is canonical. */
  lemma SpliceCanonical(known: Stmt, f: seq<Stmt>, s: Stmt, endLabel: nat)
    requires known.InvokeStmt? && known.ie.methodRef.LibraryRef?
    requires AllCanonical(f) && CanonicalStmt(s)
    ensures AllCanonical([known] + f + [s, Nop(endLabel)])
  {
    assert AllCanonical([known]) && AllCanonical([s, Nop(endLabel)]);
    AllCanonicalConcat([known], f);
    AllCanonicalConcat([known] + f, [s, Nop(endLabel)]);
  }

  /** A pass over a body whose calls are canonical leaves them canonical, so the next pass
      matches by signature as the source does (MatchesBySignature). */
  lemma {:induction false} PassKeepsCanonical(units: seq<Stmt>, k: Kind, targets: seq<string>, id: nat, scene: Scene, next: nat)
    requires AllCanonical(units)
    requires InlineUnits(units, k, targets, id, scene, next).Ok?
    ensures AllCanonical(InlineUnits(units, k, targets, id, scene, next).value.units)
    decreases |units|
  {
    if units != [] {
      var init, s := units[..|units| - 1], units[|units| - 1];
      InlineSplit(units, k, targets, id, scene, next);
      assert AllCanonical(init);
      PassKeepsCanonical(init, k, targets, id, scene, next);
      var done := InlineUnits(init, k, targets, id, scene, next).value;
      RewriteCanonical(s, k, targets, id, scene, done.next);
      AllCanonicalConcat(done.units, Rewrite(s, k, targets, id, scene, done.next).value.units);
    }
  }

  /** All four passes over a method keep its calls canonical. */
  lemma {:induction false} KindPassesCanonical(units: seq<Stmt>, t: Targets, n: nat, id: nat, scene: Scene, next: nat)
    requires n <= 4 && AllCanonical(units)
    requires KindPasses(units, t, n, id, scene, next).Ok?
    ensures AllCanonical(KindPasses(units, t, n, id, scene, next).value.units)
    decreases n
  {
    if n > 0 {
      KindPassesStep(units, t, n, id, scene, next);
      KindPassesCanonical(units, t, n - 1, id, scene, next);
      var prev := KindPasses(units, t, n - 1, id, scene, next).value;
      var k := Kinds[n - 1];
      if TargetsOf(t, k) != [] {
        PassKeepsCanonical(prev.units, k, TargetsOf(t, k), prev.id, scene, prev.next);
      }
    }
  }

  // ----- call-site ids and the registry -----

  /** The groups of the first `m` methods are a prefix of the groups of the trace. */
  lemma {:induction false} GroupsPrefix(trace: seq<Targets>, m: nat)
    requires m <= |trace|
    ensures |Groups(trace[..m])| <= |Groups(trace)|
    ensures Groups(trace)[..|Groups(trace[..m])|] == Groups(trace[..m])
  {
    if m == |trace| {
      assert trace[..m] == trace;
    } else {
      var p := trace[..|trace| - 1];
      GroupsPrefix(p, m);
      assert p[..m] == trace[..m];
    }
  }

  /** The group of kind `Kinds[n]` of method `i` sits in the trace's group list after the groups
      of the methods before `i` and those of the kinds before `n`. */
  lemma GroupAt(trace: seq<Targets>, i: nat, n: nat)
    requires i < |trace| && n < 4 && TargetsOf(trace[i], Kinds[n]) != []
    ensures |Groups(trace[..i])| + |EntryGroups(i, trace[i], n)| < |Groups(trace)|
    ensures Groups(trace)[|Groups(trace[..i])| + |EntryGroups(i, trace[i], n)|] == Group(i, Kinds[n], TargetsOf(trace[i], Kinds[n]))
  {
    EntryGroupAt(i, trace[i], n);
    MethodGroupAt(trace, i, |EntryGroups(i, trace[i], n)|);
  }

  /** Among the groups of one method, the group of kind `Kinds[n]` follows those of the kinds
      before it. */
  lemma EntryGroupAt(m: nat, t: Targets, n: nat)
    requires n < 4 && TargetsOf(t, Kinds[n]) != []
    ensures |EntryGroups(m, t, n)| < |EntryGroups(m, t, 4)|
    ensures EntryGroups(m, t, 4)[|EntryGroups(m, t, n)|] == Group(m, Kinds[n], TargetsOf(t, Kinds[n]))
  {
    EntryGroupsPrefix(m, t, n + 1, 4);
    EntryGroupsStep([], m, t, n);
    assert [] + EntryGroups(m, t, n) == EntryGroups(m, t, n);
    assert [] + EntryGroups(m, t, n + 1) == EntryGroups(m, t, n + 1);
    ghost var block, front := EntryGroups(m, t, 4), EntryGroups(m, t, n);
    ghost var frontX := EntryGroups(m, t, n + 1);
    assert block[..|frontX|] == frontX;
    assert frontX[|front|] == Group(m, Kinds[n], TargetsOf(t, Kinds[n]));
  }

  /** The j-th group of method `i` follows the groups of the methods before it. */
  lemma MethodGroupAt(trace: seq<Targets>, i: nat, j: nat)
    requires i < |trace| && j < |EntryGroups(i, trace[i], 4)|
    ensures |Groups(trace[..i])| + j < |Groups(trace)|
    ensures Groups(trace)[|Groups(trace[..i])| + j] == EntryGroups(i, trace[i], 4)[j]
  {
    GroupsSnoc(trace, i);
    GroupsPrefix(trace, i + 1);
    ghost var all, pre, block := Groups(trace), Groups(trace[..i]), EntryGroups(i, trace[i], 4);
    assert all[..|pre| + |block|] == pre + block;
    assert (pre + block)[|pre| + j] == block[j];
  }

  /** The id that follows the groups of the methods before `i` and those of the kinds of
      method `i` before `Kinds[n]` is that of the group of kind `Kinds[n]`. */
  lemma GroupOfId(trace: seq<Targets>, i: nat, n: nat, base: nat, id: nat)
    requires i < |trace| && n < 4 && TargetsOf(trace[i], Kinds[n]) != []
    requires id == SiteIds(trace, base)[i] + |EntryGroups(i, trace[i], n)|
    ensures base <= id < base + |Groups(trace)|
    ensures Groups(trace)[id - base] == Group(i, Kinds[n], TargetsOf(trace[i], Kinds[n]))
  {
    SiteIdsAt(trace, base, i);
    GroupAt(trace, i, n);
  }

  /** `setLocal.add(id + t)` for the t-th target is the t-th unit of AddUnits. */
  lemma {:induction false} AddUnitsAt(setLocal: Local, id: nat, targets: seq<string>, t: nat)
    requires t < |targets|
    ensures |AddUnits(setLocal, id, targets)| == |targets|
    ensures AddUnits(setLocal, id, targets)[t] == AddStmt(setLocal, id, targets[t])
  {
    var init := targets[..|targets| - 1];
    if t < |init| {
      AddUnitsAt(setLocal, id, init, t);
    } else if init != [] {
      AddUnitsAt(setLocal, id, init, 0);
    }
  }

  /** The registry units of the first `j` groups are a prefix of those of all groups. */
  lemma {:induction false} RegistryPrefix(gs: seq<Group>, id0: nat, next: nat, j: nat)
    requires j <= |gs|
    ensures |RegistryUnits(gs[..j], id0, next)| <= |RegistryUnits(gs, id0, next)|
    ensures RegistryUnits(gs, id0, next)[..|RegistryUnits(gs[..j], id0, next)|] == RegistryUnits(gs[..j], id0, next)
  {
    if j == |gs| {
      assert gs[..j] == gs;
    } else {
      var p := gs[..|gs| - 1];
      RegistryPrefix(p, id0, next, j);
      assert p[..j] == gs[..j];
      assert RegistryUnits(gs, id0, next) == RegistryLast(gs, id0, next);
    }
  }

  /** The units of one group: the Set field of its kind is loaded into the group's local, and
      then, for each target in order, the entry made of the id followed by the target is added
      to it. */
  lemma GroupRegistryUnitsAt(k: Kind, targets: seq<string>, id: nat, setLocal: Local, t: nat)
    requires t < |targets|
    ensures var g := GroupRegistryUnits(k, targets, id, setLocal);
            && |g| == 1 + |targets|
            && g[0] == Assign(setLocal, StaticFieldRef("soot.rtlib.ReflectiveCalls", RegistryField(k)))
            && g[1 + t] == AddStmt(setLocal, id, targets[t])
  {
    AddUnitsAt(setLocal, id, targets, t);
  }

  /** Group j occupies the units of the registry that follow those of the groups before it:
      its id is `id0 + j` and its Set local is the j-th one drawn. */
  lemma RegistryEntry(gs: seq<Group>, id0: nat, next: nat, j: nat)
    requires j < |gs|
    ensures var u := RegistryUnits(gs, id0, next);
            var p := |RegistryUnits(gs[..j], id0, next)|;
            var grp := GroupRegistryUnits(gs[j].kind, gs[j].targets, id0 + j, Local(next + j, RefType("java.util.Set")));
            p + |grp| <= |u| && u[p..p + |grp|] == grp
  {
    var grp := GroupRegistryUnits(gs[j].kind, gs[j].targets, id0 + j, Local(next + j, RefType("java.util.Set")));
    var whole := gs[..j + 1];
    assert whole[..j] == gs[..j] && whole[j] == gs[j];
    var pre := RegistryUnits(gs[..j], id0, next);
    assert RegistryUnits(whole, id0, next) == pre + grp;
    RegistryPrefix(gs, id0, next, j + 1);
    var u := RegistryUnits(gs, id0, next);
    assert u[|pre|..|pre| + |grp|] == (pre + grp)[|pre|..];
  }

  /** The heart of the instrumentation: on the first run (ids from 0), the blocks before kind
      `Kinds[n]` of method `i` leave the id `prev.id` with which that kind's pass registers its
      calls, and the registry loads the Set field of that kind into its local `regNext + prev.id`
      and adds the entry `prev.id + target` for every target recorded for that method and kind. */
  lemma CallSiteIdsMatchRegistry(trace: seq<Targets>, i: nat, n: nat, t: nat, units: seq<Stmt>, scene: Scene, next: nat, regNext: nat, prev: PassState)
    requires i < |trace| && n < 4 && t < |TargetsOf(trace[i], Kinds[n])|
    requires KindPasses(units, trace[i], n, SiteIds(trace, 0)[i], scene, next) == Ok(prev)
    ensures Registers(RegistryUnits(Groups(trace), 0, regNext), Local(regNext + prev.id, RefType("java.util.Set")),
                      Kinds[n], prev.id, t, TargetsOf(trace[i], Kinds[n])[t])
  {
    SiteIdsAt(trace, 0, i);
    KindPassesIds(units, trace[i], n, SiteIds(trace, 0)[i], scene, next, i);
    GroupIdRegistered(trace, i, n, t, regNext, prev.id);
  }

  /** The group of kind `Kinds[n]` of method `i` is registered under its position among the
      groups of the trace. */
  lemma GroupIdRegistered(trace: seq<Targets>, i: nat, n: nat, t: nat, regNext: nat, id: nat)
    requires i < |trace| && n < 4 && t < |TargetsOf(trace[i], Kinds[n])|
    requires id == |Groups(trace[..i])| + |EntryGroups(i, trace[i], n)|
    ensures Registers(RegistryUnits(Groups(trace), 0, regNext), Local(regNext + id, RefType("java.util.Set")),
                      Kinds[n], id, t, TargetsOf(trace[i], Kinds[n])[t])
  {
    GroupAt(trace, i, n);
    RegistryHasEntry(Groups(trace), 0, regNext, id, id, i, Kinds[n], TargetsOf(trace[i], Kinds[n]), t);
  }

  /** The registry `u` loads the Set field of kind `k` into `setLocal` and then, as the t-th
      addition to that set, adds the entry made of `id` followed by `target`. */
  predicate Registers(u: seq<Stmt>, setLocal: Local, k: Kind, id: nat, t: nat, target: string) {
    exists p :: && 0 <= p && p + 1 + t < |u|
                && u[p] == Assign(setLocal, StaticFieldRef("soot.rtlib.ReflectiveCalls", RegistryField(k)))
                && u[p + 1 + t] == AddStmt(setLocal, id, target)
  }

  /** Group j of a group list is registered with the id `id0 + j`, in the j-th Set local, once
      for each of its targets. */
  lemma RegistryHasEntry(gs: seq<Group>, id0: nat, next: nat, j: nat, id: nat, m: nat, k: Kind, targets: seq<string>, t: nat)
    requires j < |gs| && gs[j] == Group(m, k, targets) && id == id0 + j && t < |targets|
    ensures Registers(RegistryUnits(gs, id0, next), Local(next + j, RefType("java.util.Set")), k, id, t, targets[t])
  {
    var setLocal := Local(next + j, RefType("java.util.Set"));
    RegistryEntry(gs, id0, next, j);
    GroupRegistryUnitsAt(k, targets, id, setLocal, t);
    var u := RegistryUnits(gs, id0, next);
    var p := |RegistryUnits(gs[..j], id0, next)|;
    var grp := GroupRegistryUnits(k, targets, id, setLocal);
    SliceIndex(u, p, grp, 0);
    SliceIndex(u, p, grp, 1 + t);
  }

  lemma SliceIndex(u: seq<Stmt>, p: nat, block: seq<Stmt>, k: nat)
    requires p + |block| <= |u| && u[p..p + |block|] == block && k < |block|
    ensures u[p + k] == block[k]
  {
    assert u[p..p + |block|][k] == u[p + k];
  }

  /** A registry entry names its call site and its target unambiguously when the target does
      not begin with a digit, as no class name or method signature does. */
  lemma RegistryKeyUnique(id1: nat, target1: string, id2: nat, target2: string)
    requires target1 == [] || !IsDigit(target1[0])
    requires target2 == [] || !IsDigit(target2[0])
    requires RegistryKey(id1, target1) == RegistryKey(id2, target2)
    ensures id1 == id2 && target1 == target2
  {
    DigitPrefixUnique(id1, target1, id2, target2);
  }

  /** Without that condition the entries of two call sites can coincide. */
  lemma RegistryKeyAmbiguous()
    ensures RegistryKey(1, "2x") == RegistryKey(12, "x")
  {
    assert NatToString(1) == "1";
    assert NatToString(12) == NatToString(1) + "2";
  }
}
