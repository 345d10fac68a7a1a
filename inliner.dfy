/** ReflectiveCallsInliner: the scene transformer that rewrites each traced reflective call
    into guarded direct calls, with the original call kept as the fallback, and that registers
    the expected targets in the static initialiser of soot.rtlib.ReflectiveCalls. */
module Inliner {
  import opened Wrappers
  import opened Jimple
  import opened Library
  import opened InlinerSpec
  import opened InlinerLemmas

  /** A method body: its chain of units, and the counter from which LocalGenerator and new
      NopStmts draw fresh ids. */
  class Body {
    var units: seq<Stmt>
    var nextId: nat

    /** No id at or above the counter occurs in the body, so every id drawn is fresh. */
    ghost predicate Valid()
      reads this
    {
      AllBelow(units, nextId)
    }

    constructor (units: seq<Stmt>, nextId: nat)
      requires AllBelow(units, nextId)
      ensures Valid() && this.units == units && this.nextId == nextId
    {
      this.units := units;
      this.nextId := nextId;
    }

    /** An id not used in the body yet: a new NopStmt, or the name of a generated local. */
    method FreshId() returns (id: nat)
      modifies this`nextId
      ensures id == old(nextId) && nextId == old(nextId) + 1
    {
      id := nextId;
      nextId := nextId + 1;
    }

    /** LocalGenerator.generateLocal(ty). */
    method GenerateLocal(ty: Type) returns (l: Local)
      modifies this`nextId
      ensures l == Local(old(nextId), ty) && nextId == old(nextId) + 1
    {
      var id := FreshId();
      l := Local(id, ty);
    }

    /** PatchingChain.insertAfter(toInsert, point), the point being the unit at `pos`. */
    method InsertAfter(toInsert: seq<Stmt>, pos: nat)
      requires pos < |units|
      modifies this`units
      ensures units == old(units[..pos + 1]) + toInsert + old(units[pos + 1..])
    {
      units := units[..pos + 1] + toInsert + units[pos + 1..];
    }

    /** PatchingChain.remove of the unit at `pos`. */
    method Remove(pos: nat)
      requires pos < |units|
      modifies this`units
      ensures units == old(units[..pos]) + old(units[pos + 1..])
    {
      units := units[..pos] + units[pos + 1..];
    }
  }

  /** The patching at the end of inlineRelectiveCalls' loop body: `newUnits` goes after the unit
      at `pos`, that unit is removed and re-inserted after the last new unit, and the end
      label `endLabel` is inserted after it. */
  method Splice(b: Body, pos: nat, newUnits: seq<Stmt>, endLabel: nat)
    requires pos < |b.units| && newUnits != []
    modifies b`units
    ensures b.units == old(b.units[..pos]) + (newUnits + [old(b.units[pos]), Nop(endLabel)]) + old(b.units[pos + 1..])
  {
    ghost var u := b.units;
    var s := b.units[pos];
    b.InsertAfter(newUnits, pos);
    ghost var u1 := b.units;
    b.Remove(pos);
    ghost var u2 := b.units;
    b.InsertAfter([s], pos + |newUnits| - 1);
    ghost var u3 := b.units;
    b.InsertAfter([Nop(endLabel)], pos + |newUnits|);
    SpliceSteps(u, pos, newUnits, u1, u2, u3, b.units, Nop(endLabel));
  }

  /** The chain after each of Splice's four edits. */
  lemma SpliceSteps(u: seq<Stmt>, pos: nat, newUnits: seq<Stmt>, u1: seq<Stmt>, u2: seq<Stmt>, u3: seq<Stmt>, u4: seq<Stmt>, nop: Stmt)
    requires pos < |u| && newUnits != []
    requires u1 == u[..pos + 1] + newUnits + u[pos + 1..]
    requires u2 == u1[..pos] + u1[pos + 1..]
    requires pos + |newUnits| - 1 < |u2| && u3 == u2[..pos + |newUnits| - 1 + 1] + [u[pos]] + u2[pos + |newUnits| - 1 + 1..]
    requires pos + |newUnits| < |u3| && u4 == u3[..pos + |newUnits| + 1] + [nop] + u3[pos + |newUnits| + 1..]
    ensures u4 == u[..pos] + (newUnits + [u[pos], nop]) + u[pos + 1..]
  {
    var before, after := u[..pos], u[pos + 1..];
    assert u[..pos + 1] == before + [u[pos]];
    assert u2 == before + newUnits + after;
    assert u3 == before + newUnits + [u[pos]] + after;
  }

  lemma SliceAround<T>(front: seq<T>, rest: seq<T>, i: nat)
    requires i < |rest|
    ensures var all := front + rest[i..];
            all[..|front|] == front && all[|front|] == rest[i] && all[|front| + 1..] == rest[i + 1..]
  {
  }

  /** The trace of one method: its body and the four target lists recorded for it. */
  datatype TraceEntry = TraceEntry(body: Body, targets: Targets)

  class ReflectiveCallsInliner {
    /** The reflection trace (ReflectionTraceInfo), one entry per method. */
    const rti: seq<TraceEntry>
    const scene: Scene
    /** The body of soot.rtlib.ReflectiveCalls.<clinit>. */
    const clinit: Body
    var initialized: bool
    var callSiteId: nat

    /** The bodies the transformer may change: the traced methods' and the registry's. */
    ghost function Bodies(): set<Body> {
      TracedBodies() + {clinit}
    }

    /** The bodies of the traced methods. */
    ghost function TracedBodies(): set<Body> {
      set i | 0 <= i < |rti| :: rti[i].body
    }

    /** The traced methods are distinct, none of them is the registry's static initialiser,
        and every body keeps its fresh-id counter above the ids it uses. */
    ghost predicate Valid()
      reads Bodies()
    {
      (forall i, j :: 0 <= i < j < |rti| ==> rti[i].body != rti[j].body) &&
      (forall i :: 0 <= i < |rti| ==> rti[i].body != clinit && rti[i].body.Valid()) &&
      clinit.Valid()
    }

    constructor (rti: seq<TraceEntry>, scene: Scene, clinit: Body)
      requires forall i, j :: 0 <= i < j < |rti| ==> rti[i].body != rti[j].body
      requires forall i :: 0 <= i < |rti| ==> rti[i].body != clinit && rti[i].body.Valid()
      requires clinit.Valid()
      ensures this.rti == rti && this.scene == scene && this.clinit == clinit
      ensures !initialized && callSiteId == 0
      ensures Valid()
    {
      this.rti := rti;
      this.scene := scene;
      this.clinit := clinit;
      initialized := false;
      callSiteId := 0;
    }

    /** unboxParameter: appends the three units that turn `args[i]` into `p`. */
    method UnboxParameter(b: Body, args: Local, i: nat, p: Local, ty: Type) returns (newUnits: seq<Stmt>)
      modifies b`nextId
      ensures newUnits == InlinerSpec.UnboxParameter(args, i, p, ty, old(b.nextId))
      ensures b.nextId == old(b.nextId) + 2
    {
      var boxed := b.GenerateLocal(RefType("java.lang.Object"));
      var read := Assign(boxed, ArrayRef(args, i));
      if ty.Prim? {
        var boxedType := RefType(BoxedClass(ty.kind));
        var casted := b.GenerateLocal(boxedType);
        newUnits := [read, Assign(casted, Cast(Loc(boxed), boxedType)),
                     Assign(p, Invoke(InvokeExpr(VirtualInvoke, UnboxValue(ty.kind), Some(casted), [])))];
      } else {
        var casted := b.GenerateLocal(ty);
        newUnits := [read, Assign(casted, Cast(Loc(boxed), ty)), Assign(p, Val(Loc(casted)))];
      }
    }

    /** The loop over the target's parameter types: a fresh local per parameter, then its
        unboxing. */
    method UnboxArguments(b: Body, args: Local, types: seq<Type>) returns (newUnits: seq<Stmt>, params: seq<Value>)
      modifies b`nextId
      ensures var u := UnboxAll(args, types, old(b.nextId));
              newUnits == u.units && params == u.params && b.nextId == u.next
    {
      newUnits, params := [], [];
      for i := 0 to |types|
        invariant var u := UnboxAll(args, types[..i], old(b.nextId));
                  newUnits == u.units && params == u.params && b.nextId == u.next
      {
        assert types[..i + 1][..i] == types[..i];
        var p := b.GenerateLocal(types[i]);
        var u := UnboxParameter(b, args, i, p, types[i]);
        newUnits := newUnits + u;
        params := params + [Loc(p)];
      }
      assert types[..|types|] == types;
    }

    /** The kind-specific part of one attempt (the two switches over the call kind): the
        replacement assignment to `freshLocal`, preceded by the unboxing of the arguments and
        followed by the constructor or method call. */
    method BuildReplacement(b: Body, k: Kind, target: string, ie: InvokeExpr) returns (r: Result<Replacement, Error>)
      modifies b`nextId
      ensures b.nextId >= old(b.nextId)
      ensures r == ReplacementFor(k, target, ie, scene, old(b.nextId))
      ensures r.Ok? ==> b.nextId == r.value.next
    {
      match k
      case ClassForName =>
        var freshLocal := b.GenerateLocal(RefType("java.lang.Class"));
        r := Ok(Replacement([Assign(freshLocal, Val(ClassConst(Replace(target, '.', '/'))))], freshLocal, b.nextId));
      case ClassNewInstance =>
        var ty := RefType(target);
        var freshLocal := b.GenerateLocal(ty);
        if target !in scene.classes {
          return Err(NoSuchClass(target));
        }
        r := Ok(Replacement([Assign(freshLocal, New(ty)),
                             InvokeStmt(InvokeExpr(SpecialInvoke, NoArgConstructor(target), Some(freshLocal), []))], freshLocal, b.nextId));
      case ConstructorNewInstance =>
        r := BuildConstructorReplacement(b, target, ie);
      case MethodInvoke =>
        r := BuildMethodReplacement(b, target, ie);
    }

    /** The Constructor.newInstance case: unbox the argument array when the constructor has
        parameters, then create the object and call the constructor on it. */
    method BuildConstructorReplacement(b: Body, target: string, ie: InvokeExpr) returns (r: Result<Replacement, Error>)
      modifies b`nextId
      ensures b.nextId >= old(b.nextId)
      ensures r == ReplacementFor(ConstructorNewInstance, target, ie, scene, old(b.nextId))
      ensures r.Ok? ==> b.nextId == r.value.next
    {
      if target !in scene.methods {
        return Err(NoSuchMethod(target));
      }
      var m := scene.methods[target];
      var unboxing: seq<Stmt> := [];
      var params: seq<Value> := [];
      if |m.paramTypes| > 0 {
        var argsArray := ArgLocal(ie, 0);
        if argsArray.Err? {
          return Err(argsArray.error);
        }
        unboxing, params := UnboxArguments(b, argsArray.value, m.paramTypes);
      }
      var ty := RefType(m.declaringClass);
      var freshLocal := b.GenerateLocal(ty);
      r := Ok(Replacement(unboxing + [Assign(freshLocal, New(ty)),
                                      InvokeStmt(InvokeExpr(SpecialInvoke, RefOf(target), Some(freshLocal), params))], freshLocal, b.nextId));
    }

    /** The Method.invoke case: unbox the argument array when the method has parameters, cast
        the receiver to the declaring class, then call the method, statically or on the cast
        receiver. */
    method BuildMethodReplacement(b: Body, target: string, ie: InvokeExpr) returns (r: Result<Replacement, Error>)
      modifies b`nextId
      ensures b.nextId >= old(b.nextId)
      ensures r == ReplacementFor(MethodInvoke, target, ie, scene, old(b.nextId))
      ensures r.Ok? ==> b.nextId == r.value.next
    {
      if target !in scene.methods {
        return Err(NoSuchMethod(target));
      }
      var m := scene.methods[target];
      if |ie.args| < 1 {
        return Err(MissingArgument(0));
      }
      var recv := ie.args[0];
      var unboxing: seq<Stmt> := [];
      var params: seq<Value> := [];
      if |m.paramTypes| > 0 {
        var argsArray := ArgLocal(ie, 1);
        if argsArray.Err? {
          return Err(argsArray.error);
        }
        unboxing, params := UnboxArguments(b, argsArray.value, m.paramTypes);
      }
      var ty := RefType(m.declaringClass);
      var freshLocal := b.GenerateLocal(ty);
      var call := if m.isStatic then InvokeExpr(StaticInvoke, RefOf(target), None, params)
                  else InvokeExpr(VirtualInvoke, RefOf(target), Some(freshLocal), params);
      r := Ok(Replacement(unboxing + [Assign(freshLocal, Cast(recv, ty)), InvokeStmt(call)], freshLocal, b.nextId));
    }

    /** One iteration of the loop over the recorded targets: the opaque guard, the replacement,
        the copy into the destination of an assignment, the jump to the end label and the jump
        target of the guard. */
    method BuildAttempt(b: Body, k: Kind, target: string, s: Stmt, ie: InvokeExpr, endLabel: nat) returns (r: Result<Emitted, Error>)
      modifies b`nextId
      ensures b.nextId >= old(b.nextId)
      ensures r == Attempt(k, target, s, ie, scene, endLabel, old(b.nextId))
      ensures r.Ok? ==> b.nextId == r.value.next
    {
      var jumpTarget := b.FreshId();
      var predLocal := b.GenerateLocal(BooleanType);
      var newUnits := Guard(predLocal, jumpTarget);
      var repl := BuildReplacement(b, k, target, ie);
      if repl.Err? {
        return Err(repl.error);
      }
      newUnits := newUnits + repl.value.units;
      var copy := if s.Assign? then [Assign(s.lhs, Val(Loc(repl.value.result)))] else [];
      newUnits := newUnits + copy + [Goto(endLabel), Nop(jumpTarget)];
      r := Ok(Emitted(newUnits, b.nextId));
    }

    /** The loop over the recorded targets: the attempts for each target in turn. */
    method BuildAttempts(b: Body, k: Kind, targets: seq<string>, s: Stmt, ie: InvokeExpr, endLabel: nat) returns (r: Result<seq<Stmt>, Error>)
      modifies b`nextId
      ensures b.nextId >= old(b.nextId)
      ensures match Attempts(k, targets, s, ie, scene, endLabel, old(b.nextId))
              case Ok(a) => r == Ok(Flatten(a.blocks)) && b.nextId == a.next
              case Err(e) => r == Err(e)
    {
      ghost var next0 := b.nextId;
      var newUnits := [];
      for j := 0 to |targets|
        invariant Attempts(k, targets[..j], s, ie, scene, endLabel, next0).Ok?
        invariant var a := Attempts(k, targets[..j], s, ie, scene, endLabel, next0).value;
                  newUnits == Flatten(a.blocks) && b.nextId == a.next
        invariant b.nextId >= next0
      {
        AttemptsStep(k, targets, j, s, ie, scene, endLabel, next0, Attempts(k, targets[..j], s, ie, scene, endLabel, next0).value);
        var attempt := BuildAttempt(b, k, targets[j], s, ie, endLabel);
        if attempt.Err? {
          AttemptsErrPrefix(k, targets, j + 1, s, ie, scene, endLabel, next0);
          return Err(attempt.error);
        }
        newUnits := newUnits + attempt.value.units;
      }
      assert targets[..|targets|] == targets;
      r := Ok(newUnits);
    }

    /** The body of the loop over the snapshot, for the statement at `pos`: when it calls the
        reflective method of kind `k`, the registration call and the attempts are inserted
        after it, it is moved behind them, and the end label is inserted after it. */
    method RewriteAt(b: Body, pos: nat, targets: seq<string>, k: Kind) returns (outcome: Outcome<Error>)
      requires pos < |b.units| && b.Valid()
      modifies b
      ensures b.Valid() && b.nextId >= old(b.nextId)
      ensures match Rewrite(old(b.units[pos]), k, targets, callSiteId, scene, old(b.nextId))
              case Ok(e) => outcome == Pass && b.nextId == e.next &&
                            b.units == old(b.units[..pos]) + e.units + old(b.units[pos + 1..])
              case Err(err) => outcome == Fail(err) && b.units == old(b.units)
    {
      var s := b.units[pos];
      if !Matches(s, k) {
        assert b.units == b.units[..pos] + [s] + b.units[pos + 1..];
        return Pass;
      }
      ghost var units0, next0 := b.units, b.nextId;
      var ie := InvokeOf(s).value;
      var known := KnownCall(k, callSiteId, ie);
      if known.Err? {
        return Fail(known.error);
      }
      var endLabel := b.FreshId();
      var attempts := BuildAttempts(b, k, targets, s, ie, endLabel);
      if attempts.Err? {
        AllBelowMono(units0, next0, b.nextId);
        return Fail(attempts.error);
      }
      Splice(b, pos, [known.value] + attempts.value, endLabel);
      RewriteInPlaceBelow(units0, pos, k, targets, callSiteId, scene, next0);
      outcome := Pass;
    }

    /** inlineRelectiveCalls: every statement of a snapshot of the body that calls the
        reflective method of kind `k` is preceded by its registration call and one guarded
        attempt per target, and followed by a fresh end label; the whole pass uses one call-site
        id, and the id is advanced once the pass completes. */
    method InlineReflectiveCalls(b: Body, targets: seq<string>, k: Kind) returns (outcome: Outcome<Error>)
      requires b.Valid()
      modifies b
      modifies this`callSiteId
      ensures b.Valid()
      ensures match InlineUnits(old(b.units), k, targets, old(callSiteId), scene, old(b.nextId))
              case Ok(e) => outcome == Pass && b.units == e.units && b.nextId == e.next && callSiteId == old(callSiteId) + 1
              case Err(err) => outcome == Fail(err) && callSiteId == old(callSiteId)
    {
      var snapshot := b.units;
      ghost var next0 := b.nextId;
      ghost var done := Emitted([], next0);
      var i := 0;
      while i < |snapshot|
        invariant 0 <= i <= |snapshot|
        invariant InlineUnits(snapshot[..i], k, targets, callSiteId, scene, next0) == Ok(done)
        invariant b.units == done.units + snapshot[i..] && b.nextId == done.next
        invariant b.Valid()
        invariant callSiteId == old(callSiteId)
      {
        var pos := |b.units| - |snapshot| + i;
        SliceAround(done.units, snapshot, i);
        InlineUnitsStep(snapshot, i, k, targets, callSiteId, scene, next0, done);
        var r := RewriteAt(b, pos, targets, k);
        if r.Fail? {
          InlineUnitsErrPrefix(snapshot, i + 1, k, targets, callSiteId, scene, next0);
          return r;
        }
        done := InlineUnits(snapshot[..i + 1], k, targets, callSiteId, scene, next0).value;
        i := i + 1;
      }
      assert snapshot[..i] == snapshot;
      callSiteId := callSiteId + 1;
      outcome := Pass;
    }

    /** The target lists of the trace, method by method. */
    function TraceTargets(): (trace: seq<Targets>)
      ensures |trace| == |rti| && forall i :: 0 <= i < |rti| ==> trace[i] == rti[i].targets
    {
      seq(|rti|, i requires 0 <= i < |rti| => rti[i].targets)
    }

    /** One block of initializeReflectiveCallsTable's loop body: a fresh Set local loaded from
        the registry field of kind `k`, then `add(siteId + target)` for each target. */
    method RegistryGroupUnits(k: Kind, targets: seq<string>, siteId: nat) returns (groupUnits: seq<Stmt>)
      modifies clinit`nextId
      ensures clinit.nextId == old(clinit.nextId) + 1
      ensures groupUnits == GroupRegistryUnits(k, targets, siteId, Local(old(clinit.nextId), RefType("java.util.Set")))
    {
      var setLocal := clinit.GenerateLocal(RefType("java.util.Set"));
      groupUnits := [Assign(setLocal, StaticFieldRef("soot.rtlib.ReflectiveCalls", RegistryField(k)))];
      for t := 0 to |targets|
        invariant groupUnits == [Assign(setLocal, StaticFieldRef("soot.rtlib.ReflectiveCalls", RegistryField(k)))] + AddUnits(setLocal, siteId, targets[..t])
      {
        assert targets[..t + 1][..t] == targets[..t];
        groupUnits := groupUnits + [AddStmt(setLocal, siteId, targets[t])];
      }
      assert targets[..|targets|] == targets;
    }

    /** One block of initializeReflectiveCallsTable's loop body for the kind `Kinds[kk]` of
        method `m`: nothing when the trace records no target, otherwise the group's units with
        the next call-site id. */
    method AddKindRegistry(m: nat, kk: nat, units: seq<Stmt>, siteId: nat, ghost gs: seq<Group>, ghost next0: nat)
      returns (units': seq<Stmt>, siteId': nat)
      requires m < |rti| && kk < 4
      requires siteId == |gs| && clinit.nextId == next0 + |gs| && units == RegistryUnits(gs, 0, next0)
      modifies clinit`nextId
      ensures var k := Kinds[kk];
              var targets := TargetsOf(rti[m].targets, k);
              var gs' := gs + if targets != [] then [Group(m, k, targets)] else [];
              siteId' == |gs'| && clinit.nextId == next0 + |gs'| && units' == RegistryUnits(gs', 0, next0)
    {
      var k := Kinds[kk];
      var targets := TargetsOf(rti[m].targets, k);
      if targets == [] {
        assert gs + [] == gs;
        return units, siteId;
      }
      var groupUnits := RegistryGroupUnits(k, targets, siteId);
      RegistryUnitsSnoc(gs, Group(m, k, targets), 0, next0);
      units', siteId' := units + groupUnits, siteId + 1;
    }

    /** The four blocks of initializeReflectiveCallsTable's loop body for method `m`: the
        groups of its kinds with recorded targets, numbered on from `siteId`, appended to the
        units built so far for the groups `gs`. */
    method AddMethodRegistry(m: nat, units: seq<Stmt>, siteId: nat, ghost gs: seq<Group>, ghost next0: nat)
      returns (units': seq<Stmt>, siteId': nat)
      requires m < |rti|
      requires siteId == |gs| && clinit.nextId == next0 + |gs| && units == RegistryUnits(gs, 0, next0)
      modifies clinit`nextId
      ensures var gs' := gs + EntryGroups(m, rti[m].targets, 4);
              siteId' == |gs'| && clinit.nextId == next0 + |gs'| && units' == RegistryUnits(gs', 0, next0)
    {
      units', siteId' := units, siteId;
      ghost var gsk := gs;
      assert gs + EntryGroups(m, rti[m].targets, 0) == gs;
      for kk := 0 to 4
        invariant gsk == gs + EntryGroups(m, rti[m].targets, kk)
        invariant siteId' == |gsk| && clinit.nextId == next0 + |gsk| && units' == RegistryUnits(gsk, 0, next0)
      {
        units', siteId' := AddKindRegistry(m, kk, units', siteId', gsk, next0);
        EntryGroupsStep(gs, m, rti[m].targets, kk);
        gsk := gs + EntryGroups(m, rti[m].targets, kk + 1);
      }
    }

    /** initializeReflectiveCallsTable: for every method of the trace and every kind with
        recorded targets, in that order, a fresh Set local loads the kind's registry field and
        one `add` per target records the call-site id followed by the target; call-site ids
        count from 0, one per such (method, kind) group. The units go before the last unit of
        the static initialiser of ReflectiveCalls. */
    method InitializeReflectiveCallsTable() returns (outcome: Outcome<Error>)
      requires clinit.Valid()
      modifies clinit
      ensures clinit.Valid()
      ensures var u, gs := old(clinit.units), Groups(TraceTargets());
              clinit.nextId == old(clinit.nextId) + |gs| &&
              if |u| < 2 then outcome == Fail(NoInsertionPoint) && clinit.units == u
              else outcome == Pass && clinit.units == u[..|u| - 1] + RegistryUnits(gs, 0, old(clinit.nextId)) + [u[|u| - 1]]
    {
      ghost var next0 := clinit.nextId;
      ghost var trace := TraceTargets();
      var siteId := 0;
      var newUnits := [];
      for m := 0 to |rti|
        invariant siteId == |Groups(trace[..m])| && clinit.nextId == next0 + siteId
        invariant newUnits == RegistryUnits(Groups(trace[..m]), 0, next0)
        invariant clinit.units == old(clinit.units)
      {
        assert trace[m] == rti[m].targets;
        GroupsSnoc(trace, m);
        newUnits, siteId := AddMethodRegistry(m, newUnits, siteId, Groups(trace[..m]), next0);
      }
      assert trace[..|rti|] == trace;
      var u := clinit.units;
      if |u| < 2 {
        AllBelowMono(u, next0, clinit.nextId);
        return Fail(NoInsertionPoint);
      }
      RegistryInsertBelow(u, Groups(trace), next0);
      clinit.InsertAfter(newUnits, |u| - 2);
      assert u[..|u| - 2 + 1] == u[..|u| - 1];
      assert u[|u| - 2 + 1..] == [u[|u| - 1]];
      outcome := Pass;
    }

    /** The four blocks of internalTransform's loop body for one traced method: a pass of
        inlineRelectiveCalls for every kind with recorded targets, in kind order. */
    method TransformBody(b: Body, t: Targets) returns (outcome: Outcome<Error>)
      requires b.Valid()
      modifies b, this`callSiteId
      ensures b.Valid()
      ensures match KindPasses(old(b.units), t, 4, old(callSiteId), scene, old(b.nextId))
              case Ok(p) => outcome == Pass && b.units == p.units && b.nextId == p.next && callSiteId == p.id
              case Err(err) => outcome == Fail(err)
    {
      ghost var units0, next0, id0 := b.units, b.nextId, callSiteId;
      for kk := 0 to 4
        invariant b.Valid()
        invariant KindPasses(units0, t, kk, id0, scene, next0) == Ok(PassState(b.units, b.nextId, callSiteId))
      {
        var k := Kinds[kk];
        var targets := TargetsOf(t, k);
        if targets != [] {
          var r := InlineReflectiveCalls(b, targets, k);
          if r.Fail? {
            KindPassesErr(units0, t, kk + 1, id0, scene, next0);
            return r;
          }
        }
      }
      outcome := Pass;
    }

    /** One iteration of internalTransform's loop: the four blocks for the traced method `i`;
        the other traced bodies are left as they are. */
    method TransformEntry(i: nat) returns (outcome: Outcome<Error>)
      requires Valid() && i < |rti|
      modifies rti[i].body, this`callSiteId
      ensures Valid()
      ensures match KindPasses(old(rti[i].body.units), rti[i].targets, 4, old(callSiteId), scene, old(rti[i].body.nextId))
              case Ok(p) => outcome == Pass && rti[i].body.units == p.units && rti[i].body.nextId == p.next && callSiteId == p.id
              case Err(err) => outcome == Fail(err)
      ensures forall j {:trigger rti[j]} :: 0 <= j < |rti| && j != i ==>
                rti[j].body.units == old(rti[j].body.units) && rti[j].body.nextId == old(rti[j].body.nextId)
    {
      var b := rti[i].body;
      outcome := TransformBody(b, rti[i].targets);
      forall j | 0 <= j < |rti| && j != i
        ensures rti[j].body.units == old(rti[j].body.units)
        ensures rti[j].body.nextId == old(rti[j].body.nextId)
      {
        assert rti[j].body != b;
      }
    }

    /** internalTransform's loop: every traced method, in trace order, gets its four blocks,
        each (method, kind) group with the next call-site id. */
    method TransformAll() returns (outcome: Outcome<Error>)
      requires Valid()
      modifies TracedBodies(), this`callSiteId
      ensures Valid()
      ensures var trace := TraceTargets();
              outcome.Pass? ==>
                var ids := SiteIds(trace, old(callSiteId));
                callSiteId == ids[|rti|] &&
                forall i {:trigger trace[i]} :: 0 <= i < |rti| ==>
                  KindPasses(old(rti[i].body.units), trace[i], 4, ids[i], scene, old(rti[i].body.nextId))
                  == Ok(PassState(rti[i].body.units, rti[i].body.nextId, ids[i + 1]))
    {
      ghost var trace := TraceTargets();
      ghost var ids := SiteIds(trace, callSiteId);
      SiteIdsAt(trace, callSiteId, 0);
      for i := 0 to |rti|
        invariant Valid()
        invariant callSiteId == ids[i]
        invariant forall j {:trigger trace[j]} :: 0 <= j < i ==>
                    KindPasses(old(rti[j].body.units), trace[j], 4, ids[j], scene, old(rti[j].body.nextId))
                    == Ok(PassState(rti[j].body.units, rti[j].body.nextId, ids[j + 1]))
        invariant forall j {:trigger rti[j]} :: i <= j < |rti| ==>
                    rti[j].body.units == old(rti[j].body.units) && rti[j].body.nextId == old(rti[j].body.nextId)
      {
        ghost var units0, next0 := rti[i].body.units, rti[i].body.nextId;
        var r := TransformEntry(i);
        if r.Fail? {
          return r;
        }
        assert trace[i] == rti[i].targets;
        PassIdsFollowGroups(trace, i, units0, old(callSiteId), scene, next0);
      }
      outcome := Pass;
    }

    /** internalTransform: on the first run, writes the registry and starts call-site ids at 0;
        then rewrites every traced method in trace order, each (method, kind) group with the
        next id, which is the order in which the registry numbered the groups. */
    method InternalTransform() returns (outcome: Outcome<Error>)
      requires Valid()
      modifies Bodies(), this`initialized, this`callSiteId
      ensures Valid()
      ensures var base := if old(initialized) then old(callSiteId) else 0;
              var trace := TraceTargets();
              var ids := SiteIds(trace, base);
              outcome.Pass? ==>
                initialized && callSiteId == ids[|rti|] &&
                forall i {:trigger trace[i]} :: 0 <= i < |rti| ==>
                  KindPasses(old(rti[i].body.units), trace[i], 4, ids[i], scene, old(rti[i].body.nextId))
                  == Ok(PassState(rti[i].body.units, rti[i].body.nextId, ids[i + 1]))
      ensures !old(initialized) && outcome.Pass? ==>
                var u := old(clinit.units);
                |u| >= 2 && clinit.units == u[..|u| - 1] + RegistryUnits(Groups(TraceTargets()), 0, old(clinit.nextId)) + [u[|u| - 1]]
      ensures old(initialized) ==> clinit.units == old(clinit.units)
      ensures !old(initialized) && |old(clinit.units)| < 2 ==> outcome == Fail(NoInsertionPoint)
    {
      if !initialized {
        var r := InitializeReflectiveCallsTable();
        if r.Fail? {
          return r;
        }
        callSiteId := 0;
        initialized := true;
      }
      ghost var clinitUnits := clinit.units;
      label Before:
      outcome := TransformAll();
      assert clinit.units == clinitUnits;
      forall i | 0 <= i < |rti|
        ensures old@Before(rti[i].body.units) == old(rti[i].body.units)
        ensures old@Before(rti[i].body.nextId) == old(rti[i].body.nextId)
      {
        assert rti[i].body != clinit;
      }
    }
  }
}
