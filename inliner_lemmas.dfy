/** Properties of the rewrite the inliner performs and of the registry it writes. */
module InlinerLemmas {
  import opened Wrappers
  import opened Jimple
  import opened Library
  import opened InlinerSpec

  // ----- matching on the method reference is matching on its signature -----

  /** The signature of a reference the inliner builds with Scene.makeMethodRef is never the
      signature of a library method. */
  lemma BuiltRefNotLibrary(m: MethodRef, lib: LibraryMethod)
    requires m.UnboxValue? || m.NoArgConstructor?
    ensures Signature(m) != LibrarySignature(lib)
  {
    if m.UnboxValue? {
      // an unboxing signature is shorter than every library signature
      assert |Signature(m)| <= 45;
    } else {
      // a constructor signature ends with ">()>", a library signature does not
      var sig, ls := Signature(m), LibrarySignature(lib);
      var tail := ": void <init>()>";
      assert sig == ("<" + m.cls) + tail;
      assert sig[|sig| - 4] == '>';
      assert ls[|ls| - 4] != '>';
    }
  }

  /** For references that follow the one-value-per-method convention, Matches decides as the
      source does: by comparing the signature of the call's method with the signature of the
      kind's reflective call. */
  lemma MatchesBySignature(s: Stmt, k: Kind)
    requires InvokeOf(s).Some? ==> CanonicalRef(InvokeOf(s).value.methodRef)
    ensures Matches(s, k) <==> InvokeOf(s).Some? && Signature(InvokeOf(s).value.methodRef) == LibrarySignature(Reflective(k))
  {
    if InvokeOf(s).Some? {
      var m := InvokeOf(s).value.methodRef;
      match m
      case BySignature(sig) =>
      case LibraryRef(lib) =>
        if LibrarySignature(lib) == LibrarySignature(Reflective(k)) {
          LibrarySignatureInjective(lib, Reflective(k));
        }
      case _ =>
        BuiltRefNotLibrary(m, Reflective(k));
    }
  }

  // ----- one more group, one more method -----

  lemma RegistryUnitsSnoc(gs: seq<Group>, g: Group, id0: nat, next: nat)
    ensures RegistryUnits(gs + [g], id0, next) ==
            RegistryUnits(gs, id0, next) + GroupRegistryUnits(g.kind, g.targets, id0 + |gs|, Local(next + |gs|, RefType("java.util.Set")))
  {
    assert (gs + [g])[..|gs|] == gs;
  }

  lemma GroupsSnoc(trace: seq<Targets>, m: nat)
    requires m < |trace|
    ensures Groups(trace[..m + 1]) == Groups(trace[..m]) + EntryGroups(m, trace[m], 4)
  {
    assert trace[..m + 1][..m] == trace[..m];
  }

  lemma EntryGroupsStep(gs: seq<Group>, m: nat, t: Targets, n: nat)
    requires n < 4
    ensures var k := Kinds[n];
            gs + EntryGroups(m, t, n + 1) ==
            gs + EntryGroups(m, t, n) + if TargetsOf(t, k) != [] then [Group(m, k, TargetsOf(t, k))] else []
  {
  }

  /** The groups of a method's first `j` kinds are a prefix of those of its first `n` kinds. */
  lemma {:induction false} EntryGroupsPrefix(m: nat, t: Targets, j: nat, n: nat)
    requires j <= n <= 4
    ensures |EntryGroups(m, t, j)| <= |EntryGroups(m, t, n)|
    ensures EntryGroups(m, t, n)[..|EntryGroups(m, t, j)|] == EntryGroups(m, t, j)
  {
    if j < n {
      EntryGroupsPrefix(m, t, j, n - 1);
      var a := EntryGroups(m, t, n - 1);
      var k := Kinds[n - 1];
      var x := if TargetsOf(t, k) != [] then [Group(m, k, TargetsOf(t, k))] else [];
      assert EntryGroups(m, t, n) == a + x;
      assert (a + x)[..|EntryGroups(m, t, j)|] == a[..|EntryGroups(m, t, j)|];
    }
  }

  /** A pass that raises ends the method's passes with that exception. */
  lemma {:induction false} KindPassesErr(units: seq<Stmt>, t: Targets, n: nat, id: nat, scene: Scene, next: nat)
    requires n <= 4
    requires KindPasses(units, t, n, id, scene, next).Err?
    ensures KindPasses(units, t, 4, id, scene, next) == KindPasses(units, t, n, id, scene, next)
    decreases 4 - n
  {
    if n < 4 {
      KindPassesErr(units, t, n + 1, id, scene, next);
    }
  }

  /** The block of kind `Kinds[n - 1]` after the blocks before it: it keeps their outcome when
      the kind has no targets, and otherwise runs a pass over their units. */
  lemma KindPassesStep(units: seq<Stmt>, t: Targets, n: nat, id: nat, scene: Scene, next: nat)
    requires 0 < n <= 4
    requires KindPasses(units, t, n, id, scene, next).Ok?
    ensures KindPasses(units, t, n - 1, id, scene, next).Ok?
    ensures var prev := KindPasses(units, t, n - 1, id, scene, next).value;
            var k := Kinds[n - 1];
            var after := KindPasses(units, t, n, id, scene, next).value;
            && (TargetsOf(t, k) == [] ==> after == prev)
            && (TargetsOf(t, k) != [] ==>
                  && InlineUnits(prev.units, k, TargetsOf(t, k), prev.id, scene, prev.next).Ok?
                  && after.units == InlineUnits(prev.units, k, TargetsOf(t, k), prev.id, scene, prev.next).value.units)
  {
  }

  /** The passes over one method use one call-site id per group of that method. */
  lemma {:induction false} KindPassesIds(units: seq<Stmt>, t: Targets, n: nat, id: nat, scene: Scene, next: nat, m: nat)
    requires n <= 4
    requires KindPasses(units, t, n, id, scene, next).Ok?
    ensures KindPasses(units, t, n, id, scene, next).value.id == id + |EntryGroups(m, t, n)|
  {
    if n > 0 {
      KindPassesIds(units, t, n - 1, id, scene, next, m);
    }
  }

  /** The call-site id with which each method of a trace starts, and after the last method the
      id that follows: the ids of the groups of the methods before it are taken. */
  function SiteIds(trace: seq<Targets>, base: nat): (ids: seq<nat>)
    ensures |ids| == |trace| + 1
  {
    if trace == [] then [base] else SiteIds(trace[..|trace| - 1], base) + [base + |Groups(trace)|]
  }

  lemma {:induction false} SiteIdsAt(trace: seq<Targets>, base: nat, j: nat)
    requires j <= |trace|
    ensures SiteIds(trace, base)[j] == base + |Groups(trace[..j])|
  {
    if j == |trace| {
      assert trace[..j] == trace;
    } else {
      var p := trace[..|trace| - 1];
      SiteIdsAt(p, base, j);
      assert p[..j] == trace[..j];
    }
  }

  /** The passes of method `i`, started with the id that follows the groups of the methods
      before it, end with the id that follows its own groups. */
  lemma PassIdsFollowGroups(trace: seq<Targets>, i: nat, units: seq<Stmt>, base: nat, scene: Scene, next: nat)
    requires i < |trace|
    requires KindPasses(units, trace[i], 4, SiteIds(trace, base)[i], scene, next).Ok?
    ensures KindPasses(units, trace[i], 4, SiteIds(trace, base)[i], scene, next).value.id == SiteIds(trace, base)[i + 1]
  {
    SiteIdsStep(trace, base, i);
    KindPassesIds(units, trace[i], 4, SiteIds(trace, base)[i], scene, next, i);
  }

  /** Method `i` takes one id per group of its own. */
  lemma SiteIdsStep(trace: seq<Targets>, base: nat, i: nat)
    requires i < |trace|
    ensures SiteIds(trace, base)[i + 1] == SiteIds(trace, base)[i] + |EntryGroups(i, trace[i], 4)|
  {
    SiteIdsAt(trace, base, i);
    SiteIdsAt(trace, base, i + 1);
    GroupsSnoc(trace, i);
  }

  // ----- the registry units only use the set locals drawn for them -----

  lemma {:induction false} AddUnitsBelow(setLocal: Local, id: nat, targets: seq<string>, n: nat)
    requires setLocal.id < n
    ensures AllBelow(AddUnits(setLocal, id, targets), n)
  {
    if targets != [] {
      AddUnitsBelow(setLocal, id, targets[..|targets| - 1], n);
      var last := AddStmt(setLocal, id, targets[|targets| - 1]);
      assert StmtBelow(last, n);
      AllBelowConcat(AddUnits(setLocal, id, targets[..|targets| - 1]), [last], n);
    }
  }

  lemma GroupRegistryUnitsBelow(k: Kind, targets: seq<string>, id: nat, setLocal: Local, n: nat)
    requires setLocal.id < n
    ensures AllBelow(GroupRegistryUnits(k, targets, id, setLocal), n)
  {
    var first := [Assign(setLocal, StaticFieldRef("soot.rtlib.ReflectiveCalls", RegistryField(k)))];
    AddUnitsBelow(setLocal, id, targets, n);
    assert StmtBelow(first[0], n);
    AllBelowConcat(first, AddUnits(setLocal, id, targets), n);
  }

  lemma {:induction false} RegistryUnitsBelow(gs: seq<Group>, id0: nat, next: nat)
    ensures AllBelow(RegistryUnits(gs, id0, next), next + |gs|)
  {
    if gs != [] {
      var j := |gs| - 1;
      var prev := RegistryUnits(gs[..j], id0, next);
      var last := GroupRegistryUnits(gs[j].kind, gs[j].targets, id0 + j, Local(next + j, RefType("java.util.Set")));
      assert RegistryUnits(gs, id0, next) == prev + last;
      RegistryUnitsBelow(gs[..j], id0, next);
      AllBelowMono(prev, next + j, next + |gs|);
      GroupRegistryUnitsBelow(gs[j].kind, gs[j].targets, id0 + j, Local(next + j, RefType("java.util.Set")), next + |gs|);
      AllBelowConcat(prev, last, next + |gs|);
    }
  }

  /** Inserting the registry before the last unit of a fresh body keeps it fresh. */
  lemma RegistryInsertBelow(u: seq<Stmt>, gs: seq<Group>, next: nat)
    requires |u| >= 2 && AllBelow(u, next)
    ensures AllBelow(u[..|u| - 1] + RegistryUnits(gs, 0, next) + [u[|u| - 1]], next + |gs|)
  {
    RegistryUnitsBelow(gs, 0, next);
    InsertBeforeLastBelow(u, RegistryUnits(gs, 0, next), next, next + |gs|);
  }

  lemma InsertBeforeLastBelow(u: seq<Stmt>, mid: seq<Stmt>, n0: nat, n: nat)
    requires |u| >= 1 && AllBelow(u, n0) && n0 <= n && AllBelow(mid, n)
    ensures AllBelow(u[..|u| - 1] + mid + [u[|u| - 1]], n)
  {
    var r := u[..|u| - 1] + mid + [u[|u| - 1]];
    forall i | 0 <= i < |r| ensures StmtBelow(r[i], n) {
      if i < |u| - 1 {
        assert r[i] == u[i];
        StmtBelowMono(u[i], n0, n);
      } else if i < |u| - 1 + |mid| {
        assert r[i] == mid[i - (|u| - 1)];
      } else {
        assert r[i] == u[|u| - 1];
        StmtBelowMono(u[|u| - 1], n0, n);
      }
    }
  }

  // ----- every id the rewrite introduces is fresh -----

  lemma UnboxParameterBelow(args: Local, i: nat, p: Local, ty: Type, next: nat)
    requires args.id < next && p.id < next
    ensures AllBelow(UnboxParameter(args, i, p, ty, next), next + 2)
  {
  }

  lemma {:induction false} UnboxAllBelow(args: Local, types: seq<Type>, next: nat)
    requires args.id < next
    ensures AllBelow(UnboxAll(args, types, next).units, UnboxAll(args, types, next).next)
  {
    if types != [] {
      var prev := UnboxAll(args, types[..|types| - 1], next);
      UnboxAllBelow(args, types[..|types| - 1], next);
      var i := |types| - 1;
      var p := Local(prev.next, types[i]);
      var last := UnboxParameter(args, i, p, types[i], prev.next + 1);
      UnboxParameterBelow(args, i, p, types[i], prev.next + 1);
      AllBelowMono(prev.units, prev.next, prev.next + 3);
      AllBelowConcat(prev.units, last, prev.next + 3);
      assert UnboxAll(args, types, next).units == prev.units + last;
    }
  }

  lemma UnboxAllParamsBelow(args: Local, types: seq<Type>, next: nat)
    ensures var u := UnboxAll(args, types, next);
            forall i :: 0 <= i < |u.params| ==> ValueBelow(u.params[i], u.next)
  {
  }

  lemma UnboxingBelow(ie: InvokeExpr, index: nat, types: seq<Type>, next: nat)
    requires InvokeBelow(ie, next)
    requires Unboxing(ie, index, types, next).Ok?
    ensures var u := Unboxing(ie, index, types, next).value;
            u.next >= next && AllBelow(u.units, u.next) &&
            forall i :: 0 <= i < |u.params| ==> ValueBelow(u.params[i], u.next)
  {
    if |types| > 0 {
      var args := ArgLocal(ie, index).value;
      assert ValueBelow(ie.args[index], next);
      UnboxAllBelow(args, types, next);
      UnboxAllParamsBelow(args, types, next);
    }
  }

  lemma ParamsBelowMono(params: seq<Value>, n: nat, m: nat)
    requires n <= m
    requires forall i :: 0 <= i < |params| ==> ValueBelow(params[i], n)
    ensures forall i :: 0 <= i < |params| ==> ValueBelow(params[i], m)
  {
  }

  lemma ReplacementBelow(k: Kind, target: string, ie: InvokeExpr, scene: Scene, next: nat)
    requires InvokeBelow(ie, next)
    requires ReplacementFor(k, target, ie, scene, next).Ok?
    ensures var r := ReplacementFor(k, target, ie, scene, next).value;
            r.next > next && r.result.id < r.next && AllBelow(r.units, r.next)
  {
    match k
    case ClassForName =>
    case ClassNewInstance =>
    case ConstructorNewInstance => ConstructorReplacementBelow(target, ie, scene, next);
    case MethodInvoke => MethodInvokeReplacementBelow(target, ie, scene, next);
  }

  /** Unboxed parameters followed by two units over the fresh result local. */
  lemma TailBelow(u: Unboxed, tail: seq<Stmt>, next: nat)
    requires u.next >= next && AllBelow(u.units, u.next) && AllBelow(tail, u.next + 1)
    ensures AllBelow(u.units + tail, u.next + 1)
  {
    AllBelowMono(u.units, u.next, u.next + 1);
    AllBelowConcat(u.units, tail, u.next + 1);
  }

  lemma ConstructorReplacementBelow(target: string, ie: InvokeExpr, scene: Scene, next: nat)
    requires InvokeBelow(ie, next)
    requires ReplacementFor(ConstructorNewInstance, target, ie, scene, next).Ok?
    ensures var r := ReplacementFor(ConstructorNewInstance, target, ie, scene, next).value;
            r.next > next && r.result.id < r.next && AllBelow(r.units, r.next)
  {
    var m := scene.methods[target];
    var u := Unboxing(ie, 0, m.paramTypes, next).value;
    UnboxingBelow(ie, 0, m.paramTypes, next);
    ParamsBelowMono(u.params, u.next, u.next + 1);
    var freshLocal := Local(u.next, RefType(m.declaringClass));
    var tail := [Assign(freshLocal, New(RefType(m.declaringClass))),
                 InvokeStmt(InvokeExpr(SpecialInvoke, RefOf(target), Some(freshLocal), u.params))];
    assert StmtBelow(tail[0], u.next + 1) && StmtBelow(tail[1], u.next + 1);
    TailBelow(u, tail, next);
  }

  lemma MethodInvokeReplacementBelow(target: string, ie: InvokeExpr, scene: Scene, next: nat)
    requires InvokeBelow(ie, next)
    requires ReplacementFor(MethodInvoke, target, ie, scene, next).Ok?
    ensures var r := ReplacementFor(MethodInvoke, target, ie, scene, next).value;
            r.next > next && r.result.id < r.next && AllBelow(r.units, r.next)
  {
    var m := scene.methods[target];
    var u := Unboxing(ie, 1, m.paramTypes, next).value;
    UnboxingBelow(ie, 1, m.paramTypes, next);
    ParamsBelowMono(u.params, u.next, u.next + 1);
    var freshLocal := Local(u.next, RefType(m.declaringClass));
    assert ValueBelow(ie.args[0], u.next + 1);
    var call := if m.isStatic then InvokeExpr(StaticInvoke, RefOf(target), None, u.params)
                else InvokeExpr(VirtualInvoke, RefOf(target), Some(freshLocal), u.params);
    var tail := [Assign(freshLocal, Cast(ie.args[0], RefType(m.declaringClass))), InvokeStmt(call)];
    assert StmtBelow(tail[0], u.next + 1) && StmtBelow(tail[1], u.next + 1);
    TailBelow(u, tail, next);
  }

  lemma AttemptBelow(k: Kind, target: string, s: Stmt, ie: InvokeExpr, scene: Scene, endLabel: nat, next: nat)
    requires StmtBelow(s, next) && InvokeBelow(ie, next) && endLabel < next
    requires Attempt(k, target, s, ie, scene, endLabel, next).Ok?
    ensures var e := Attempt(k, target, s, ie, scene, endLabel, next).value;
            e.next > next + 1 && AllBelow(e.units, e.next)
  {
    var r := ReplacementFor(k, target, ie, scene, next + 2).value;
    InvokeBelowMono(ie, next, next + 2);
    ReplacementBelow(k, target, ie, scene, next + 2);
    var copy := if s.Assign? then [Assign(s.lhs, Val(Loc(r.result)))] else [];
    assert AllBelow(copy, r.next);
    AttemptUnitsBelow(Local(next + 1, BooleanType), next, r.units, copy, endLabel, r.next);
  }

  lemma AttemptUnitsBelow(pred: Local, jump: nat, units: seq<Stmt>, copy: seq<Stmt>, endLabel: nat, n: nat)
    requires pred.id < n && jump < n && endLabel < n && AllBelow(units, n) && AllBelow(copy, n)
    ensures AllBelow(Guard(pred, jump) + units + copy + [Goto(endLabel), Nop(jump)], n)
  {
    var g := Guard(pred, jump);
    assert StmtBelow(g[0], n) && StmtBelow(g[1], n);
    AllBelowConcat(g, units, n);
    AllBelowConcat(g + units, copy, n);
    AllBelowConcat(g + units + copy, [Goto(endLabel), Nop(jump)], n);
  }

  lemma InvokeBelowMono(ie: InvokeExpr, n: nat, m: nat)
    requires InvokeBelow(ie, n) && n <= m
    ensures InvokeBelow(ie, m)
  {
  }

  lemma {:induction false} FlattenBelow(blocks: seq<seq<Stmt>>, n: nat)
    requires forall i :: 0 <= i < |blocks| ==> AllBelow(blocks[i], n)
    ensures AllBelow(Flatten(blocks), n)
  {
    if blocks != [] {
      FlattenBelow(blocks[..|blocks| - 1], n);
      AllBelowConcat(Flatten(blocks[..|blocks| - 1]), blocks[|blocks| - 1], n);
    }
  }

  lemma {:induction false} AttemptsBelow(k: Kind, targets: seq<string>, s: Stmt, ie: InvokeExpr, scene: Scene, endLabel: nat, next: nat)
    requires StmtBelow(s, next) && InvokeBelow(ie, next) && endLabel < next
    requires Attempts(k, targets, s, ie, scene, endLabel, next).Ok?
    ensures var a := Attempts(k, targets, s, ie, scene, endLabel, next).value;
            a.next >= next && forall i :: 0 <= i < |a.blocks| ==> AllBelow(a.blocks[i], a.next)
  {
    if targets != [] {
      var prev := Attempts(k, targets[..|targets| - 1], s, ie, scene, endLabel, next).value;
      AttemptsBelow(k, targets[..|targets| - 1], s, ie, scene, endLabel, next);
      StmtBelowMono(s, next, prev.next);
      InvokeBelowMono(ie, next, prev.next);
      AttemptBelow(k, targets[|targets| - 1], s, ie, scene, endLabel, prev.next);
      var e := Attempt(k, targets[|targets| - 1], s, ie, scene, endLabel, prev.next).value;
      forall i | 0 <= i < |prev.blocks| ensures AllBelow(prev.blocks[i], e.next) {
        AllBelowMono(prev.blocks[i], prev.next, e.next);
      }
    }
  }

  lemma KnownCallBelow(k: Kind, id: nat, ie: InvokeExpr, next: nat)
    requires InvokeBelow(ie, next)
    requires KnownCall(k, id, ie).Ok?
    ensures StmtBelow(KnownCall(k, id, ie).value, next)
  {
    if |ie.args| > 0 {
      assert ValueBelow(ie.args[0], next);
    }
  }

  lemma InvokeOfBelow(s: Stmt, next: nat)
    requires StmtBelow(s, next) && InvokeOf(s).Some?
    ensures InvokeBelow(InvokeOf(s).value, next)
  {
  }

  lemma RewriteBelow(s: Stmt, k: Kind, targets: seq<string>, id: nat, scene: Scene, next: nat)
    requires StmtBelow(s, next)
    requires Rewrite(s, k, targets, id, scene, next).Ok?
    ensures var e := Rewrite(s, k, targets, id, scene, next).value;
            e.next >= next && AllBelow(e.units, e.next)
  {
    if Matches(s, k) {
      var ie := InvokeOf(s).value;
      InvokeOfBelow(s, next);
      var known := KnownCall(k, id, ie).value;
      KnownCallBelow(k, id, ie, next);
      StmtBelowMono(s, next, next + 1);
      InvokeBelowMono(ie, next, next + 1);
      AttemptsBelow(k, targets, s, ie, scene, next, next + 1);
      var a := Attempts(k, targets, s, ie, scene, next, next + 1).value;
      FlattenBelow(a.blocks, a.next);
      StmtBelowMono(known, next, a.next);
      StmtBelowMono(s, next, a.next);
      var e := Rewrite(s, k, targets, id, scene, next).value;
      assert e.units == [known] + Flatten(a.blocks) + [s, Nop(next)] && e.next == a.next;
      assert AllBelow([known], a.next);
      assert AllBelow([s, Nop(next)], a.next);
      AllBelowConcat([known], Flatten(a.blocks), a.next);
      AllBelowConcat([known] + Flatten(a.blocks), [s, Nop(next)], a.next);
    }
  }

  /** Rewriting the unit at `pos` in place keeps the body fresh. */
  lemma RewriteInPlaceBelow(units: seq<Stmt>, pos: nat, k: Kind, targets: seq<string>, id: nat, scene: Scene, next: nat)
    requires pos < |units| && AllBelow(units, next)
    requires Rewrite(units[pos], k, targets, id, scene, next).Ok?
    ensures var e := Rewrite(units[pos], k, targets, id, scene, next).value;
            AllBelow(units[..pos] + e.units + units[pos + 1..], e.next)
  {
    var e := Rewrite(units[pos], k, targets, id, scene, next).value;
    RewriteBelow(units[pos], k, targets, id, scene, next);
    SpliceBelow(units, pos, e.units, next, e.next);
  }

  /** The inlining pass keeps the body's ids below its counter: everything it adds is fresh. */
  lemma {:induction false} InlineUnitsBelow(units: seq<Stmt>, k: Kind, targets: seq<string>, id: nat, scene: Scene, next: nat)
    requires AllBelow(units, next)
    requires InlineUnits(units, k, targets, id, scene, next).Ok?
    ensures var e := InlineUnits(units, k, targets, id, scene, next).value;
            e.next >= next && AllBelow(e.units, e.next)
  {
    if units != [] {
      var done := InlineUnits(units[..|units| - 1], k, targets, id, scene, next).value;
      InlineUnitsBelow(units[..|units| - 1], k, targets, id, scene, next);
      StmtBelowMono(units[|units| - 1], next, done.next);
      RewriteBelow(units[|units| - 1], k, targets, id, scene, done.next);
      var last := Rewrite(units[|units| - 1], k, targets, id, scene, done.next).value;
      AllBelowMono(done.units, done.next, last.next);
      AllBelowConcat(done.units, last.units, last.next);
    }
  }

  /** One more statement of the snapshot: the pass so far, then that statement's rewrite. */
  lemma InlineUnitsStep(units: seq<Stmt>, i: nat, k: Kind, targets: seq<string>, id: nat, scene: Scene, next: nat, done: Emitted)
    requires i < |units|
    requires InlineUnits(units[..i], k, targets, id, scene, next) == Ok(done)
    ensures InlineUnits(units[..i + 1], k, targets, id, scene, next) ==
            match Rewrite(units[i], k, targets, id, scene, done.next)
            case Ok(last) => Ok(Emitted(done.units + last.units, last.next))
            case Err(e) => Err(e)
  {
    assert units[..i + 1][..i] == units[..i];
  }

  /** Part way through the pass, the body (rewritten prefix, untouched rest) is still fresh
      below any counter value the pass has reached. */
  lemma InlineUnitsPrefixBelow(units: seq<Stmt>, i: nat, k: Kind, targets: seq<string>, id: nat, scene: Scene, next: nat, n: nat)
    requires AllBelow(units, next) && i <= |units|
    requires InlineUnits(units[..i], k, targets, id, scene, next).Ok?
    requires n >= InlineUnits(units[..i], k, targets, id, scene, next).value.next
    ensures AllBelow(InlineUnits(units[..i], k, targets, id, scene, next).value.units + units[i..], n)
  {
    var done := InlineUnits(units[..i], k, targets, id, scene, next).value;
    assert AllBelow(units[..i], next);
    InlineUnitsBelow(units[..i], k, targets, id, scene, next);
    AllBelowMono(units[i..], next, n);
    AllBelowMono(done.units, done.next, n);
    AllBelowConcat(done.units, units[i..], n);
  }

  // ----- an exception aborts the rest of a pass -----

  /** An attempt that succeeds: its guard, its replacement, the copy into the destination of an
      assignment, the goto to the end label and its own label. */
  lemma AttemptUnfold(k: Kind, target: string, s: Stmt, ie: InvokeExpr, scene: Scene, endLabel: nat, next: nat)
    returns (r: Replacement)
    requires Attempt(k, target, s, ie, scene, endLabel, next).Ok?
    ensures ReplacementFor(k, target, ie, scene, next + 2) == Ok(r)
    ensures Attempt(k, target, s, ie, scene, endLabel, next).value
            == Emitted(Guard(Local(next + 1, BooleanType), next) + r.units
                       + (if s.Assign? then [Assign(s.lhs, Val(Loc(r.result)))] else [])
                       + [Goto(endLabel), Nop(next)], r.next)
  {
    r := ReplacementFor(k, target, ie, scene, next + 2).value;
  }

  /** The rewrite of a matched statement that succeeds: the registration call, the attempts,
      the statement and the end label. */
  lemma RewriteUnfold(s: Stmt, k: Kind, targets: seq<string>, id: nat, scene: Scene, next: nat)
    returns (known: Stmt, a: Blocks)
    requires Matches(s, k) && Rewrite(s, k, targets, id, scene, next).Ok?
    ensures KnownCall(k, id, InvokeOf(s).value) == Ok(known)
    ensures Attempts(k, targets, s, InvokeOf(s).value, scene, next, next + 1) == Ok(a)
    ensures Rewrite(s, k, targets, id, scene, next).value == Emitted([known] + Flatten(a.blocks) + [s, Nop(next)], a.next)
  {
    known := KnownCall(k, id, InvokeOf(s).value).value;
    a := Attempts(k, targets, s, InvokeOf(s).value, scene, next, next + 1).value;
  }

  /** One more target: the attempts so far, then the attempt for that target. */
  lemma AttemptsStep(k: Kind, targets: seq<string>, j: nat, s: Stmt, ie: InvokeExpr, scene: Scene, endLabel: nat, next: nat, a: Blocks)
    requires j < |targets|
    requires Attempts(k, targets[..j], s, ie, scene, endLabel, next) == Ok(a)
    ensures Attempts(k, targets[..j + 1], s, ie, scene, endLabel, next) ==
            match Attempt(k, targets[j], s, ie, scene, endLabel, a.next)
            case Ok(e) => Ok(Blocks(a.blocks + [e.units], e.next))
            case Err(err) => Err(err)
  {
    assert targets[..j + 1][..j] == targets[..j];
  }

  /** Once an attempt raises, the whole target loop raises the same exception. */
  lemma {:induction false} AttemptsErrPrefix(k: Kind, targets: seq<string>, i: nat, s: Stmt, ie: InvokeExpr, scene: Scene, endLabel: nat, next: nat)
    requires i <= |targets|
    requires Attempts(k, targets[..i], s, ie, scene, endLabel, next).Err?
    ensures Attempts(k, targets, s, ie, scene, endLabel, next) == Attempts(k, targets[..i], s, ie, scene, endLabel, next)
  {
    if i < |targets| {
      var n := |targets| - 1;
      assert targets[..n][..i] == targets[..i];
      AttemptsErrPrefix(k, targets[..n], i, s, ie, scene, endLabel, next);
    } else {
      assert targets[..i] == targets;
    }
  }

  lemma PrefixWhole<T>(s: seq<T>, i: nat)
    requires i == |s|
    ensures s[..i] == s
  {
  }

  lemma InlineUnitsErrStep(units: seq<Stmt>, k: Kind, targets: seq<string>, id: nat, scene: Scene, next: nat)
    requires units != []
    requires InlineUnits(units[..|units| - 1], k, targets, id, scene, next).Err?
    ensures InlineUnits(units, k, targets, id, scene, next) == InlineUnits(units[..|units| - 1], k, targets, id, scene, next)
  {
  }

  /** Once a statement of the snapshot raises, the whole pass raises the same exception. */
  lemma {:induction false} InlineUnitsErrPrefix(units: seq<Stmt>, i: nat, k: Kind, targets: seq<string>, id: nat, scene: Scene, next: nat)
    requires i <= |units|
    requires InlineUnits(units[..i], k, targets, id, scene, next).Err?
    ensures InlineUnits(units, k, targets, id, scene, next) == InlineUnits(units[..i], k, targets, id, scene, next)
    decreases |units| - i
  {
    if i < |units| {
      assert units[..i + 1][..i] == units[..i];
      InlineUnitsErrStep(units[..i + 1], k, targets, id, scene, next);
      InlineUnitsErrPrefix(units, i + 1, k, targets, id, scene, next);
    } else {
      PrefixWhole(units, i);
    }
  }
}
