# Reflective-call inlining in Soot, and the int ConstantValue tag

This project models two classes of the Soot Java bytecode framework and proves properties
of the model in Dafny.

**ReflectiveCallsInliner** is a whole-program transformer. It rewrites the reflective calls
that a reflection trace recorded: `Class.forName`, `Class.newInstance`,
`Constructor.newInstance` and `Method.invoke`. For every traced method it runs one pass per
call kind that has recorded targets. The pass walks a snapshot of the method's Jimple units.
Each statement whose invoke has the kind's signature is rewritten into this sequence:

- the `ReflectiveCalls.known…(callSiteId, …)` registration call;
- one guarded attempt per recorded target, in trace order. An attempt is
  `pred = OpaquePredicate.getFalse(); if 0 == pred goto jumpTarget`, then code that performs
  the call directly for that target. For an assignment it then copies the result into the
  destination, then `goto endLabel; jumpTarget:`;
- the original statement, kept as the fallback;
- the end label.

All calls of one (method, kind) pass share one call-site id. The id advances once per pass.
On its first run the transformer writes a registry into the static initialiser of
`soot.rtlib.ReflectiveCalls`. The registry has one group per (method, kind) with targets. A
group loads the kind's `Set` field and adds `callSiteId + target` for each target. The
registry numbers the groups in the same order as the rewriting passes.

**IntegerConstantValueTag** is the `ConstantValue` attribute of an `int` field. It stores the
value and its four-byte big-endian encoding. It provides accessors, `toString`, `hashCode`
and `equals`.

Modules:

- `Wrappers`: `Option`, `Result` and `Outcome`.
- `Decimal`: `Integer.toString` and its parser.
- `Library`: the library methods the inliner names by signature.
- `Jimple`: the IR. It covers statements, values, invoke expressions and fresh-id bounds.
- `InlinerSpec`: what the inliner emits, as pure functions of its inputs.
- `InlinerLemmas`: step, error-propagation and id-bound lemmas about those functions.
- `InlinerProperties`: what the rewrite promises.
- `Inliner`: the imperative model. It has a `Body` class (units plus a fresh-id counter) and a
  `ReflectiveCallsInliner` class (trace, scene, static initialiser, `initialized`,
  `callSiteId`). Its methods are proved to produce exactly what `InlinerSpec` describes.
- `IntTag`: the tag.

Behaviours of the source that the model keeps as written:

- For `Method.invoke` the destination of the call receives the cast receiver, not the value
  the target method returns. The result local is assigned `(T) recv` at
  ReflectiveCallsInliner.java:416-418, and lines 461-466 copy that local into the left-hand
  side. The call emitted at lines 447-456 is an invoke statement whose result is dropped,
  although the comment at line 449 reads `r=recv.<target>(a0,...,an)`.
  `ReplacementResult` states this.
- The registration call comes first in the rewritten sequence. Lines 312-328 add it to the
  new units before the attempts, and lines 474-477 put the new units in the statement's place.
- `Constructor.newInstance` unboxes the arguments before it allocates the object. The unboxing
  loop runs at lines 378-386 and the `new` is built at lines 387-389.
- Body clean-up runs once per method, after all four kinds (lines 148-151).

## Model

| member | source | states |
|---|---|---|
| Inliner.Body.FreshId | src/soot/jimple/toolkits/reflection/ReflectiveCallsInliner.java:338 | a new label (NopStmt) takes the next id of the body's counter; the counter advances by one |
| Inliner.Body.GenerateLocal | src/soot/jimple/toolkits/reflection/ReflectiveCallsInliner.java:341 | LocalGenerator.generateLocal: the local has the requested type and the next id; the counter advances by one |
| Inliner.Body.InsertAfter | src/soot/jimple/toolkits/reflection/ReflectiveCallsInliner.java:475 | the inserted units follow position `pos`; the units before and after are unchanged |
| Inliner.Body.Remove | src/soot/jimple/toolkits/reflection/ReflectiveCallsInliner.java:476 | the unit at `pos` is gone and the others keep their order |
| Inliner.Splice | src/soot/jimple/toolkits/reflection/ReflectiveCallsInliner.java:474-478 | the four chain operations leave the new units, the statement itself and the end label in the statement's place; the rest of the body is unchanged |
| Inliner.ReflectiveCallsInliner.constructor | src/soot/jimple/toolkits/reflection/ReflectiveCallsInliner.java:87-92 | a new transformer over traced bodies that are distinct, valid and not the static initialiser is valid, not initialized, and its call-site id is 0 |
| Inliner.ReflectiveCallsInliner.UnboxParameter | src/soot/jimple/toolkits/reflection/ReflectiveCallsInliner.java:493-525 | emits the three unboxing units of one parameter (array read; for a primitive a cast to the box class and its `xValue()`, otherwise a cast); it draws exactly two locals |
| Inliner.ReflectiveCallsInliner.UnboxArguments | src/soot/jimple/toolkits/reflection/ReflectiveCallsInliner.java:378-386 | the parameter loop emits `UnboxAll`: three units and three ids per parameter, parameter locals in order |
| Inliner.ReflectiveCallsInliner.BuildReplacement | src/soot/jimple/toolkits/reflection/ReflectiveCallsInliner.java:347-459 | both switches over the kind produce `ReplacementFor`, including its exceptions: unknown method or class, missing argument, argument array that is not a local; the `Constructor.newInstance` and `Method.invoke` arms are the two methods below |
| Inliner.ReflectiveCallsInliner.BuildConstructorReplacement | src/soot/jimple/toolkits/reflection/ReflectiveCallsInliner.java:366-446 | the `Constructor.newInstance` arm: unbox the arguments, `new` of the declaring class, then the constructor call on it by the reference built from the target signature; equal to `ReplacementFor`, exceptions included |
| Inliner.ReflectiveCallsInliner.BuildMethodReplacement | src/soot/jimple/toolkits/reflection/ReflectiveCallsInliner.java:393-456 | the `Method.invoke` arm: unbox the arguments, cast the receiver, then a static call or a virtual call on the cast receiver by the reference built from the target signature; equal to `ReplacementFor`, exceptions included |
| Inliner.ReflectiveCallsInliner.BuildAttempt | src/soot/jimple/toolkits/reflection/ReflectiveCallsInliner.java:338-471 | one iteration of the target loop produces `Attempt`: guard, replacement, copy into the destination, goto end, jump target |
| Inliner.ReflectiveCallsInliner.BuildAttempts | src/soot/jimple/toolkits/reflection/ReflectiveCallsInliner.java:336-472 | the target loop concatenates the attempts in target order, or raises the first attempt's exception |
| Inliner.ReflectiveCallsInliner.RewriteAt | src/soot/jimple/toolkits/reflection/ReflectiveCallsInliner.java:305-479 | the statement at `pos` is replaced in place by its rewrite, or is left alone when it does not match; on an exception the body is unchanged; ids stay fresh |
| Inliner.ReflectiveCallsInliner.InlineReflectiveCalls | src/soot/jimple/toolkits/reflection/ReflectiveCallsInliner.java:296-483 | the loop over the snapshot leaves `InlineUnits` of the old units; the call-site id advances once, only when the pass completes |
| Inliner.ReflectiveCallsInliner.RegistryGroupUnits | src/soot/jimple/toolkits/reflection/ReflectiveCallsInliner.java:168-177 | one group: a fresh Set local loads the kind's registry field, then one `add(id + target)` per target in order |
| Inliner.ReflectiveCallsInliner.AddKindRegistry | src/soot/jimple/toolkits/reflection/ReflectiveCallsInliner.java:167-178 | a kind without targets adds nothing; otherwise it appends its group with the next id |
| Inliner.ReflectiveCallsInliner.AddMethodRegistry | src/soot/jimple/toolkits/reflection/ReflectiveCallsInliner.java:166-215 | the four kind blocks of a method append its groups; the id and the counter advance by the number of groups |
| Inliner.ReflectiveCallsInliner.InitializeReflectiveCallsTable | src/soot/jimple/toolkits/reflection/ReflectiveCallsInliner.java:155-221 | the registry of all groups, with ids counted from 0, goes before the last unit of the static initialiser; an initialiser with fewer than two units raises |
| Inliner.ReflectiveCallsInliner.TransformBody | src/soot/jimple/toolkits/reflection/ReflectiveCallsInliner.java:123-147 | the four blocks run one pass per kind with targets, in kind order (`KindPasses`); the first exception stops them |
| Inliner.ReflectiveCallsInliner.TransformEntry | src/soot/jimple/toolkits/reflection/ReflectiveCallsInliner.java:120-147 | one traced method is transformed; every other traced body is unchanged |
| Inliner.ReflectiveCallsInliner.TransformAll | src/soot/jimple/toolkits/reflection/ReflectiveCallsInliner.java:120-152 | every traced method, in trace order, is transformed with the ids that follow the groups of the methods before it |
| Inliner.ReflectiveCallsInliner.InternalTransform | src/soot/jimple/toolkits/reflection/ReflectiveCallsInliner.java:95-153 | first run: writes the registry, then rewrites with ids from 0; later runs: the registry is untouched and ids continue |
| InlinerSpec.UnboxAll | src/soot/jimple/toolkits/reflection/ReflectiveCallsInliner.java:380-385 | three units and three ids per parameter; the i-th parameter value is local `next + 3i` of the i-th declared type |
| InlinerSpec.Replace | src/soot/jimple/toolkits/reflection/ReflectiveCallsInliner.java:355 | `String.replace(from, to)`: same length, every `from` becomes `to`, other characters are kept |
| InlinerSpec.KnownCall | src/soot/jimple/toolkits/reflection/ReflectiveCallsInliner.java:312-328 | the registration call is a static call of the kind's `known…` method with exactly its operands: the call-site id first, then the class name for `Class.forName`, the receiver object (argument 0) followed by the `Method` local for `Method.invoke`, or the call's receiver for the two `newInstance` kinds; it raises exactly when one of those operands is missing |
| InlinerSpec.RegistryKey | src/soot/jimple/toolkits/reflection/ReflectiveCallsInliner.java:173 | `callSiteId + target`: the canonical decimal rendering of the id (`NatToString`, no sign and no leading zero), which parses back to it, followed by the target |
| InlinerLemmas.MatchesBySignature | src/soot/jimple/toolkits/reflection/ReflectiveCallsInliner.java:312-324 | for canonical references, a statement matches a kind exactly when it holds an invoke whose signature string is that kind's reflective signature; the passes keep every reference canonical (`KindPassesCanonical`), so this holds on later runs too |
| InlinerLemmas.BuiltRefNotLibrary | src/soot/jimple/toolkits/reflection/ReflectiveCallsInliner.java:500-506 | the unboxing and constructor references the inliner builds never carry a library signature |
| InlinerLemmas.KindPassesErr | src/soot/jimple/toolkits/reflection/ReflectiveCallsInliner.java:123-147 | once a kind's pass raises, the later kinds do not run and the method's outcome is that exception |
| InlinerLemmas.KindPassesIds | src/soot/jimple/toolkits/reflection/ReflectiveCallsInliner.java:125-146 | the passes of a method advance the call-site id by the number of its kinds with targets |
| InlinerLemmas.SiteIdsAt | src/soot/jimple/toolkits/reflection/ReflectiveCallsInliner.java:120-152 | method j starts with id `base` plus the number of groups of the methods before it |
| InlinerLemmas.PassIdsFollowGroups | src/soot/jimple/toolkits/reflection/ReflectiveCallsInliner.java:120-152 | a method's passes end with the id at which the next method starts |
| InlinerLemmas.GroupsSnoc | src/soot/jimple/toolkits/reflection/ReflectiveCallsInliner.java:166-215 | helper, the definition of `Groups` unfolded once: the groups of one more method are those before it followed by its own |
| InlinerLemmas.EntryGroupsPrefix | src/soot/jimple/toolkits/reflection/ReflectiveCallsInliner.java:167-214 | the groups of a method's first kinds are a prefix of all its groups |
| InlinerLemmas.RegistryUnitsBelow | src/soot/jimple/toolkits/reflection/ReflectiveCallsInliner.java:170 | the registry uses only Set locals drawn from the initialiser's counter, one per group |
| InlinerLemmas.InlineUnitsBelow | src/soot/jimple/toolkits/reflection/ReflectiveCallsInliner.java:296-483 | every local and label a pass leaves is below the body's new counter |
| InlinerLemmas.InlineUnitsStep | src/soot/jimple/toolkits/reflection/ReflectiveCallsInliner.java:304-481 | helper, the definition of `InlineUnits` unfolded once: one more snapshot statement appends its rewrite to the units emitted so far |
| InlinerLemmas.InlineUnitsErrPrefix | src/soot/jimple/toolkits/reflection/ReflectiveCallsInliner.java:304-481 | once a snapshot statement raises, the whole pass raises that exception |
| InlinerLemmas.AttemptsStep | src/soot/jimple/toolkits/reflection/ReflectiveCallsInliner.java:336-472 | helper, the definition of `Attempts` unfolded once: one more target appends its attempt to the attempts so far |
| InlinerLemmas.AttemptsErrPrefix | src/soot/jimple/toolkits/reflection/ReflectiveCallsInliner.java:336-472 | once an attempt raises, the whole target loop raises that exception |
| InlinerProperties.UnboxAllAt | src/soot/jimple/toolkits/reflection/ReflectiveCallsInliner.java:380-385 | parameter i owns units 3i to 3i + 2: they read element i of the argument array and end by assigning the local passed for parameter i |
| InlinerProperties.UnboxAllSlice | src/soot/jimple/toolkits/reflection/ReflectiveCallsInliner.java:380-385 | units 3i to 3i + 2 are exactly the unboxing of parameter i with its own ids |
| InlinerProperties.UnboxParameterShape | src/soot/jimple/toolkits/reflection/ReflectiveCallsInliner.java:507-524 | the unboxing of a parameter has three units; it first loads the array element into a fresh Object local and last assigns the parameter local |
| InlinerProperties.UnboxedLhsBelow | src/soot/jimple/toolkits/reflection/ReflectiveCallsInliner.java:493-525 | every unboxing unit is a plain assignment to a freshly drawn local and names every method by a canonical reference |
| InlinerProperties.ResultRhs | src/soot/jimple/toolkits/reflection/ReflectiveCallsInliner.java:353-355 | for Class.forName the result is a class constant of the target's length with no '.' left in it |
| InlinerProperties.ReplacementResult | src/soot/jimple/toolkits/reflection/ReflectiveCallsInliner.java:426-466 | the result local is the last local drawn and exactly one unit assigns it, with the kind's right-hand side; for Method.invoke that is the cast receiver |
| InlinerProperties.ReplacementSkeleton | src/soot/jimple/toolkits/reflection/ReflectiveCallsInliner.java:350-459 | kind skeletons: forName is one unit; newInstance allocates and calls the no-argument constructor; the other two use 3n + 2 units and call the target with the unboxed locals (constructor on the new object, static with no receiver, virtual on the cast receiver) |
| InlinerProperties.ReplacementPlain | src/soot/jimple/toolkits/reflection/ReflectiveCallsInliner.java:347-459 | a replacement is straight-line code that calls no library method, for a target that is not itself a library method (`OwnTarget`) |
| InlinerProperties.GuardedBlock | src/soot/jimple/toolkits/reflection/ReflectiveCallsInliner.java:340-471 | layout of an attempt: guard, branch to its own label, body, optional copy, goto end, label |
| InlinerProperties.AttemptShape | src/soot/jimple/toolkits/reflection/ReflectiveCallsInliner.java:338-471 | guard shape `pred = getFalse(); if 0 == pred goto jumpTarget`; the replacement follows; an assignment copies the result local into its destination; `goto endLabel` and the jump target close the attempt (for a target that is not a library method) |
| InlinerProperties.GuardedBlockInside | src/soot/jimple/toolkits/reflection/ReflectiveCallsInliner.java:338-471 | a guarded block branches only forward to its own label and jumps only to the end label |
| InlinerProperties.AttemptInside | src/soot/jimple/toolkits/reflection/ReflectiveCallsInliner.java:338-471 | one attempt keeps control inside and calls no library method except getFalse (for a target that is not a library method) |
| InlinerProperties.AttemptsInside | src/soot/jimple/toolkits/reflection/ReflectiveCallsInliner.java:336-472 | the attempts of all targets together keep control inside (for targets that are not library methods) |
| InlinerProperties.RewriteSplice | src/soot/jimple/toolkits/reflection/ReflectiveCallsInliner.java:309-479 | splice order: the registration call first, then the attempts, which keep control inside, then the original statement, then the end label (for targets that are not library methods) |
| InlinerProperties.RewriteShape | src/soot/jimple/toolkits/reflection/ReflectiveCallsInliner.java:309-479 | the rewrite starts with the registration call carrying the pass's id and ends with the statement and the end label; every goto reaches the end label and every guard branches forward (counts and positions: `RewriteLayout`, `RewriteGotos`) |
| InlinerProperties.AttemptAdvances | src/soot/jimple/toolkits/reflection/ReflectiveCallsInliner.java:338-418 | an attempt draws at least three ids: its jump label, its guard local and its result local |
| InlinerProperties.AttemptsAt | src/soot/jimple/toolkits/reflection/ReflectiveCallsInliner.java:336-472 | the target loop emits exactly one attempt per target, in target order; attempt j is `Attempt` of `targets[j]` drawn from the counter that attempt j - 1 left, so the counters strictly increase |
| InlinerProperties.AttemptFrame | src/soot/jimple/toolkits/reflection/ReflectiveCallsInliner.java:338-471 | an attempt's second unit is its guard's branch to its own label; it ends with `goto endLabel` and that label |
| InlinerProperties.RewriteLayout | src/soot/jimple/toolkits/reflection/ReflectiveCallsInliner.java:305-479 | attempt j of a rewrite occupies units pos[j] to pos[j + 1]; the first starts right after the registration call, the last ends right before the statement; so the label that closes attempt j, its guard's target, is followed by attempt j + 1 or by the statement |
| InlinerProperties.ReplacementStraight | src/soot/jimple/toolkits/reflection/ReflectiveCallsInliner.java:347-459 | every replacement unit is an assignment or an invoke statement: no jump and no label |
| InlinerProperties.AttemptGotos | src/soot/jimple/toolkits/reflection/ReflectiveCallsInliner.java:338-471 | one attempt holds exactly one goto |
| InlinerProperties.AttemptsGotos | src/soot/jimple/toolkits/reflection/ReflectiveCallsInliner.java:336-472 | the attempts of a target list hold one goto per target |
| InlinerProperties.RewriteGotos | src/soot/jimple/toolkits/reflection/ReflectiveCallsInliner.java:305-479 | the rewrite of a matched statement holds exactly as many gotos as there are targets |
| InlinerProperties.SpliceJumps | src/soot/jimple/toolkits/reflection/ReflectiveCallsInliner.java:474-478 | control stays inside a splice whose first unit and fallback do not jump |
| InlinerProperties.SpliceCalls | src/soot/jimple/toolkits/reflection/ReflectiveCallsInliner.java:474-478 | a splice's calls of a reflective or registration method are those of its first unit and of the fallback |
| InlinerProperties.NoMatchNoChange | src/soot/jimple/toolkits/reflection/ReflectiveCallsInliner.java:309-331 | a pass over statements none of which matches changes nothing and draws no id |
| InlinerProperties.RewriteCalls | src/soot/jimple/toolkits/reflection/ReflectiveCallsInliner.java:309-479 | a rewrite keeps the statement's own calls and adds only its registration call, and only when it matches (for targets that are not library methods) |
| InlinerProperties.PassKeepsReflectiveCalls | src/soot/jimple/toolkits/reflection/ReflectiveCallsInliner.java:296-483 | a pass keeps every reflective call of every kind exactly once and in order (for targets that are not library methods; `LibraryTargetCallsLibrary` shows why) |
| InlinerProperties.RewriteRegisters | src/soot/jimple/toolkits/reflection/ReflectiveCallsInliner.java:312-328 | the registration calls of a rewrite are those of the reflective call it rewrote, with the pass's id (for targets that are not library methods) |
| InlinerProperties.PassRegistersEachCall | src/soot/jimple/toolkits/reflection/ReflectiveCallsInliner.java:296-483 | one id per pass: every reflective call of the kind gets exactly one registration call, all with the same id, in order (for targets that are not library methods) |
| InlinerProperties.ReplacementCanonical | src/soot/jimple/toolkits/reflection/ReflectiveCallsInliner.java:347-459 | a replacement names every method canonically: a target signature that is a library method's becomes that library reference |
| InlinerProperties.LibraryTargetCallsLibrary | src/soot/jimple/toolkits/reflection/ReflectiveCallsInliner.java:440-456 | a `Constructor.newInstance` or `Method.invoke` target that is itself a library method is called as that method; when it is a reflective method, the call matches that kind in later passes, as the string comparison at lines 312-324 does |
| InlinerProperties.AttemptCanonical | src/soot/jimple/toolkits/reflection/ReflectiveCallsInliner.java:338-471 | an attempt names every method canonically |
| InlinerProperties.AttemptsCanonical | src/soot/jimple/toolkits/reflection/ReflectiveCallsInliner.java:336-472 | the attempts of all targets name every method canonically |
| InlinerProperties.RewriteCanonical | src/soot/jimple/toolkits/reflection/ReflectiveCallsInliner.java:305-479 | the rewrite of a statement whose call is canonical names every method canonically |
| InlinerProperties.PassKeepsCanonical | src/soot/jimple/toolkits/reflection/ReflectiveCallsInliner.java:296-483 | a pass over a body whose calls are canonical leaves them canonical |
| InlinerProperties.KindPassesCanonical | src/soot/jimple/toolkits/reflection/ReflectiveCallsInliner.java:123-147 | all passes over a method keep its calls canonical, so the next pass, and the next run, match by signature string as the source does (`MatchesBySignature`) |
| InlinerProperties.InlineSplit | src/soot/jimple/toolkits/reflection/ReflectiveCallsInliner.java:300-481 | helper, the definition of `InlineUnits` unfolded once: a pass over a snapshot is the pass over all statements but the last, followed by the last one's rewrite |
| InlinerProperties.GroupsPrefix | src/soot/jimple/toolkits/reflection/ReflectiveCallsInliner.java:166-215 | the groups of the first m methods are a prefix of all groups |
| InlinerProperties.EntryGroupAt | src/soot/jimple/toolkits/reflection/ReflectiveCallsInliner.java:167-214 | a method's group of a kind follows its groups of the earlier kinds |
| InlinerProperties.MethodGroupAt | src/soot/jimple/toolkits/reflection/ReflectiveCallsInliner.java:166-215 | a method's j-th group follows the groups of the methods before it |
| InlinerProperties.GroupAt | src/soot/jimple/toolkits/reflection/ReflectiveCallsInliner.java:166-215 | the position of the (method, kind) group in the group list of the whole trace |
| InlinerProperties.GroupOfId | src/soot/jimple/toolkits/reflection/ReflectiveCallsInliner.java:120-147 | the id a pass receives, which `KindPassesIds` gives as the id of the method plus its groups of the earlier kinds, is in range and names the registry group of its own (method, kind) |
| InlinerProperties.AddUnitsAt | src/soot/jimple/toolkits/reflection/ReflectiveCallsInliner.java:172-175 | the t-th add of a group records the id followed by the t-th target |
| InlinerProperties.RegistryPrefix | src/soot/jimple/toolkits/reflection/ReflectiveCallsInliner.java:166-215 | the registry of the first j groups is a prefix of the whole registry |
| InlinerProperties.GroupRegistryUnitsAt | src/soot/jimple/toolkits/reflection/ReflectiveCallsInliner.java:168-177 | a group loads its kind's Set field and then adds each target under its id |
| InlinerProperties.RegistryEntry | src/soot/jimple/toolkits/reflection/ReflectiveCallsInliner.java:166-215 | group j occupies the registry units right after those of the groups before it |
| InlinerProperties.RegistryHasEntry | src/soot/jimple/toolkits/reflection/ReflectiveCallsInliner.java:166-215 | group j is registered with id `id0 + j` in the j-th Set local, one add per target |
| InlinerProperties.GroupIdRegistered | src/soot/jimple/toolkits/reflection/ReflectiveCallsInliner.java:166-215 | the group of (method i, kind k) is registered under the number of groups before it |
| InlinerProperties.CallSiteIdsMatchRegistry | src/soot/jimple/toolkits/reflection/ReflectiveCallsInliner.java:113-152 | registry alignment: on the first run, every recorded target of the pass of (method i, kind k) is added to kind k's Set under exactly the id that pass uses |
| InlinerProperties.RegistryKeyUnique | src/soot/jimple/toolkits/reflection/ReflectiveCallsInliner.java:173 | `callSiteId + target` determines both parts when the target does not start with a digit |
| InlinerProperties.RegistryKeyAmbiguous | src/soot/jimple/toolkits/reflection/ReflectiveCallsInliner.java:173 | without that condition two entries coincide: `1 + "2x"` equals `12 + "x"` |
| Library.LibrarySignatureInjective | src/soot/jimple/toolkits/reflection/ReflectiveCallsInliner.java:312-328 | the library signatures the inliner compares and calls are pairwise different |
| Jimple.InvokeOf | src/soot/jimple/toolkits/reflection/ReflectiveCallsInliner.java:309-310 | a statement contains an invoke exactly when it is an invoke statement or an assignment of an invoke |
| Jimple.LibraryOfSignature | src/soot/jimple/toolkits/reflection/ReflectiveCallsInliner.java:312-328 | looking a signature up among the library methods finds the method with exactly that signature, and fails only when no library method has it |
| Jimple.RefOfSignature | src/soot/jimple/toolkits/reflection/ReflectiveCallsInliner.java:440-455 | the reference the inliner builds from a target signature has that signature and is canonical: a library method's signature gives its library reference |
| IntTag.Wrap32 | src/main/java/soot/tagkit/IntegerConstantValueTag.java:56 | int arithmetic: the result is an int congruent to the exact value modulo 2^32 |
| IntTag.ShiftRight | src/main/java/soot/tagkit/IntegerConstantValueTag.java:35 | `v >> n` is an arithmetic shift: the floor of v / 2^n, for the shifts by 0, 8, 16 and 24 the encoding uses |
| IntTag.LowByte | src/main/java/soot/tagkit/IntegerConstantValueTag.java:35 | `x & 0xff` lies in 0..255 |
| IntTag.ToByte | src/main/java/soot/tagkit/IntegerConstantValueTag.java:35 | the `(byte)` cast keeps the low eight bits |
| IntTag.Encode | src/main/java/soot/tagkit/IntegerConstantValueTag.java:35-36 | the encoding has four bytes |
| IntTag.SplitBytes | src/main/java/soot/tagkit/IntegerConstantValueTag.java:35-36 | an int is a signed high byte followed by three unsigned bytes |
| IntTag.DecodeEncode | src/main/java/soot/tagkit/IntegerConstantValueTag.java:33-37 | round trip: the four big-endian bytes decode back to the value |
| IntTag.NewTag | src/main/java/soot/tagkit/IntegerConstantValueTag.java:33-37 | the constructor keeps the value, and its four bytes decode to that value |
| IntTag.GetIntValue | src/main/java/soot/tagkit/IntegerConstantValueTag.java:39-41 | getIntValue is the value the stored bytes decode to |
| IntTag.GetConstant | src/main/java/soot/tagkit/IntegerConstantValueTag.java:47-50 | the IntConstant holds the same value as getIntValue and the bytes |
| IntTag.ToString | src/main/java/soot/tagkit/IntegerConstantValueTag.java:43-45 | "ConstantValue: " followed by exactly `Integer.toString` of the value: an optional '-' for negatives only, then digits without a leading zero, which parse back to the value |
| IntTag.HashCode | src/main/java/soot/tagkit/IntegerConstantValueTag.java:52-58 | the hash is `31 * super.hashCode() + value` with int wrap-around (congruent modulo 2^32) |
| IntTag.HashCodeSeparatesValues | src/main/java/soot/tagkit/IntegerConstantValueTag.java:52-58 | with the same super hash, different values give different hash codes |
| IntTag.Equals | src/main/java/soot/tagkit/IntegerConstantValueTag.java:60-76 | equal exactly when it is the same object, or super.equals holds and the other is a tag of this class with the same value |
| IntTag.EqualsReflexive | src/main/java/soot/tagkit/IntegerConstantValueTag.java:62-64 | a tag equals itself whatever super.equals says |
| IntTag.EqualsSymmetric | src/main/java/soot/tagkit/IntegerConstantValueTag.java:60-76 | equals is symmetric when super.equals answers the same both ways |
| IntTag.EqualsAgreesWithHashCode | src/main/java/soot/tagkit/IntegerConstantValueTag.java:52-76 | equal tags with equal super hashes have equal hash codes |
| Decimal.NatToString | src/main/java/soot/tagkit/IntegerConstantValueTag.java:44 | the decimal rendering of a natural is non-empty, all digits, without a leading zero |
| Decimal.ParseNatToString | src/main/java/soot/tagkit/IntegerConstantValueTag.java:44 | parsing the rendering of a natural gives it back |
| Decimal.IntToStringRoundTrip | src/main/java/soot/tagkit/IntegerConstantValueTag.java:44 | `Integer.toString` starts with '-' exactly for negatives, is digits otherwise, and parses back to the int |
| Decimal.IntToString | src/main/java/soot/tagkit/IntegerConstantValueTag.java:44 | `Integer.toString` has the canonical form: a '-' exactly for negatives, then one or more digits without a leading zero, and no sign for 0 |
| Decimal.NatToStringOfParse | src/main/java/soot/tagkit/IntegerConstantValueTag.java:44 | a digit string without a leading zero is the rendering of the number it reads as |
| Decimal.IntToStringOfCanonical | src/main/java/soot/tagkit/IntegerConstantValueTag.java:44 | every string of the canonical form is the rendering of the int it reads as, so that form pins the rendering down |
| Decimal.NatToStringInjective | src/soot/jimple/toolkits/reflection/ReflectiveCallsInliner.java:173 | different call-site ids render differently |
| Decimal.DigitPrefixUnique | src/soot/jimple/toolkits/reflection/ReflectiveCallsInliner.java:173 | a rendering followed by a string that does not start with a digit determines both parts |

## Left out

- The caching instrumentation (`addCaching`, lines 223-293). It is switched off by a constant
  in the source.
- The side effects of the first run before the registry. These are reading the trace log,
  marking the runtime-support classes as application classes, and building the getFalse
  reference. The trace, the scene and the static initialiser are constructor parameters
  instead.
- The clean-up passes (dead assignments, copy propagation, nops) and `validate()`. They live in
  other classes. The model states each body as the rewriting leaves it, before clean-up.
- `PatchingChain`'s redirection of jumps when a unit is removed. Branch targets are label ids,
  and `Remove` only deletes the unit.
- Soot's `LocalGenerator` and `NopStmt` identities. Locals and labels are named by one shared
  counter per body. A body's locals list is not modelled.
- `Scene` internals. `getMethod` is a lookup in a map of method facts: declaring class,
  parameter types, static or not. `getSootClass` is membership in a set of class names. A
  missing entry raises, as Soot does (phantom classes are not modelled). The `known…`
  registration methods are assumed present.
- Method references the source compares by signature string. They are structured values:
  `LibraryRef` for the library methods, plus the unboxing and constructor references the
  inliner builds. A reference built from a target signature goes through `RefOf`, so a library
  method's signature always becomes its `LibraryRef`. `MatchesBySignature` shows that matching
  agrees with string comparison on canonical references, and `KindPassesCanonical` shows that
  the passes keep every reference canonical. Input bodies are assumed to follow the same
  convention: a body that names a library method by `BySignature` of its signature is not
  matched by the model, where the source's string comparison would match it.
- A `Constructor.newInstance` or `Method.invoke` target that is itself one of the library
  methods is modelled as the source does it: the attempt calls that library method
  (`LibraryTargetCallsLibrary`). Such an attempt adds a library call, and for a reflective
  method a call that later passes rewrite again. The lemmas below state the shape and call
  properties of a pass only for targets that are not library methods (`OwnTarget`,
  `OwnTargets`); the model itself handles every target.
- InlinerProperties.ReplacementPlain: assumes `OwnTarget`, as explained above.
- InlinerProperties.AttemptShape: assumes `OwnTarget`, as explained above.
- InlinerProperties.AttemptInside: assumes `OwnTarget`, as explained above.
- InlinerProperties.AttemptsInside: assumes `OwnTargets`, as explained above.
- InlinerProperties.RewriteSplice: assumes `OwnTargets`, as explained above.
- InlinerProperties.RewriteShape: assumes `OwnTargets`, as explained above.
- InlinerProperties.RewriteCalls: assumes `OwnTargets`, as explained above.
- InlinerProperties.PassKeepsReflectiveCalls: assumes `OwnTargets`, as explained above.
- InlinerProperties.RewriteRegisters: assumes `OwnTargets`, as explained above.
- InlinerProperties.PassRegistersEachCall: assumes `OwnTargets`, as explained above.
- Inliner.ReflectiveCallsInliner.InlineReflectiveCalls: on an exception the contract does not
  state the partly patched body, only that the id did not advance.
- Inliner.ReflectiveCallsInliner.TransformBody: on an exception the contract states only the
  exception. The body is partly patched and the passes that completed have advanced the id
  (ReflectiveCallsInliner.java:482), as in the source.
- Inliner.ReflectiveCallsInliner.TransformEntry: on an exception the contract states only the
  exception; the body and the id are as after `TransformBody`.
- Inliner.ReflectiveCallsInliner.TransformAll: on an exception the contract states nothing
  beyond `Valid()`. The bodies already transformed stay patched, the failing body is partly
  patched and the id has advanced, as in the source.
- Inliner.ReflectiveCallsInliner.InternalTransform: on an exception from the passes the contract
  states nothing beyond `Valid()`, for the same reason as `TransformAll`; only the missing
  insertion point of the static initialiser is stated as an exception.
- Inliner.ReflectiveCallsInliner.InternalTransform: the registry and the rewrite are proved
  aligned for the first run (ids from 0, `CallSiteIdsMatchRegistry`). A second run continues
  the ids and writes no new registry. This is stated but not related to any registry.
- Inliner.ReflectiveCallsInliner.Valid: assumes that the traced bodies are distinct objects and
  that none is the static initialiser of `ReflectiveCalls`.
- `callSiteId` is an unbounded natural. Java's `int` overflow after 2^31 groups is not
  modelled.
- The trace's target sets and its set of traced methods are sequences. Their iteration order
  is taken to be the same in the registry and in the rewrite, as for a `HashSet` that is not
  modified in between. The traced methods are iterated at ReflectiveCallsInliner.java:120 and
  166, and the target sets at lines 172, 184, 196 and 208 and again at line 336.
- IntTag.Equals: `equals(null)` is not modelled; the argument is always an object.
  `super.equals` and `super.hashCode` are parameters.
- InlinerProperties.RegistryKeyUnique: registry keys `callSiteId + target` are proved
  unambiguous only for targets that do not start with a digit, which holds for class names
  and signatures. `RegistryKeyAmbiguous` shows the collision otherwise.
- The runtime semantics of the rewritten code are not modelled: no execution of Jimple, so no
  proof that the fallback path behaves like the original call. The model proves its shape:
  every jump stays inside the splice, and the original call is kept exactly once.
