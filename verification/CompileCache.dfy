/**
 * The compile cache: function wasm is uploaded to a remote store through a
 * loader that also keeps local copies, and compiled for every configured
 * target. A stored hash beside each object says which wasm it was made from,
 * and compilation stops at the first target whose hash is up to date.
 */
module CompileCache {
  import opened Bytes
  import opened Options

  datatype Target = Target(arch: string, cpu: string)

  datatype File =
    | Wasm(owner: string)
    | Object(owner: string, name: string)
    | Hash(owner: string, name: string)

  type Files = map<File, bytes>

  /** The hash and the compiler, which are not part of this model. */
  datatype Tools = Tools(hash: bytes -> bytes, compile: (bytes, Target) -> bytes) {
    ghost predicate NonEmptyHashes() { forall a :: hash(a) != [] }

    /** No two modules share a hash. */
    ghost predicate Sound() { NonEmptyHashes() && forall a, b :: hash(a) == hash(b) ==> a == b }
  }

  function ObjectName(t: Target): string { "function.wasm." + t.arch + "." + t.cpu + ".o" }

  ghost predicate DistinctNames(targets: seq<Target>) {
    forall i, j :: 0 <= i < j < |targets| ==> ObjectName(targets[i]) != ObjectName(targets[j])
  }

  /** Names are distinct for distinct targets as long as no architecture has a dot in its name. */
  lemma NamesIdentifyTargets(a: Target, b: Target)
    requires '.' !in a.arch && '.' !in b.arch && ObjectName(a) == ObjectName(b)
    ensures a == b
  {
    var prefix := |"function.wasm."|;
    var x, y := a.arch + "." + a.cpu + ".o", b.arch + "." + b.cpu + ".o";
    assert ObjectName(a)[prefix..] == x && ObjectName(b)[prefix..] == y;
    assert x[|a.arch|] == '.' && forall k :: 0 <= k < |a.arch| ==> x[k] == a.arch[k] != '.';
    assert y[|b.arch|] == '.' && forall k :: 0 <= k < |b.arch| ==> y[k] == b.arch[k] != '.';
    assert |a.arch| == |b.arch|;
    assert a.arch == x[..|a.arch|] == b.arch;
    assert a.cpu == x[|a.arch| + 1..|x| - 2] == b.cpu;
  }

  // ---------- The loader ----------

  ghost predicate Agree(local: Files, remote: Files) {
    forall f :: f in local ==> f in remote && local[f] == remote[f]
  }

  class FileLoader {
    const useLocal: bool
    var local: Files
    var remote: Files

    /** Local copies may be left over from an earlier process; they must still be what the store holds. */
    constructor (useLocal: bool, local: Files, remote: Files)
      ensures this.useLocal == useLocal && this.local == local && this.remote == remote
      ensures Coherent() <==> (useLocal ==> Agree(local, remote))
    {
      this.useLocal := useLocal;
      this.local, this.remote := local, remote;
    }

    /** Every local copy is what the remote store holds. */
    ghost predicate Coherent()
      reads this
    {
      useLocal ==> Agree(local, remote)
    }

    /** Local copies are never visible: a load returns what the remote store holds. */
    method LoadFileBytes(file: File, tolerateMissing: bool) returns (r: Option<bytes>)
      requires Coherent()
      modifies this`local
      ensures Coherent()
      ensures r == if file in remote then Some(remote[file]) else if tolerateMissing then Some([]) else None
    {
      if useLocal && file in local {
        return Some(local[file]);
      }
      if file !in remote && !tolerateMissing {
        return None;
      }
      var data := if file in remote then remote[file] else [];
      if data != [] && useLocal {
        local := local[file := data];
      }
      return Some(data);
    }

    method UploadFileBytes(file: File, data: bytes)
      requires Coherent()
      modifies this
      ensures Coherent() && remote == old(remote)[file := data]
    {
      remote := remote[file := data];
      if useLocal {
        local := local[file := data];
      }
    }
  }

  // ---------- What one compilation does ----------

  predicate UpToDate(tools: Tools, files: Files, func: string, wasm: bytes, t: Target) {
    Hash(func, ObjectName(t)) in files && files[Hash(func, ObjectName(t))] == tools.hash(wasm)
  }

  predicate Current(tools: Tools, files: Files, func: string, wasm: bytes, t: Target) {
    Object(func, ObjectName(t)) in files && files[Object(func, ObjectName(t))] == tools.compile(wasm, t)
  }

  function Compiled(tools: Tools, files: Files, func: string, wasm: bytes, t: Target): Files {
    files[Object(func, ObjectName(t)) := tools.compile(wasm, t)][Hash(func, ObjectName(t)) := tools.hash(wasm)]
  }

  /** The targets from `i` on, in order; `failAt` is where the compiler throws, if it gets there. */
  function Generate(tools: Tools, files: Files, func: string, wasm: bytes, targets: seq<Target>, i: nat, clean: bool, failAt: nat)
    : (Files, bool)
    requires i <= |targets|
    decreases |targets| - i
  {
    if i == |targets| then (files, true)
    else if !clean && UpToDate(tools, files, func, wasm, targets[i]) then (files, Object(func, ObjectName(targets[i])) in files)
    else if i == failAt then (files, false)
    else Generate(tools, Compiled(tools, files, func, wasm, targets[i]), func, wasm, targets, i + 1, clean, failAt)
  }

  /** The first target from `i` on whose hash is that of the wasm. */
  function FirstMatch(tools: Tools, files: Files, func: string, wasm: bytes, targets: seq<Target>, i: nat): (m: nat)
    requires i <= |targets|
    ensures i <= m <= |targets|
    decreases |targets| - i
  {
    if i == |targets| || UpToDate(tools, files, func, wasm, targets[i]) then i
    else FirstMatch(tools, files, func, wasm, targets, i + 1)
  }

  /** How far the loop over the targets gets if the compiler does not throw. */
  function Reach(tools: Tools, files: Files, func: string, wasm: bytes, targets: seq<Target>, i: nat, clean: bool): (m: nat)
    requires i <= |targets|
    ensures i <= m <= |targets|
  {
    if clean then |targets| else FirstMatch(tools, files, func, wasm, targets, i)
  }

  predicate Same(before: Files, after: Files, f: File) {
    (f in before <==> f in after) && (f in before ==> before[f] == after[f])
  }

  ghost predicate Untouched(f: File, func: string, targets: seq<Target>, i: nat, stop: nat)
    requires stop <= |targets|
  {
    f.Wasm? || f.owner != func || forall k :: i <= k < stop ==> ObjectName(targets[k]) != f.name
  }

  /** `after` is `before` with the objects and hashes of the targets in [i, stop) replaced and nothing else. */
  ghost predicate Replaced(tools: Tools, before: Files, after: Files, func: string, wasm: bytes, targets: seq<Target>, i: nat, stop: nat)
    requires i <= stop <= |targets|
  {
    && (forall k :: i <= k < stop ==> Current(tools, after, func, wasm, targets[k]) && UpToDate(tools, after, func, wasm, targets[k]))
    && (forall f :: Untouched(f, func, targets, i, stop) ==> Same(before, after, f))
  }

  lemma {:induction false} MatchUnaffected(tools: Tools, files: Files, func: string, wasm: bytes, targets: seq<Target>, j: nat, i: nat)
    requires DistinctNames(targets) && j < i <= |targets|
    ensures FirstMatch(tools, Compiled(tools, files, func, wasm, targets[j]), func, wasm, targets, i)
            == FirstMatch(tools, files, func, wasm, targets, i)
    decreases |targets| - i
  {
    if i < |targets| {
      assert ObjectName(targets[j]) != ObjectName(targets[i]);
      MatchUnaffected(tools, files, func, wasm, targets, j, i + 1);
    }
  }

  lemma ReplacedStep(tools: Tools, before: Files, after: Files, func: string, wasm: bytes, targets: seq<Target>, i: nat, stop: nat)
    requires DistinctNames(targets) && i < stop <= |targets|
    requires Replaced(tools, Compiled(tools, before, func, wasm, targets[i]), after, func, wasm, targets, i + 1, stop)
    ensures Replaced(tools, before, after, func, wasm, targets, i, stop)
  {
    var next := Compiled(tools, before, func, wasm, targets[i]);
    var name := ObjectName(targets[i]);
    assert Untouched(Object(func, name), func, targets, i + 1, stop);
    assert Untouched(Hash(func, name), func, targets, i + 1, stop);
    assert Same(next, after, Object(func, name)) && Same(next, after, Hash(func, name));
    forall f | Untouched(f, func, targets, i, stop) ensures Same(before, after, f) {
      assert Untouched(f, func, targets, i + 1, stop);
      assert Same(before, next, f);
    }
  }

  /** A compilation replaces the targets up to the first match; it fails where the compiler does, or when a match has no object. */
  lemma {:induction false} GenerateReplaces(tools: Tools, files: Files, func: string, wasm: bytes, targets: seq<Target>, i: nat, clean: bool, failAt: nat)
    requires DistinctNames(targets) && i <= |targets|
    ensures var (after, ok) := Generate(tools, files, func, wasm, targets, i, clean, failAt);
            var reach := Reach(tools, files, func, wasm, targets, i, clean);
            && (ok <==> !(i <= failAt < reach) && (reach < |targets| ==> Object(func, ObjectName(targets[reach])) in files))
            && Replaced(tools, files, after, func, wasm, targets, i, if i <= failAt < reach then failAt else reach)
    decreases |targets| - i
  {
    if i == |targets| || i == failAt || (!clean && UpToDate(tools, files, func, wasm, targets[i])) {
      assert Replaced(tools, files, files, func, wasm, targets, i, i);
    } else {
      var next := Compiled(tools, files, func, wasm, targets[i]);
      GenerateReplaces(tools, next, func, wasm, targets, i + 1, clean, failAt);
      var reach := Reach(tools, next, func, wasm, targets, i + 1, clean);
      ReachStep(tools, files, func, wasm, targets, i, clean);
      ReplacedStep(tools, files, Generate(tools, next, func, wasm, targets, i + 1, clean, failAt).0, func, wasm, targets, i,
                   if i + 1 <= failAt < reach then failAt else reach);
    }
  }

  /** Compiling one target moves neither the first match behind it nor that match's object. */
  lemma ReachStep(tools: Tools, files: Files, func: string, wasm: bytes, targets: seq<Target>, i: nat, clean: bool)
    requires DistinctNames(targets) && i < |targets| && (clean || !UpToDate(tools, files, func, wasm, targets[i]))
    ensures var next := Compiled(tools, files, func, wasm, targets[i]);
            var reach := Reach(tools, files, func, wasm, targets, i, clean);
            && reach == Reach(tools, next, func, wasm, targets, i + 1, clean)
            && (reach < |targets| ==> (Object(func, ObjectName(targets[reach])) in files <==> Object(func, ObjectName(targets[reach])) in next))
  {
    MatchUnaffected(tools, files, func, wasm, targets, i, i + 1);
    var reach := Reach(tools, files, func, wasm, targets, i, clean);
    assert reach < |targets| ==> ObjectName(targets[i]) != ObjectName(targets[reach]);
  }

  // ---------- When everything is current ----------

  /** Every stored hash is that of the wasm its object was compiled from. */
  ghost predicate Honest(tools: Tools, files: Files, func: string, targets: seq<Target>) {
    forall k :: 0 <= k < |targets| ==> HonestAt(tools, files, func, targets[k])
  }

  ghost predicate HonestAt(tools: Tools, files: Files, func: string, t: Target) {
    Hash(func, ObjectName(t)) in files ==>
      exists wasm :: UpToDate(tools, files, func, wasm, t) && Current(tools, files, func, wasm, t)
  }

  ghost predicate AllCurrent(tools: Tools, files: Files, func: string, wasm: bytes, targets: seq<Target>, i: nat) {
    forall k :: i <= k < |targets| ==> Current(tools, files, func, wasm, targets[k])
  }

  lemma UpToDateIsCurrent(tools: Tools, files: Files, func: string, wasm: bytes, t: Target)
    requires tools.Sound() && HonestAt(tools, files, func, t) && UpToDate(tools, files, func, wasm, t)
    ensures Current(tools, files, func, wasm, t)
  {
  }

  lemma {:induction false} FirstMatchMatches(tools: Tools, files: Files, func: string, wasm: bytes, targets: seq<Target>, i: nat)
    requires i <= |targets|
    ensures var m := FirstMatch(tools, files, func, wasm, targets, i); m < |targets| ==> UpToDate(tools, files, func, wasm, targets[m])
    decreases |targets| - i
  {
    if i < |targets| && !UpToDate(tools, files, func, wasm, targets[i]) {
      FirstMatchMatches(tools, files, func, wasm, targets, i + 1);
    }
  }

  lemma SameEntries(tools: Tools, before: Files, after: Files, func: string, wasm: bytes, targets: seq<Target>, stop: nat, k: nat)
    requires DistinctNames(targets) && stop <= k < |targets|
    requires Replaced(tools, before, after, func, wasm, targets, 0, stop)
    ensures Current(tools, before, func, wasm, targets[k]) <==> Current(tools, after, func, wasm, targets[k])
    ensures forall w :: UpToDate(tools, before, func, w, targets[k]) <==> UpToDate(tools, after, func, w, targets[k])
    ensures HonestAt(tools, before, func, targets[k]) ==> HonestAt(tools, after, func, targets[k])
  {
    var name := ObjectName(targets[k]);
    assert forall j :: 0 <= j < stop ==> ObjectName(targets[j]) != name;
    assert Untouched(Object(func, name), func, targets, 0, stop) && Untouched(Hash(func, name), func, targets, 0, stop);
    assert Same(before, after, Object(func, name)) && Same(before, after, Hash(func, name));
    if HonestAt(tools, before, func, targets[k]) {
      HonestSame(tools, before, after, func, targets[k]);
    }
  }

  /**
   * The early return is sound exactly when the targets after the first match
   * were already current: a successful compilation leaves every target current
   * if and only if those were.
   */
  lemma AllCurrentIff(tools: Tools, files: Files, func: string, wasm: bytes, targets: seq<Target>, clean: bool, failAt: nat)
    requires tools.Sound() && DistinctNames(targets) && Honest(tools, files, func, targets)
    requires Generate(tools, files, func, wasm, targets, 0, clean, failAt).1
    ensures var reach := Reach(tools, files, func, wasm, targets, 0, clean);
            AllCurrent(tools, Generate(tools, files, func, wasm, targets, 0, clean, failAt).0, func, wasm, targets, 0)
            <==> AllCurrent(tools, files, func, wasm, targets, reach + 1)
  {
    GenerateReplaces(tools, files, func, wasm, targets, 0, clean, failAt);
    var after := Generate(tools, files, func, wasm, targets, 0, clean, failAt).0;
    var reach := Reach(tools, files, func, wasm, targets, 0, clean);
    FirstMatchMatches(tools, files, func, wasm, targets, 0);
    forall k | reach <= k < |targets|
      ensures Current(tools, files, func, wasm, targets[k]) <==> Current(tools, after, func, wasm, targets[k])
    {
      SameEntries(tools, files, after, func, wasm, targets, reach, k);
    }
    if reach < |targets| {
      UpToDateIsCurrent(tools, files, func, wasm, targets[reach]);
    }
  }

  ghost predicate AllUpToDate(tools: Tools, files: Files, func: string, wasm: bytes, targets: seq<Target>, i: nat) {
    forall k :: i <= k < |targets| ==> UpToDate(tools, files, func, wasm, targets[k])
  }

  /**
   The same in terms of the stored hashes, which a caller can compare without compiling:
   every target's hash is that of the wasm afterwards exactly when the hashes behind the
   first match already were, and then every target is current.
   */
  lemma AllUpToDateIff(tools: Tools, files: Files, func: string, wasm: bytes, targets: seq<Target>, clean: bool, failAt: nat)
    requires tools.Sound() && DistinctNames(targets) && Honest(tools, files, func, targets)
    requires Generate(tools, files, func, wasm, targets, 0, clean, failAt).1
    ensures var after := Generate(tools, files, func, wasm, targets, 0, clean, failAt).0;
            var reach := Reach(tools, files, func, wasm, targets, 0, clean);
            && (AllUpToDate(tools, after, func, wasm, targets, 0) <==> AllUpToDate(tools, files, func, wasm, targets, reach + 1))
            && (AllUpToDate(tools, files, func, wasm, targets, reach + 1) ==> AllCurrent(tools, after, func, wasm, targets, 0))
  {
    GenerateReplaces(tools, files, func, wasm, targets, 0, clean, failAt);
    var after := Generate(tools, files, func, wasm, targets, 0, clean, failAt).0;
    var reach := Reach(tools, files, func, wasm, targets, 0, clean);
    FirstMatchMatches(tools, files, func, wasm, targets, 0);
    forall k | reach <= k < |targets|
      ensures UpToDate(tools, files, func, wasm, targets[k]) <==> UpToDate(tools, after, func, wasm, targets[k])
    {
      SameEntries(tools, files, after, func, wasm, targets, reach, k);
    }
    if AllUpToDate(tools, files, func, wasm, targets, reach + 1) {
      forall k | reach + 1 <= k < |targets| ensures Current(tools, files, func, wasm, targets[k]) {
        UpToDateIsCurrent(tools, files, func, wasm, targets[k]);
      }
      AllCurrentIff(tools, files, func, wasm, targets, clean, failAt);
    }
  }

  /** A clean compilation that succeeds makes every target current, whatever was there. */
  lemma CleanRepairs(tools: Tools, files: Files, func: string, wasm: bytes, targets: seq<Target>, failAt: nat)
    requires DistinctNames(targets) && Generate(tools, files, func, wasm, targets, 0, true, failAt).1
    ensures var after := Generate(tools, files, func, wasm, targets, 0, true, failAt).0;
            AllCurrent(tools, after, func, wasm, targets, 0) && InStep(tools, after, func, targets)
  {
    GenerateReplaces(tools, files, func, wasm, targets, 0, true, failAt);
    assert InStepWith(tools, Generate(tools, files, func, wasm, targets, 0, true, failAt).0, func, wasm, targets);
  }

  // ---------- Runs ----------

  ghost predicate InStepWith(tools: Tools, files: Files, func: string, wasm: bytes, targets: seq<Target>) {
    forall k :: 0 <= k < |targets| ==>
      UpToDate(tools, files, func, wasm, targets[k]) && Current(tools, files, func, wasm, targets[k])
  }

  ghost predicate NeverCompiled(files: Files, func: string, targets: seq<Target>) {
    forall k :: 0 <= k < |targets| ==> Hash(func, ObjectName(targets[k])) !in files
  }

  /** The whole-run invariant: the targets of a function were all compiled from the same wasm, or none was. */
  ghost predicate InStep(tools: Tools, files: Files, func: string, targets: seq<Target>) {
    NeverCompiled(files, func, targets) || exists wasm :: InStepWith(tools, files, func, wasm, targets)
  }

  lemma {:induction false} NoMatch(tools: Tools, files: Files, func: string, wasm: bytes, targets: seq<Target>, i: nat)
    requires i <= |targets|
    requires forall k :: i <= k < |targets| ==> !UpToDate(tools, files, func, wasm, targets[k])
    ensures FirstMatch(tools, files, func, wasm, targets, i) == |targets|
    decreases |targets| - i
  {
    if i < |targets| {
      NoMatch(tools, files, func, wasm, targets, i + 1);
    }
  }

  /** From targets in step, a compilation that does not throw brings them all to the present wasm. */
  lemma CompileKeepsStep(tools: Tools, files: Files, func: string, wasm: bytes, targets: seq<Target>, clean: bool, failAt: nat)
    requires tools.Sound() && DistinctNames(targets) && InStep(tools, files, func, targets) && failAt >= |targets|
    ensures var (after, ok) := Generate(tools, files, func, wasm, targets, 0, clean, failAt);
            ok && InStepWith(tools, after, func, wasm, targets)
  {
    GenerateReplaces(tools, files, func, wasm, targets, 0, clean, failAt);
    if !clean {
      if NeverCompiled(files, func, targets) {
        NoMatch(tools, files, func, wasm, targets, 0);
      } else {
        var w :| InStepWith(tools, files, func, w, targets);
        if w != wasm {
          NoMatch(tools, files, func, wasm, targets, 0);
        }
      }
    }
  }

  datatype Event = Upload(func: string, wasm: bytes) | Codegen(func: string, clean: bool, failAt: nat)

  /** One upload or compilation; the flag says it did not throw. */
  function Step(tools: Tools, targets: seq<Target>, files: Files, e: Event): (Files, bool) {
    match e
    case Upload(func, wasm) => (files[Wasm(func) := wasm], true)
    case Codegen(func, clean, failAt) =>
      if Wasm(func) !in files || files[Wasm(func)] == [] then (files, false)
      else Generate(tools, files, func, files[Wasm(func)], targets, 0, clean, failAt)
  }

  function Run(tools: Tools, targets: seq<Target>, events: seq<Event>): Files {
    if events == [] then map[]
    else Step(tools, targets, Run(tools, targets, events[..|events| - 1]), events[|events| - 1]).0
  }

  /** The compiler throws in none of the events. */
  predicate NoThrow(events: seq<Event>, targets: seq<Target>) {
    forall i :: 0 <= i < |events| && events[i].Codegen? ==> events[i].failAt >= |targets|
  }

  lemma OtherFunctionsKeepStep(tools: Tools, before: Files, after: Files, func: string, targets: seq<Target>)
    requires InStep(tools, before, func, targets)
    requires forall f: File :: !f.Wasm? && f.owner == func ==> Same(before, after, f)
    ensures InStep(tools, after, func, targets)
  {
    if NeverCompiled(before, func, targets) {
      forall k | 0 <= k < |targets| ensures Hash(func, ObjectName(targets[k])) !in after {
        assert Same(before, after, Hash(func, ObjectName(targets[k])));
      }
    } else {
      var w :| InStepWith(tools, before, func, w, targets);
      forall k | 0 <= k < |targets|
        ensures UpToDate(tools, after, func, w, targets[k]) && Current(tools, after, func, w, targets[k])
      {
        assert Same(before, after, Hash(func, ObjectName(targets[k])));
        assert Same(before, after, Object(func, ObjectName(targets[k])));
      }
      assert InStepWith(tools, after, func, w, targets);
    }
  }

  lemma StepKeepsStep(tools: Tools, targets: seq<Target>, files: Files, e: Event, func: string)
    requires tools.Sound() && DistinctNames(targets) && InStep(tools, files, func, targets)
    requires e.Codegen? ==> e.failAt >= |targets|
    ensures InStep(tools, Step(tools, targets, files, e).0, func, targets)
  {
    var after := Step(tools, targets, files, e).0;
    if e.Codegen? && Wasm(e.func) in files && files[Wasm(e.func)] != [] {
      var wasm := files[Wasm(e.func)];
      if e.func == func {
        CompileKeepsStep(tools, files, func, wasm, targets, e.clean, e.failAt);
      } else {
        GenerateReplaces(tools, files, e.func, wasm, targets, 0, e.clean, e.failAt);
        var reach := Reach(tools, files, e.func, wasm, targets, 0, e.clean);
        forall f: File | !f.Wasm? && f.owner == func ensures Same(files, after, f) {
          assert Untouched(f, e.func, targets, 0, reach);
        }
        OtherFunctionsKeepStep(tools, files, after, func, targets);
      }
    } else {
      OtherFunctionsKeepStep(tools, files, after, func, targets);
    }
  }

  lemma {:induction false} RunKeepsStep(tools: Tools, targets: seq<Target>, events: seq<Event>, func: string)
    requires tools.Sound() && DistinctNames(targets) && NoThrow(events, targets)
    ensures InStep(tools, Run(tools, targets, events), func, targets)
  {
    if events == [] {
      assert NeverCompiled(map[], func, targets);
    } else {
      var n := |events| - 1;
      RunKeepsStep(tools, targets, events[..n], func);
      StepKeepsStep(tools, targets, Run(tools, targets, events[..n]), events[n], func);
    }
  }

  predicate IsUpload(e: Event, func: string) { e.Upload? && e.func == func }

  /** Event i uploads the function, and no later one does. */
  ghost predicate LastUpload(events: seq<Event>, func: string, i: nat) {
    && i < |events| && IsUpload(events[i], func)
    && forall j :: i < j < |events| ==> !IsUpload(events[j], func)
  }

  lemma CodegenKeepsWasm(tools: Tools, targets: seq<Target>, files: Files, e: Event, func: string)
    requires DistinctNames(targets) && !IsUpload(e, func)
    ensures Same(files, Step(tools, targets, files, e).0, Wasm(func))
  {
    if e.Codegen? && Wasm(e.func) in files && files[Wasm(e.func)] != [] {
      var wasm := files[Wasm(e.func)];
      GenerateReplaces(tools, files, e.func, wasm, targets, 0, e.clean, e.failAt);
      var reach := Reach(tools, files, e.func, wasm, targets, 0, e.clean);
      assert Untouched(Wasm(func), e.func, targets, 0, if 0 <= e.failAt < reach then e.failAt else reach);
    }
  }

  /** The store holds the wasm of the last upload of the function, and none if there was no upload. */
  lemma {:induction false} WasmIsLastUploaded(tools: Tools, targets: seq<Target>, events: seq<Event>, func: string)
    requires DistinctNames(targets)
    ensures var files := Run(tools, targets, events);
            && (forall i: nat | LastUpload(events, func, i) :: Wasm(func) in files && files[Wasm(func)] == events[i].wasm)
            && (Wasm(func) in files ==> exists i: nat :: LastUpload(events, func, i))
  {
    if events != [] {
      var n := |events| - 1;
      var before := Run(tools, targets, events[..n]);
      WasmIsLastUploaded(tools, targets, events[..n], func);
      if IsUpload(events[n], func) {
        assert LastUpload(events, func, n);
      } else {
        CodegenKeepsWasm(tools, targets, before, events[n], func);
        forall i: nat ensures LastUpload(events, func, i) <==> LastUpload(events[..n], func, i) {
          assert forall j :: 0 <= j < n ==> events[..n][j] == events[j];
        }
      }
    }
  }

  /**
   * In every run of uploads and compilations in which the compiler does not
   * throw, a compilation fails only when there is no wasm, and leaves each
   * target's object equal to compiling the wasm last uploaded.
   */
  lemma EveryCompileIsCurrent(tools: Tools, targets: seq<Target>, events: seq<Event>, func: string, clean: bool, failAt: nat)
    requires tools.Sound() && DistinctNames(targets) && NoThrow(events, targets) && failAt >= |targets|
    ensures var files := Run(tools, targets, events);
            var (after, ok) := Step(tools, targets, files, Codegen(func, clean, failAt));
            && (ok <==> Wasm(func) in files && files[Wasm(func)] != [])
            && (ok ==> Same(files, after, Wasm(func)) && AllCurrent(tools, after, func, files[Wasm(func)], targets, 0))
            && (ok <==> exists i: nat :: LastUpload(events, func, i) && events[i].wasm != [])
            && (ok ==> forall i: nat, k | LastUpload(events, func, i) && 0 <= k < |targets| ::
                  var made := Object(func, ObjectName(targets[k]));
                  made in after && after[made] == tools.compile(events[i].wasm, targets[k]))
  {
    var files := Run(tools, targets, events);
    WasmIsLastUploaded(tools, targets, events, func);
    RunKeepsStep(tools, targets, events, func);
    if Wasm(func) in files && files[Wasm(func)] != [] {
      var wasm := files[Wasm(func)];
      CompileKeepsStep(tools, files, func, wasm, targets, clean, failAt);
      GenerateReplaces(tools, files, func, wasm, targets, 0, clean, failAt);
      assert Untouched(Wasm(func), func, targets, 0, Reach(tools, files, func, wasm, targets, 0, clean));
    }
  }

  lemma HonestSame(tools: Tools, before: Files, after: Files, func: string, t: Target)
    requires HonestAt(tools, before, func, t)
    requires Same(before, after, Hash(func, ObjectName(t))) && Same(before, after, Object(func, ObjectName(t)))
    ensures HonestAt(tools, after, func, t)
  {
    if Hash(func, ObjectName(t)) in after {
      var w :| UpToDate(tools, before, func, w, t) && Current(tools, before, func, w, t);
      assert UpToDate(tools, after, func, w, t) && Current(tools, after, func, w, t);
    }
  }

  lemma StepKeepsHonest(tools: Tools, targets: seq<Target>, files: Files, e: Event, func: string)
    requires DistinctNames(targets) && Honest(tools, files, func, targets)
    ensures Honest(tools, Step(tools, targets, files, e).0, func, targets)
  {
    var after := Step(tools, targets, files, e).0;
    if e.Codegen? && Wasm(e.func) in files && files[Wasm(e.func)] != [] {
      var wasm := files[Wasm(e.func)];
      GenerateReplaces(tools, files, e.func, wasm, targets, 0, e.clean, e.failAt);
      var reach := Reach(tools, files, e.func, wasm, targets, 0, e.clean);
      var stop := if e.failAt < reach then e.failAt else reach;
      forall k | 0 <= k < |targets| ensures HonestAt(tools, after, func, targets[k]) {
        var name := ObjectName(targets[k]);
        if e.func != func {
          assert Untouched(Hash(func, name), e.func, targets, 0, stop) && Untouched(Object(func, name), e.func, targets, 0, stop);
          HonestSame(tools, files, after, func, targets[k]);
        } else if k >= stop {
          SameEntries(tools, files, after, func, wasm, targets, stop, k);
        }
      }
    } else {
      forall k | 0 <= k < |targets| ensures HonestAt(tools, after, func, targets[k]) {
        HonestSame(tools, files, after, func, targets[k]);
      }
    }
  }

  /** In every run, throwing compilations included, a stored hash belongs to its object, so `AllCurrentIff` applies. */
  lemma {:induction false} RunIsHonest(tools: Tools, targets: seq<Target>, events: seq<Event>, func: string)
    requires DistinctNames(targets)
    ensures Honest(tools, Run(tools, targets, events), func, targets)
  {
    if events != [] {
      var n := |events| - 1;
      RunIsHonest(tools, targets, events[..n], func);
      StepKeepsHonest(tools, targets, Run(tools, targets, events[..n]), events[n], func);
    }
  }

  /**
   * Once the compiler has thrown between two targets, compiling again reports
   * success without looking past the first target: the target that failed
   * keeps whatever it had.
   */
  lemma RetryLeavesStale(tools: Tools, files: Files, func: string, wasm: bytes, targets: seq<Target>, failAt: nat)
    requires DistinctNames(targets) && 0 < failAt < |targets|
    requires forall k :: 0 <= k < |targets| ==> !UpToDate(tools, files, func, wasm, targets[k])
    ensures var (after, ok) := Generate(tools, files, func, wasm, targets, 0, false, failAt);
            && !ok
            && Generate(tools, after, func, wasm, targets, 0, false, |targets|) == (after, true)
            && Same(files, after, Object(func, ObjectName(targets[failAt])))
  {
    NoMatch(tools, files, func, wasm, targets, 0);
    GenerateReplaces(tools, files, func, wasm, targets, 0, false, failAt);
    assert Untouched(Object(func, ObjectName(targets[failAt])), func, targets, 0, failAt);
    assert UpToDate(tools, Generate(tools, files, func, wasm, targets, 0, false, failAt).0, func, wasm, targets[0]);
  }

  // ---------- The generator ----------

  class MachineCodeGenerator {
    const loader: FileLoader
    const targets: seq<Target>
    const tools: Tools

    constructor (loader: FileLoader, targets: seq<Target>, tools: Tools)
      ensures this.loader == loader && this.targets == targets && this.tools == tools
    {
      this.loader := loader;
      this.targets := targets;
      this.tools := tools;
    }

    /** Compiles through the caching loader exactly as the specification does on the remote store. */
    method CodegenForFunction(func: string, clean: bool, failAt: nat) returns (ok: bool)
      requires loader.Coherent() && tools.NonEmptyHashes()
      modifies loader
      ensures loader.Coherent()
      ensures (loader.remote, ok) == Step(tools, targets, old(loader.remote), Codegen(func, clean, failAt))
    {
      var loaded := loader.LoadFileBytes(Wasm(func), false);
      if loaded.None? || loaded.value == [] {
        return false;
      }
      var wasm := loaded.value;
      ghost var start := loader.remote;
      var i := 0;
      while i < |targets|
        invariant 0 <= i <= |targets| && loader.Coherent()
        invariant Generate(tools, loader.remote, func, wasm, targets, i, clean, failAt)
                  == Generate(tools, start, func, wasm, targets, 0, clean, failAt)
      {
        var target := targets[i];
        var newHash := tools.hash(wasm);
        var oldHash := loader.LoadFileBytes(Hash(func, ObjectName(target)), true);
        if !clean && oldHash.value != [] && newHash == oldHash.value {
          var synced := loader.LoadFileBytes(Object(func, ObjectName(target)), false);
          return synced.Some?;
        }
        if i == failAt {
          return false;
        }
        loader.UploadFileBytes(Object(func, ObjectName(target)), tools.compile(wasm, target));
        loader.UploadFileBytes(Hash(func, ObjectName(target)), newHash);
        i := i + 1;
      }
      return true;
    }
  }
}
