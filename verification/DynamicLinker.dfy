/**
 Dynamic linking into a running module, following the WebAssembly tool conventions for
 dynamic linking: the global offset table (GOT) maps function names to slots of the
 shared function table. Loading a module reserves slots for its own elements, resolves
 its GOT imports, hands out placeholder slots for names nobody exports yet, and patches
 the placeholders once the module exists.
 */
module DynamicLinker {
  import opened Options

  type Symbol = string

  type Object = nat

  const MAIN_HANDLE: int := 999

  /** The functions an element segment puts into the table, with their names. */
  datatype Elements = Elements(names: seq<Symbol>, funcs: seq<Object>)

  type Segment = e: Elements | |e.names| == |e.funcs| witness Elements([], [])

  /** A dynamic module: its one element segment, its exports, and the functions it imports through the GOT. */
  datatype Module = Module(tableSize: nat, elems: Segment, exports: map<Symbol, Object>, imports: seq<Symbol>)

  datatype Loaded = Loaded(path: string, tableBottom: nat, tableTop: nat, ptr: Option<map<Symbol, Object>>)

  /** A function in an element segment that is named like an export is that export. */
  ghost predicate WellNamed(elems: Segment, exports: map<Symbol, Object>) {
    forall i :: 0 <= i < |elems.names| && elems.names[i] in exports ==> exports[elems.names[i]] == elems.funcs[i]
  }

  type Table = seq<Option<Object>>

  type Modules = map<int, Loaded>

  /** The exports of the modules that are always there. */
  datatype Hosts = Hosts(env: map<Symbol, Object>, main: map<Symbol, Object>, wasi: map<Symbol, Object>)

  ghost predicate ExportedBy(modules: Modules, h: int, name: Symbol, obj: Object) {
    h in modules && modules[h].ptr.Some? && name in modules[h].ptr.value && modules[h].ptr.value[name] == obj
  }

  ghost predicate Exported(hosts: Hosts, modules: Modules, name: Symbol, obj: Object) {
    || (name in hosts.env && hosts.env[name] == obj)
    || (name in hosts.main && hosts.main[name] == obj)
    || (name in hosts.wasi && hosts.wasi[name] == obj)
    || exists h :: ExportedBy(modules, h, name, obj)
  }

  /** The main module or an instantiated dynamic module exports the name. */
  ghost predicate Visible(hosts: Hosts, modules: Modules, name: Symbol) {
    name in hosts.main || exists h :: VisibleIn(modules, h, name)
  }

  ghost predicate VisibleIn(modules: Modules, h: int, name: Symbol) {
    h in modules && modules[h].ptr.Some? && name in modules[h].ptr.value
  }

  /** The names that resolving an import finds, and the functions with the names they are exported under. */
  ghost function VisibleNames(hosts: Hosts, modules: Modules): iset<Symbol> {
    iset n | Visible(hosts, modules, n)
  }

  ghost function Offered(hosts: Hosts, modules: Modules): iset<(Symbol, Object)> {
    iset p: (Symbol, Object) | Exported(hosts, modules, p.0, p.1)
  }

  /** What resolving an import may bind a name to: the main module's function, or else one of a dynamic module's. */
  ghost function Bindings(hosts: Hosts, modules: Modules): iset<(Symbol, Object)> {
    iset p: (Symbol, Object) |
      if p.0 in hosts.main then p.1 == hosts.main[p.0] else exists h :: ExportedBy(modules, h, p.0, p.1)
  }

  lemma BindingsAreOffered(hosts: Hosts, modules: Modules)
    ensures Bindings(hosts, modules) <= Offered(hosts, modules)
  {
  }

  /** The slot exists and holds a function exported under that name. */
  ghost predicate Good(offered: iset<(Symbol, Object)>, table: Table, name: Symbol, slot: nat) {
    slot < |table| && table[slot].Some? && (name, table[slot].value) in offered
  }

  ghost predicate AllGood(offered: iset<(Symbol, Object)>, table: Table, got: map<Symbol, nat>, handedOut: set<(Symbol, nat)>) {
    && (forall n :: n in got ==> Good(offered, table, n, got[n]))
    && (forall p :: p in handedOut ==> Good(offered, table, p.0, p.1))
  }

  /** Handles count up from 2, one per path, and every module is instantiated. */
  ghost predicate HandlesInOrder(modules: Modules, pathToHandle: map<string, int>) {
    && (forall h :: h in modules <==> 2 <= h < 2 + |modules|)
    && (forall p :: p in pathToHandle ==> pathToHandle[p] in modules && modules[pathToHandle[p]].path == p)
    && (forall h :: h in modules ==> modules[h].ptr.Some? && modules[h].path in pathToHandle
                                     && pathToHandle[modules[h].path] == h)
  }

  /** What a handle and a name refer to; the reserved handle asks the hosts in their order. */
  function Lookup(hosts: Hosts, modules: Modules, handle: int, name: Symbol): Option<Object> {
    if handle == MAIN_HANDLE then
      if name in hosts.env then Some(hosts.env[name])
      else if name in hosts.main then Some(hosts.main[name])
      else if name in hosts.wasi then Some(hosts.wasi[name])
      else None
    else if handle in modules && modules[handle].ptr.Some? && name in modules[handle].ptr.value then
      Some(modules[handle].ptr.value[name])
    else None
  }

  /** Handles reach their own modules as long as fewer than 998 are loaded; then one of them is the reserved handle. */
  lemma HandlesReachTheirModules(hosts: Hosts, modules: Modules, paths: map<string, int>)
    requires HandlesInOrder(modules, paths)
    ensures |modules| < 998 ==>
              forall h, name :: h in modules && name in modules[h].ptr.value ==>
                Lookup(hosts, modules, h, name) == Some(modules[h].ptr.value[name])
    ensures |modules| >= 998 ==>
              MAIN_HANDLE in modules
              && forall name, obj :: Lookup(hosts, modules, MAIN_HANDLE, name) == Some(obj) ==>
                   (name, obj) in hosts.env.Items + hosts.main.Items + hosts.wasi.Items
  {
    assert MAIN_HANDLE in modules <==> |modules| >= 998;
  }

  class Linker {
    const hosts: Hosts
    var table: Table
    var got: map<Symbol, nat>
    var missing: map<Symbol, nat>
    var pathToHandle: map<string, int>
    var modules: Modules
    // every slot that was given out under a name, by a load or by a lookup
    ghost var handedOut: set<(Symbol, nat)>

    ghost predicate Valid()
      reads this
    {
      && missing == map[]
      && AllGood(Offered(hosts, modules), table, got, handedOut)
      && HandlesInOrder(modules, pathToHandle)
    }

    /**
     The main module: several element segments at offsets of its own, written after the GOT is
     filled. Where they overlap the later one wins, and an entry may lose its function.
     */
    constructor (h: Hosts, tableSize: nat, segments: seq<Segment>, offsets: seq<nat>)
      requires SegmentsInside(tableSize, segments, offsets)
      ensures hosts == h && modules == map[] && |table| == tableSize && handedOut == {} && missing == map[] && pathToHandle == map[]
      ensures Valid() <==> MainWell(Offered(h, map[]), h.main, segments, offsets)
    {
      hosts := h;
      table := seq(tableSize, _ => None);
      got, missing, pathToHandle, modules := map[], map[], map[], map[];
      handedOut := {};
      new;
      AddMainToGot(h.main, segments, offsets);
      WriteMainElements(segments, offsets);
      MainGoodIff(Offered(h, map[]), h.main, segments, offsets, table, got);
    }

    method AddMainToGot(exports: map<Symbol, Object>, segments: seq<Segment>, offsets: seq<nat>)
      requires got == map[] && |offsets| == |segments|
      modifies this`got
      ensures MainGot(exports, segments, offsets, |segments|, got)
    {
      for k := 0 to |segments|
        invariant MainGot(exports, segments, offsets, k, got)
      {
        ghost var before := got;
        AddSegmentToGot(segments[k].names, exports, offsets[k]);
        MainGotStep(exports, segments, offsets, k, before, got);
      }
    }

    method WriteMainElements(segments: seq<Segment>, offsets: seq<nat>)
      requires SegmentsInside(|table|, segments, offsets) && forall x :: 0 <= x < |table| ==> table[x].None?
      modifies this`table
      ensures |table| == |old(table)| && forall x :: 0 <= x < |table| ==> table[x] == LastWritten(segments, offsets, |segments|, x)
    {
      for k := 0 to |segments|
        invariant |table| == |old(table)|
        invariant forall x :: 0 <= x < |table| ==> table[x] == LastWritten(segments, offsets, k, x)
      {
        WriteElements(segments[k].funcs, offsets[k]);
      }
    }

    /**
     Loading by path. A path seen before only gives back its handle, whether or not its load
     went through. A load that does not throw keeps every old slot, and keeps the linker
     valid exactly when `LoadsWell` holds. One that throws leaves its path and a module
     without an instance behind, and nothing is promised about the table and the GOT.
     */
    method DynamicLoadModule(path: string, target: Target) returns (handle: int, threw: bool)
      requires path in pathToHandle || Valid()
      modifies this
      ensures path in old(pathToHandle) || path == "" || !target.File? ==>
                !threw && table == old(table) && got == old(got) && missing == old(missing) && handedOut == old(handedOut)
                && modules == old(modules) && pathToHandle == old(pathToHandle) && (old(Valid()) ==> Valid())
                && handle == if path in old(pathToHandle) then old(pathToHandle)[path] else if path == "" then MAIN_HANDLE else 0
      ensures path !in old(pathToHandle) && path != "" && target.File? ==>
                && (threw <==> Throws(VisibleNames(hosts, old(modules)), old(got), target.mod))
                && pathToHandle == old(pathToHandle)[path := 2 + |old(modules)|]
                && (threw ==> modules == old(modules)[2 + |old(modules)| := Loaded(path, |old(table)|, |old(table)| + target.mod.tableSize, None)])
                && (!threw ==> handle == 2 + |old(modules)|)
                && (!threw ==> Grown(old(table), table, old(got), got, old(handedOut), handedOut, target.mod.imports))
                && (!threw ==> modules == old(modules)[handle := LoadedAt(path, |old(table)|, target.mod)])
                && (!threw ==> (Valid() <==>
                      LoadsWell(VisibleNames(hosts, old(modules)), Offered(hosts, modules), old(got), target.mod)))
                && (!threw ==> ImportsBound(VisibleNames(hosts, old(modules)), Bindings(hosts, old(modules)), target.mod,
                                            old(State(table, got, missing)), table, got))
    {
      if path in pathToHandle {
        return pathToHandle[path], false;
      }
      if path == "" {
        return MAIN_HANDLE, false;
      }
      if !target.File? {
        return 0, false;
      }
      handle := 2 + |modules|;
      pathToHandle := pathToHandle[path := handle];
      threw := CreateModuleInstance(path, handle, target.mod);
      if !threw {
        HandlesStayInOrder(old(modules), old(pathToHandle), path, handle, modules[handle]);
      }
    }

    /** Loading a path again after its load threw: the handle comes back as if it had gone through. */
    method LoadAgain(path: string, target: Target) returns (threw: bool, handle: int, again: bool)
      requires Valid() && path !in pathToHandle && path != "" && target.File?
      modifies this
      ensures threw <==> Throws(VisibleNames(hosts, old(modules)), old(got), target.mod)
      ensures !again && handle == 2 + |old(modules)|
      ensures handle in modules && (threw <==> modules[handle].ptr.None?)
    {
      handle, threw := DynamicLoadModule(path, target);
      handle, again := DynamicLoadModule(path, target);
    }

    method CreateModuleInstance(path: string, handle: int, m: Module) returns (threw: bool)
      requires missing == map[] && handle !in modules
      requires AllGood(Offered(hosts, modules), table, got, handedOut)
      modifies this`table, this`got, this`missing, this`modules, this`handedOut
      ensures threw <==> Throws(VisibleNames(hosts, old(modules)), old(got), m)
      ensures threw ==> modules == old(modules)[handle := Loaded(path, |old(table)|, |old(table)| + m.tableSize, None)]
      ensures !threw ==>
                && missing == map[]
                && Grown(old(table), table, old(got), got, old(handedOut), handedOut, m.imports)
                && modules == old(modules)[handle := LoadedAt(path, |old(table)|, m)]
                && (AllGood(Offered(hosts, modules), table, got, handedOut) <==>
                    LoadsWell(VisibleNames(hosts, old(modules)), Offered(hosts, modules), old(got), m))
                && ImportsBound(VisibleNames(hosts, old(modules)), Bindings(hosts, old(modules)), m, old(State(table, got, missing)), table, got)
    {
      ghost var older := modules;
      ghost var newer := modules[handle := LoadedAt(path, |table|, m)];
      var bottom := |table|;
      modules := modules[handle := Loaded(path, bottom, bottom + m.tableSize, None)];
      VisibleMid(hosts, older, modules, handle);
      RecordedTwice(older, handle, modules[handle], LoadedAt(path, bottom, m));
      threw := LinkAndInstantiate(m, older, newer, handle);
      if !threw {
        missing := map[];
        modules := modules[handle := Loaded(path, bottom, bottom + m.tableSize, Some(m.exports))];
      }
    }

    /** The stages between registering a module and recording its instance. */
    method LinkAndInstantiate(m: Module, ghost older: Modules, ghost newer: Modules, ghost handle: int) returns (threw: bool)
      requires missing == map[]
      requires VisibleNames(hosts, modules) == VisibleNames(hosts, older) && Bindings(hosts, modules) == Bindings(hosts, older)
      requires handle !in older && handle in newer && newer == older[handle := newer[handle]] && newer[handle].ptr == Some(m.exports)
      requires AllGood(Offered(hosts, older), table, got, handedOut)
      modifies this`table, this`got, this`missing, this`handedOut
      ensures threw <==> Throws(VisibleNames(hosts, older), old(got), m)
      ensures !threw ==> Grown(old(table), table, old(got), got, old(handedOut), handedOut, m.imports)
      ensures !threw ==> (AllGood(Offered(hosts, newer), table, got, handedOut) <==>
                          LoadsWell(VisibleNames(hosts, older), Offered(hosts, newer), old(got), m))
      ensures !threw ==> ImportsBound(VisibleNames(hosts, older), Bindings(hosts, older), m, old(State(table, got, missing)), table, got)
    {
      var slots; ghost var st;
      threw, slots, st := RunStages(m);
      if !threw {
        FinishLoad(hosts, older, newer, handle, m, st, slots, handedOut);
        handedOut := HandedMore(handedOut, m.imports, slots);
      }
    }

    /** Table growth, own segment, imports, instantiation and patching, in the source's order. */
    method RunStages(m: Module) returns (threw: bool, slots: seq<nat>, ghost st: LoadSteps)
      requires missing == map[]
      modifies this`table, this`got, this`missing
      ensures threw <==> Throws(VisibleNames(hosts, modules), old(got), m)
      ensures !threw ==> st.start == old(State(table, got, missing)) && st.patched == State(table, got, missing)
      ensures !threw ==>
                var names := Names(VisibleNames(hosts, modules), st.start.got, m);
                Staged(VisibleNames(hosts, modules), Bindings(hosts, modules), m, st, names) && Given(m.imports, slots, st.added, names)
    {
      var bottom := |table|;
      ghost var start := State(table, got, missing);
      table := table + seq(m.tableSize, _ => None);
      AddSegmentToGot(m.elems.names, m.exports, bottom);
      ghost var added := State(table, got, missing);
      KnownKeys(m, bottom, start.got, added.got);
      slots := Link(m.imports);
      ghost var linked := State(table, got, missing);
      st := LoadSteps(start, added, linked, linked, linked);
      // instantiation writes the segment and checks it only against the table as it is now
      if bottom + |m.elems.funcs| > |table| {
        return true, slots, st;
      }
      PatchableIff(VisibleNames(hosts, modules), Bindings(hosts, modules), m, start.got, added, linked);
      WriteElements(m.elems.funcs, bottom);
      ghost var written := State(table, got, missing);
      var ok := PatchMissing(m.exports);
      st := LoadSteps(start, added, linked, written, State(table, got, missing));
      threw := !ok;
    }

    /** Grows the table by one slot holding `obj`. */
    method AddFunctionToTable(obj: Object) returns (slot: nat)
      modifies this`table
      ensures table == old(table) + [Some(obj)] && slot == |old(table)|
    {
      slot := |table|;
      table := table + [None];
      table := table[slot := Some(obj)];
    }

    /** Symbol lookup: the function found gets a slot of its own. */
    method GetDynamicModuleFunction(handle: int, name: Symbol) returns (r: Option<nat>)
      requires handle in modules && handle != MAIN_HANDLE ==> modules[handle].ptr.Some?
      modifies this`table, this`handedOut
      ensures (old(Valid()) ==> Valid()) && old(handedOut) <= handedOut
      ensures r.None? ==> table == old(table)
      ensures r.Some? ==> r.value == |old(table)| && |table| == r.value + 1 && table[..r.value] == old(table)
                          && (name, r.value) in handedOut
      ensures r.Some? <==> Lookup(hosts, modules, handle, name).Some?
      ensures r.Some? ==> table[r.value] == Lookup(hosts, modules, handle, name)
      ensures handle == MAIN_HANDLE ==> (r.Some? <==> name in hosts.env.Keys + hosts.main.Keys + hosts.wasi.Keys)
      ensures handle == MAIN_HANDLE && name in hosts.env ==> table[r.value] == Some(hosts.env[name])
      ensures handle == MAIN_HANDLE && name in hosts.main.Keys - hosts.env.Keys ==> table[r.value] == Some(hosts.main[name])
      ensures handle == MAIN_HANDLE && name in hosts.wasi.Keys - hosts.env.Keys - hosts.main.Keys ==>
                table[r.value] == Some(hosts.wasi[name])
      ensures handle != MAIN_HANDLE ==> (r.Some? <==> handle in modules && name in modules[handle].ptr.value)
      ensures handle != MAIN_HANDLE && r.Some? ==> table[r.value] == Some(modules[handle].ptr.value[name])
    {
      var found: Option<Object> := None;
      if handle == MAIN_HANDLE {
        if name in hosts.env {
          found := Some(hosts.env[name]);
        } else if name in hosts.main {
          found := Some(hosts.main[name]);
        } else if name in hosts.wasi {
          found := Some(hosts.wasi[name]);
        }
      } else {
        if handle !in modules {
          return None;
        }
        var exports := modules[handle].ptr.value;
        if name in exports {
          found := Some(exports[name]);
        }
      }
      if found.None? {
        return None;
      }
      var slot := AddFunctionToTable(found.value);
      assert handle != MAIN_HANDLE ==> ExportedBy(modules, handle, name, found.value);
      assert Exported(hosts, modules, name, found.value);
      assert Good(Offered(hosts, modules), table, name, slot);
      handedOut := handedOut + {(name, slot)};
      r := Some(slot);
    }

    // ----- Loading a module -----

    /** Records the slots of the exported functions of a segment; known names keep theirs. */
    method AddSegmentToGot(names: seq<Symbol>, exports: map<Symbol, Object>, bottom: nat)
      modifies this`got
      ensures GotAdded(names, exports, bottom, old(got), got)
    {
      for i := 0 to |names|
        invariant GotAdded(names[..i], exports, bottom, old(got), got)
      {
        var name := names[i];
        if name in exports && name !in got {
          got := got[name := bottom + i];
        }
        assert names[..i + 1] == names[..i] + [name];
      }
      assert names[..|names|] == names;
    }

    /** The slot for one GOT function import; a name nobody exports yet gets a placeholder. */
    method ResolveFunction(name: Symbol) returns (slot: nat)
      modifies this`table, this`got, this`missing
      ensures Resolved(VisibleNames(hosts, modules), Bindings(hosts, modules), State(old(table), old(got), old(missing)),
                       name, State(table, got, missing), slot)
    {
      if name in got {
        return got[name];
      }
      var found: Option<Object> := None;
      if name in hosts.main {
        found := Some(hosts.main[name]);
      } else if h :| h in modules && modules[h].ptr.Some? && name in modules[h].ptr.value {
        found := Some(modules[h].ptr.value[name]);
        assert ExportedBy(modules, h, name, found.value) && VisibleIn(modules, h, name);
      }
      if found.Some? {
        slot := AddFunctionToTable(found.value);
        got := got[name := slot];
      } else {
        slot := |table|;
        table := table + [None];
        if name !in missing {
          missing := missing[name := slot];
        }
      }
    }

    /** Resolves one more import. */
    method LinkNext(name: Symbol, ghost visible: iset<Symbol>, ghost offered: iset<(Symbol, Object)>,
                    ghost start: State, ghost done: seq<Symbol>, ghost slots: seq<nat>) returns (slot: nat)
      requires visible == VisibleNames(hosts, modules) && offered == Bindings(hosts, modules)
      requires LinkedUpTo(visible, offered, start, State(table, got, missing), done, slots)
      modifies this`table, this`got, this`missing
      ensures LinkedUpTo(visible, offered, start, State(table, got, missing), done + [name], slots + [slot])
    {
      ghost var before := State(table, got, missing);
      slot := ResolveFunction(name);
      LinkStep(visible, offered, start, before, done, slots, name, State(table, got, missing), slot);
    }

    /** Resolves every import in turn, and records what each of them was given. */
    method Link(imports: seq<Symbol>) returns (slots: seq<nat>)
      requires missing == map[]
      modifies this`table, this`got, this`missing
      ensures var visible, start := VisibleNames(hosts, modules), old(State(table, got, missing));
              LinkedUpTo(visible, Bindings(hosts, modules), start, State(table, got, missing), imports, slots)
    {
      slots := [];
      ghost var start := State(table, got, missing);
      ghost var visible, offered := VisibleNames(hosts, modules), Bindings(hosts, modules);
      LinkedNothing(visible, offered, start);
      PrefixEnds(imports);
      for i := 0 to |imports|
        invariant LinkedUpTo(visible, offered, start, State(table, got, missing), imports[..i], slots)
      {
        PrefixGrows(imports, i);
        var slot := LinkNext(imports[i], visible, offered, start, imports[..i], slots);
        slots := slots + [slot];
      }
    }

    /** Writes an element segment into its slots, as instantiation does. */
    method WriteElements(funcs: seq<Object>, bottom: nat)
      requires bottom + |funcs| <= |table|
      modifies this`table
      ensures Written(funcs, bottom, old(table), table)
    {
      for i := 0 to |funcs|
        invariant Written(funcs[..i], bottom, old(table), table)
      {
        table := table[bottom + i := Some(funcs[i])];
      }
      assert funcs[..|funcs|] == funcs;
    }

    /** Puts the new module's exports into the placeholders; false when one of them is not exported. */
    method PatchMissing(exports: map<Symbol, Object>) returns (ok: bool)
      requires Placeholders(State(table, got, missing))
      modifies this`table, this`got
      ensures ok <==> forall n :: n in missing ==> n in exports
      ensures ok ==> Patched(old(State(table, got, missing)), State(table, got, missing), missing.Keys, exports)
    {
      ghost var start := State(table, got, missing);
      var done: set<Symbol> := {};
      while missing.Keys - done != {}
        invariant done <= missing.Keys
        invariant Patched(start, State(table, got, missing), done, exports)
        decreases missing.Keys - done
      {
        var name :| name in missing.Keys - done;
        if name !in exports {
          return false;
        }
        ghost var before := State(table, got, missing);
        table := table[missing[name] := Some(exports[name])];
        got := got[name := missing[name]];
        PatchStep(start, before, done, exports, name, State(table, got, missing));
        done := done + {name};
      }
      assert done == missing.Keys;
      ok := true;
    }
  }

  // ----- Linking, on values -----

  datatype State = State(table: Table, got: map<Symbol, nat>, missing: map<Symbol, nat>)

  /** The new entries are exported names of the segment, at the slots of their positions. */
  ghost predicate GotAdded(names: seq<Symbol>, exports: map<Symbol, Object>, bottom: nat,
                           g: map<Symbol, nat>, g': map<Symbol, nat>) {
    && Extends(g, g')
    && (forall n :: n in g' && n !in g ==> n in exports && FirstAt(names, bottom, n, g'[n]))
    && (forall i :: 0 <= i < |names| && names[i] in exports ==> names[i] in g')
  }

  ghost predicate At(names: seq<Symbol>, bottom: nat, name: Symbol, slot: nat) {
    bottom <= slot < bottom + |names| && names[slot - bottom] == name
  }

  /** The slot of the first occurrence of the name. */
  ghost predicate FirstAt(names: seq<Symbol>, bottom: nat, name: Symbol, slot: nat) {
    At(names, bottom, name, slot) && First(names, slot - bottom)
  }

  ghost predicate First(names: seq<Symbol>, a: nat)
    requires a < |names|
  {
    forall b :: 0 <= b < a ==> names[b] != names[a]
  }

  ghost predicate Written(funcs: seq<Object>, bottom: nat, t: Table, t': Table) {
    && |t'| == |t|
    && forall k :: 0 <= k < |t| ==> t'[k] == if bottom <= k < bottom + |funcs| then Some(funcs[k - bottom]) else t[k]
  }

  ghost predicate Extends(g: map<Symbol, nat>, g': map<Symbol, nat>) {
    forall n :: n in g ==> n in g' && g'[n] == g[n]
  }

  ghost predicate Resolved(visible: iset<Symbol>, offered: iset<(Symbol, Object)>, s: State, name: Symbol, s': State, slot: nat) {
    if name in s.got then
      slot == s.got[name] && s' == s
    else
      && slot == |s.table| && |s'.table| == slot + 1 && s'.table[..slot] == s.table
      && if name in visible then
           && s'.table[slot].Some? && (name, s'.table[slot].value) in offered
           && s'.got == s.got[name := slot] && s'.missing == s.missing
         else
           && s'.table[slot].None?
           && s'.got == s.got && s'.missing == if name in s.missing then s.missing else s.missing[name := slot]
  }

  /** The names still missing have slots of their own and no GOT entry. */
  ghost predicate Placeholders(s: State) {
    && (forall n :: n in s.missing ==> n !in s.got && s.missing[n] < |s.table|)
    && (forall n, k :: n in s.missing && k in s.missing && s.missing[n] == s.missing[k] ==> n == k)
  }

  /**
   The names for which resolving the imports appends a slot, in order: a name somebody
   exports gets one slot, a name nobody exports yet gets one every time it is imported.
   */
  ghost function Appends(visible: iset<Symbol>, known: set<Symbol>, imports: seq<Symbol>): seq<Symbol> {
    if imports == [] then []
    else
      var before, name := Appends(visible, known, imports[..|imports| - 1]), imports[|imports| - 1];
      if name in known || (name in visible && name in before) then before else before + [name]
  }

  ghost predicate Resolvable(visible: iset<Symbol>, offered: iset<(Symbol, Object)>, entry: Option<Object>, name: Symbol) {
    if name in visible then entry.Some? && (name, entry.value) in offered else entry.None?
  }

  /** The slots appended since `start`: functions for the visible names, empty ones for the others. */
  ghost predicate TableLinked(visible: iset<Symbol>, offered: iset<(Symbol, Object)>, start: State, s: State, names: seq<Symbol>) {
    && |s.table| == |start.table| + |names| && start.table <= s.table
    && forall a :: 0 <= a < |names| ==> Resolvable(visible, offered, s.table[|start.table| + a], names[a])
  }

  /** The visible names are in the GOT, at their only slot. */
  ghost predicate GotLinked(visible: iset<Symbol>, start: State, s: State, names: seq<Symbol>) {
    && Extends(start.got, s.got)
    && (forall n :: n in s.got && n !in start.got ==> n in visible && FirstAt(names, |start.table|, n, s.got[n]))
    && (forall a :: 0 <= a < |names| ==> names[a] !in start.got)
    && (forall a :: 0 <= a < |names| && names[a] in visible ==> names[a] in s.got && First(names, a))
  }

  /** The others are missing, each at its first slot. */
  ghost predicate MissingLinked(visible: iset<Symbol>, start: State, s: State, names: seq<Symbol>) {
    && (forall n :: n in s.missing ==> n !in visible && FirstAt(names, |start.table|, n, s.missing[n]))
    && (forall a :: 0 <= a < |names| && names[a] !in visible ==> names[a] in s.missing)
  }

  /** What resolving imports has done since `start`. */
  ghost predicate Linked(visible: iset<Symbol>, offered: iset<(Symbol, Object)>, start: State, s: State, names: seq<Symbol>) {
    && TableLinked(visible, offered, start, s, names)
    && GotLinked(visible, start, s, names)
    && MissingLinked(visible, start, s, names)
  }

  /** The import has the slot of a name known before, or one of the slots appended for its name. */
  ghost predicate GivenSlot(start: State, names: seq<Symbol>, name: Symbol, slot: nat) {
    (name in start.got && slot == start.got[name]) || At(names, |start.table|, name, slot)
  }

  ghost predicate IsGiven(imports: seq<Symbol>, slots: seq<nat>, name: Symbol, slot: nat)
    requires |slots| == |imports|
  {
    exists i :: 0 <= i < |imports| && imports[i] == name && slots[i] == slot
  }

  /** Every import has a slot, and every slot appended is some import's. */
  ghost predicate Given(imports: seq<Symbol>, slots: seq<nat>, start: State, names: seq<Symbol>) {
    && |slots| == |imports|
    && (forall i :: 0 <= i < |imports| ==> GivenSlot(start, names, imports[i], slots[i]))
    && (forall a :: 0 <= a < |names| ==> IsGiven(imports, slots, names[a], |start.table| + a))
  }

  /** The imports so far are resolved, and have been given their slots. */
  ghost predicate LinkedUpTo(visible: iset<Symbol>, offered: iset<(Symbol, Object)>, start: State, s: State, done: seq<Symbol>, slots: seq<nat>) {
    var names := Appends(visible, start.got.Keys, done);
    Linked(visible, offered, start, s, names) && Given(done, slots, start, names)
  }

  lemma PrefixGrows(names: seq<Symbol>, i: nat)
    requires i < |names|
    ensures names[..i + 1] == names[..i] + [names[i]]
  {
  }

  lemma PrefixEnds(names: seq<Symbol>)
    ensures names[..0] == [] && names[..|names|] == names
  {
  }

  lemma LinkedNothing(visible: iset<Symbol>, offered: iset<(Symbol, Object)>, start: State)
    requires start.missing == map[]
    ensures LinkedUpTo(visible, offered, start, start, [], [])
  {
  }

  lemma LinkStep(visible: iset<Symbol>, offered: iset<(Symbol, Object)>, start: State, s: State, imports: seq<Symbol>, slots: seq<nat>,
                 name: Symbol, s': State, slot: nat)
    requires LinkedUpTo(visible, offered, start, s, imports, slots)
    requires Resolved(visible, offered, s, name, s', slot)
    ensures LinkedUpTo(visible, offered, start, s', imports + [name], slots + [slot])
  {
    var names := Appends(visible, start.got.Keys, imports);
    AppendsStep(visible, start.got.Keys, imports, name);
    if name in s.got {
      assert Appends(visible, start.got.Keys, imports + [name]) == names by {
        assert name in start.got || FirstAt(names, |start.table|, name, s.got[name]);
      }
      GivenAgain(imports, slots, start, names, name, slot);
    } else {
      TableStep(visible, offered, start, s, names, name, s', slot);
      GotStep(visible, offered, start, s, names, name, s', slot);
      MissingStep(visible, offered, start, s, names, name, s', slot);
      GivenStep(imports, slots, start, names, name, slot);
    }
  }

  lemma AppendsStep(visible: iset<Symbol>, known: set<Symbol>, imports: seq<Symbol>, name: Symbol)
    ensures var names := Appends(visible, known, imports);
            Appends(visible, known, imports + [name])
            == if name in known || (name in visible && name in names) then names else names + [name]
  {
    assert (imports + [name])[..|imports|] == imports;
  }

  lemma TableStep(visible: iset<Symbol>, offered: iset<(Symbol, Object)>, start: State, s: State, names: seq<Symbol>, name: Symbol, s': State, slot: nat)
    requires TableLinked(visible, offered, start, s, names) && name !in s.got && Resolved(visible, offered, s, name, s', slot)
    ensures TableLinked(visible, offered, start, s', names + [name])
  {
    assert forall k :: 0 <= k < |s.table| ==> s'.table[k] == s'.table[..slot][k];
  }

  lemma FirstAtLonger(names: seq<Symbol>, bottom: nat, n: Symbol, slot: nat, name: Symbol)
    requires FirstAt(names, bottom, n, slot)
    ensures FirstAt(names + [name], bottom, n, slot)
  {
  }

  lemma FirstAtEnd(names: seq<Symbol>, bottom: nat, name: Symbol)
    requires name !in names
    ensures FirstAt(names + [name], bottom, name, bottom + |names|)
  {
  }

  lemma GotStep(visible: iset<Symbol>, offered: iset<(Symbol, Object)>, start: State, s: State, names: seq<Symbol>, name: Symbol, s': State, slot: nat)
    requires GotLinked(visible, start, s, names) && |s.table| == |start.table| + |names|
    requires name !in s.got && Resolved(visible, offered, s, name, s', slot)
    ensures GotLinked(visible, start, s', names + [name])
  {
    var longer := names + [name];
    forall n | n in s'.got && n !in start.got
      ensures n in visible && FirstAt(longer, |start.table|, n, s'.got[n])
    {
      if n == name {
        assert name !in names;
        FirstAtEnd(names, |start.table|, name);
      } else {
        FirstAtLonger(names, |start.table|, n, s.got[n], name);
      }
    }
    forall a | 0 <= a < |longer| && longer[a] in visible ensures longer[a] in s'.got && First(longer, a) {
      if a < |names| {
        assert First(names, a);
      }
    }
  }

  lemma MissingStep(visible: iset<Symbol>, offered: iset<(Symbol, Object)>, start: State, s: State, names: seq<Symbol>, name: Symbol, s': State, slot: nat)
    requires MissingLinked(visible, start, s, names) && |s.table| == |start.table| + |names|
    requires name !in s.got && Resolved(visible, offered, s, name, s', slot)
    ensures MissingLinked(visible, start, s', names + [name])
  {
    forall n | n in s'.missing
      ensures n !in visible && FirstAt(names + [name], |start.table|, n, s'.missing[n])
    {
      if n in s.missing {
        FirstAtLonger(names, |start.table|, n, s.missing[n], name);
      } else {
        assert n == name && name !in names;
        FirstAtEnd(names, |start.table|, name);
      }
    }
  }

  lemma IsGivenLonger(imports: seq<Symbol>, slots: seq<nat>, n: Symbol, k: nat, name: Symbol, slot: nat)
    requires |slots| == |imports| && IsGiven(imports, slots, n, k)
    ensures IsGiven(imports + [name], slots + [slot], n, k)
  {
    var i :| 0 <= i < |imports| && imports[i] == n && slots[i] == k;
    assert (imports + [name])[i] == n && (slots + [slot])[i] == k;
  }

  lemma GivenAgain(imports: seq<Symbol>, slots: seq<nat>, start: State, names: seq<Symbol>, name: Symbol, slot: nat)
    requires Given(imports, slots, start, names) && GivenSlot(start, names, name, slot)
    ensures Given(imports + [name], slots + [slot], start, names)
  {
    forall a | 0 <= a < |names| ensures IsGiven(imports + [name], slots + [slot], names[a], |start.table| + a) {
      IsGivenLonger(imports, slots, names[a], |start.table| + a, name, slot);
    }
  }

  lemma GivenStep(imports: seq<Symbol>, slots: seq<nat>, start: State, names: seq<Symbol>, name: Symbol, slot: nat)
    requires Given(imports, slots, start, names) && slot == |start.table| + |names|
    ensures Given(imports + [name], slots + [slot], start, names + [name])
  {
    var longer := names + [name];
    forall i | 0 <= i < |imports| ensures GivenSlot(start, longer, imports[i], slots[i]) {
      assert GivenSlot(start, names, imports[i], slots[i]);
    }
    forall a | 0 <= a < |longer| ensures IsGiven(imports + [name], slots + [slot], longer[a], |start.table| + a) {
      if a < |names| {
        IsGivenLonger(imports, slots, names[a], |start.table| + a, name, slot);
      } else {
        assert (imports + [name])[|imports|] == name && (slots + [slot])[|imports|] == slot;
      }
    }
  }

  /** The names in `done` have their exports in their slots and their entries in the GOT; other slots are kept. */
  ghost predicate Patched(start: State, s: State, done: set<Symbol>, exports: map<Symbol, Object>) {
    && s.missing == start.missing && |s.table| == |start.table|
    && Extends(start.got, s.got) && s.got.Keys == start.got.Keys + done
    && (forall n :: n in done ==> n in start.missing && n in exports
                                  && n in s.got && s.got[n] == start.missing[n] < |s.table|
                                  && s.table[start.missing[n]] == Some(exports[n]))
    && (forall k :: 0 <= k < |start.table| ==> s.table[k] == start.table[k] || IsPlaceholder(start.missing, done, k))
  }

  ghost predicate IsPlaceholder(missing: map<Symbol, nat>, done: set<Symbol>, k: nat) {
    exists n :: n in done && n in missing && missing[n] == k
  }

  lemma PatchStep(start: State, s: State, done: set<Symbol>, exports: map<Symbol, Object>, name: Symbol, s': State)
    requires Placeholders(start) && Patched(start, s, done, exports)
    requires name in start.missing && name !in done && name in exports
    requires s' == State(s.table[start.missing[name] := Some(exports[name])], s.got[name := start.missing[name]], s.missing)
    ensures Patched(start, s', done + {name}, exports)
  {
    forall k | 0 <= k < |start.table|
      ensures s'.table[k] == start.table[k] || IsPlaceholder(start.missing, done + {name}, k)
    {
      if IsPlaceholder(start.missing, done, k) {
        var n :| n in done && n in start.missing && start.missing[n] == k;
        assert n in done + {name};
      } else if k == start.missing[name] {
        assert name in done + {name};
      }
    }
  }

  // ----- One load, on values -----

  datatype Target = NoSuchFile | Directory | File(mod: Module)

  ghost predicate Holds(table: Table, funcs: seq<Object>, bottom: nat) {
    bottom + |funcs| <= |table| && forall i :: 0 <= i < |funcs| ==> table[bottom + i] == Some(funcs[i])
  }

  ghost predicate SegmentsInside(size: nat, segments: seq<Segment>, offsets: seq<nat>) {
    && |offsets| == |segments|
    && forall k :: 0 <= k < |segments| ==> offsets[k] + |segments[k].funcs| <= size
  }

  /** The function last written to a slot by the first `n` segments. */
  function LastWritten(segments: seq<Segment>, offsets: seq<nat>, n: nat, slot: nat): Option<Object>
    requires n <= |segments| == |offsets|
  {
    if n == 0 then None
    else if offsets[n - 1] <= slot < offsets[n - 1] + |segments[n - 1].funcs| then Some(segments[n - 1].funcs[slot - offsets[n - 1]])
    else LastWritten(segments, offsets, n - 1, slot)
  }

  /** Where segments overlap the last one that covers a slot has it. */
  lemma {:induction false} LaterSegmentWins(segments: seq<Segment>, offsets: seq<nat>, n: nat, k: nat, slot: nat)
    requires k < n <= |segments| == |offsets| && offsets[k] <= slot < offsets[k] + |segments[k].funcs|
    requires forall i | k < i < n :: !(offsets[i] <= slot < offsets[i] + |segments[i].funcs|)
    ensures LastWritten(segments, offsets, n, slot) == Some(segments[k].funcs[slot - offsets[k]])
  {
    if k < n - 1 {
      LaterSegmentWins(segments, offsets, n - 1, k, slot);
    }
  }

  /** The name's first occurrence is in segment k, at the slot. */
  ghost predicate MainAt(segments: seq<Segment>, offsets: seq<nat>, name: Symbol, slot: nat, k: nat)
    requires |offsets| == |segments|
  {
    && k < |segments| && FirstAt(segments[k].names, offsets[k], name, slot)
    && forall i :: 0 <= i < k ==> name !in segments[i].names
  }

  ghost predicate SomewhereAt(segments: seq<Segment>, offsets: seq<nat>, n: nat, name: Symbol, slot: nat)
    requires |offsets| == |segments|
  {
    exists k :: 0 <= k < n && MainAt(segments, offsets, name, slot, k)
  }

  /** The entries after the first `n` segments: their exported names, each at its first occurrence. */
  ghost predicate MainGot(exports: map<Symbol, Object>, segments: seq<Segment>, offsets: seq<nat>, n: nat, got: map<Symbol, nat>)
    requires n <= |segments| == |offsets|
  {
    && (forall name :: name in got ==> name in exports && SomewhereAt(segments, offsets, n, name, got[name]))
    && (forall k, name :: 0 <= k < n && name in exports && name in segments[k].names ==> name in got)
  }

  lemma MainGotStep(exports: map<Symbol, Object>, segments: seq<Segment>, offsets: seq<nat>, k: nat, got: map<Symbol, nat>, got': map<Symbol, nat>)
    requires k < |segments| == |offsets| && MainGot(exports, segments, offsets, k, got)
    requires GotAdded(segments[k].names, exports, offsets[k], got, got')
    ensures MainGot(exports, segments, offsets, k + 1, got')
  {
    forall name | name in got' ensures name in exports && SomewhereAt(segments, offsets, k + 1, name, got'[name]) {
      if name in got {
        var i :| 0 <= i < k && MainAt(segments, offsets, name, got[name], i);
        assert i < k + 1 && MainAt(segments, offsets, name, got'[name], i);
      } else {
        assert MainAt(segments, offsets, name, got'[name], k);
      }
    }
    forall i, name | 0 <= i < k + 1 && name in exports && name in segments[i].names ensures name in got' {
      if i == k {
        var j :| 0 <= j < |segments[k].names| && segments[k].names[j] == name;
      }
    }
  }

  /** What can be worked out from the main module: the slot of every exported name ends up with a function of that name. */
  ghost predicate MainWell(offered: iset<(Symbol, Object)>, exports: map<Symbol, Object>, segments: seq<Segment>, offsets: seq<nat>)
    requires |offsets| == |segments|
  {
    forall name, slot: nat, k: nat :: name in exports && MainAt(segments, offsets, name, slot, k) ==>
      var entry := LastWritten(segments, offsets, |segments|, slot);
      entry.Some? && (name, entry.value) in offered
  }

  lemma MainGoodIff(offered: iset<(Symbol, Object)>, exports: map<Symbol, Object>, segments: seq<Segment>, offsets: seq<nat>,
                    table: Table, got: map<Symbol, nat>)
    requires SegmentsInside(|table|, segments, offsets) && MainGot(exports, segments, offsets, |segments|, got)
    requires forall x :: 0 <= x < |table| ==> table[x] == LastWritten(segments, offsets, |segments|, x)
    ensures AllGood(offered, table, got, {}) <==> MainWell(offered, exports, segments, offsets)
  {
    if MainWell(offered, exports, segments, offsets) {
      forall name | name in got ensures Good(offered, table, name, got[name]) {
        var k :| 0 <= k < |segments| && MainAt(segments, offsets, name, got[name], k);
        assert offsets[k] + |segments[k].funcs| <= |table|;
      }
    }
    if AllGood(offered, table, got, {}) {
      forall name, slot: nat, k: nat | name in exports && MainAt(segments, offsets, name, slot, k)
        ensures var entry := LastWritten(segments, offsets, |segments|, slot); entry.Some? && (name, entry.value) in offered
      {
        assert segments[k].names[slot - offsets[k]] == name;
        var i :| 0 <= i < |segments| && MainAt(segments, offsets, name, got[name], i);
        OneFirst(segments, offsets, name, slot, k, got[name], i);
      }
    }
  }

  lemma OneFirst(segments: seq<Segment>, offsets: seq<nat>, name: Symbol, slot: nat, k: nat, slot': nat, i: nat)
    requires |offsets| == |segments| && MainAt(segments, offsets, name, slot, k) && MainAt(segments, offsets, name, slot', i)
    ensures i == k && slot == slot'
  {
    assert segments[k].names[slot - offsets[k]] == name && segments[i].names[slot' - offsets[i]] == name;
    if i == k {
      FirstIsUnique(segments[k].names, offsets[k], name, slot, slot');
    }
  }

  ghost predicate SegmentsApart(segments: seq<Segment>, offsets: seq<nat>)
    requires |offsets| == |segments|
  {
    forall j, k :: 0 <= j < k < |segments| ==>
      offsets[j] + |segments[j].funcs| <= offsets[k] || offsets[k] + |segments[k].funcs| <= offsets[j]
  }

  lemma {:induction false} WrittenOnce(segments: seq<Segment>, offsets: seq<nat>, n: nat, k: nat, slot: nat)
    requires k < n <= |segments| == |offsets| && SegmentsApart(segments, offsets)
    requires offsets[k] <= slot < offsets[k] + |segments[k].funcs|
    ensures LastWritten(segments, offsets, n, slot) == Some(segments[k].funcs[slot - offsets[k]])
  {
    if k < n - 1 {
      WrittenOnce(segments, offsets, n - 1, k, slot);
    }
  }

  /** Segments that do not overlap, with elements that are what they are named like, are enough. */
  lemma ApartIsWell(hosts: Hosts, segments: seq<Segment>, offsets: seq<nat>)
    requires |offsets| == |segments| && SegmentsApart(segments, offsets)
    requires forall k :: 0 <= k < |segments| ==> WellNamed(segments[k], hosts.main)
    ensures MainWell(Offered(hosts, map[]), hosts.main, segments, offsets)
  {
    forall name, slot: nat, k: nat | name in hosts.main && MainAt(segments, offsets, name, slot, k)
      ensures LastWritten(segments, offsets, |segments|, slot) == Some(hosts.main[name])
    {
      WrittenOnce(segments, offsets, |segments|, k, slot);
      assert WellNamed(segments[k], hosts.main);
    }
  }

  function LoadedAt(path: string, bottom: nat, m: Module): Loaded {
    Loaded(path, bottom, bottom + m.tableSize, Some(m.exports))
  }

  /** Old slots and entries are as they were, and every import has been handed a slot. */
  ghost predicate Grown(table: Table, table': Table, got: map<Symbol, nat>, got': map<Symbol, nat>,
                        handed: set<(Symbol, nat)>, handed': set<(Symbol, nat)>, imports: seq<Symbol>) {
    && table <= table' && Extends(got, got') && handed <= handed'
    && forall i :: 0 <= i < |imports| ==> WasHanded(imports[i], handed')
  }

  ghost predicate WasHanded(name: Symbol, handed: set<(Symbol, nat)>) {
    exists slot :: (name, slot) in handed
  }

  /** The module's segment is no longer than the table it declares. */
  ghost predicate ElementsFit(m: Module) {
    |m.elems.funcs| <= m.tableSize
  }

  /** The names with a GOT entry once the module's own segment is added. */
  ghost function Known(got: map<Symbol, nat>, m: Module): set<Symbol> {
    got.Keys + set j | 0 <= j < |m.elems.names| && m.elems.names[j] in m.exports :: m.elems.names[j]
  }

  ghost function Names(visible: iset<Symbol>, got: map<Symbol, nat>, m: Module): seq<Symbol> {
    Appends(visible, Known(got, m), m.imports)
  }

  /** Every import is known, exported by something loaded before, or exported by the module itself. */
  ghost predicate AllResolvable(visible: iset<Symbol>, got: map<Symbol, nat>, m: Module) {
    forall i :: 0 <= i < |m.imports| ==> m.imports[i] in got || m.imports[i] in visible || m.imports[i] in m.exports
  }

  /** The segment does not even fit behind what linking appends, or an import cannot be resolved. */
  ghost predicate Throws(visible: iset<Symbol>, got: map<Symbol, nat>, m: Module) {
    |m.elems.funcs| > m.tableSize + |Names(visible, got, m)| || !AllResolvable(visible, got, m)
  }

  /** A placeholder that is recorded, and so patched in the end. */
  ghost predicate PatchedSlot(visible: iset<Symbol>, names: seq<Symbol>, a: nat)
    requires a < |names|
  {
    names[a] !in visible && First(names, a)
  }

  /**
   The slot appended for `names[a]` ends up with a function of that name: it is patched,
   or the overlong segment puts such a function there, or nothing overwrites the one found.
   */
  ghost predicate Serves(visible: iset<Symbol>, offered: iset<(Symbol, Object)>, m: Module, names: seq<Symbol>, a: nat)
    requires a < |names|
  {
    if PatchedSlot(visible, names, a) then true
    else if m.tableSize + a < |m.elems.funcs| then (names[a], m.elems.funcs[m.tableSize + a]) in offered
    else names[a] in visible
  }

  /** Element j is the one that gives its exported name a GOT entry. */
  ghost predicate OwnEntry(got: map<Symbol, nat>, m: Module, j: nat) {
    j < |m.elems.names| && m.elems.names[j] in m.exports && m.elems.names[j] !in got && First(m.elems.names, j)
  }

  /** What the slot of own element j ends up with: the element, unless it is an appended slot that is patched. */
  ghost function OwnContent(visible: iset<Symbol>, m: Module, names: seq<Symbol>, j: nat): Object
    requires j < |m.elems.names|
  {
    var a := j - m.tableSize;
    if 0 <= a < |names| && PatchedSlot(visible, names, a) && names[a] in m.exports then m.exports[names[a]] else m.elems.funcs[j]
  }

  /**
   What a caller can work out before the load: whether all slots appended for imports, and
   all entries of the module's own elements, end up with functions of their names.
   `offered` are the functions on offer once the module is there.
   */
  ghost predicate LoadsWell(visible: iset<Symbol>, offered: iset<(Symbol, Object)>, got: map<Symbol, nat>, m: Module) {
    LoadsWellWith(visible, offered, got, m, Names(visible, got, m))
  }

  ghost predicate LoadsWellWith(visible: iset<Symbol>, offered: iset<(Symbol, Object)>, got: map<Symbol, nat>, m: Module, names: seq<Symbol>) {
    && (forall a :: 0 <= a < |names| ==> Serves(visible, offered, m, names, a))
    && (forall j: nat :: OwnEntry(got, m, j) ==> (m.elems.names[j], OwnContent(visible, m, names, j)) in offered)
  }

  /** A name that nobody can serve yet is imported twice. */
  ghost predicate MissingTwice(visible: iset<Symbol>, known: set<Symbol>, imports: seq<Symbol>) {
    exists i, j :: 0 <= i < j < |imports| && imports[i] == imports[j] && imports[j] !in known && imports[j] !in visible
  }

  /** The linker after each stage of a load. */
  datatype LoadSteps = LoadSteps(start: State, added: State, linked: State, written: State, patched: State)

  /** What each stage does. */
  ghost predicate Staged(visible: iset<Symbol>, offered: iset<(Symbol, Object)>, m: Module, st: LoadSteps, names: seq<Symbol>) {
    var bottom := |st.start.table|;
    && st.start.table <= st.added.table && |st.added.table| == bottom + m.tableSize
    && GotAdded(m.elems.names, m.exports, bottom, st.start.got, st.added.got)
    && Linked(visible, offered, st.added, st.linked, names)
    && bottom + |m.elems.funcs| <= |st.linked.table|
    && Written(m.elems.funcs, bottom, st.linked.table, st.written.table)
    && st.written.got == st.linked.got && st.written.missing == st.linked.missing
    && Patched(st.written, st.patched, st.written.missing.Keys, m.exports)
  }

  ghost predicate MidOf(modules: Modules, mid: Modules, handle: int) {
    && handle !in modules
    && mid.Keys == modules.Keys + {handle} && (forall h :: h in modules ==> mid[h] == modules[h]) && mid[handle].ptr.None?
  }

  lemma RecordedTwice(modules: Modules, handle: int, first: Loaded, second: Loaded)
    ensures modules[handle := first][handle := second] == modules[handle := second]
  {
  }

  lemma CountOneMore(modules: Modules, handle: int, loaded: Loaded)
    requires handle !in modules
    ensures |modules[handle := loaded]| == |modules| + 1
  {
    assert modules[handle := loaded].Keys == modules.Keys + {handle};
    assert |modules.Keys + {handle}| == |modules.Keys| + 1;
  }

  lemma OneMore(modules: Modules, handle: int, loaded: Loaded)
    requires (forall h :: h in modules <==> 2 <= h < 2 + |modules|) && handle == 2 + |modules|
    ensures var more := modules[handle := loaded]; |more| == |modules| + 1 && forall h :: h in more <==> 2 <= h < 2 + |more|
  {
    CountOneMore(modules, handle, loaded);
  }

  lemma HandlesStayInOrder(modules: Modules, pathToHandle: map<string, int>, path: string, handle: int, loaded: Loaded)
    requires HandlesInOrder(modules, pathToHandle)
    requires path !in pathToHandle && handle == 2 + |modules| && loaded.path == path && loaded.ptr.Some?
    ensures HandlesInOrder(modules[handle := loaded], pathToHandle[path := handle])
  {
    OneMore(modules, handle, loaded);
    var modules', paths := modules[handle := loaded], pathToHandle[path := handle];
    forall p | p in paths ensures paths[p] in modules' && modules'[paths[p]].path == p {
      assert p != path ==> pathToHandle[p] in modules && pathToHandle[p] != handle;
    }
    forall h | h in modules'
      ensures modules'[h].ptr.Some? && modules'[h].path in paths && paths[modules'[h].path] == h
    {
      assert h != handle ==> h in modules && modules[h].path != path;
    }
  }

  /** Registering the module before it is instantiated makes no name visible and offers no function. */
  lemma VisibleMid(hosts: Hosts, modules: Modules, modules': Modules, handle: int)
    requires MidOf(modules, modules', handle)
    ensures VisibleNames(hosts, modules) == VisibleNames(hosts, modules')
    ensures Bindings(hosts, modules) == Bindings(hosts, modules')
  {
    forall n, h ensures VisibleIn(modules, h, n) == VisibleIn(modules', h, n) {
    }
    forall n, h, obj ensures ExportedBy(modules, h, n, obj) == ExportedBy(modules', h, n, obj) {
    }
    assert forall n :: Visible(hosts, modules, n) <==> Visible(hosts, modules', n);
    assert forall n, obj :: (n, obj) in Bindings(hosts, modules) <==> (n, obj) in Bindings(hosts, modules');
  }

  lemma OfferedGrows(hosts: Hosts, modules: Modules, modules': Modules, handle: int, m: Module)
    requires handle !in modules && handle in modules' && modules' == modules[handle := modules'[handle]]
    requires modules'[handle].ptr == Some(m.exports)
    ensures Offered(hosts, modules) <= Offered(hosts, modules')
    ensures forall n :: n in m.exports ==> (n, m.exports[n]) in Offered(hosts, modules')
  {
    forall n, obj | Exported(hosts, modules, n, obj) ensures Exported(hosts, modules', n, obj) {
      if h :| ExportedBy(modules, h, n, obj) {
        assert ExportedBy(modules', h, n, obj);
      }
    }
    forall n | n in m.exports ensures Exported(hosts, modules', n, m.exports[n]) {
      assert ExportedBy(modules', handle, n, m.exports[n]);
    }
  }

  lemma KnownKeys(m: Module, bottom: nat, got: map<Symbol, nat>, got': map<Symbol, nat>)
    requires GotAdded(m.elems.names, m.exports, bottom, got, got')
    ensures got'.Keys == Known(got, m)
  {
    forall n ensures n in got' <==> n in Known(got, m) {
      if n in got' && n !in got {
        assert m.elems.names[got'[n] - bottom] == n;
      }
    }
  }

  lemma LinkedPlaceholders(visible: iset<Symbol>, offered: iset<(Symbol, Object)>, start: State, s: State, names: seq<Symbol>)
    requires Linked(visible, offered, start, s, names)
    ensures Placeholders(s)
  {
  }

  lemma {:induction false} AppendsFrom(visible: iset<Symbol>, known: set<Symbol>, imports: seq<Symbol>, name: Symbol)
    ensures name in Appends(visible, known, imports) <==> name in imports && name !in known
  {
    if imports != [] {
      var n := |imports| - 1;
      AppendsFrom(visible, known, imports[..n], name);
      assert imports == imports[..n] + [imports[n]];
    }
  }

  /** The placeholders can all be patched exactly when every import is resolvable. */
  lemma PatchableIff(visible: iset<Symbol>, offered: iset<(Symbol, Object)>, m: Module, got: map<Symbol, nat>, added: State, linked: State)
    requires added.got.Keys == Known(got, m)
    requires Linked(visible, offered, added, linked, Names(visible, got, m))
    ensures Placeholders(linked)
    ensures (forall n :: n in linked.missing ==> n in m.exports) <==> AllResolvable(visible, got, m)
  {
    LinkedPlaceholders(visible, offered, added, linked, Names(visible, got, m));
    forall n ensures n in linked.missing <==> n in m.imports && n !in Known(got, m) && n !in visible {
      MissingAre(visible, m, got, added, linked, n);
    }
    if AllResolvable(visible, got, m) {
      forall n | n in linked.missing ensures n in m.exports {
        var i :| 0 <= i < |m.imports| && m.imports[i] == n;
      }
    } else {
      var i :| 0 <= i < |m.imports| && !(m.imports[i] in got || m.imports[i] in visible || m.imports[i] in m.exports);
      assert m.imports[i] in linked.missing;
    }
  }

  lemma MissingAre(visible: iset<Symbol>, m: Module, got: map<Symbol, nat>, added: State, linked: State, n: Symbol)
    requires MissingLinked(visible, added, linked, Names(visible, got, m))
    ensures n in linked.missing <==> n in m.imports && n !in Known(got, m) && n !in visible
  {
    var names := Names(visible, got, m);
    AppendsFrom(visible, Known(got, m), m.imports, n);
    if n in linked.missing {
      assert names[linked.missing[n] - |added.table|] == n;
    }
  }

  // ----- The table after a load -----

  /** What an appended slot holds in the end: a patch, else an element of an overlong segment, else what linking put there. */
  ghost predicate SlotHolds(visible: iset<Symbol>, offered: iset<(Symbol, Object)>, m: Module, names: seq<Symbol>, t: Table, low: nat, a: nat)
    requires a < |names| && |t| == low + |names|
  {
    if PatchedSlot(visible, names, a) then names[a] in m.exports && t[low + a] == Some(m.exports[names[a]])
    else if m.tableSize + a < |m.elems.funcs| then t[low + a] == Some(m.elems.funcs[m.tableSize + a])
    else Resolvable(visible, offered, t[low + a], names[a])
  }

  /** Old slots as they were, then the part of the segment that fits its declared table, then the appended slots. */
  ghost predicate TableAfter(visible: iset<Symbol>, offered: iset<(Symbol, Object)>, m: Module, names: seq<Symbol>, start: Table, t: Table, low: nat) {
    && start <= t && low == |start| + m.tableSize && |t| == low + |names|
    && (forall j :: 0 <= j < |m.elems.funcs| && j < m.tableSize ==> t[|start| + j] == Some(m.elems.funcs[j]))
    && (forall a :: 0 <= a < |names| ==> SlotHolds(visible, offered, m, names, t, low, a))
  }

  /** Every entry is an old one, one of an own element, or one of an appended slot. */
  ghost predicate GotAfter(m: Module, names: seq<Symbol>, start: State, low: nat, got: map<Symbol, nat>) {
    && Extends(start.got, got)
    && (forall n :: n in got && n !in start.got ==>
          || (FirstAt(m.elems.names, |start.table|, n, got[n]) && n in m.exports)
          || FirstAt(names, low, n, got[n]))
    && (forall j: nat :: OwnEntry(start.got, m, j) ==> m.elems.names[j] in got && got[m.elems.names[j]] == |start.table| + j)
  }

  lemma FirstIsUnique(names: seq<Symbol>, bottom: nat, n: Symbol, slot: nat, other: nat)
    requires FirstAt(names, bottom, n, slot) && FirstAt(names, bottom, n, other)
    ensures slot == other
  {
  }

  /** Below the appended slots nothing is patched. */
  lemma LowSlot(visible: iset<Symbol>, m: Module, added: State, linked: State, names: seq<Symbol>, written: State, patched: State, k: nat)
    requires MissingLinked(visible, added, linked, names) && written.missing == linked.missing
    requires Patched(written, patched, written.missing.Keys, m.exports)
    requires k < |added.table| && k < |written.table|
    ensures k < |patched.table| && patched.table[k] == written.table[k]
  {
    assert !IsPlaceholder(written.missing, written.missing.Keys, k);
  }

  lemma AppendedSlot(visible: iset<Symbol>, m: Module, added: State, linked: State, names: seq<Symbol>, written: State, patched: State, a: nat)
    requires MissingLinked(visible, added, linked, names) && written.missing == linked.missing
    requires Patched(written, patched, written.missing.Keys, m.exports)
    requires a < |names| && |written.table| == |added.table| + |names|
    ensures var k := |added.table| + a;
            && k < |patched.table|
            && if PatchedSlot(visible, names, a) then names[a] in m.exports && patched.table[k] == Some(m.exports[names[a]])
               else patched.table[k] == written.table[k]
  {
    var k := |added.table| + a;
    if PatchedSlot(visible, names, a) {
      FirstIsUnique(names, |added.table|, names[a], linked.missing[names[a]], k);
    } else {
      forall n | n in written.missing ensures written.missing[n] != k {
        assert FirstAt(names, |added.table|, n, written.missing[n]);
      }
      assert !IsPlaceholder(written.missing, written.missing.Keys, k);
    }
  }

  lemma OwnPartAfter(visible: iset<Symbol>, m: Module, start: Table, added: State, linked: State, names: seq<Symbol>, written: State, patched: State)
    requires start <= added.table <= linked.table && |added.table| == |start| + m.tableSize
    requires MissingLinked(visible, added, linked, names) && written.missing == linked.missing
    requires Written(m.elems.funcs, |start|, linked.table, written.table)
    requires Patched(written, patched, written.missing.Keys, m.exports)
    ensures |patched.table| == |linked.table| && start <= patched.table
    ensures forall j :: 0 <= j < |m.elems.funcs| && j < m.tableSize ==> patched.table[|start| + j] == Some(m.elems.funcs[j])
  {
    forall k | 0 <= k < |added.table| ensures patched.table[k] == written.table[k] {
      LowSlot(visible, m, added, linked, names, written, patched, k);
    }
    forall k | 0 <= k < |start| ensures patched.table[k] == start[k] {
      assert start[k] == added.table[k] == linked.table[k];
    }
  }

  lemma SlotAfter(visible: iset<Symbol>, offered: iset<(Symbol, Object)>, m: Module, bottom: nat, added: State, linked: State, names: seq<Symbol>,
                  written: State, patched: State, a: nat)
    requires TableLinked(visible, offered, added, linked, names) && |added.table| == bottom + m.tableSize
    requires MissingLinked(visible, added, linked, names) && written.missing == linked.missing
    requires Written(m.elems.funcs, bottom, linked.table, written.table)
    requires Patched(written, patched, written.missing.Keys, m.exports)
    requires a < |names|
    ensures |patched.table| == |added.table| + |names| && SlotHolds(visible, offered, m, names, patched.table, |added.table|, a)
  {
    AppendedSlot(visible, m, added, linked, names, written, patched, a);
    assert Resolvable(visible, offered, linked.table[|added.table| + a], names[a]);
  }

  lemma TableIsAfter(visible: iset<Symbol>, offered: iset<(Symbol, Object)>, m: Module, st: LoadSteps, names: seq<Symbol>)
    requires Staged(visible, offered, m, st, names)
    ensures TableAfter(visible, offered, m, names, st.start.table, st.patched.table, |st.added.table|)
  {
    var low := |st.added.table|;
    OwnPartAfter(visible, m, st.start.table, st.added, st.linked, names, st.written, st.patched);
    forall a | 0 <= a < |names| ensures SlotHolds(visible, offered, m, names, st.patched.table, low, a) {
      SlotAfter(visible, offered, m, |st.start.table|, st.added, st.linked, names, st.written, st.patched, a);
    }
  }

  lemma GotIsAfter(visible: iset<Symbol>, offered: iset<(Symbol, Object)>, m: Module, st: LoadSteps, names: seq<Symbol>)
    requires Staged(visible, offered, m, st, names)
    ensures GotAfter(m, names, st.start, |st.added.table|, st.patched.got)
  {
    forall n | n in st.patched.got && n !in st.start.got
      ensures (FirstAt(m.elems.names, |st.start.table|, n, st.patched.got[n]) && n in m.exports)
              || FirstAt(names, |st.added.table|, n, st.patched.got[n])
    {
      EntryAfter(visible, m, st.start, st.added, st.linked, names, st.written, st.patched, n);
    }
    forall j: nat | OwnEntry(st.start.got, m, j)
      ensures m.elems.names[j] in st.patched.got && st.patched.got[m.elems.names[j]] == |st.start.table| + j
    {
      OwnEntryAfter(m, st.start, st.added.got, st.linked.got, st.patched.got, j);
    }
  }

  lemma OwnEntryAfter(m: Module, start: State, added: map<Symbol, nat>, linked: map<Symbol, nat>, patched: map<Symbol, nat>, j: nat)
    requires GotAdded(m.elems.names, m.exports, |start.table|, start.got, added) && Extends(added, linked) && Extends(linked, patched)
    requires OwnEntry(start.got, m, j)
    ensures m.elems.names[j] in patched && patched[m.elems.names[j]] == |start.table| + j
  {
    var n := m.elems.names[j];
    FirstIsUnique(m.elems.names, |start.table|, n, added[n], |start.table| + j);
    assert linked[n] == added[n];
  }

  lemma EntryAfter(visible: iset<Symbol>, m: Module, start: State, added: State, linked: State, names: seq<Symbol>,
                   written: State, patched: State, n: Symbol)
    requires GotAdded(m.elems.names, m.exports, |start.table|, start.got, added.got)
    requires GotLinked(visible, added, linked, names) && MissingLinked(visible, added, linked, names)
    requires written.got == linked.got && written.missing == linked.missing
    requires Patched(written, patched, written.missing.Keys, m.exports)
    requires n in patched.got && n !in start.got
    ensures (FirstAt(m.elems.names, |start.table|, n, patched.got[n]) && n in m.exports)
            || FirstAt(names, |added.table|, n, patched.got[n])
  {
    if n in added.got {
      assert linked.got[n] == added.got[n];
    } else if n in linked.got {
      assert FirstAt(names, |added.table|, n, linked.got[n]);
    } else {
      assert FirstAt(names, |added.table|, n, linked.missing[n]);
    }
  }

  /** Every import's slot is a GOT entry under its name or one appended for it, and every appended slot is some import's. */
  ghost predicate ImportsAfter(m: Module, names: seq<Symbol>, low: nat, got: map<Symbol, nat>, slots: seq<nat>) {
    && |slots| == |m.imports|
    && (forall i :: 0 <= i < |slots| ==>
          (m.imports[i] in got && slots[i] == got[m.imports[i]]) || At(names, low, m.imports[i], slots[i]))
    && (forall a :: 0 <= a < |names| ==> IsGiven(m.imports, slots, names[a], low + a))
  }

  lemma ImportsAreAfter(m: Module, names: seq<Symbol>, added: State, got: map<Symbol, nat>, slots: seq<nat>)
    requires Given(m.imports, slots, added, names) && Extends(added.got, got)
    ensures ImportsAfter(m, names, |added.table|, got, slots)
  {
    forall i | 0 <= i < |slots|
      ensures (m.imports[i] in got && slots[i] == got[m.imports[i]]) || At(names, |added.table|, m.imports[i], slots[i])
    {
      assert GivenSlot(added, names, m.imports[i], slots[i]);
    }
  }

  // ----- What imports are bound to -----

  /**
   What an import ends up with in a module whose segment fits: an entry there was before, the
   module's own first element of that name, the main module's function or else a dynamic
   module's, and the module's own export only when nobody else has the name.
   */
  ghost predicate ImportBound(visible: iset<Symbol>, bindings: iset<(Symbol, Object)>, m: Module, start: State,
                              table: Table, got: map<Symbol, nat>, n: Symbol) {
    && n in got
    && if n in start.got then got[n] == start.got[n]
       else
         && got[n] < |table| && table[got[n]].Some?
         && if n in Known(map[], m) then
              FirstAt(m.elems.names, |start.table|, n, got[n]) && table[got[n]].value == m.elems.funcs[got[n] - |start.table|]
            else if n in visible then (n, table[got[n]].value) in bindings
            else n in m.exports && table[got[n]].value == m.exports[n]
  }

  ghost predicate ImportsBound(visible: iset<Symbol>, bindings: iset<(Symbol, Object)>, m: Module, start: State,
                               table: Table, got: map<Symbol, nat>) {
    ElementsFit(m) ==> forall n | n in m.imports :: ImportBound(visible, bindings, m, start, table, got, n)
  }

  lemma OwnIsBound(visible: iset<Symbol>, bindings: iset<(Symbol, Object)>, m: Module, st: LoadSteps, names: seq<Symbol>, n: Symbol)
    requires Staged(visible, bindings, m, st, names) && ElementsFit(m)
    requires n in Known(map[], m) && n !in st.start.got
    ensures ImportBound(visible, bindings, m, st.start, st.patched.table, st.patched.got, n)
  {
    assert n in st.added.got && n in st.linked.got && n in st.patched.got;
    assert st.patched.got[n] == st.linked.got[n] == st.added.got[n];
    TableIsAfter(visible, bindings, m, st, names);
  }

  lemma OtherHasEntry(visible: iset<Symbol>, m: Module, added: State, linked: State, names: seq<Symbol>, written: State, patched: State, n: Symbol)
    requires GotLinked(visible, added, linked, names) && MissingLinked(visible, added, linked, names)
    requires written.got == linked.got && written.missing == linked.missing
    requires Patched(written, patched, written.missing.Keys, m.exports)
    requires n in names && n !in added.got
    ensures n in patched.got && FirstAt(names, |added.table|, n, patched.got[n])
  {
    var a :| 0 <= a < |names| && names[a] == n;
    if n in visible {
      assert n in linked.got && patched.got[n] == linked.got[n];
    } else {
      assert n in linked.missing && patched.got[n] == linked.missing[n];
    }
  }

  lemma OtherIsBound(visible: iset<Symbol>, bindings: iset<(Symbol, Object)>, m: Module, start: State, names: seq<Symbol>,
                     table: Table, low: nat, got: map<Symbol, nat>, n: Symbol)
    requires TableAfter(visible, bindings, m, names, start.table, table, low) && ElementsFit(m)
    requires n in got && FirstAt(names, low, n, got[n]) && n !in start.got && n !in Known(map[], m)
    ensures ImportBound(visible, bindings, m, start, table, got, n)
  {
    assert SlotHolds(visible, bindings, m, names, table, low, got[n] - low);
  }

  lemma ImportsAreBound(visible: iset<Symbol>, bindings: iset<(Symbol, Object)>, m: Module, st: LoadSteps)
    requires Staged(visible, bindings, m, st, Names(visible, st.start.got, m))
    ensures ImportsBound(visible, bindings, m, st.start, st.patched.table, st.patched.got)
  {
    var names := Names(visible, st.start.got, m);
    if ElementsFit(m) {
      KnownKeys(m, |st.start.table|, st.start.got, st.added.got);
      TableIsAfter(visible, bindings, m, st, names);
      forall n | n in m.imports ensures ImportBound(visible, bindings, m, st.start, st.patched.table, st.patched.got, n) {
        if n in st.start.got {
          assert st.added.got[n] == st.start.got[n] && st.linked.got[n] == st.added.got[n];
        } else if n in Known(map[], m) {
          OwnIsBound(visible, bindings, m, st, names, n);
        } else {
          AppendsFrom(visible, Known(st.start.got, m), m.imports, n);
          OtherHasEntry(visible, m, st.added, st.linked, names, st.written, st.patched, n);
          OtherIsBound(visible, bindings, m, st.start, names, st.patched.table, |st.added.table|, st.patched.got, n);
        }
      }
    }
  }

  // ----- When a load is good -----

  /** What is on offer after a load: all that was before, and the new module's exports. */
  ghost predicate OffersMore(before: iset<(Symbol, Object)>, offered: iset<(Symbol, Object)>, m: Module) {
    before <= offered && forall n :: n in m.exports ==> (n, m.exports[n]) in offered
  }

  lemma AppendedGoodIff(visible: iset<Symbol>, before: iset<(Symbol, Object)>, offered: iset<(Symbol, Object)>, m: Module,
                        names: seq<Symbol>, t: Table, low: nat, a: nat)
    requires OffersMore(before, offered, m) && a < |names| && |t| == low + |names| && SlotHolds(visible, before, m, names, t, low, a)
    ensures Good(offered, t, names[a], low + a) <==> Serves(visible, offered, m, names, a)
  {
  }

  lemma OldGood(before: iset<(Symbol, Object)>, offered: iset<(Symbol, Object)>, start: Table, t: Table, n: Symbol, slot: nat)
    requires before <= offered && start <= t && Good(before, start, n, slot)
    ensures Good(offered, t, n, slot)
  {
  }

  /** The entry of an own element is good exactly when what its slot ends up with goes by its name. */
  lemma OwnEntryGoodIff(visible: iset<Symbol>, before: iset<(Symbol, Object)>, offered: iset<(Symbol, Object)>, m: Module,
                        names: seq<Symbol>, start: State, t: Table, low: nat, j: nat)
    requires OffersMore(before, offered, m) && TableAfter(visible, before, m, names, start.table, t, low)
    requires |m.elems.funcs| <= m.tableSize + |names| && OwnEntry(start.got, m, j)
    ensures Good(offered, t, m.elems.names[j], |start.table| + j)
            <==> (m.elems.names[j], OwnContent(visible, m, names, j)) in offered
  {
    if j < m.tableSize {
      assert t[|start.table| + j] == Some(m.elems.funcs[j]);
    } else {
      var a := j - m.tableSize;
      assert SlotHolds(visible, before, m, names, t, low, a);
      assert low + a == |start.table| + j;
    }
  }

  /** An entry is good if the condition holds. */
  lemma EntryGood(visible: iset<Symbol>, before: iset<(Symbol, Object)>, offered: iset<(Symbol, Object)>, m: Module,
                  names: seq<Symbol>, start: State, t: Table, low: nat, n: Symbol, slot: nat)
    requires OffersMore(before, offered, m) && TableAfter(visible, before, m, names, start.table, t, low)
    requires |m.elems.funcs| <= m.tableSize + |names|
    requires LoadsWellWith(visible, offered, start.got, m, names)
    requires || (FirstAt(m.elems.names, |start.table|, n, slot) && n in m.exports && n !in start.got)
             || At(names, low, n, slot)
    ensures Good(offered, t, n, slot)
  {
    if At(names, low, n, slot) {
      var a := slot - low;
      assert Serves(visible, offered, m, names, a) && SlotHolds(visible, before, m, names, t, low, a);
      AppendedGoodIff(visible, before, offered, m, names, t, low, a);
    } else {
      var j := slot - |start.table|;
      assert OwnEntry(start.got, m, j);
      OwnEntryGoodIff(visible, before, offered, m, names, start, t, low, j);
    }
  }

  /** The condition makes everything good. */
  lemma WellMeansGood(visible: iset<Symbol>, before: iset<(Symbol, Object)>, offered: iset<(Symbol, Object)>, m: Module, names: seq<Symbol>,
                      start: State, t: Table, low: nat, got: map<Symbol, nat>, slots: seq<nat>, handed: set<(Symbol, nat)>)
    requires OffersMore(before, offered, m) && AllGood(offered, start.table, start.got, handed)
    requires TableAfter(visible, before, m, names, start.table, t, low) && GotAfter(m, names, start, low, got)
    requires |m.elems.funcs| <= m.tableSize + |names|
    requires ImportsAfter(m, names, low, got, slots)
    requires LoadsWellWith(visible, offered, start.got, m, names)
    ensures AllGood(offered, t, got, handed)
    ensures forall i :: 0 <= i < |slots| ==> Good(offered, t, m.imports[i], slots[i])
  {
    forall n | n in got ensures Good(offered, t, n, got[n]) {
      if n in start.got {
        OldGood(offered, offered, start.table, t, n, got[n]);
      } else {
        EntryGood(visible, before, offered, m, names, start, t, low, n, got[n]);
      }
    }
    forall p | p in handed ensures Good(offered, t, p.0, p.1) {
      OldGood(offered, offered, start.table, t, p.0, p.1);
    }
    forall i | 0 <= i < |slots| ensures Good(offered, t, m.imports[i], slots[i]) {
      if At(names, low, m.imports[i], slots[i]) {
        EntryGood(visible, before, offered, m, names, start, t, low, m.imports[i], slots[i]);
      }
    }
  }

  /** If everything is good, the condition held. */
  lemma GoodMeansWell(visible: iset<Symbol>, before: iset<(Symbol, Object)>, offered: iset<(Symbol, Object)>, m: Module, names: seq<Symbol>,
                      start: State, t: Table, low: nat, got: map<Symbol, nat>, slots: seq<nat>)
    requires OffersMore(before, offered, m)
    requires TableAfter(visible, before, m, names, start.table, t, low) && GotAfter(m, names, start, low, got)
    requires |m.elems.funcs| <= m.tableSize + |names|
    requires ImportsAfter(m, names, low, got, slots)
    requires forall n :: n in got ==> Good(offered, t, n, got[n])
    requires forall i :: 0 <= i < |slots| ==> Good(offered, t, m.imports[i], slots[i])
    ensures LoadsWellWith(visible, offered, start.got, m, names)
  {
    forall a | 0 <= a < |names| ensures Serves(visible, offered, m, names, a) {
      GivenServes(visible, before, offered, m, names, t, low, slots, a);
    }
    forall j: nat | OwnEntry(start.got, m, j)
      ensures (m.elems.names[j], OwnContent(visible, m, names, j)) in offered
    {
      OwnEntryGoodIff(visible, before, offered, m, names, start, t, low, j);
      assert Good(offered, t, m.elems.names[j], got[m.elems.names[j]]);
    }
  }

  lemma GivenServes(visible: iset<Symbol>, before: iset<(Symbol, Object)>, offered: iset<(Symbol, Object)>, m: Module, names: seq<Symbol>,
                    t: Table, low: nat, slots: seq<nat>, a: nat)
    requires OffersMore(before, offered, m) && a < |names| && |t| == low + |names| && SlotHolds(visible, before, m, names, t, low, a)
    requires |slots| == |m.imports| && IsGiven(m.imports, slots, names[a], low + a)
    requires forall i :: 0 <= i < |slots| ==> Good(offered, t, m.imports[i], slots[i])
    ensures Serves(visible, offered, m, names, a)
  {
    var i :| 0 <= i < |m.imports| && m.imports[i] == names[a] && slots[i] == low + a;
    assert Good(offered, t, m.imports[i], slots[i]);
    AppendedGoodIff(visible, before, offered, m, names, t, low, a);
  }

  /**
   A load that does not throw keeps every old slot and entry; every slot handed out and
   every GOT entry is good afterwards exactly under the condition worked out beforehand.
   */
  lemma LoadComplete(visible: iset<Symbol>, before: iset<(Symbol, Object)>, offered: iset<(Symbol, Object)>, m: Module, st: LoadSteps,
                     names: seq<Symbol>, slots: seq<nat>, handed: set<(Symbol, nat)>)
    requires OffersMore(before, offered, m) && Staged(visible, before, m, st, names)
    requires AllGood(offered, st.start.table, st.start.got, handed)
    requires Given(m.imports, slots, st.added, names)
    ensures st.start.table <= st.patched.table && Extends(st.start.got, st.patched.got)
    ensures AllGood(offered, st.patched.table, st.patched.got, handed)
            && (forall i :: 0 <= i < |slots| ==> Good(offered, st.patched.table, m.imports[i], slots[i]))
            <==> LoadsWellWith(visible, offered, st.start.got, m, names)
  {
    TableIsAfter(visible, before, m, st, names);
    GotIsAfter(visible, before, m, st, names);
    ExtendsAll(st.added.got, st.linked.got, st.patched.got);
    ImportsAreAfter(m, names, st.added, st.patched.got, slots);
    LoadIff(visible, before, offered, m, names, st.start, st.patched.table, |st.added.table|, st.patched.got, slots, handed);
  }

  lemma ExtendsAll(g: map<Symbol, nat>, g1: map<Symbol, nat>, g2: map<Symbol, nat>)
    requires Extends(g, g1) && Extends(g1, g2)
    ensures Extends(g, g2)
  {
  }

  lemma LoadIff(visible: iset<Symbol>, before: iset<(Symbol, Object)>, offered: iset<(Symbol, Object)>, m: Module, names: seq<Symbol>,
                start: State, t: Table, low: nat, got: map<Symbol, nat>, slots: seq<nat>, handed: set<(Symbol, nat)>)
    requires OffersMore(before, offered, m) && AllGood(offered, start.table, start.got, handed)
    requires TableAfter(visible, before, m, names, start.table, t, low) && GotAfter(m, names, start, low, got)
    requires |m.elems.funcs| <= m.tableSize + |names|
    requires ImportsAfter(m, names, low, got, slots)
    ensures AllGood(offered, t, got, handed) && (forall i :: 0 <= i < |slots| ==> Good(offered, t, m.imports[i], slots[i]))
            <==> LoadsWellWith(visible, offered, start.got, m, names)
  {
    if LoadsWellWith(visible, offered, start.got, m, names) {
      WellMeansGood(visible, before, offered, m, names, start, t, low, got, slots, handed);
    } else if AllGood(offered, t, got, handed) && forall i :: 0 <= i < |slots| ==> Good(offered, t, m.imports[i], slots[i]) {
      GoodMeansWell(visible, before, offered, m, names, start, t, low, got, slots);
    }
  }

  ghost function HandedMore(handed: set<(Symbol, nat)>, imports: seq<Symbol>, slots: seq<nat>): set<(Symbol, nat)>
    requires |slots| == |imports|
  {
    handed + set i | 0 <= i < |imports| :: (imports[i], slots[i])
  }

  lemma HandedMoreGood(offered: iset<(Symbol, Object)>, t: Table, got: map<Symbol, nat>, handed: set<(Symbol, nat)>, imports: seq<Symbol>, slots: seq<nat>)
    requires |slots| == |imports|
    ensures AllGood(offered, t, got, HandedMore(handed, imports, slots))
            <==> AllGood(offered, t, got, handed) && forall i :: 0 <= i < |slots| ==> Good(offered, t, imports[i], slots[i])
    ensures forall i :: 0 <= i < |imports| ==> WasHanded(imports[i], HandedMore(handed, imports, slots))
  {
    var more := HandedMore(handed, imports, slots);
    forall i | 0 <= i < |imports| ensures (imports[i], slots[i]) in more {
    }
    if AllGood(offered, t, got, more) {
      forall i | 0 <= i < |slots| ensures Good(offered, t, imports[i], slots[i]) {
        assert Good(offered, t, (imports[i], slots[i]).0, (imports[i], slots[i]).1);
      }
    }
  }

  lemma FinishLoad(hosts: Hosts, older: Modules, newer: Modules, handle: int, m: Module, st: LoadSteps, slots: seq<nat>, handed: set<(Symbol, nat)>)
    requires handle !in older && handle in newer && newer == older[handle := newer[handle]] && newer[handle].ptr == Some(m.exports)
    requires var visible := VisibleNames(hosts, older);
             var names := Names(visible, st.start.got, m);
             Staged(visible, Bindings(hosts, older), m, st, names) && Given(m.imports, slots, st.added, names)
    requires AllGood(Offered(hosts, older), st.start.table, st.start.got, handed)
    ensures var more := HandedMore(handed, m.imports, slots);
            && Grown(st.start.table, st.patched.table, st.start.got, st.patched.got, handed, more, m.imports)
            && (AllGood(Offered(hosts, newer), st.patched.table, st.patched.got, more) <==>
                LoadsWell(VisibleNames(hosts, older), Offered(hosts, newer), st.start.got, m))
            && ImportsBound(VisibleNames(hosts, older), Bindings(hosts, older), m, st.start, st.patched.table, st.patched.got)
  {
    var visible, before, offered := VisibleNames(hosts, older), Bindings(hosts, older), Offered(hosts, newer);
    BindingsAreOffered(hosts, older);
    OfferedGrows(hosts, older, newer, handle, m);
    ImportsAreBound(visible, before, m, st);
    LoadComplete(visible, before, offered, m, st, Names(visible, st.start.got, m), slots, handed);
    HandedMoreGood(offered, st.patched.table, st.patched.got, handed, m.imports, slots);
  }

  ghost predicate Repeats(names: seq<Symbol>) {
    exists a :: 0 <= a < |names| && !First(names, a)
  }

  lemma RepeatsStep(names: seq<Symbol>, name: Symbol)
    ensures Repeats(names + [name]) <==> Repeats(names) || name in names
  {
    var longer := names + [name];
    forall a | 0 <= a < |names| ensures First(longer, a) <==> First(names, a) {
      assert forall b :: 0 <= b <= a ==> longer[b] == names[b];
    }
    assert First(longer, |names|) <==> name !in names by {
      assert forall b :: 0 <= b < |names| ==> longer[b] == names[b];
      if !First(longer, |names|) {
        var b :| 0 <= b < |names| && longer[b] == longer[|names|];
      }
    }
    if Repeats(names) {
      var a :| 0 <= a < |names| && !First(names, a);
      assert !First(longer, a);
    }
  }

  /** An appended name repeats exactly when a name that nobody can serve yet is imported twice. */
  lemma {:induction false} RepeatsIff(visible: iset<Symbol>, known: set<Symbol>, imports: seq<Symbol>)
    ensures Repeats(Appends(visible, known, imports)) <==> MissingTwice(visible, known, imports)
  {
    if imports != [] {
      var n := |imports| - 1;
      var before, name := imports[..n], imports[n];
      RepeatsIff(visible, known, before);
      AppendsFrom(visible, known, before, name);
      RepeatsStep(Appends(visible, known, before), name);
      assert imports == before + [name];
      MissingTwiceStep(visible, known, before, name);
    }
  }

  lemma MissingTwiceStep(visible: iset<Symbol>, known: set<Symbol>, imports: seq<Symbol>, name: Symbol)
    ensures MissingTwice(visible, known, imports + [name])
            <==> MissingTwice(visible, known, imports) || (name in imports && name !in known && name !in visible)
  {
    var longer := imports + [name];
    if MissingTwice(visible, known, imports) {
      var i, j :| 0 <= i < j < |imports| && imports[i] == imports[j] && imports[j] !in known && imports[j] !in visible;
      assert longer[i] == longer[j] && longer[j] == imports[j];
    }
    if name in imports && name !in known && name !in visible {
      var i :| 0 <= i < |imports| && imports[i] == name;
      assert longer[i] == longer[|imports|];
    }
  }

  lemma {:induction false} VisibleOnce(visible: iset<Symbol>, known: set<Symbol>, imports: seq<Symbol>, a: nat)
    requires a < |Appends(visible, known, imports)|
    ensures var names := Appends(visible, known, imports); names[a] in visible ==> First(names, a)
  {
    var n := |imports| - 1;
    var before := Appends(visible, known, imports[..n]);
    if a < |before| {
      VisibleOnce(visible, known, imports[..n], a);
    }
  }

  /** The elements that give names their entries are functions of those names. */
  ghost predicate OwnNamed(offered: iset<(Symbol, Object)>, got: map<Symbol, nat>, m: Module) {
    forall j: nat :: OwnEntry(got, m, j) ==> (m.elems.names[j], m.elems.funcs[j]) in offered
  }

  lemma WellNamedIsOwnNamed(before: iset<(Symbol, Object)>, offered: iset<(Symbol, Object)>, got: map<Symbol, nat>, m: Module)
    requires OffersMore(before, offered, m) && WellNamed(m.elems, m.exports)
    ensures OwnNamed(offered, got, m)
  {
  }

  /**
   With a segment inside its declared table, a load leaves everything good exactly when its
   elements go by their names and no name that is neither known nor exported by anything
   loaded is imported twice.
   */
  lemma FittingLoadIff(visible: iset<Symbol>, offered: iset<(Symbol, Object)>, got: map<Symbol, nat>, m: Module)
    requires ElementsFit(m)
    ensures LoadsWell(visible, offered, got, m) <==> OwnNamed(offered, got, m) && !MissingTwice(visible, Known(got, m), m.imports)
    ensures Throws(visible, got, m) <==> exists n :: n in m.imports && n !in got && n !in visible && n !in m.exports
  {
    var names := Names(visible, got, m);
    RepeatsIff(visible, Known(got, m), m.imports);
    forall a | 0 <= a < |names| ensures Serves(visible, offered, m, names, a) <==> First(names, a) {
      VisibleOnce(visible, Known(got, m), m.imports, a);
    }
    assert Repeats(names) <==> exists a :: 0 <= a < |names| && !Serves(visible, offered, m, names, a);
    assert forall j: nat :: OwnEntry(got, m, j) ==> OwnContent(visible, m, names, j) == m.elems.funcs[j];
  }

  /** The failing family of repeated imports: a second placeholder that no patching knows about. */
  lemma RepeatedImportIsForgotten(visible: iset<Symbol>, offered: iset<(Symbol, Object)>, s: State, name: Symbol,
                                  s1: State, slot1: nat, s2: State, slot2: nat)
    requires forall n :: n in s.missing ==> s.missing[n] < |s.table|
    requires name !in s.got && name !in s.missing && name !in visible
    requires Resolved(visible, offered, s, name, s1, slot1) && Resolved(visible, offered, s1, name, s2, slot2)
    ensures slot2 == slot1 + 1 && s2.table[slot2].None? && s2.missing[name] == slot1
    ensures forall n :: n in s2.missing ==> s2.missing[n] != slot2
  {
    assert s1.missing == s.missing[name := slot1];
  }

  lemma OneImport(visible: iset<Symbol>, known: set<Symbol>, name: Symbol)
    requires name !in known
    ensures Appends(visible, known, [name]) == [name]
  {
    assert [name][..0] == [];
  }

  /** An element of an overlong segment that lands on the slot of an import it is no function for spoils the load. */
  lemma OverlongSegmentSpoils(visible: iset<Symbol>, offered: iset<(Symbol, Object)>, got: map<Symbol, nat>, m: Module, a: nat)
    requires a < |Names(visible, got, m)| && m.tableSize + a < |m.elems.funcs|
    requires var name := Names(visible, got, m)[a]; name in visible && (name, m.elems.funcs[m.tableSize + a]) !in offered
    ensures !LoadsWell(visible, offered, got, m)
  {
    assert !Serves(visible, offered, m, Names(visible, got, m), a);
  }

  /** Two elements, a table of one, and an import of a function of the main module. */
  function OverlongModule(): Module {
    Module(1, Elements(["g", "h"], [1, 2]), map["g" := 1, "h" := 2], ["f"])
  }

  function OverlongHosts(): Hosts { Hosts(map[], map["f" := 7], map[]) }

  lemma OverlongNames()
    ensures var visible := VisibleNames(OverlongHosts(), map[]);
            "f" in visible && Names(visible, map[], OverlongModule()) == ["f"]
  {
    var m := OverlongModule();
    assert Visible(OverlongHosts(), map[], "f");
    assert "f" !in Known(map[], m);
    OneImport(VisibleNames(OverlongHosts(), map[]), Known(map[], m), "f");
  }

  lemma OverlongIsNotOffered(newer: Modules)
    requires newer == map[2 := LoadedAt("lib", 0, OverlongModule())]
    ensures ("f", 2) !in Offered(OverlongHosts(), newer)
  {
    assert forall h :: !ExportedBy(newer, h, "f", 2);
  }

  /** A module with such a segment loads. */
  lemma OverlongSegmentOverwrites()
    ensures var hosts, m := OverlongHosts(), OverlongModule();
            var visible, offered := VisibleNames(hosts, map[]), Offered(hosts, map[2 := LoadedAt("lib", 0, m)]);
            WellNamed(m.elems, m.exports) && !Throws(visible, map[], m) && !LoadsWell(visible, offered, map[], m)
  {
    var hosts, m := OverlongHosts(), OverlongModule();
    var newer := map[2 := LoadedAt("lib", 0, m)];
    OverlongNames();
    OverlongIsNotOffered(newer);
    OverlongSegmentSpoils(VisibleNames(hosts, map[]), Offered(hosts, newer), map[], m, 0);
  }
}
