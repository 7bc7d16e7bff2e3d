/**
 Demand population of a userfaultfd range, its high-water mark, and snapshot restore.

 A fault is handled in two steps: under the range lock the handler checks the
 permission and raises `maxUsed`, and only after releasing the lock does it fill the
 64 KiB window. Other threads may act in between, so the windows still to be filled
 are part of the state.
 */
module UffdArena {
  import opened Bytes
  import opened UffdPermissions

  const FAULT_PAGE_SIZE: nat := 65536
  const PROT_READ_WRITE: nat := 3

  // ----- The fault window -----

  datatype Window = Window(start: nat, end: nat) {
    predicate Contains(offset: nat) {
      start <= offset < end
    }
  }

  predicate SamePage(x: nat, y: nat) {
    x / FAULT_PAGE_SIZE == y / FAULT_PAGE_SIZE
  }

  function FaultWindow(offset: nat, mapBytes: nat): (w: Window)
    requires offset < mapBytes
    ensures w.start % FAULT_PAGE_SIZE == 0
    ensures w.start <= offset < w.end <= mapBytes
    ensures forall o: nat | o < mapBytes :: w.Contains(o) <==> SamePage(o, offset)
  {
    var start := offset / FAULT_PAGE_SIZE * FAULT_PAGE_SIZE;
    Window(start, if start + FAULT_PAGE_SIZE < mapBytes then start + FAULT_PAGE_SIZE else mapBytes)
  }

  /** Two faults fill either the same window or disjoint ones. */
  lemma WindowsPartition(x: nat, y: nat, mapBytes: nat)
    requires x < mapBytes && y < mapBytes
    ensures var v, w := FaultWindow(x, mapBytes), FaultWindow(y, mapBytes);
            v == w || v.end <= w.start || w.end <= v.start
    ensures FaultWindow(x, mapBytes) == FaultWindow(y, mapBytes)
            <==> FaultWindow(x, mapBytes).start <= y < FaultWindow(x, mapBytes).end
  {
    var p, q := x / FAULT_PAGE_SIZE, y / FAULT_PAGE_SIZE;
    if p < q {
      assert (p + 1) * FAULT_PAGE_SIZE <= q * FAULT_PAGE_SIZE;
    } else if q < p {
      assert (q + 1) * FAULT_PAGE_SIZE <= p * FAULT_PAGE_SIZE;
    }
  }

  // ----- Histories -----

  /** `pages` holds the populated bytes by offset; `pending` the windows touched but not yet filled. */
  datatype Arena = Arena(mapBytes: nat, maxUsed: nat, pages: map<nat, byte>, pending: seq<Window>)

  datatype Event =
    | Fault(offset: nat)
    | Fill(which: nat)
    | Store(offset: nat, value: byte)
    | Permit(end: nat)
    | Discard(begin: nat, end: nat)
    | DiscardAll

  /** Filling never replaces a byte that is already populated. */
  function Populated(pages: map<nat, byte>, w: Window): (p: map<nat, byte>)
    ensures forall o: nat :: o in p <==> o in pages || w.Contains(o)
    ensures forall o | o in pages :: p[o] == pages[o]
    ensures forall o | o in p && o !in pages :: p[o] == 0
  {
    (map o: nat | o < w.end && w.Contains(o) :: 0 as byte) + pages
  }

  function Drop(pages: map<nat, byte>, begin: nat, end: nat): (p: map<nat, byte>)
    ensures p.Keys == set o | o in pages && !(begin <= o < end)
    ensures forall o | o in p :: p[o] == pages[o]
  {
    map o | o in pages && !(begin <= o < end) :: pages[o]
  }

  /** One event; an event the code rejects (or that cannot occur) leaves the arena as it is. */
  function Step(a: Arena, e: Event): Arena {
    match e
    case Fault(offset) =>
      if offset < a.mapBytes then
        var w := FaultWindow(offset, a.mapBytes);
        a.(maxUsed := Max(a.maxUsed, w.end), pending := a.pending + [w])
      else a
    case Fill(i) =>
      if i >= |a.pending| then a
      else a.(pages := Populated(a.pages, a.pending[i]), pending := a.pending[..i] + a.pending[i + 1..])
    case Store(offset, value) =>
      if offset in a.pages then a.(pages := a.pages[offset := value]) else a
    case Permit(end) =>
      if end <= a.mapBytes then a.(maxUsed := Max(a.maxUsed, end)) else a
    case Discard(begin, end) =>
      if begin != end && 0 < begin < end <= a.mapBytes then a.(pages := Drop(a.pages, begin, end)) else a
    case DiscardAll =>
      a.(maxUsed := 0, pages := Drop(a.pages, 0, a.maxUsed))
  }

  function Run(a: Arena, events: seq<Event>): Arena {
    if events == [] then a else Step(Run(a, events[..|events| - 1]), events[|events| - 1])
  }

  /** The event empties the page that holds `o`. */
  predicate Discards(a: Arena, e: Event, o: nat) {
    match e
    case Discard(begin, end) => 0 < begin <= o < end <= a.mapBytes
    case DiscardAll => o < a.maxUsed
    case _ => false
  }

  /** A populated byte goes exactly when an event discards it, and changes only when it is stored to. */
  lemma StepContent(a: Arena, e: Event, o: nat)
    requires o in a.pages
    ensures o in Step(a, e).pages <==> !Discards(a, e, o)
    ensures !Discards(a, e, o) ==> Step(a, e).pages[o] == if e.Store? && e.offset == o then e.value else a.pages[o]
  {
  }

  /** A byte becomes present only by filling a window that holds it, and is zero then. */
  lemma StepAppears(a: Arena, e: Event, o: nat)
    requires o !in a.pages
    ensures o in Step(a, e).pages <==> e.Fill? && e.which < |a.pending| && a.pending[e.which].Contains(o)
    ensures o in Step(a, e).pages ==> Step(a, e).pages[o] == 0
  {
  }

  /** No event of the history stores to `o` or discards it. */
  ghost predicate LeavesAlone(a: Arena, events: seq<Event>, o: nat) {
    events != [] ==>
      var before, e := events[..|events| - 1], events[|events| - 1];
      LeavesAlone(a, before, o) && !(e.Store? && e.offset == o) && !Discards(Run(a, before), e, o)
  }

  lemma {:induction false} RunConcat(a: Arena, first: seq<Event>, second: seq<Event>)
    ensures Run(a, first + second) == Run(Run(a, first), second)
  {
    if second == [] {
      assert first + second == first;
    } else {
      var all := first + second;
      assert all[..|all| - 1] == first + second[..|second| - 1];
      RunConcat(a, first, second[..|second| - 1]);
    }
  }

  lemma {:induction false} LeftAloneStays(a: Arena, events: seq<Event>, o: nat)
    requires o in a.pages && LeavesAlone(a, events, o)
    ensures o in Run(a, events).pages && Run(a, events).pages[o] == a.pages[o]
  {
    if events != [] {
      var before := events[..|events| - 1];
      LeftAloneStays(a, before, o);
      StepContent(Run(a, before), events[|events| - 1], o);
    }
  }

  /** What was stored is what is read back, whatever else happens, until the byte is stored to again or discarded. */
  lemma StoredIsKept(a: Arena, before: seq<Event>, o: nat, value: byte, after: seq<Event>)
    requires o in Run(a, before).pages
    requires LeavesAlone(Run(a, before + [Store(o, value)]), after, o)
    ensures var pages := Run(a, before + [Store(o, value)] + after).pages;
            o in pages && pages[o] == value
  {
    var stored := before + [Store(o, value)];
    assert stored[..|stored| - 1] == before;
    StepContent(Run(a, before), Store(o, value), o);
    LeftAloneStays(Run(a, stored), after, o);
    RunConcat(a, stored, after);
  }

  /** How far an event reaches: to the end of the faulting page, or of the range whose permission is set. */
  function Reach(mapBytes: nat, e: Event): nat {
    match e
    case Fault(offset) =>
      var pageEnd := (offset / FAULT_PAGE_SIZE + 1) * FAULT_PAGE_SIZE;
      if offset >= mapBytes then 0 else if pageEnd < mapBytes then pageEnd else mapBytes
    case Permit(end) => if end <= mapBytes then end else 0
    case _ => 0
  }

  lemma {:induction false} RunMapBytes(a: Arena, events: seq<Event>)
    ensures Run(a, events).mapBytes == a.mapBytes
  {
    if events != [] {
      RunMapBytes(a, events[..|events| - 1]);
    }
  }

  lemma WindowReach(offset: nat, mapBytes: nat)
    requires offset < mapBytes
    ensures FaultWindow(offset, mapBytes).end == Reach(mapBytes, Fault(offset))
  {
    var w, r := FaultWindow(offset, mapBytes), Reach(mapBytes, Fault(offset));
    assert w.Contains(w.end - 1) && w.Contains(r - 1);
    assert SamePage(r - 1, offset) && SamePage(w.end - 1, offset);
  }

  /** The mark is the furthest any event has reached since the whole range was last discarded. */
  lemma {:induction false} MarkIsFurthest(a: Arena, events: seq<Event>)
    requires DiscardAll !in events
    ensures Run(a, events).maxUsed >= a.maxUsed
    ensures forall e | e in events :: Reach(a.mapBytes, e) <= Run(a, events).maxUsed
    ensures Run(a, events).maxUsed == a.maxUsed
            || exists e | e in events :: Reach(a.mapBytes, e) == Run(a, events).maxUsed
  {
    if events != [] {
      var before, e := events[..|events| - 1], events[|events| - 1];
      MarkIsFurthest(a, before);
      RunMapBytes(a, before);
      if e.Fault? && e.offset < a.mapBytes {
        WindowReach(e.offset, a.mapBytes);
      }
      assert e in events && events == before + [e];
    }
  }

  /** Everything populated, or about to be, lies below the high-water mark. */
  ghost predicate Covered(a: Arena) {
    && a.maxUsed <= a.mapBytes
    && (forall o | o in a.pages :: o < a.maxUsed)
    && (forall i | 0 <= i < |a.pending| :: a.pending[i].start < a.pending[i].end <= a.maxUsed)
  }

  lemma StepCovered(a: Arena, e: Event)
    requires Covered(a)
    ensures e != DiscardAll ==> Covered(Step(a, e))
    ensures e == DiscardAll ==> Step(a, e).pages == map[]
    ensures e == DiscardAll ==> (Covered(Step(a, e)) <==> a.pending == [])
  {
    if e == DiscardAll {
      var a' := Step(a, e);
      assert a'.pages == map[] by {
        assert forall o | o in a.pages :: 0 <= o < a.maxUsed;
      }
      if a.pending != [] {
        assert a'.pending[0].end > 0;
      }
    } else if e.Fill? && e.which < |a.pending| {
      var a' := Step(a, e);
      assert forall i | 0 <= i < |a'.pending| :: a'.pending[i] == a.pending[if i < e.which then i else i + 1];
      assert a.pending[e.which].end <= a.maxUsed;
    }
  }

  lemma EmptyCovered(mapBytes: nat, maxUsed: nat)
    requires maxUsed <= mapBytes
    ensures Covered(Arena(mapBytes, maxUsed, map[], []))
  {
  }

  /** Whole-range discards happen only when no fault is between its two steps. */
  ghost predicate Quiet(a: Arena, events: seq<Event>) {
    events != [] ==>
      var before := events[..|events| - 1];
      Quiet(a, before) && (events[|events| - 1] == DiscardAll ==> Run(a, before).pending == [])
  }

  /** Everything populated lies below the high-water mark. */
  ghost predicate Below(a: Arena) {
    forall o | o in a.pages :: o < a.maxUsed
  }

  ghost predicate BelowAlong(a: Arena, events: seq<Event>) {
    Below(Run(a, events)) && (events != [] ==> BelowAlong(a, events[..|events| - 1]))
  }

  /** The event does not fill a window that reaches above the mark as it is then. */
  predicate FillsBelow(a: Arena, e: Event) {
    e.Fill? && e.which < |a.pending| ==> a.pending[e.which].end <= a.maxUsed
  }

  ghost predicate FillsBelowAlong(a: Arena, events: seq<Event>) {
    events != [] ==>
      var before := events[..|events| - 1];
      FillsBelowAlong(a, before) && FillsBelow(Run(a, before), events[|events| - 1])
  }

  /** Windows still to be filled are not empty. */
  ghost predicate RealWindows(a: Arena) {
    forall i | 0 <= i < |a.pending| :: a.pending[i].start < a.pending[i].end
  }

  lemma StepRealWindows(a: Arena, e: Event)
    requires RealWindows(a)
    ensures RealWindows(Step(a, e))
  {
    if e.Fill? && e.which < |a.pending| {
      var a' := Step(a, e);
      assert forall i | 0 <= i < |a'.pending| :: a'.pending[i] == a.pending[if i < e.which then i else i + 1];
    }
  }

  /** One event keeps everything populated below the mark exactly when it does not fill above it. */
  lemma StepBelowIff(a: Arena, e: Event)
    requires Below(a) && RealWindows(a)
    ensures Below(Step(a, e)) <==> FillsBelow(a, e)
  {
    if e.Fill? && e.which < |a.pending| {
      var w := a.pending[e.which];
      assert w.Contains(w.end - 1);
      assert w.end - 1 in Step(a, e).pages;
    }
  }

  lemma {:induction false} RunRealWindows(a: Arena, events: seq<Event>)
    requires RealWindows(a)
    ensures RealWindows(Run(a, events))
  {
    if events != [] {
      RunRealWindows(a, events[..|events| - 1]);
      StepRealWindows(Run(a, events[..|events| - 1]), events[|events| - 1]);
    }
  }

  /**
   Everything populated stays below the high-water mark all along a history exactly when
   every window is filled while the mark is at or above its end.
   */
  lemma {:induction false} BelowThroughoutIff(a: Arena, events: seq<Event>)
    requires Below(a) && RealWindows(a)
    ensures BelowAlong(a, events) <==> FillsBelowAlong(a, events)
  {
    if events != [] {
      var before := events[..|events| - 1];
      BelowThroughoutIff(a, before);
      RunRealWindows(a, before);
      if BelowAlong(a, before) {
        StepBelowIff(Run(a, before), events[|events| - 1]);
      }
    }
  }

  /** A whole-range discard only covers what was used: it leaves nothing populated exactly when all was below the mark. */
  lemma DiscardAllEmptiesIff(a: Arena, events: seq<Event>)
    ensures Run(a, events + [DiscardAll]).pages == map[] <==> Below(Run(a, events))
  {
    var all, b := events + [DiscardAll], Run(a, events);
    assert all[..|all| - 1] == events;
    var left := Drop(b.pages, 0, b.maxUsed);
    if Below(b) {
      assert left.Keys == {};
    } else {
      var o :| o in b.pages && o >= b.maxUsed;
      assert o in left;
    }
  }

  /** Covered after each of the events. */
  ghost predicate CoveredAlong(a: Arena, events: seq<Event>) {
    Covered(Run(a, events)) && (events != [] ==> CoveredAlong(a, events[..|events| - 1]))
  }

  /**
   The stronger invariant, which also bounds the windows still to be filled, holds all along
   a history exactly when no whole-range discard falls between the two steps of a fault.
   */
  lemma {:induction false} CoveredThroughout(a: Arena, events: seq<Event>)
    requires Covered(a)
    ensures CoveredAlong(a, events) <==> Quiet(a, events)
  {
    if events != [] {
      var before := events[..|events| - 1];
      CoveredThroughout(a, before);
      if Quiet(a, before) {
        StepCovered(Run(a, before), events[|events| - 1]);
      }
    }
  }

  /** So such histories keep everything populated below the mark, and their discards empty the range. */
  lemma {:induction false} QuietIsEnough(a: Arena, events: seq<Event>)
    requires Covered(a) && Quiet(a, events)
    ensures BelowAlong(a, events) && Run(a, events + [DiscardAll]).pages == map[]
  {
    CoveredThroughout(a, events);
    DiscardAllEmptiesIff(a, events);
    if events != [] {
      QuietIsEnough(a, events[..|events| - 1]);
    }
  }

  /** They are not the only ones: a second fault on the window raises the mark again before the first one fills it. */
  lemma QuietIsNotNeeded(mapBytes: nat)
    requires mapBytes > 0
    ensures var a, events := Arena(mapBytes, 0, map[], []), [Fault(0), DiscardAll, Fault(0), Fill(0), Fill(0)];
            !Quiet(a, events) && FillsBelowAlong(a, events)
  {
    var a, w := Arena(mapBytes, 0, map[], []), FaultWindow(0, mapBytes);
    var e1: seq<Event> := [Fault(0)];
    var e2, e3, e4 := e1 + [DiscardAll], e1 + [DiscardAll] + [Fault(0)], e1 + [DiscardAll] + [Fault(0)] + [Fill(0)];
    Extend(a, [], Fault(0));
    assert [] + e1 == e1 && Run(a, e1).pending == [w];
    Extend(a, e1, DiscardAll);
    assert Run(a, e2).pending == [w];
    Extend(a, e2, Fault(0));
    assert Run(a, e3).pending == [w, w] && Run(a, e3).maxUsed == w.end;
    Extend(a, e3, Fill(0));
    assert Run(a, e4).pending == [w] && Run(a, e4).maxUsed == w.end;
    Extend(a, e4, Fill(0));
    assert e4 + [Fill(0)] == [Fault(0), DiscardAll, Fault(0), Fill(0), Fill(0)];
  }

  lemma Extend(a: Arena, events: seq<Event>, e: Event)
    ensures Run(a, events + [e]) == Step(Run(a, events), e)
    ensures Quiet(a, events + [e]) <==> Quiet(a, events) && (e == DiscardAll ==> Run(a, events).pending == [])
    ensures FillsBelowAlong(a, events + [e]) <==> FillsBelowAlong(a, events) && FillsBelow(Run(a, events), e)
  {
    assert (events + [e])[..|events|] == events;
  }

  /** The failing history: a discard between the two steps of one fault, then another discard. */
  lemma RacingDiscardLeaves(mapBytes: nat)
    requires mapBytes > 0
    ensures var a := Arena(mapBytes, 0, map[], []);
            Covered(a) && 0 in Run(a, [Fault(0), DiscardAll, Fill(0), DiscardAll]).pages
  {
    var a := Arena(mapBytes, 0, map[], []);
    var es := [Fault(0), DiscardAll, Fill(0), DiscardAll];
    var es1: seq<Event>, es2: seq<Event>, es3: seq<Event> := [Fault(0)], [Fault(0), DiscardAll], [Fault(0), DiscardAll, Fill(0)];
    assert es[..3] == es3 && es3[..2] == es2 && es2[..1] == es1 && es1[..0] == [];
    var a1, a2, a3 := Run(a, es1), Run(a, es2), Run(a, es3);
    assert a1 == Step(Run(a, []), Fault(0));
    assert a2 == Step(a1, DiscardAll);
    assert a3 == Step(a2, Fill(0));
    assert 0 in a3.pages;
  }

  // ----- The range object -----

  datatype ReadResult = Interrupted | Got(count: nat) | ReadError

  datatype RestoreResult = Restored | StillReading | Failed

  /** The bytes the reads of a script deliver in all. */
  function Delivered(script: seq<ReadResult>): nat {
    if script == [] then 0
    else Delivered(script[..|script| - 1]) + if script[|script| - 1].Got? then script[|script| - 1].count else 0
  }

  /** When a script of reads ends the restore, and how: no read fails, and they deliver the whole snapshot. */
  ghost predicate Completes(script: seq<ReadResult>, size: nat, r: RestoreResult) {
    && (r.Failed? ==> ReadError in script)
    && (ReadError !in script ==> (r.Restored? <==> Delivered(script) >= size))
  }

  lemma DeliveredStep(script: seq<ReadResult>, next: nat)
    requires next < |script|
    ensures Delivered(script[..next + 1]) == Delivered(script[..next]) + if script[next].Got? then script[next].count else 0
  {
    assert script[..next + 1][..next] == script[..next];
  }

  lemma {:induction false} DeliveredGrows(script: seq<ReadResult>, next: nat)
    requires next <= |script|
    ensures Delivered(script[..next]) <= Delivered(script)
  {
    if next == |script| {
      assert script[..next] == script;
    } else {
      var shorter := script[..|script| - 1];
      DeliveredGrows(shorter, next);
      assert shorter[..next] == script[..next];
    }
  }

  function Overlay(pages: map<nat, byte>, at: nat, data: bytes): (p: map<nat, byte>)
    ensures forall o: nat :: o in p <==> o in pages || at <= o < at + |data|
    ensures forall o | o in p :: p[o] == if at <= o < at + |data| then data[o - at] else pages[o]
  {
    var w := Window(at, at + |data|);
    pages + map o: nat | o < w.end && w.Contains(o) :: data[o - at]
  }

  /** Only the first `size` bytes of the mapping are accessible. */
  ghost predicate AccessibleExactly(s: PermissionList, mapStart: nat, size: nat) {
    forall a | 0 <= a < UINTPTR_MAX ::
      PermAt(s, a) == if mapStart <= a < mapStart + size then PROT_READ_WRITE else 0
  }

  /** Opening [mapStart, mapStart + size) on a reset range works for every size but zero. */
  lemma RestorePermissions(mapStart: nat, size: nat)
    requires 0 < mapStart && mapStart + size < UINTPTR_MAX
    ensures AccessibleExactly(Updated(INITIAL_PERMISSIONS, mapStart, mapStart + size, PROT_READ_WRITE), mapStart, size)
            <==> size > 0
  {
    var s := INITIAL_PERMISSIONS;
    var s' := Updated(s, mapStart, mapStart + size, PROT_READ_WRITE);
    forall a | 0 <= a < UINTPTR_MAX ensures PermAt(s, a) == 0 {
      PermBeforePrefix(s, 1, a + 1);
      assert s[..1] == [Entry(0, 0)];
    }
    assert PermBefore(s, mapStart) == PermAt(s, mapStart - 1);
    if size > 0 {
      OverrideIff(s, mapStart, mapStart + size, PROT_READ_WRITE);
      forall a | 0 <= a < UINTPTR_MAX
        ensures PermAt(s', a) == if mapStart <= a < mapStart + size then PROT_READ_WRITE else 0
      {
        assert PermAt(s', a) == Override(s, mapStart, mapStart + size, PROT_READ_WRITE, a);
      }
    } else {
      EmptyRangeIff(s, mapStart, PROT_READ_WRITE);
    }
  }

  /** Every byte of the snapshot may be touched once the permissions are set for it. */
  lemma SnapshotIsAccessible(s: PermissionList, mapStart: nat, size: nat)
    requires 0 < mapStart && 0 < size && mapStart + size < UINTPTR_MAX
    requires s == Updated(INITIAL_PERMISSIONS, mapStart, mapStart + size, PROT_READ_WRITE)
    ensures forall a | mapStart <= a < mapStart + size :: PermAt(s, a) != 0
  {
    RestorePermissions(mapStart, size);
  }

  class MappedMemory {
    const range: UffdMemoryRange
    var pages: map<nat, byte>
    var pending: seq<Window>

    ghost function State(): Arena
      reads this, range
    {
      Arena(range.mapBytes, range.maxUsedBytes, pages, pending)
    }

    ghost predicate Valid()
      reads this, range
    {
      && range.Valid()
      && 0 < range.mapStart && range.mapStart + range.mapBytes < UINTPTR_MAX
      && Covered(State())
    }

    constructor (mapStart: nat, mapBytes: nat)
      requires 0 < mapStart && mapStart + mapBytes < UINTPTR_MAX
      ensures Valid() && fresh(range)
      ensures range.mapStart == mapStart && range.mapBytes == mapBytes
      ensures State() == Arena(mapBytes, 0, map[], [])
    {
      range := new UffdMemoryRange(mapStart, mapBytes);
      pages, pending := map[], [];
    }

    /** The part of the handler that holds the range lock; false when the access is out of bounds. */
    method BeginFault(addr: nat) returns (allowed: bool)
      requires Valid()
      requires range.mapStart <= addr < range.mapStart + range.mapBytes
      modifies this`pending, range`maxUsedBytes
      ensures Valid()
      ensures allowed <==> PermAt(range.permissions, addr) != 0
      ensures State() == if allowed then Step(old(State()), Fault(addr - range.mapStart)) else old(State())
      ensures allowed ==> |pending| == |old(pending)| + 1 && pending[..|old(pending)|] == old(pending)
      ensures allowed ==> forall o: nat | o < range.mapBytes ::
                pending[|old(pending)|].Contains(o) <==> SamePage(o, addr - range.mapStart)
      ensures allowed ==> range.maxUsedBytes == Max(old(range.maxUsedBytes), Reach(range.mapBytes, Fault(addr - range.mapStart)))
    {
      LookupIsPermAt(range.permissions, addr);
      if PointerPermissions(range.permissions, addr) == 0 {
        return false;
      }
      StepCovered(State(), Fault(addr - range.mapStart));
      WindowReach(addr - range.mapStart, range.mapBytes);
      var w := FaultWindow(addr - range.mapStart, range.mapBytes);
      range.Touch(w.end);
      pending := pending + [w];
      allowed := true;
    }

    /** The part after the lock is released: a pending window is filled, in whatever order the handlers get there. */
    method FinishFault(which: nat)
      requires Valid()
      modifies this`pages, this`pending
      ensures Valid()
      ensures State() == Step(old(State()), Fill(which))
      ensures which < |old(pending)| ==> forall o: nat :: o in pages <==> o in old(pages) || old(pending)[which].Contains(o)
      ensures forall o | o in old(pages) :: o in pages && pages[o] == old(pages)[o]
      ensures forall o | o in pages && o !in old(pages) :: pages[o] == 0
    {
      StepCovered(State(), Fill(which));
      if which < |pending| {
        pages, pending := Populated(pages, pending[which]), pending[..which] + pending[which + 1..];
      }
    }

    /** False stands for the out-of-range exception; the first page of the mapping is refused too. */
    method DiscardContent(begin: nat, end: nat) returns (ok: bool)
      requires Valid()
      requires range.mapStart <= begin && range.mapStart <= end
      modifies this`pages
      ensures Valid()
      ensures ok <==> begin == end || (range.mapStart < begin < end <= range.mapStart + range.mapBytes)
      ensures State() == Step(old(State()), Discard(begin - range.mapStart, end - range.mapStart))
      ensures !ok ==> pages == old(pages)
      ensures ok ==> forall o: nat :: o in pages <==> o in old(pages) && !(begin <= range.mapStart + o < end)
      ensures forall o | o in pages :: pages[o] == old(pages)[o]
    {
      StepCovered(State(), Discard(begin - range.mapStart, end - range.mapStart));
      if begin == end {
        return true;
      }
      if end < begin || begin <= range.mapStart || end > range.mapStart + range.mapBytes {
        return false;
      }
      pages := Drop(pages, begin - range.mapStart, end - range.mapStart);
      ok := true;
    }

    method DiscardAllContent()
      requires range.Valid()
      modifies this`pages, range`maxUsedBytes
      ensures State() == Step(old(State()), DiscardAll)
      ensures range.maxUsedBytes == 0
      ensures forall o: nat :: o in pages <==> o in old(pages) && old(range.maxUsedBytes) <= o
      ensures forall o | o in pages :: pages[o] == old(pages)[o]
    {
      pages := Drop(pages, 0, range.maxUsedBytes);
      range.maxUsedBytes := 0;
    }

    /** Makes one byte present: a fault on it, if it is not. */
    method Populate(at: nat) returns (allowed: bool)
      requires Valid() && pending == [] && at < range.mapBytes
      modifies this`pages, this`pending, range`maxUsedBytes
      ensures Valid() && pending == [] && range.maxUsedBytes >= old(range.maxUsedBytes)
      ensures allowed <==> at in old(pages) || PermAt(range.permissions, range.mapStart + at) != 0
      ensures allowed ==> at in pages
      ensures allowed && at !in old(pages) ==> forall o: nat | o < range.mapBytes && SamePage(o, at) :: o in pages
      ensures forall o | o in pages && o !in old(pages) :: SamePage(o, at)
      ensures forall o | o in old(pages) :: o in pages && pages[o] == old(pages)[o]
      ensures forall o | o in pages && o !in old(pages) :: pages[o] == 0
    {
      if at in pages {
        return true;
      }
      allowed := BeginFault(range.mapStart + at);
      if allowed {
        FinishFault(0);
      }
    }

    /**
     A store of `data` at `at`, byte by byte, faulting in what is not present; false when a
     fault finds no permission, which the access does not survive.
     */
    method Write(at: nat, data: bytes) returns (allowed: bool)
      requires Valid() && pending == []
      requires at + |data| <= range.mapBytes
      modifies this`pages, this`pending, range`maxUsedBytes
      ensures Valid() && pending == [] && range.maxUsedBytes >= old(range.maxUsedBytes)
      ensures !allowed ==> exists o | at <= o < at + |data| :: o !in old(pages) && PermAt(range.permissions, range.mapStart + o) == 0
      ensures forall o | o in old(pages) :: o in pages
      ensures allowed ==> forall o | at <= o < at + |data| :: o in pages && pages[o] == data[o - at]
      ensures allowed ==> forall o | o in pages && !(at <= o < at + |data|) ::
                pages[o] == if o in old(pages) then old(pages)[o] else 0
    {
      var i := 0;
      while i < |data|
        invariant 0 <= i <= |data| && Valid() && pending == [] && range.maxUsedBytes >= old(range.maxUsedBytes)
        invariant forall o | at <= o < at + i :: o in pages
        invariant forall o | o in old(pages) :: o in pages && pages[o] == old(pages)[o]
        invariant forall o | o in pages && o !in old(pages) :: pages[o] == 0
      {
        var ok := Populate(at + i);
        if !ok {
          return false;
        }
        i := i + 1;
      }
      assert Overlay(pages, at, data).Keys == pages.Keys;
      pages := Overlay(pages, at, data);
      allowed := true;
    }

    /** Reads the snapshot into the empty memory, under any sequence of short or interrupted reads. */
    method ReadSnapshot(snapshot: bytes, script: seq<ReadResult>) returns (r: RestoreResult)
      requires Valid() && pending == [] && pages == map[] && |snapshot| <= range.mapBytes
      requires forall a | range.mapStart <= a < range.mapStart + |snapshot| :: PermAt(range.permissions, a) != 0
      modifies this`pages, this`pending, range`maxUsedBytes
      ensures Valid() && pending == []
      ensures r.Restored? ==> forall o | 0 <= o < |snapshot| :: o in pages && pages[o] == snapshot[o]
      ensures r.Restored? ==> forall o | o in pages && |snapshot| <= o :: pages[o] == 0
      ensures Completes(script, |snapshot|, r)
    {
      var curPos, next := 0, 0;
      while curPos < |snapshot|
        invariant Valid() && pending == []
        invariant 0 <= curPos <= |snapshot|
        invariant 0 <= next <= |script|
        invariant curPos == if Delivered(script[..next]) < |snapshot| then Delivered(script[..next]) else |snapshot|
        invariant forall o | 0 <= o < curPos :: o in pages && pages[o] == snapshot[o]
        invariant forall o | o in pages && curPos <= o :: pages[o] == 0
        decreases |script| - next
      {
        if next == |script| {
          assert script[..next] == script;
          return StillReading;
        }
        DeliveredStep(script, next);
        match script[next] {
          case Interrupted =>
          case ReadError => return Failed;
          case Got(count) =>
            var n := if count < |snapshot| - curPos then count else |snapshot| - curPos;
            var allowed := Write(curPos, snapshot[curPos..curPos + n]);
            assert allowed;
            assert forall o | curPos <= o < curPos + n :: o in pages && pages[o] == snapshot[curPos..curPos + n][o - curPos];
            curPos := curPos + n;
        }
        next := next + 1;
      }
      DeliveredGrows(script, next);
      r := Restored;
    }

    method Reset()
      requires Valid() && pending == []
      modifies this`pages, range
      ensures range.Valid() && range.permissions == INITIAL_PERMISSIONS && range.maxUsedBytes == 0 && pages == map[]
    {
      StepCovered(State(), DiscardAll);
      range.ResetPermissions();
      DiscardAllContent();
    }

    /** Empties the memory and opens the first `size` bytes of it. */
    method ResetTo(size: nat)
      requires Valid() && pending == [] && size <= range.mapBytes
      modifies this`pages, range
      ensures Valid() && pages == map[]
      ensures range.permissions == Updated(INITIAL_PERMISSIONS, range.mapStart, range.mapStart + size, PROT_READ_WRITE)
    {
      Reset();
      EmptyCovered(range.mapBytes, size);
      range.SetPermissions(range.mapStart, range.mapStart + size, PROT_READ_WRITE);
      assert State() == Arena(range.mapBytes, size, map[], []);
    }

    /** Restoring a snapshot from its file, under any sequence of short or interrupted reads. */
    method Restore(snapshot: bytes, script: seq<ReadResult>) returns (r: RestoreResult)
      requires Valid() && pending == []
      requires |snapshot| <= range.mapBytes
      modifies this`pages, this`pending, range
      ensures Valid() && pending == []
      ensures AccessibleExactly(range.permissions, range.mapStart, |snapshot|) <==> |snapshot| > 0
      ensures r.Restored? ==> forall o | 0 <= o < |snapshot| :: o in pages && pages[o] == snapshot[o]
      ensures r.Restored? ==> forall o | o in pages && |snapshot| <= o :: pages[o] == 0
      ensures Completes(script, |snapshot|, r)
    {
      ResetTo(|snapshot|);
      RestorePermissions(range.mapStart, |snapshot|);
      if |snapshot| > 0 {
        SnapshotIsAccessible(range.permissions, range.mapStart, |snapshot|);
      }
      r := ReadSnapshot(snapshot, script);
    }
  }
}
