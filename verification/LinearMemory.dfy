/**
 * The guest's linear memory: a break that grows and shrinks in 64 KiB pages,
 * and the regions handed out from it: mappings, thread stacks and dynamic
 * modules, the last two between read-only guards.
 *
 * The methods of `WasmModule` do the 32- and 64-bit arithmetic of the source.
 * They are proved against functions on `Memory` that use plain integers, and
 * the invariants of whole runs are proved about those functions.
 */
module LinearMemory {
  import opened Bytes

  const PAGE := 65536
  const GUARD_PAGES := 10
  const THREAD_STACK_PAGES := 32
  const MODULE_PAGES := 66
  const MODULE_STACK_PAGES := 32
  const TWO64 := 0x1_0000_0000_0000_0000

  type U32 = x: int | 0 <= x < 0x1_0000_0000
  type U64 = x: int | 0 <= x < 0x1_0000_0000_0000_0000

  function ToU32(x: int): U32 { x % TWO32 }
  function ToU64(x: int): U64 { x % TWO64 }
  function ToS32(x: int): int { if x % TWO32 < TWO32 / 2 then x % TWO32 else x % TWO32 - TWO32 }

  // ---------- Page arithmetic ----------

  predicate IsWasmPageAligned(offset: int) { offset % PAGE == 0 }

  function PagesForBytes(bytes: U64): U64 { ToU64(bytes + PAGE - 1) / PAGE }

  function RoundUpToPage(bytes: U32): U32 { ToU32(PagesForBytes(bytes) * PAGE) }

  /** Rounding gives the least multiple of a page that is large enough, or 0 when that is 2^32. */
  lemma RoundUpIff(bytes: U32)
    ensures bytes <= TWO32 - PAGE <==> bytes <= RoundUpToPage(bytes)
    ensures bytes > TWO32 - PAGE ==> RoundUpToPage(bytes) == 0
    ensures IsWasmPageAligned(RoundUpToPage(bytes)) && RoundUpToPage(bytes) < bytes + PAGE
  {
    var pages := (bytes + PAGE - 1) / PAGE;
    assert pages * PAGE < bytes + PAGE && bytes <= pages * PAGE;
    assert pages <= PAGE;
    if pages == PAGE {
      assert RoundUpToPage(bytes) == 0;
    } else {
      assert RoundUpToPage(bytes) == pages * PAGE;
    }
  }

  // ---------- Memory as a value ----------

  /** Pages [first, first + pages); a guarded region has a read-only margin at each end. */
  datatype Region = Region(first: nat, pages: nat, guarded: bool) {
    function Top(): nat { first + pages }

    predicate Contains(page: int) { first <= page < Top() }

    predicate Margin(page: int) {
      guarded && Contains(page) && (page < first + GUARD_PAGES || Top() - GUARD_PAGES <= page)
    }

    predicate Usable(page: int) { Contains(page) && !Margin(page) }
  }

  /** The break in pages, the tops of the thread stacks, the read-only pages and the regions handed out. */
  datatype Memory = Memory(pages: nat, stacks: seq<U32>, guards: set<nat>, regions: seq<Region>)

  ghost predicate Ordered(regions: seq<Region>, pages: nat) {
    && (forall i :: 0 <= i < |regions| ==> regions[i].pages > 0 && regions[i].Top() <= pages)
    && (forall i, j :: 0 <= i < j < |regions| ==> regions[i].Top() <= regions[j].first)
  }

  ghost predicate Guarded(m: Memory) {
    && (forall p :: p in m.guards ==> p < m.pages)
    && (forall i, p :: 0 <= i < |m.regions| && p in m.guards ==> !m.regions[i].Usable(p))
    && (forall i, p: nat :: 0 <= i < |m.regions| && m.regions[i].Margin(p) ==> p in m.guards)
  }

  /** The memory invariant: below 2^32, regions apart and under the break, guards exactly where no one writes. */
  ghost predicate Sound(m: Memory, maxPages: nat) {
    && m.pages <= maxPages <= PAGE && m.pages < PAGE
    && Ordered(m.regions, m.pages)
    && Guarded(m)
    && (forall i :: 0 <= i < |m.stacks| ==> m.stacks[i] % 16 == 0)
  }

  /** That many more pages fit below both limits. */
  predicate Fits(pages: nat, maxPages: nat, more: nat) { pages + more <= maxPages && pages + more < PAGE }

  /** A growth by `bytes` succeeds exactly when this holds. */
  predicate CanGrow(pages: nat, maxPages: nat, bytes: U64, runtimeOk: bool) {
    bytes % PAGE == 0 && Fits(pages, maxPages, bytes / PAGE) && runtimeOk
  }

  /** In bytes: the new break is on a page, within the maximum and below 2^32. */
  lemma CanGrowIff(pages: nat, maxPages: nat, bytes: U64, runtimeOk: bool)
    ensures CanGrow(pages, maxPages, bytes, runtimeOk)
            <==> runtimeOk && bytes % PAGE == 0 && pages * PAGE + bytes <= maxPages * PAGE && pages * PAGE + bytes < TWO32
  {
    if bytes % PAGE == 0 {
      assert pages * PAGE + bytes == (pages + bytes / PAGE) * PAGE;
    }
  }

  function Grow(m: Memory, pages: nat, guarded: bool): Memory {
    m.(pages := m.pages + pages, regions := m.regions + [Region(m.pages, pages, guarded)])
  }

  function PageRange(first: nat, count: nat): set<nat> {
    set p: nat | first <= p < first + count && Region(first, count, false).Contains(p)
  }

  /** A region with a guard at each end. */
  function GrowGuarded(m: Memory, inner: nat): Memory {
    var g := Grow(m, inner + 2 * GUARD_PAGES, true);
    g.(guards := g.guards + PageRange(m.pages, GUARD_PAGES) + PageRange(m.pages + GUARD_PAGES + inner, GUARD_PAGES))
  }

  /** The memory has grown for a guarded region, but nothing was handed out; the lower guard may have been made. */
  function Abandon(m: Memory, inner: nat, lowerGuard: bool): Memory {
    m.(pages := m.pages + inner + 2 * GUARD_PAGES,
       guards := if lowerGuard then m.guards + PageRange(m.pages, GUARD_PAGES) else m.guards)
  }

  /** The regions that remain when the break comes down to `pages`; one that is cut is lost. */
  function Live(regions: seq<Region>, pages: nat): seq<Region> {
    if regions == [] || regions[|regions| - 1].Top() <= pages then regions
    else Live(regions[..|regions| - 1], pages)
  }

  function CutTo(m: Memory, pages: nat): Memory {
    Memory(pages, m.stacks, (set p | p in m.guards && p < pages), Live(m.regions, pages))
  }

  // ---------- Each step keeps the invariant ----------

  lemma GrowKeepsOrder(regions: seq<Region>, pages: nat, more: nat, guarded: bool)
    requires Ordered(regions, pages) && more > 0
    ensures Ordered(regions + [Region(pages, more, guarded)], pages + more)
  {
  }

  lemma GrowSound(m: Memory, maxPages: nat, more: nat)
    requires Sound(m, maxPages) && 0 < more && m.pages + more <= maxPages && m.pages + more < PAGE
    ensures Sound(Grow(m, more, false), maxPages)
  {
    GrowKeepsOrder(m.regions, m.pages, more, false);
  }

  lemma GrowGuardedSound(m: Memory, maxPages: nat, inner: nat)
    requires Sound(m, maxPages)
    requires m.pages + inner + 2 * GUARD_PAGES <= maxPages && m.pages + inner + 2 * GUARD_PAGES < PAGE
    ensures Sound(GrowGuarded(m, inner), maxPages)
  {
    GrowKeepsOrder(m.regions, m.pages, inner + 2 * GUARD_PAGES, true);
    var g := GrowGuarded(m, inner);
    forall i, p: nat | 0 <= i < |g.regions| && g.regions[i].Margin(p) ensures p in g.guards {
      if i < |m.regions| {
        assert m.regions[i].Margin(p);
      }
    }
  }

  lemma AbandonSound(m: Memory, maxPages: nat, inner: nat, lowerGuard: bool)
    requires Sound(m, maxPages) && Fits(m.pages, maxPages, inner + 2 * GUARD_PAGES)
    ensures Sound(Abandon(m, inner, lowerGuard), maxPages)
  {
    var a := Abandon(m, inner, lowerGuard);
    forall i, p | 0 <= i < |a.regions| && p in a.guards ensures !a.regions[i].Usable(p) {
      if p !in m.guards {
        assert p >= m.pages >= m.regions[i].Top();
      }
    }
  }

  /** What remains is a prefix: the regions that lie wholly below the new break. */
  lemma {:induction false} LiveIsFilter(regions: seq<Region>, top: nat, pages: nat)
    requires Ordered(regions, top)
    ensures Live(regions, pages) <= regions
    ensures forall i :: 0 <= i < |regions| ==> (i < |Live(regions, pages)| <==> regions[i].Top() <= pages)
  {
    if regions != [] {
      var last := regions[|regions| - 1];
      if last.Top() > pages {
        var rest := regions[..|regions| - 1];
        LiveIsFilter(rest, top, pages);
        assert Live(regions, pages) == Live(rest, pages);
        assert forall i :: 0 <= i < |rest| ==> rest[i] == regions[i];
      }
    }
  }

  lemma CutSound(m: Memory, maxPages: nat, pages: nat)
    requires Sound(m, maxPages) && pages <= m.pages
    ensures Sound(CutTo(m, pages), maxPages)
  {
    LiveIsFilter(m.regions, m.pages, pages);
    var c := CutTo(m, pages);
    forall i, p: nat | 0 <= i < |c.regions| && c.regions[i].Margin(p) ensures p in c.guards {
      assert m.regions[i].Margin(p);
      assert p < c.regions[i].Top() <= pages;
    }
  }

  /** Taking the break back down over the newest region undoes its growth. */
  lemma CutUndoesGrow(m: Memory, maxPages: nat, more: nat)
    requires Sound(m, maxPages) && more > 0
    ensures CutTo(Grow(m, more, false), m.pages) == m
  {
    var g := Grow(m, more, false);
    assert g.regions[..|g.regions| - 1] == m.regions;
    assert Live(g.regions, m.pages) == Live(m.regions, m.pages) == m.regions;
    assert CutTo(g, m.pages).guards == m.guards;
  }

  // ---------- Runs ----------

  datatype Action =
    | GrowBy(bytes: U64)
    | ShrinkBy(bytes: U64)
    | SetSize(bytes: U64)
    | Map(bytes: U64)
    | Unmap(offset: U32, bytes: U64)
    | ThreadStack(guards: nat)
    | Module(guards: nat)

  /** The top of the stack in a thread region starting at page `first`. */
  function StackTop(first: nat): int { (first + GUARD_PAGES + THREAD_STACK_PAGES) * PAGE - 16 }

  /**
   The change a call makes. A region that should be guarded is abandoned, with its pages
   kept, when one of its guards cannot be made.
   */
  datatype Effect =
    | Nothing
    | Grown(pages: nat)
    | Guarding(inner: nat, isStack: bool)
    | Abandoning(inner: nat, isStack: bool, lowerGuard: bool)
    | Cut(pages: nat)

  /** The first `guards` of the two guards can be made. */
  function GuardedEffect(inner: nat, isStack: bool, guards: nat): Effect {
    if guards >= 2 then Guarding(inner, isStack) else Abandoning(inner, isStack, guards == 1)
  }

  /** A call that throws changes nothing. */
  function EffectOf(pages: nat, maxPages: nat, a: Action, runtimeOk: bool): Effect
    requires pages <= maxPages && pages < PAGE
  {
    match a
    case GrowBy(n) =>
      if n != 0 && CanGrow(pages, maxPages, n, runtimeOk) then Grown(n / PAGE) else Nothing
    case ShrinkBy(n) =>
      if n % PAGE == 0 && n / PAGE <= pages && runtimeOk then Cut(pages - n / PAGE) else Nothing
    case SetSize(n) =>
      if n % PAGE != 0 || n / PAGE > maxPages || n / PAGE >= PAGE || n / PAGE == pages || !runtimeOk then Nothing
      else if n / PAGE < pages then Cut(n / PAGE)
      else Grown(n / PAGE - pages)
    case Map(n) =>
      var size := RoundUpToPage(ToU32(n));
      if size != 0 && CanGrow(pages, maxPages, size, runtimeOk) then Grown(size / PAGE) else Nothing
    case Unmap(offset, n) =>
      if n != 0 && offset % PAGE == 0 && offset + RoundUpToPage(ToU32(n)) == pages * PAGE && runtimeOk
      then Cut(offset / PAGE) else Nothing
    case ThreadStack(guards) =>
      if Fits(pages, maxPages, THREAD_STACK_PAGES + 2 * GUARD_PAGES) && runtimeOk
      then GuardedEffect(THREAD_STACK_PAGES, true, guards) else Nothing
    case Module(guards) =>
      if Fits(pages, maxPages, MODULE_PAGES + 2 * GUARD_PAGES) && runtimeOk
      then GuardedEffect(MODULE_PAGES, false, guards) else Nothing
  }

  /**
   What asking for a guarded region leaves: its pages when they fit, and the guards that could
   be made, at both of its ends; whether or not it is handed out.
   */
  lemma GuardedMeaning(m: Memory, maxPages: nat, a: Action, runtimeOk: bool, p: nat)
    requires Sound(m, maxPages) && (a.ThreadStack? || a.Module?)
    ensures var size := (if a.ThreadStack? then THREAD_STACK_PAGES else MODULE_PAGES) + 2 * GUARD_PAGES;
            var after := Apply(m, maxPages, a, runtimeOk);
            if !(runtimeOk && m.pages + size <= maxPages && m.pages + size < PAGE) then after == m
            else
              && after.pages == m.pages + size
              && (p in after.guards <==> p in m.guards
                                         || (a.guards >= 1 && m.pages <= p < m.pages + GUARD_PAGES)
                                         || (a.guards >= 2 && after.pages - GUARD_PAGES <= p < after.pages))
              && after.regions == m.regions + (if a.guards >= 2 then [Region(m.pages, size, true)] else [])
              && after.stacks == m.stacks + if a.ThreadStack? then [StackTop(m.pages)] else []
  {
    var size := (if a.ThreadStack? then THREAD_STACK_PAGES else MODULE_PAGES) + 2 * GUARD_PAGES;
    GuardedGoal(m, size - 2 * GUARD_PAGES, a.ThreadStack?, a.guards);
    assert m.regions + [] == m.regions && m.stacks + [] == m.stacks;
  }

  /** The top of a new thread stack is recorded before its guards are made. */
  function StacksAfter(m: Memory, isStack: bool): seq<U32> {
    if isStack && StackTop(m.pages) < TWO32 then m.stacks + [StackTop(m.pages)] else m.stacks
  }

  function Do(m: Memory, e: Effect): Memory {
    match e
    case Nothing => m
    case Grown(k) => Grow(m, k, false)
    case Guarding(inner, isStack) =>
      var g := GrowGuarded(m, inner);
      g.(stacks := StacksAfter(m, isStack))
    case Abandoning(inner, isStack, lowerGuard) => Abandon(m, inner, lowerGuard).(stacks := StacksAfter(m, isStack))
    case Cut(p) => CutTo(m, p)
  }

  function Apply(m: Memory, maxPages: nat, a: Action, runtimeOk: bool): Memory
    requires m.pages <= maxPages && m.pages < PAGE
  {
    Do(m, EffectOf(m.pages, maxPages, a, runtimeOk))
  }

  predicate EffectFits(pages: nat, maxPages: nat, e: Effect) {
    match e
    case Nothing => true
    case Grown(k) => k > 0 && Fits(pages, maxPages, k)
    case Guarding(inner, isStack) => Fits(pages, maxPages, inner + 2 * GUARD_PAGES)
    case Abandoning(inner, isStack, lowerGuard) => Fits(pages, maxPages, inner + 2 * GUARD_PAGES)
    case Cut(p) => p <= pages
  }

  lemma EffectsFit(pages: nat, maxPages: nat, a: Action, runtimeOk: bool)
    requires pages <= maxPages && pages < PAGE
    ensures EffectFits(pages, maxPages, EffectOf(pages, maxPages, a, runtimeOk))
  {
  }

  lemma DoSound(m: Memory, maxPages: nat, e: Effect)
    requires Sound(m, maxPages) && EffectFits(m.pages, maxPages, e)
    ensures Sound(Do(m, e), maxPages)
  {
    match e
    case Nothing =>
    case Grown(k) => GrowSound(m, maxPages, k);
    case Guarding(inner, isStack) =>
      GrowGuardedSound(m, maxPages, inner);
      assert StackTop(m.pages) % 16 == 0;
    case Abandoning(inner, isStack, lowerGuard) =>
      AbandonSound(m, maxPages, inner, lowerGuard);
      assert StackTop(m.pages) % 16 == 0;
    case Cut(p) => CutSound(m, maxPages, p);
  }

  /** Every call keeps the invariant. */
  lemma ApplySound(m: Memory, maxPages: nat, a: Action, runtimeOk: bool)
    requires Sound(m, maxPages)
    ensures Sound(Apply(m, maxPages, a, runtimeOk), maxPages)
  {
    EffectsFit(m.pages, maxPages, a, runtimeOk);
    DoSound(m, maxPages, EffectOf(m.pages, maxPages, a, runtimeOk));
  }

  /** A run of calls, each with whether the runtime could commit or release the pages asked for. */
  ghost function Run(m: Memory, maxPages: nat, run: seq<(Action, bool)>): (r: Memory)
    requires Sound(m, maxPages)
    ensures Sound(r, maxPages)
    decreases |run|
  {
    if run == [] then m
    else
      ApplySound(m, maxPages, run[0].0, run[0].1);
      Run(Apply(m, maxPages, run[0].0, run[0].1), maxPages, run[1..])
  }

  /** The break stays at or above `pages` all along the run. */
  ghost predicate StaysAbove(m: Memory, maxPages: nat, run: seq<(Action, bool)>, pages: nat)
    requires Sound(m, maxPages)
    decreases |run|
  {
    if run == [] then m.pages >= pages
    else
      ApplySound(m, maxPages, run[0].0, run[0].1);
      m.pages >= pages && StaysAbove(Apply(m, maxPages, run[0].0, run[0].1), maxPages, run[1..], pages)
  }

  /** No call moves or relabels a region that stays below the break. */
  lemma ApplyKeeps(m: Memory, maxPages: nat, a: Action, runtimeOk: bool, i: nat)
    requires Sound(m, maxPages) && i < |m.regions|
    requires m.regions[i].Top() <= Apply(m, maxPages, a, runtimeOk).pages
    ensures var r := Apply(m, maxPages, a, runtimeOk).regions; i < |r| && r[i] == m.regions[i]
  {
    LiveIsFilter(m.regions, m.pages, Apply(m, maxPages, a, runtimeOk).pages);
  }

  /**
   * A region handed out stays handed out for as long as the break is not taken
   * down past it, so everything handed out meanwhile lies outside it and its
   * guards stay read-only.
   */
  lemma {:induction false} HandedOutOnce(m: Memory, maxPages: nat, run: seq<(Action, bool)>, i: nat)
    requires Sound(m, maxPages) && i < |m.regions|
    requires StaysAbove(m, maxPages, run, m.regions[i].Top())
    ensures var end := Run(m, maxPages, run);
            i < |end.regions| && end.regions[i] == m.regions[i]
            && (forall j, p :: 0 <= j < |end.regions| && j != i && end.regions[j].Contains(p) ==> !m.regions[i].Contains(p))
            && (forall p: nat :: m.regions[i].Margin(p) ==> p in end.guards)
            && (forall p :: p in end.guards ==> !m.regions[i].Usable(p))
    decreases |run|
  {
    if run != [] {
      ApplySound(m, maxPages, run[0].0, run[0].1);
      ApplyKeeps(m, maxPages, run[0].0, run[0].1, i);
      HandedOutOnce(Apply(m, maxPages, run[0].0, run[0].1), maxPages, run[1..], i);
    }
  }

  // ---------- What single calls promise ----------

  /** A mapping that succeeds covers the bytes asked for exactly when they do not wrap the 32-bit rounding. */
  lemma MapCoversIff(m: Memory, maxPages: nat, bytes: U64)
    requires Sound(m, maxPages)
    requires var size := RoundUpToPage(ToU32(bytes)); size == 0 || CanGrow(m.pages, maxPages, size, true)
    ensures m.pages * PAGE + bytes <= Apply(m, maxPages, Map(bytes), true).pages * PAGE <==> bytes <= TWO32 - PAGE
  {
    RoundUpIff(ToU32(bytes));
    var size := RoundUpToPage(ToU32(bytes));
    assert Apply(m, maxPages, Map(bytes), true).pages * PAGE == m.pages * PAGE + size;
    if bytes <= TWO32 - PAGE {
      assert ToU32(bytes) == bytes;
    }
  }

  /** Unmapping the newest mapping restores the memory as it was; a failed or empty mapping needs nothing undone. */
  lemma UnmapUndoesMap(m: Memory, maxPages: nat, bytes: U64, runtimeOk: bool)
    requires Sound(m, maxPages)
    ensures var mapped := Apply(m, maxPages, Map(bytes), runtimeOk);
            mapped != m ==> Apply(mapped, maxPages, Unmap(m.pages * PAGE, bytes), true) == m
  {
    var size := RoundUpToPage(ToU32(bytes));
    RoundUpIff(ToU32(bytes));
    if Apply(m, maxPages, Map(bytes), runtimeOk) != m {
      CutUndoesGrow(m, maxPages, size / PAGE);
    }
  }

  /** A new thread stack fills the space between its guards, and its 16-byte-aligned top is in its last 16 bytes. */
  lemma StackBetweenGuards(m: Memory, maxPages: nat)
    requires Sound(m, maxPages) && Fits(m.pages, maxPages, THREAD_STACK_PAGES + 2 * GUARD_PAGES)
    ensures var m' := Apply(m, maxPages, ThreadStack(2), true);
            && m'.regions != [] && m'.stacks != []
            && var r, top := m'.regions[|m'.regions| - 1], m'.stacks[|m'.stacks| - 1];
            && r.first == m.pages && r.Top() == m'.pages
            && (forall p :: r.Usable(p) <==> r.first + GUARD_PAGES <= p < r.Top() - GUARD_PAGES)
            && (forall p :: r.Usable(p) ==> p !in m'.guards)
            && top % 16 == 0 && top + 16 == (r.Top() - GUARD_PAGES) * PAGE && r.Usable(top / PAGE)
  {
    ApplySound(m, maxPages, ThreadStack(2), true);
    StackArithmetic(m.pages);
    var m' := Apply(m, maxPages, ThreadStack(2), true);
    var r := m'.regions[|m'.regions| - 1];
    assert StackTop(m.pages) / PAGE == m.pages + GUARD_PAGES + THREAD_STACK_PAGES - 1;
    forall p | r.Usable(p) ensures p !in m'.guards {
      assert !(p in m'.guards && r.Usable(p));
    }
  }

  /** Unmapping any region but the topmost changes nothing. */
  lemma UnmapBelowTop(m: Memory, maxPages: nat, i: nat, runtimeOk: bool)
    requires Sound(m, maxPages) && i < |m.regions| && m.regions[i].Top() < m.pages
    ensures var r := m.regions[i];
            Apply(m, maxPages, Unmap(r.first * PAGE, r.pages * PAGE), runtimeOk) == m
  {
    var r := m.regions[i];
    RoundUpIff(r.pages * PAGE);
    assert RoundUpToPage(r.pages * PAGE) == r.pages * PAGE;
  }

  // ---------- The module's methods ----------

  lemma WholePages(pages: int, rest: int)
    ensures (pages * PAGE + rest) % PAGE == rest % PAGE
  {
  }

  lemma AlignedGrowth(pages: nat, bytes: U64)
    ensures IsWasmPageAligned(ToS32(ToU32(pages * PAGE + bytes))) <==> bytes % PAGE == 0
  {
    var sum := pages * PAGE + bytes;
    var low, high := sum % TWO32, sum / TWO32;
    WholePages(pages, bytes);
    assert sum == high * PAGE * PAGE + low;
    WholePages(high * PAGE, low);
    WholePages(-PAGE, low);
  }

  lemma AlignedPages(bytes: U64)
    requires bytes % PAGE == 0
    ensures PagesForBytes(bytes) == bytes / PAGE
  {
    assert ToU64(bytes + PAGE - 1) == bytes + PAGE - 1;
  }

  lemma SplitBytes(pages: nat, bytes: U64)
    ensures bytes >= pages * PAGE ==> (bytes - pages * PAGE) % PAGE == bytes % PAGE && (bytes - pages * PAGE) / PAGE == bytes / PAGE - pages
    ensures bytes < pages * PAGE ==> ((pages * PAGE - bytes) % PAGE == 0 <==> bytes % PAGE == 0)
    ensures bytes < pages * PAGE && bytes % PAGE == 0 ==> (pages * PAGE - bytes) / PAGE == pages - bytes / PAGE
  {
  }

  /** A 32-bit top that equals the break without wrapping is the true one. */
  lemma UnmapTop(offset: U32, size: U32, pages: nat)
    requires offset % PAGE == 0 && size % PAGE == 0 && pages < PAGE
    ensures ToU32(offset + size) == pages * PAGE && size <= pages * PAGE <==> offset + size == pages * PAGE
    ensures offset + size == pages * PAGE ==> size / PAGE <= pages && pages - size / PAGE == offset / PAGE
  {
  }

  lemma StackArithmetic(first: nat)
    requires first + THREAD_STACK_PAGES + 2 * GUARD_PAGES < PAGE
    ensures ToU32(first * PAGE + GUARD_PAGES * PAGE + THREAD_STACK_PAGES * PAGE - 16) == StackTop(first) < TWO32
    ensures ToU32(StackTop(first) + 16) == (first + GUARD_PAGES + THREAD_STACK_PAGES) * PAGE
  {
  }

  lemma ModuleArithmetic(first: nat)
    requires first + MODULE_PAGES + 2 * GUARD_PAGES < PAGE
    ensures ToU32(first * PAGE + GUARD_PAGES * PAGE) == (first + GUARD_PAGES) * PAGE
    ensures ToU32((first + GUARD_PAGES) * PAGE + MODULE_PAGES * PAGE) == (first + GUARD_PAGES + MODULE_PAGES) * PAGE
  {
  }

  /** A guarded growth field by field, the guards made one after the other. */
  lemma GuardedGoal(m: Memory, inner: nat, isStack: bool, guards: nat)
    ensures var size := inner + 2 * GUARD_PAGES;
            var lower := if guards >= 1 then PageRange(m.pages, GUARD_PAGES) else {};
            var upper := if guards >= 2 then PageRange(m.pages + GUARD_PAGES + inner, GUARD_PAGES) else {};
            Do(m, GuardedEffect(inner, isStack, guards))
            == Memory(m.pages + size, StacksAfter(m, isStack), m.guards + lower + upper,
                      m.regions + if guards >= 2 then [Region(m.pages, size, true)] else [])
  {
    assert m.regions + [] == m.regions;
  }

  /** The 32- and 64-bit page counts: exact when the growth fits, and caught by a check when it does not. */
  lemma GrowthArithmetic(pages: nat, maxPages: nat, more: nat)
    requires pages <= maxPages <= PAGE && pages < PAGE && more * PAGE < TWO64
    ensures ToU32(PagesForBytes(pages * PAGE)) == pages
    ensures var newBytes := ToU64(pages * PAGE + more * PAGE);
            var newPages := ToU32(PagesForBytes(newBytes));
            if newBytes >= TWO32 || newPages > maxPages then !Fits(pages, maxPages, more)
            else if Fits(pages, maxPages, more) then ToU32(newPages - pages) == more && newBytes == (pages + more) * PAGE
            else pages + ToU32(newPages - pages) > maxPages
  {
    if pages + more < TWO64 / PAGE {
      assert ToU64(pages * PAGE + more * PAGE) == (pages + more) * PAGE;
      assert PagesForBytes((pages + more) * PAGE) == pages + more;
    } else {
      var left := pages + more - TWO64 / PAGE;
      assert ToU64(pages * PAGE + more * PAGE) == left * PAGE;
      assert PagesForBytes(left * PAGE) == left < pages;
    }
  }

  datatype Error = NotAligned | OverMax | UnderBreak | RuntimeFailed | Discrepancy | UnexpectedGlobal | GuardFailed

  datatype Outcome = Returned(value: U32) | Threw(error: Error)

  class WasmModule {
    const maxPages: nat
    var numPages: nat
    var threadStacks: seq<U32>
    var guardPages: set<nat>
    ghost var regions: seq<Region>

    ghost function Mem(): Memory
      reads this
    {
      Memory(numPages, threadStacks, guardPages, regions)
    }

    ghost predicate Valid()
      reads this
    {
      Sound(Mem(), maxPages)
    }

    constructor (initialPages: nat, maxPages: nat)
      requires initialPages <= maxPages <= PAGE && initialPages < PAGE
      ensures Valid() && Mem() == Memory(initialPages, [], {}, []) && this.maxPages == maxPages
    {
      this.maxPages := maxPages;
      numPages := initialPages;
      threadStacks, guardPages, regions := [], {}, [];
    }

    method GetMemorySizeBytes() returns (bytes: U64)
      requires numPages < PAGE
      ensures bytes == numPages * PAGE && bytes < TWO32
    {
      bytes := ToU64(numPages * PAGE);
    }

    /**
     * Asks the runtime for pages. The page base it reports is set only when it
     * succeeds; `unset` is what the caller reads otherwise.
     */
    method DoGrowMemory(pageChange: U32, runtimeOk: bool, unset: U64) returns (r: Outcome)
      requires numPages <= maxPages && numPages < PAGE
      modifies this`numPages
      ensures r.Returned? && r.value != 0 <==> old(numPages) + pageChange <= maxPages && runtimeOk
      ensures r.Threw? ==> r.error == Discrepancy
      ensures numPages == old(numPages) + if r.Returned? && r.value != 0 then pageChange else 0
    {
      var oldBytes := GetMemorySizeBytes();
      var success := pageChange <= maxPages && numPages <= maxPages - pageChange && runtimeOk;
      var newBase := if success then numPages else unset;
      if success {
        numPages := numPages + pageChange;
      }
      if ToU32(newBase * PAGE) != oldBytes {
        return Threw(Discrepancy);
      }
      r := Returned(if success then 1 else 0);
    }

    /** The checks before a growth: alignment of the 32-bit break, then size and page limits. */
    method CheckGrowth(bytes: U64) returns (r: Outcome, newBytes: U64, oldPages: U32, pageChange: U32)
      requires numPages <= maxPages <= PAGE && numPages < PAGE
      ensures r == Threw(NotAligned) <==> bytes % PAGE != 0
      ensures r == Threw(OverMax) ==> !Fits(numPages, maxPages, bytes / PAGE)
      ensures r.Threw? ==> r.error in {NotAligned, OverMax}
      ensures r.Returned? ==> oldPages == numPages
      ensures r.Returned? && Fits(numPages, maxPages, bytes / PAGE) ==>
                pageChange == bytes / PAGE && newBytes == (numPages + pageChange) * PAGE
      ensures r.Returned? && !Fits(numPages, maxPages, bytes / PAGE) ==>
                numPages + pageChange > maxPages
    {
      var oldBytes: U32 := ToU32(numPages * PAGE);
      newBytes, oldPages, pageChange := 0, 0, 0;
      assert oldBytes == numPages * PAGE;
      AlignedGrowth(numPages, bytes);
      var newBrk: U32 := ToU32(oldBytes + bytes);
      if !IsWasmPageAligned(ToS32(newBrk)) {
        return Threw(NotAligned), newBytes, oldPages, pageChange;
      }
      assert bytes == bytes / PAGE * PAGE;
      GrowthArithmetic(numPages, maxPages, bytes / PAGE);
      newBytes := ToU64(oldBytes + bytes);
      oldPages := ToU32(PagesForBytes(oldBytes));
      var newPages: U32 := ToU32(PagesForBytes(newBytes));
      if newBytes >= TWO32 || newPages > maxPages {
        return Threw(OverMax), newBytes, oldPages, pageChange;
      }
      assert oldPages == numPages;
      pageChange := ToU32((newPages as int) - oldPages);
      r := Returned(0);
    }

    /** Growth succeeds exactly when it is aligned and fits; it then returns the old break. */
    method GrowMemory(bytes: U64, runtimeOk: bool, unset: U64) returns (r: Outcome)
      requires Valid()
      modifies this`numPages, this`regions
      ensures Valid() && Mem() == Apply(old(Mem()), maxPages, GrowBy(bytes), runtimeOk)
      ensures r.Returned? <==> bytes == 0 || CanGrow(old(numPages), maxPages, bytes, runtimeOk)
      ensures r.Returned? ==> r.value == old(numPages) * PAGE
      ensures r == Threw(NotAligned) <==> bytes != 0 && bytes % PAGE != 0
      ensures r.Threw? || bytes == 0 ==> Mem() == old(Mem())
      ensures r.Returned? && bytes != 0 ==>
                numPages * PAGE == old(numPages) * PAGE + bytes
                && regions == old(regions) + [Region(old(numPages), bytes / PAGE, false)]
    {
      ApplySound(Mem(), maxPages, GrowBy(bytes), runtimeOk);
      var oldBytes := GetMemorySizeBytes();
      if bytes == 0 {
        return Returned(oldBytes);
      }
      var check, newBytes, oldPages, pageChange := CheckGrowth(bytes);
      if check.Threw? {
        return check;
      }
      var grown := DoGrowMemory(pageChange, runtimeOk, unset);
      if grown.Threw? {
        return grown;
      } else if grown.value == 0 {
        return Threw(RuntimeFailed);
      }
      regions := regions + [Region(oldPages, pageChange, false)];
      var newSize := GetMemorySizeBytes();
      if newSize != newBytes {
        return Threw(Discrepancy);
      }
      return Returned(oldBytes);
    }

    /** Shrinking succeeds exactly when it is aligned and not past zero; it returns the new break. */
    method ShrinkMemory(bytes: U64, runtimeOk: bool) returns (r: Outcome)
      requires Valid()
      modifies this`numPages, this`guardPages, this`regions
      ensures Valid() && Mem() == Apply(old(Mem()), maxPages, ShrinkBy(bytes), runtimeOk)
      ensures r.Returned? <==> bytes % PAGE == 0 && bytes <= old(numPages) * PAGE && runtimeOk
      ensures r.Returned? ==> r.value == old(numPages) * PAGE - bytes == numPages * PAGE
      ensures r.Returned? ==> forall p :: p in guardPages <==> p in old(guardPages) && p < numPages
      ensures r.Threw? ==> Mem() == old(Mem())
      ensures r == Threw(NotAligned) <==> bytes % PAGE != 0
    {
      ApplySound(Mem(), maxPages, ShrinkBy(bytes), runtimeOk);
      AlignedGrowth(0, bytes);
      if !IsWasmPageAligned(ToS32(ToU32(bytes))) {
        return Threw(NotAligned);
      }
      var oldBrk := GetMemorySizeBytes();
      if bytes > oldBrk {
        return Threw(UnderBreak);
      }
      AlignedPages(bytes);
      var pageChange := PagesForBytes(bytes);
      if !runtimeOk {
        return Threw(RuntimeFailed);
      }
      numPages := numPages - pageChange;
      guardPages := set p | p in guardPages && p < numPages;
      regions := Live(regions, numPages);
      return Returned(numPages * PAGE);
    }

    /** Sets the break outright, growing or shrinking to it. */
    method SetMemorySize(bytes: U64, runtimeOk: bool, unset: U64) returns (r: Outcome)
      requires Valid()
      modifies this`numPages, this`guardPages, this`regions
      ensures Valid() && Mem() == Apply(old(Mem()), maxPages, SetSize(bytes), runtimeOk)
      ensures r.Returned? <==> bytes == old(numPages) * PAGE
                               || (bytes % PAGE == 0 && bytes / PAGE <= maxPages && bytes / PAGE < PAGE && runtimeOk)
      ensures r.Returned? ==> numPages * PAGE == bytes
      ensures r.Threw? ==> Mem() == old(Mem())
    {
      var memSize := GetMemorySizeBytes();
      SplitBytes(numPages, bytes);
      if bytes > memSize {
        r := GrowMemory(bytes - memSize, runtimeOk, unset);
      } else if bytes < memSize {
        r := ShrinkMemory(memSize - bytes, runtimeOk);
      } else {
        r := Returned(memSize);
      }
    }

    method MmapMemory(bytes: U64, runtimeOk: bool, unset: U64) returns (r: Outcome)
      requires Valid()
      modifies this`numPages, this`regions
      ensures Valid() && Mem() == Apply(old(Mem()), maxPages, Map(bytes), runtimeOk)
      ensures r.Returned? ==> r.value == old(numPages) * PAGE
      ensures r.Returned? <==> RoundUpToPage(ToU32(bytes)) == 0
                               || CanGrow(old(numPages), maxPages, RoundUpToPage(ToU32(bytes)), runtimeOk)
      ensures r.Threw? ==> Mem() == old(Mem())
      ensures r.Returned? ==> numPages * PAGE == old(numPages) * PAGE + RoundUpToPage(ToU32(bytes))
    {
      var pageAligned := RoundUpToPage(ToU32(bytes));
      r := GrowMemory(pageAligned, runtimeOk, unset);
    }

    /** Only memory that ends at the break is given back; a top that wraps past 2^32 never is. */
    method UnmapMemory(offset: U32, bytes: U64, runtimeOk: bool) returns (r: Outcome)
      requires Valid()
      modifies this`numPages, this`guardPages, this`regions
      ensures Valid() && Mem() == Apply(old(Mem()), maxPages, Unmap(offset, bytes), runtimeOk)
      ensures r == Threw(NotAligned) <==> bytes != 0 && offset % PAGE != 0
      ensures var size := RoundUpToPage(ToU32(bytes));
              var top, brk := ToU32(offset + size), old(numPages) * PAGE;
              && (r.Returned? <==>
                    bytes == 0 || (offset % PAGE == 0 && top <= maxPages * PAGE && (top == brk ==> size <= brk && runtimeOk)))
              && (r.Returned? && bytes != 0 && offset + size == brk ==> numPages * PAGE == offset)
              && (bytes == 0 || offset + size != brk || r.Threw? ==> Mem() == old(Mem()))
    {
      if bytes == 0 {
        return Returned(0);
      }
      assert IsWasmPageAligned(ToS32(offset)) <==> offset % PAGE == 0 by { AlignedGrowth(0, offset); }
      if !IsWasmPageAligned(ToS32(offset)) {
        return Threw(NotAligned);
      }
      var pageAligned := RoundUpToPage(ToU32(bytes));
      assert pageAligned % PAGE == 0 by { RoundUpIff(ToU32(bytes)); }
      UnmapTop(offset, pageAligned, numPages);
      var unmapTop: U32 := ToU32(offset + pageAligned);
      if unmapTop > maxPages * PAGE {
        return Threw(OverMax);
      }
      var brk := GetMemorySizeBytes();
      if unmapTop == brk {
        r := ShrinkMemory(pageAligned, runtimeOk);
      } else {
        r := Returned(0);
      }
    }

    /** Makes one guard read-only and returns the offset behind it, unless the host refuses. */
    method CreateMemoryGuardRegion(offset: U32, protectOk: bool) returns (r: Outcome)
      requires offset % PAGE == 0 && offset + GUARD_PAGES * PAGE < TWO32
      modifies this`guardPages
      ensures r == if protectOk then Returned(offset + GUARD_PAGES * PAGE) else Threw(GuardFailed)
      ensures guardPages == old(guardPages) + if protectOk then PageRange(offset / PAGE, GUARD_PAGES) else {}
    {
      if !protectOk {
        return Threw(GuardFailed);
      }
      guardPages := guardPages + PageRange(offset / PAGE, GUARD_PAGES);
      r := Returned(ToU32(offset + GUARD_PAGES * PAGE));
    }

    /**
     Guards at both ends of the newest region, at pages `first` and `last`; the region counts
     as handed out, and guarded, only once both are made.
     */
    method Protect(lower: U32, upper: U32, guards: nat, ghost first: nat, ghost last: nat) returns (done: bool)
      requires lower == first * PAGE && upper == last * PAGE && first <= last && last + GUARD_PAGES < PAGE
      requires regions != []
      modifies this`guardPages, this`regions
      ensures done <==> guards >= 2
      ensures guardPages == old(guardPages) + (if guards >= 1 then PageRange(first, GUARD_PAGES) else {})
                            + if guards >= 2 then PageRange(last, GUARD_PAGES) else {}
      ensures regions == old(regions)[..|old(regions)| - 1]
                         + if done then [old(regions)[|old(regions)| - 1].(guarded := true)] else []
    {
      ghost var newest := regions[|regions| - 1];
      regions := regions[..|regions| - 1];
      var below := CreateMemoryGuardRegion(lower, guards >= 1);
      if below.Threw? {
        return false;
      }
      var above := CreateMemoryGuardRegion(upper, guards >= 2);
      if above.Threw? {
        return false;
      }
      regions := regions + [newest.(guarded := true)];
      done := true;
    }

    /** A stack of 2 MiB between two guards; the recorded top is the last 16 bytes of the stack. */
    method AddThreadStack(guards: nat, runtimeOk: bool, unset: U64) returns (r: Outcome)
      requires Valid()
      modifies this
      ensures Mem() == Apply(old(Mem()), maxPages, ThreadStack(guards), runtimeOk)
      ensures Valid()
      ensures r.Returned? <==> Fits(old(numPages), maxPages, THREAD_STACK_PAGES + 2 * GUARD_PAGES) && runtimeOk && guards >= 2
      ensures r.Returned? ==> threadStacks == old(threadStacks) + [StackTop(old(numPages))]
    {
      ApplySound(Mem(), maxPages, ThreadStack(guards), runtimeOk);
      ghost var before := Mem();
      var memSize: U32 := (THREAD_STACK_PAGES + 2 * GUARD_PAGES) * PAGE;
      r := GrowMemory(memSize, runtimeOk, unset);
      if r.Returned? {
        var done := RecordStack(r.value, guards, before);
        if !done {
          r := Threw(GuardFailed);
        }
      }
    }

    /** Records the top of a stack whose memory is there, then makes its guards. */
    method RecordStack(memBase: U32, guards: nat, ghost before: Memory) returns (done: bool)
      requires JustGrown(before, THREAD_STACK_PAGES + 2 * GUARD_PAGES) && memBase == before.pages * PAGE
      modifies this`threadStacks, this`guardPages, this`regions
      ensures Mem() == Do(before, GuardedEffect(THREAD_STACK_PAGES, true, guards))
      ensures done <==> guards >= 2
    {
      ghost var first := before.pages;
      assert regions[..|regions| - 1] == before.regions;
      StackArithmetic(first);
      var stackTop: U32 := ToU32(memBase + GUARD_PAGES * PAGE + THREAD_STACK_PAGES * PAGE - 16);
      threadStacks := threadStacks + [stackTop];
      done := Protect(memBase, ToU32(stackTop + 16), guards, first, first + GUARD_PAGES + THREAD_STACK_PAGES);
      GuardedGoal(before, THREAD_STACK_PAGES, true, guards);
    }

    /** The memory has grown by one region of that many pages since `before`. */
    ghost predicate JustGrown(before: Memory, pages: nat)
      reads this
    {
      Mem() == Grow(before, pages, false) && before.pages + pages < PAGE
    }

    /** No recorded thread stack fails the alignment check. */
    method CreateThreadContext(stackTop: U32, firstGlobal: U32) returns (r: Outcome)
      requires Valid()
      ensures r.Returned? ==> r.value == stackTop
      ensures r == Threw(NotAligned) ==> stackTop !in threadStacks
      ensures r.Returned? <==> firstGlobal == 2 * THREAD_STACK_PAGES * PAGE && stackTop % 16 == 0
    {
      if firstGlobal != 2 * THREAD_STACK_PAGES * PAGE {
        return Threw(UnexpectedGlobal);
      }
      if stackTop % 16 != 0 {
        return Threw(NotAligned);
      }
      return Returned(stackTop);
    }

    /** Memory for a dynamic module between two guards; returns where the module's own part starts. */
    method ProvisionModule(guards: nat, runtimeOk: bool, unset: U64) returns (r: Outcome)
      requires Valid()
      modifies this
      ensures Mem() == Apply(old(Mem()), maxPages, Module(guards), runtimeOk)
      ensures Valid()
      ensures r.Returned? <==> Fits(old(numPages), maxPages, MODULE_PAGES + 2 * GUARD_PAGES) && runtimeOk && guards >= 2
      ensures r.Returned? ==> r.value == (old(numPages) + GUARD_PAGES) * PAGE
    {
      ApplySound(Mem(), maxPages, Module(guards), runtimeOk);
      ghost var before := Mem();
      var memSize: U32 := (MODULE_PAGES + 2 * GUARD_PAGES) * PAGE;
      r := GrowMemory(memSize, runtimeOk, unset);
      if r.Returned? {
        r := GuardModule(r.value, guards, before);
      }
    }

    /** Makes the guards of a module whose memory is there. */
    method GuardModule(memOffset: U32, guards: nat, ghost before: Memory) returns (r: Outcome)
      requires JustGrown(before, MODULE_PAGES + 2 * GUARD_PAGES) && memOffset == before.pages * PAGE
      modifies this`guardPages, this`regions
      ensures Mem() == Do(before, GuardedEffect(MODULE_PAGES, false, guards))
      ensures r == if guards >= 2 then Returned((before.pages + GUARD_PAGES) * PAGE) else Threw(GuardFailed)
    {
      ghost var first := before.pages;
      assert regions[..|regions| - 1] == before.regions;
      ModuleArithmetic(first);
      var memStart: U32 := ToU32(memOffset + GUARD_PAGES * PAGE);
      var done := Protect(memOffset, ToU32(memStart + MODULE_PAGES * PAGE), guards, first, first + GUARD_PAGES + MODULE_PAGES);
      GuardedGoal(before, MODULE_PAGES, false, guards);
      r := if done then Returned(memStart) else Threw(GuardFailed);
    }

    /** A dynamic module's layout inside the memory provisioned for it. */
    method LayOutModule(dataSize: U64, tableBottom: U32, tableTop: U32, guards: nat, runtimeOk: bool, unset: U64)
      returns (r: Outcome, layout: Layout)
      requires Valid()
      modifies this
      ensures Valid() && Mem() == Apply(old(Mem()), maxPages, Module(guards), runtimeOk)
      ensures r.Returned? <==> Fits(old(numPages), maxPages, MODULE_PAGES + 2 * GUARD_PAGES) && runtimeOk && guards >= 2
      ensures r.Returned? ==>
                && layout.memoryBottom == (old(numPages) + GUARD_PAGES) * PAGE
                && layout.memoryTop == (numPages - GUARD_PAGES) * PAGE
                && layout.tableBottom == tableBottom && layout.tableTop == tableTop
                && layout.stackSize == MODULE_STACK_PAGES * PAGE && layout.stackTop == layout.memoryBottom + layout.stackSize
                && layout.stackPointer == ToS32(layout.stackTop - 1)
                && (Partitioned(layout, dataSize) <==> dataSize <= (MODULE_PAGES - MODULE_STACK_PAGES) * PAGE)
                && (Partitioned(layout, dataSize) && tableBottom <= tableTop ==> Validate(layout, true))
    {
      layout := Layout(0, 0, 0, 0, 0, 0, 0, 0, 0, 0);
      r := ProvisionModule(guards, runtimeOk, unset);
      if r.Returned? {
        layout := LayoutAt(r.value, dataSize, tableBottom, tableTop);
        StackOfLayout(r.value, dataSize, tableBottom, tableTop);
        PartitionedIff(r.value, dataSize, tableBottom, tableTop);
        ValidateIff(r.value, dataSize, tableBottom, tableTop, true);
      }
    }
  }

  // ---------- Layout of a dynamic module ----------

  datatype Layout = Layout(
    memoryBottom: U32, memoryTop: U32, stackTop: U32, stackPointer: int, stackSize: U32,
    dataBottom: U32, dataTop: U32, heapBottom: U32, tableBottom: U32, tableTop: U32)

  function LayoutAt(memStart: U32, dataSize: U64, tableBottom: U32, tableTop: U32): Layout {
    var stackTop := ToU32(memStart + MODULE_STACK_PAGES * PAGE);
    var dataTop := ToU32(stackTop + dataSize);
    Layout(memStart, ToU32(memStart + MODULE_PAGES * PAGE), stackTop, ToS32(stackTop - 1), MODULE_STACK_PAGES * PAGE,
           stackTop, dataTop, dataTop, tableBottom, tableTop)
  }

  /** The source's self-check, with its signed and unsigned 32-bit conversions. */
  predicate Validate(l: Layout, instantiated: bool) {
    && l.memoryTop > l.memoryBottom
    && l.stackTop == ToU32(l.memoryBottom + l.stackSize)
    && l.dataTop == l.heapBottom
    && ToU32(l.stackTop + ToS32(l.dataTop - l.dataBottom)) == l.heapBottom
    && ToU32(l.stackPointer) == ToU32(l.stackTop - 1)
    && l.stackSize > 0
    && l.tableTop >= l.tableBottom
    && instantiated
    && ToS32(l.memoryTop - l.memoryBottom) > ToS32(l.memoryTop - l.heapBottom)
  }

  /** Stack, data and heap follow each other and fill the module's memory; the data is all there. */
  predicate Partitioned(l: Layout, dataSize: int) {
    l.memoryBottom < l.stackTop == l.dataBottom <= l.dataTop == l.heapBottom <= l.memoryTop
    && l.dataTop - l.dataBottom == dataSize
  }

  /** The stack comes first, with its pointer at its last byte. */
  lemma StackOfLayout(memStart: U32, dataSize: U64, tableBottom: U32, tableTop: U32)
    requires memStart + MODULE_PAGES * PAGE < TWO32
    ensures var l := LayoutAt(memStart, dataSize, tableBottom, tableTop);
            && l.memoryBottom == memStart && l.memoryTop == memStart + MODULE_PAGES * PAGE
            && l.stackSize == MODULE_STACK_PAGES * PAGE && l.stackTop == memStart + l.stackSize
            && l.stackPointer == ToS32(l.stackTop - 1) && l.tableBottom == tableBottom && l.tableTop == tableTop
  {
  }

  /** Data of up to 34 pages is what fits. */
  lemma PartitionedIff(memStart: U32, dataSize: U64, tableBottom: U32, tableTop: U32)
    requires memStart + MODULE_PAGES * PAGE < TWO32
    ensures Partitioned(LayoutAt(memStart, dataSize, tableBottom, tableTop), dataSize)
            <==> dataSize <= (MODULE_PAGES - MODULE_STACK_PAGES) * PAGE
  {
  }

  /** The data's top, written without a remainder. */
  lemma DataTop(stackTop: U32, dataSize: U64)
    ensures var d := ToU32(dataSize);
            ToU32(stackTop + dataSize) == if stackTop + d < TWO32 then stackTop + d else stackTop + d - TWO32
  {
    var d, q := dataSize % TWO32, dataSize / TWO32;
    assert stackTop + dataSize == stackTop + d + q * TWO32;
  }

  lemma SignedOf(x: int)
    requires -TWO32 <= x < TWO32
    ensures ToS32(x) == if x < -TWO32 / 2 then x + TWO32 else if x < TWO32 / 2 then x else x - TWO32
    ensures ToU32(x) == if x < 0 then (if x == -TWO32 then 0 else x + TWO32) else x
  {
  }

  lemma HeapSize(stackTop: U32, data: U32)
    requires stackTop + (MODULE_PAGES - MODULE_STACK_PAGES) * PAGE < TWO32
    ensures var top := stackTop + (MODULE_PAGES - MODULE_STACK_PAGES) * PAGE;
            var dataTop := if stackTop + data < TWO32 then stackTop + data else stackTop + data - TWO32;
            && ToU32(stackTop + ToS32(dataTop - stackTop)) == dataTop
            && (ToS32(top - dataTop) < MODULE_PAGES * PAGE <==>
                !(TWO32 / 2 + (MODULE_PAGES - MODULE_STACK_PAGES) * PAGE < data <= TWO32 - MODULE_STACK_PAGES * PAGE))
  {
    var top := stackTop + (MODULE_PAGES - MODULE_STACK_PAGES) * PAGE;
    var dataTop := if stackTop + data < TWO32 then stackTop + data else stackTop + data - TWO32;
    SignedOf(top - dataTop);
    SignedOf(dataTop - stackTop);
  }

  /** The self-check accepts every layout that fits, and most that do not: it compares sizes as signed numbers. */
  lemma ValidateIff(memStart: U32, dataSize: U64, tableBottom: U32, tableTop: U32, instantiated: bool)
    requires memStart + MODULE_PAGES * PAGE < TWO32
    ensures Validate(LayoutAt(memStart, dataSize, tableBottom, tableTop), instantiated)
            <==> instantiated && tableBottom <= tableTop
                 && !(TWO32 / 2 + (MODULE_PAGES - MODULE_STACK_PAGES) * PAGE < ToU32(dataSize)
                      <= TWO32 - MODULE_STACK_PAGES * PAGE)
  {
    var l := LayoutAt(memStart, dataSize, tableBottom, tableTop);
    assert l.stackTop == memStart + MODULE_STACK_PAGES * PAGE && l.memoryTop == memStart + MODULE_PAGES * PAGE;
    assert ToS32(l.memoryTop - l.memoryBottom) == MODULE_PAGES * PAGE;
    assert ToU32(l.stackPointer) == ToU32(l.stackTop - 1) by { SignedOf(l.stackTop - 1); }
    DataTop(l.stackTop, dataSize);
    HeapSize(l.stackTop, ToU32(dataSize));
  }
}
