/**
 * Nested OpenMP teams: a level knows its depth, how many multi-threaded levels
 * are above it and where its threads start in the global numbering; it is
 * shipped to the threads of the team as bytes.
 */
module OpenMpLevels {
  import opened Bytes
  import opened Options

  const HEADER_WORDS := 8
  const POINTER_BYTES := 8
  const LEVEL_BYTES := 40

  type Word = w: nat | w < 0x1_0000_0000

  datatype LevelState = LevelState(
    depth: int, activeLevels: int, maxActiveLevels: int, numThreads: int,
    wantedThreads: int, pushedThreads: int, globalTidOffset: int, sharedVarOffsets: seq<Word>)

  /** The level as a team of its parent. */
  function Derived(level: LevelState, parent: LevelState): LevelState {
    level.(depth := parent.depth + 1,
           activeLevels := if level.numThreads > 1 then parent.activeLevels + 1 else parent.activeLevels,
           maxActiveLevels := parent.maxActiveLevels,
           globalTidOffset := if parent.depth == 0 then 0 else parent.globalTidOffset + parent.numThreads)
  }

  function MaxThreadsAtNextLevel(level: LevelState, usableCores: int): int {
    if level.activeLevels >= level.maxActiveLevels then 1
    else if level.pushedThreads > 0 then level.pushedThreads
    else if level.wantedThreads > 0 then level.wantedThreads
    else usableCores - 1
  }

  function LocalThreadNum(level: LevelState, appIdx: int): Option<int> {
    if level.depth == 0 then Some(appIdx)
    else if appIdx - level.globalTidOffset < 0 then None
    else Some(appIdx - level.globalTidOffset)
  }

  function GlobalThreadNum(level: LevelState, local: int): int {
    if level.depth == 0 then local else local + level.globalTidOffset
  }

  // ---------- Chains of nested levels ----------

  /** Each level is a team of the one before; setters may have changed limits and wishes since. */
  ghost predicate Chain(levels: seq<LevelState>) {
    && levels != []
    && levels[0].depth == 0 && levels[0].activeLevels == 0
    && (forall k :: 0 <= k < |levels| ==> levels[k].numThreads >= 0)
    && (forall k :: 0 < k < |levels| ==> Nested(levels[k - 1], levels[k]))
  }

  ghost predicate Nested(parent: LevelState, level: LevelState) {
    var d := Derived(level, parent);
    level.depth == d.depth && level.activeLevels == d.activeLevels && level.globalTidOffset == d.globalTidOffset
  }

  /** Threads of the levels from `i` up to but not including `j`. */
  function ThreadsBetween(levels: seq<LevelState>, i: nat, j: nat): int
    requires i <= j <= |levels|
    decreases j - i
  {
    if i == j then 0 else ThreadsBetween(levels, i, j - 1) + levels[j - 1].numThreads
  }

  /** Levels from 1 up to `j` that have more than one thread. */
  function MultiThreaded(levels: seq<LevelState>, j: nat): nat
    requires j < |levels|
  {
    if j == 0 then 0 else MultiThreaded(levels, j - 1) + if levels[j].numThreads > 1 then 1 else 0
  }

  /** Depth, active levels and global offset of a level, in terms of all its ancestors. */
  lemma {:induction false} ChainCounts(levels: seq<LevelState>, k: nat)
    requires Chain(levels) && k < |levels|
    ensures levels[k].depth == k
    ensures levels[k].activeLevels == MultiThreaded(levels, k)
    ensures k >= 1 ==> levels[k].globalTidOffset == ThreadsBetween(levels, 1, k)
  {
    if k > 0 {
      ChainCounts(levels, k - 1);
      assert Nested(levels[k - 1], levels[k]);
    }
  }

  lemma {:induction false} LaterStartsHigher(levels: seq<LevelState>, i: nat, j: nat)
    requires Chain(levels) && 1 <= i < j < |levels|
    ensures ThreadsBetween(levels, 1, i) + levels[i].numThreads <= ThreadsBetween(levels, 1, j)
  {
    if i + 1 < j {
      LaterStartsHigher(levels, i, j - 1);
    }
  }

  /** From depth 1 down, a global number belongs to one thread of one level. */
  lemma GlobalNumbersUnique(levels: seq<LevelState>, i: nat, a: nat, j: nat, b: nat)
    requires Chain(levels) && 1 <= i < |levels| && 1 <= j < |levels|
    requires a < levels[i].numThreads && b < levels[j].numThreads
    ensures GlobalThreadNum(levels[i], a) == GlobalThreadNum(levels[j], b) <==> i == j && a == b
  {
    ChainCounts(levels, i);
    ChainCounts(levels, j);
    if i < j {
      LaterStartsHigher(levels, i, j);
    } else if j < i {
      LaterStartsHigher(levels, j, i);
    }
  }

  /** Two teams of the same parent share their global numbers. */
  lemma SiblingsShareNumbers(parent: LevelState, left: LevelState, right: LevelState, local: int)
    ensures GlobalThreadNum(Derived(left, parent), local) == GlobalThreadNum(Derived(right, parent), local)
  {
  }

  /** The global numbers of a team, from its first to its last thread, in terms of its ancestors. */
  predicate Numbered(levels: seq<LevelState>, i: nat, number: int)
    requires 1 <= i < |levels|
  {
    ThreadsBetween(levels, 1, i) <= number < ThreadsBetween(levels, 1, i + 1)
  }

  lemma NumbersOf(levels: seq<LevelState>, i: nat, number: int)
    requires Chain(levels) && 1 <= i < |levels|
    ensures Numbered(levels, i, number)
            <==> exists a | 0 <= a < levels[i].numThreads :: GlobalThreadNum(levels[i], a) == number
    ensures forall a :: GlobalThreadNum(levels[i], a) == ThreadsBetween(levels, 1, i) + a
  {
    ChainCounts(levels, i);
    if Numbered(levels, i, number) {
      assert GlobalThreadNum(levels[i], number - levels[i].globalTidOffset) == number;
    }
  }

  /**
   Two teams of any two chains, siblings and unrelated ones included, have no global number
   in common exactly when one of them ends before the other starts: the threads of the one
   and all its ancestors from depth 1 are no more than those of the other's ancestors.
   */
  lemma TeamsApartIff(xs: seq<LevelState>, i: nat, ys: seq<LevelState>, j: nat)
    requires Chain(xs) && Chain(ys) && 1 <= i < |xs| && 1 <= j < |ys|
    requires xs[i].numThreads > 0 && ys[j].numThreads > 0
    ensures (forall a, b :: 0 <= a < xs[i].numThreads && 0 <= b < ys[j].numThreads ==>
               GlobalThreadNum(xs[i], a) != GlobalThreadNum(ys[j], b))
            <==> ThreadsBetween(xs, 1, i + 1) <= ThreadsBetween(ys, 1, j)
                 || ThreadsBetween(ys, 1, j + 1) <= ThreadsBetween(xs, 1, i)
  {
    ChainCounts(xs, i);
    ChainCounts(ys, j);
    var x, y := ThreadsBetween(xs, 1, i), ThreadsBetween(ys, 1, j);
    if x < y + ys[j].numThreads && y < x + xs[i].numThreads {
      var shared := if x < y then y else x;
      assert GlobalThreadNum(xs[i], shared - x) == GlobalThreadNum(ys[j], shared - y);
    }
  }

  /** Local and global numbers are inverse; below depth 0 a number before the level's own is an error. */
  lemma LocalInvertsGlobal(level: LevelState, global: int, local: int)
    ensures LocalThreadNum(level, global) == Some(local) <==> GlobalThreadNum(level, local) == global && (level.depth == 0 || local >= 0)
    ensures LocalThreadNum(level, global) == None <==> level.depth != 0 && global < level.globalTidOffset
    ensures level.depth == 0 ==> GlobalThreadNum(level, local) == local
  {
  }

  /** A team no larger than allowed stays within the limit on active levels exactly when its parent did. */
  lemma ActiveWithinMaxIff(parent: LevelState, level: LevelState, usableCores: int)
    requires level.numThreads <= MaxThreadsAtNextLevel(parent, usableCores)
    ensures var child := Derived(level, parent);
            child.activeLevels <= child.maxActiveLevels <==> parent.activeLevels <= parent.maxActiveLevels
  {
  }

  /** The fork's own teams, all the way down from a fresh level, never exceed the limit. */
  ghost predicate Forked(levels: seq<LevelState>, usableCores: seq<int>) {
    && |usableCores| == |levels| > 0
    && levels[0].depth == 0 && levels[0].activeLevels == 0 && levels[0].maxActiveLevels >= 0
    && forall k :: 0 < k < |levels| ==>
         Derived(levels[k], levels[k - 1]) == levels[k]
         && levels[k].numThreads <= MaxThreadsAtNextLevel(levels[k - 1], usableCores[k])
  }

  lemma {:induction false} ForksWithinMax(levels: seq<LevelState>, usableCores: seq<int>, k: nat)
    requires Forked(levels, usableCores) && k < |levels|
    ensures levels[k].activeLevels <= levels[k].maxActiveLevels == levels[0].maxActiveLevels
  {
    if k > 0 {
      ForksWithinMax(levels, usableCores, k - 1);
      ActiveWithinMaxIff(levels[k - 1], levels[k], usableCores[k]);
      assert Derived(levels[k], levels[k - 1]) == levels[k];
    }
  }

  // ---------- How large the next team is ----------

  /** What a guest does on a level; a fork is done, or throws before it resets the pushed number. */
  datatype Call =
    | SetMaxActiveLevels(levels: int)
    | PushNumThreads(threads: int)
    | SetNumThreads(threads: int)
    | ForkDone
    | ForkThrew

  /** Numbers that make no sense are ignored. */
  function AfterCall(l: LevelState, c: Call): LevelState {
    match c
    case SetMaxActiveLevels(n) => if n < 0 then l else l.(maxActiveLevels := n)
    case PushNumThreads(n) => if n > 0 then l.(pushedThreads := n) else l
    case SetNumThreads(n) => if n > 0 then l.(wantedThreads := n) else l
    case ForkDone => l.(pushedThreads := -1)
    case ForkThrew => l
  }

  function AfterCalls(l: LevelState, calls: seq<Call>): LevelState {
    if calls == [] then l else AfterCall(AfterCalls(l, calls[..|calls| - 1]), calls[|calls| - 1])
  }

  predicate Pushes(c: Call) { c.PushNumThreads? && c.threads > 0 }

  predicate Sets(c: Call) { c.SetNumThreads? && c.threads > 0 }

  /** Call i pushed a number that no later push replaced and no fork has used up. */
  ghost predicate PushStands(calls: seq<Call>, i: nat) {
    i < |calls| && Pushes(calls[i]) && forall j | i < j < |calls| :: !Pushes(calls[j]) && !calls[j].ForkDone?
  }

  /** Call i set a number that no later call replaced. */
  ghost predicate SetStands(calls: seq<Call>, i: nat) {
    i < |calls| && Sets(calls[i]) && forall j | i < j < |calls| :: !Sets(calls[j])
  }

  /** Call i set a limit that no later call replaced. */
  ghost predicate LimitStands(calls: seq<Call>, i: nat) {
    i < |calls| && Limits(calls[i]) && forall j | i < j < |calls| :: !Limits(calls[j])
  }

  predicate Limits(c: Call) { c.SetMaxActiveLevels? && c.levels >= 0 }

  lemma {:induction false} LimitIs(l: LevelState, calls: seq<Call>)
    ensures forall i: nat | LimitStands(calls, i) :: AfterCalls(l, calls).maxActiveLevels == calls[i].levels
    ensures (forall i: nat :: !LimitStands(calls, i)) ==> AfterCalls(l, calls).maxActiveLevels == l.maxActiveLevels
    ensures AfterCalls(l, calls).activeLevels == l.activeLevels
  {
    if calls != [] {
      var n := |calls| - 1;
      LimitIs(l, calls[..n]);
      if Limits(calls[n]) {
        assert LimitStands(calls, n);
      } else {
        forall i: nat ensures LimitStands(calls[..n], i) <==> LimitStands(calls, i) {
          assert forall j | 0 <= j < n :: calls[..n][j] == calls[j];
        }
      }
    }
  }

  lemma {:induction false} PushedIs(l: LevelState, calls: seq<Call>, i: nat)
    requires PushStands(calls, i)
    ensures AfterCalls(l, calls).pushedThreads == calls[i].threads
  {
    var n := |calls| - 1;
    if i < n {
      assert calls[..n][i] == calls[i];
      PushedIs(l, calls[..n], i);
    }
  }

  lemma {:induction false} NothingPushed(l: LevelState, calls: seq<Call>)
    requires l.pushedThreads <= 0 && forall i: nat :: !PushStands(calls, i)
    ensures AfterCalls(l, calls).pushedThreads <= 0
  {
    var n := |calls| - 1;
    if calls != [] && !calls[n].ForkDone? {
      assert !PushStands(calls, n);
      forall i: nat ensures !PushStands(calls[..n], i) {
        assert !PushStands(calls, i);
      }
      NothingPushed(l, calls[..n]);
    }
  }

  lemma {:induction false} WantedIs(l: LevelState, calls: seq<Call>, i: nat)
    requires SetStands(calls, i)
    ensures AfterCalls(l, calls).wantedThreads == calls[i].threads
  {
    var n := |calls| - 1;
    if i < n {
      assert calls[..n][i] == calls[i];
      WantedIs(l, calls[..n], i);
    }
  }

  lemma {:induction false} NothingWanted(l: LevelState, calls: seq<Call>)
    requires l.wantedThreads <= 0 && forall i: nat :: !SetStands(calls, i)
    ensures AfterCalls(l, calls).wantedThreads <= 0
  {
    var n := |calls| - 1;
    if calls != [] {
      assert !SetStands(calls, n);
      forall i: nat ensures !SetStands(calls[..n], i) {
        assert !SetStands(calls, i);
      }
      NothingWanted(l, calls[..n]);
    }
  }

  /**
   The size of the next team, from what the guest has done on the level: one thread at the
   limit on active levels; below it a pushed number that no fork has used up yet, else the
   number set last, else one less than the cores.
   */
  lemma TeamSizeIs(l: LevelState, calls: seq<Call>, usableCores: int)
    requires l.pushedThreads <= 0 && l.wantedThreads <= 0
    ensures var end := AfterCalls(l, calls);
            var size := MaxThreadsAtNextLevel(end, usableCores);
            && (end.activeLevels >= end.maxActiveLevels ==> size == 1)
            && (end.activeLevels < end.maxActiveLevels ==>
                  && (forall i: nat | PushStands(calls, i) :: size == calls[i].threads)
                  && ((forall i: nat :: !PushStands(calls, i)) ==>
                        && (forall i: nat | SetStands(calls, i) :: size == calls[i].threads)
                        && ((forall i: nat :: !SetStands(calls, i)) ==> size == usableCores - 1)))
  {
    forall i: nat | PushStands(calls, i) ensures AfterCalls(l, calls).pushedThreads == calls[i].threads {
      PushedIs(l, calls, i);
    }
    forall i: nat | SetStands(calls, i) ensures AfterCalls(l, calls).wantedThreads == calls[i].threads {
      WantedIs(l, calls, i);
    }
    if forall i: nat :: !PushStands(calls, i) {
      NothingPushed(l, calls);
    }
    if forall i: nat :: !SetStands(calls, i) {
      NothingWanted(l, calls);
    }
  }

  // ---------- Serialisation ----------

  function ToWord(x: int): Word { x % TWO32 }

  function FromWord(w: Word): int { if w < TWO32 / 2 then w else w - TWO32 }

  predicate Fits32(x: int) { -TWO32 / 2 <= x < TWO32 / 2 }

  predicate Storable(l: LevelState) {
    && Fits32(l.depth) && Fits32(l.activeLevels) && Fits32(l.maxActiveLevels) && Fits32(l.numThreads)
    && Fits32(l.wantedThreads) && Fits32(l.pushedThreads) && Fits32(l.globalTidOffset) && |l.sharedVarOffsets| < TWO32
  }

  function EncodeWords(words: seq<Word>): (b: bytes)
    ensures |b| == 4 * |words|
  {
    if words == [] then [] else Le(words[0], 4) + EncodeWords(words[1..])
  }

  function WordAt(b: bytes, i: nat): Word
    requires 4 * i + 4 <= |b|
  {
    ToWord(FromLe(b[4 * i..4 * i + 4]))
  }

  function DecodeWords(b: bytes, n: nat): seq<Word>
    requires 4 * n <= |b|
  {
    seq(n, i requires 0 <= i < n => WordAt(b, i))
  }

  lemma {:induction false} EncodedWordAt(words: seq<Word>, rest: bytes, i: nat)
    requires i < |words|
    ensures WordAt(EncodeWords(words) + rest, i) == words[i]
  {
    var b := EncodeWords(words) + rest;
    var tail := EncodeWords(words[1..]) + rest;
    assert b == Le(words[0], 4) + tail;
    if i == 0 {
      PowersUsed();
      LeRoundTrip(words[0], 4);
      assert b[0..4] == Le(words[0], 4);
    } else {
      EncodedWordAt(words[1..], rest, i - 1);
      assert b[4 * i..4 * i + 4] == tail[4 * (i - 1)..4 * (i - 1) + 4];
    }
  }

  lemma DecodeInvertsEncode(words: seq<Word>, rest: bytes)
    ensures DecodeWords(EncodeWords(words) + rest, |words|) == words
  {
    forall i | 0 <= i < |words| ensures WordAt(EncodeWords(words) + rest, i) == words[i] {
      EncodedWordAt(words, rest, i);
    }
  }

  function Header(l: LevelState): (w: seq<Word>)
    ensures |w| == HEADER_WORDS
  {
    [ToWord(l.depth), ToWord(l.activeLevels), ToWord(l.maxActiveLevels), ToWord(l.numThreads), ToWord(l.wantedThreads),
     ToWord(l.pushedThreads), ToWord(l.globalTidOffset), ToWord(|l.sharedVarOffsets|)]
  }

  /** The object's own bytes, the stale pointer among them, then the shared offsets. */
  function Serialised(l: LevelState, pointer: bytes): (b: bytes)
    requires |pointer| == POINTER_BYTES
    ensures |b| == LEVEL_BYTES + 4 * |l.sharedVarOffsets|
  {
    EncodeWords(Header(l)) + pointer + EncodeWords(l.sharedVarOffsets)
  }

  predicate Complete(b: bytes) { |b| >= LEVEL_BYTES && |b| >= LEVEL_BYTES + 4 * WordAt(b, 7) }

  function Deserialised(b: bytes): LevelState
    requires Complete(b)
  {
    LevelState(FromWord(WordAt(b, 0)), FromWord(WordAt(b, 1)), FromWord(WordAt(b, 2)), FromWord(WordAt(b, 3)),
               FromWord(WordAt(b, 4)), FromWord(WordAt(b, 5)), FromWord(WordAt(b, 6)),
               DecodeWords(b[LEVEL_BYTES..], WordAt(b, 7)))
  }

  lemma HeaderAt(l: LevelState, pointer: bytes)
    requires |pointer| == POINTER_BYTES
    ensures forall i :: 0 <= i < HEADER_WORDS ==> WordAt(Serialised(l, pointer), i) == Header(l)[i]
  {
    var rest := pointer + EncodeWords(l.sharedVarOffsets);
    assert Serialised(l, pointer) == EncodeWords(Header(l)) + rest;
    forall i | 0 <= i < HEADER_WORDS ensures WordAt(Serialised(l, pointer), i) == Header(l)[i] {
      EncodedWordAt(Header(l), rest, i);
    }
  }

  lemma WordRoundTrip(x: int)
    requires Fits32(x)
    ensures FromWord(ToWord(x)) == x
  {
  }

  lemma FieldsSurvive(l: LevelState, pointer: bytes)
    requires Storable(l) && |pointer| == POINTER_BYTES
    ensures Complete(Serialised(l, pointer))
    ensures Deserialised(Serialised(l, pointer)).(sharedVarOffsets := l.sharedVarOffsets) == l
    ensures WordAt(Serialised(l, pointer), 7) == |l.sharedVarOffsets|
  {
    HeaderAt(l, pointer);
    WordRoundTrip(l.depth);
    WordRoundTrip(l.activeLevels);
    WordRoundTrip(l.maxActiveLevels);
    WordRoundTrip(l.numThreads);
    WordRoundTrip(l.wantedThreads);
    WordRoundTrip(l.pushedThreads);
    WordRoundTrip(l.globalTidOffset);
  }

  lemma OffsetsSurvive(l: LevelState, pointer: bytes)
    requires Storable(l) && |pointer| == POINTER_BYTES
    ensures DecodeWords(Serialised(l, pointer)[LEVEL_BYTES..], |l.sharedVarOffsets|) == l.sharedVarOffsets
  {
    assert Serialised(l, pointer)[LEVEL_BYTES..] == EncodeWords(l.sharedVarOffsets) + [];
    DecodeInvertsEncode(l.sharedVarOffsets, []);
  }

  /** Reading back what was written gives the same level, whatever the pointer's bytes were. */
  lemma DeserialiseInvertsSerialise(l: LevelState, pointer: bytes)
    requires Storable(l) && |pointer| == POINTER_BYTES
    ensures Complete(Serialised(l, pointer)) && Deserialised(Serialised(l, pointer)) == l
  {
    FieldsSurvive(l, pointer);
    OffsetsSurvive(l, pointer);
  }

  // ---------- The class ----------

  class Level {
    var depth: int
    var activeLevels: int
    var maxActiveLevels: int
    var numThreads: int
    var wantedThreads: int
    var pushedThreads: int
    var globalTidOffset: int
    var sharedVarOffsets: seq<Word>

    function State(): LevelState
      reads this
    {
      LevelState(depth, activeLevels, maxActiveLevels, numThreads, wantedThreads, pushedThreads, globalTidOffset, sharedVarOffsets)
    }

    constructor (numThreadsIn: int)
      ensures State() == LevelState(0, 0, 1, numThreadsIn, -1, -1, 0, [])
    {
      depth, activeLevels, maxActiveLevels, numThreads := 0, 0, 1, numThreadsIn;
      wantedThreads, pushedThreads, globalTidOffset, sharedVarOffsets := -1, -1, 0, [];
    }

    method FromParentLevel(parent: Level)
      requires parent != this
      modifies this
      ensures State() == Derived(old(State()), parent.State()) && Nested(parent.State(), State())
    {
      depth := parent.depth + 1;
      if numThreads > 1 {
        activeLevels := parent.activeLevels + 1;
      } else {
        activeLevels := parent.activeLevels;
      }
      maxActiveLevels := parent.maxActiveLevels;
      if parent.depth == 0 {
        globalTidOffset := 0;
      } else {
        globalTidOffset := parent.globalTidOffset + parent.numThreads;
      }
    }

    method SetMaxActive(levels: int)
      modifies this`maxActiveLevels
      ensures State() == AfterCall(old(State()), SetMaxActiveLevels(levels))
    {
      if levels >= 0 {
        maxActiveLevels := levels;
      }
    }

    method Push(threads: int)
      modifies this`pushedThreads
      ensures State() == AfterCall(old(State()), PushNumThreads(threads))
    {
      if threads > 0 {
        pushedThreads := threads;
      }
    }

    method SetThreads(threads: int)
      modifies this`wantedThreads
      ensures State() == AfterCall(old(State()), SetNumThreads(threads))
    {
      if threads > 0 {
        wantedThreads := threads;
      }
    }

    method GetMaxThreadsAtNextLevel(usableCores: int) returns (n: int)
      ensures n == MaxThreadsAtNextLevel(State(), usableCores)
    {
      if activeLevels >= maxActiveLevels {
        return 1;
      }
      if pushedThreads > 0 {
        return pushedThreads;
      }
      if wantedThreads > 0 {
        return wantedThreads;
      }
      return usableCores - 1;
    }

    /**
     A fork: `team` lists the number and the group index of each thread started. It throws
     below depth 0, before any thread starts, and when a thread fails.
     */
    method ForkCall(usableCores: int, offsets: seq<Word>, threadsOk: bool)
      returns (threw: bool, next: Level, team: seq<(int, int)>)
      modifies this`pushedThreads
      ensures fresh(next) && next.numThreads == MaxThreadsAtNextLevel(old(State()), usableCores)
      ensures Nested(old(State()), next.State()) && next.maxActiveLevels == maxActiveLevels && next.sharedVarOffsets == offsets
      ensures threw <==> depth > 0 || !threadsOk
      ensures State() == AfterCall(old(State()), if threw then ForkThrew else ForkDone)
      ensures depth > 0 ==> team == []
      ensures depth == 0 ==> |team| == if next.numThreads < 0 then 0 else next.numThreads
      ensures depth == 0 ==> forall i | 0 <= i < |team| :: team[i] == (i, i) && LocalThreadNum(next.State(), team[i].0) == Some(i)
    {
      var n := GetMaxThreadsAtNextLevel(usableCores);
      next := new Level(n);
      next.FromParentLevel(this);
      if |offsets| > 0 {
        next.sharedVarOffsets := offsets;
      }
      team := [];
      if next.depth > 1 {
        return true, next, team;
      }
      for i := 0 to if n < 0 then 0 else n
        invariant |team| == i
        invariant depth == 0 ==> forall k | 0 <= k < i :: team[k] == (k, k)
      {
        team := team + [(GlobalThreadNum(next.State(), i), i)];
      }
      if !threadsOk {
        return true, next, team;
      }
      pushedThreads := -1;
      threw := false;
    }

    /** Every stored level can be sent as bytes that give it back. */
    method Serialise(pointer: bytes) returns (b: bytes)
      requires |pointer| == POINTER_BYTES && Storable(State())
      ensures Complete(b) && Deserialised(b) == State()
      ensures FromWord(WordAt(b, 0)) == depth && FromWord(WordAt(b, 1)) == activeLevels && FromWord(WordAt(b, 2)) == maxActiveLevels
      ensures FromWord(WordAt(b, 3)) == numThreads && FromWord(WordAt(b, 4)) == wantedThreads && FromWord(WordAt(b, 5)) == pushedThreads
      ensures FromWord(WordAt(b, 6)) == globalTidOffset && WordAt(b, 7) == |sharedVarOffsets|
      ensures |b| == LEVEL_BYTES + 4 * |sharedVarOffsets|
    {
      var fields := [depth, activeLevels, maxActiveLevels, numThreads, wantedThreads, pushedThreads, globalTidOffset];
      b := EncodeWords(seq(7, i requires 0 <= i < 7 => ToWord(fields[i])) + [ToWord(|sharedVarOffsets|)]) + pointer;
      if |sharedVarOffsets| > 0 {
        b := b + EncodeWords(sharedVarOffsets);
      }
      ghost var l := State();
      assert seq(7, i requires 0 <= i < 7 => ToWord(fields[i])) + [ToWord(|sharedVarOffsets|)] == Header(l);
      assert b == Serialised(l, pointer);
      DeserialiseInvertsSerialise(l, pointer);
    }

    /** The level in the bytes; null stands for a read past their end, which happens exactly when they are not complete. */
    static method Deserialise(b: bytes) returns (result: Level?)
      ensures result != null <==> Complete(b)
      ensures result != null ==> fresh(result) && result.State() == Deserialised(b)
    {
      if |b| < LEVEL_BYTES {
        return null;
      }
      var level := new Level(0);
      level.depth, level.activeLevels, level.maxActiveLevels, level.numThreads :=
        FromWord(WordAt(b, 0)), FromWord(WordAt(b, 1)), FromWord(WordAt(b, 2)), FromWord(WordAt(b, 3));
      level.wantedThreads, level.pushedThreads, level.globalTidOffset :=
        FromWord(WordAt(b, 4)), FromWord(WordAt(b, 5)), FromWord(WordAt(b, 6));
      var n: nat := WordAt(b, 7);
      if n > 0 {
        if |b| < LEVEL_BYTES + 4 * n {
          return null;
        }
        level.sharedVarOffsets := DecodeWords(b[LEVEL_BYTES..], n);
      }
      assert n == 0 ==> DecodeWords(b[LEVEL_BYTES..], n) == [];
      result := level;
    }
  }
}
