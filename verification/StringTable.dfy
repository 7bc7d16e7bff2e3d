/**
 * Arguments and environment as the guest receives them: the guest asks how
 * many strings there are and how many bytes they take, allocates a pointer
 * table and a buffer, and has the strings written into them.
 */
module StringTable {
  import opened Bytes

  /** Bytes for all the strings and one terminator each. */
  function Size(strings: seq<bytes>): (n: nat)
    ensures n >= |strings|
  {
    if strings == [] then 0 else Size(strings[..|strings| - 1]) + |strings[|strings| - 1]| + 1
  }

  function TotalLength(strings: seq<bytes>): nat {
    if strings == [] then 0 else |strings[0]| + TotalLength(strings[1..])
  }

  lemma {:induction false} TotalSnoc(strings: seq<bytes>, s: bytes)
    ensures TotalLength(strings + [s]) == TotalLength(strings) + |s|
  {
    if strings == [] {
      assert [s][1..] == [];
    } else {
      TotalSnoc(strings[1..], s);
      assert (strings + [s])[1..] == strings[1..] + [s];
    }
  }

  /** All the bytes of the strings, and one more for each. */
  lemma {:induction false} SizeIs(strings: seq<bytes>)
    ensures Size(strings) == TotalLength(strings) + |strings|
  {
    if strings != [] {
      var n := |strings| - 1;
      SizeIs(strings[..n]);
      TotalSnoc(strings[..n], strings[n]);
      assert strings == strings[..n] + [strings[n]];
    }
  }

  /** Where string i starts in the buffer. */
  function Offset(strings: seq<bytes>, i: nat): nat
    requires i <= |strings|
  {
    Size(strings[..i])
  }

  lemma {:induction false} OffsetsIncrease(strings: seq<bytes>, i: nat, j: nat)
    requires i < j <= |strings|
    ensures Offset(strings, i) + |strings[i]| + 1 <= Offset(strings, j)
    ensures Offset(strings, 0) == 0 && (j == i + 1 ==> Offset(strings, i) + |strings[i]| + 1 == Offset(strings, j))
  {
    assert strings[..j][..j - 1] == strings[..j - 1];
    if i < j - 1 {
      OffsetsIncrease(strings, i, j - 1);
    }
  }

  /** Table and buffer lie in the memory, apart from each other. */
  ghost predicate Room(memory: nat, strings: seq<bytes>, table: nat, buffer: nat) {
    && memory <= TWO32 && table < TWO32 && buffer < TWO32 && table + 4 * |strings| <= memory && buffer + Size(strings) <= memory
    && (table + 4 * |strings| <= buffer || buffer + Size(strings) <= table)
  }

  /** The first `n` strings are in the buffer and in the table; no other byte of `before` has changed. */
  ghost predicate Holds(before: bytes, after: bytes, strings: seq<bytes>, table: nat, buffer: nat, n: nat)
    requires n <= |strings| && Room(|before|, strings, table, buffer)
  {
    && |after| == |before|
    && (forall i, k :: 0 <= i < n && 0 <= k < |strings[i]| ==> ByteOf(after, strings, buffer, i, k) == strings[i][k])
    && (forall i :: 0 <= i < n ==> PointerAt(after, table, i) == Le(buffer + Offset(strings, i), 4))
    && (forall x :: !InTable(table, n, x) && !InString(strings, buffer, n, x) ==> Kept(before, after, x))
  }

  predicate Kept(before: bytes, after: bytes, x: int)
    requires |before| == |after|
  {
    0 <= x < |before| ==> before[x] == after[x]
  }

  function ByteOf(memory: bytes, strings: seq<bytes>, buffer: nat, i: nat, k: nat): int
    requires i < |strings| && k < |strings[i]|
  {
    var at := buffer + Offset(strings, i) + k;
    if at < |memory| then memory[at] else -1
  }

  function PointerAt(memory: bytes, table: nat, i: nat): bytes {
    if table + 4 * i + 4 <= |memory| then memory[table + 4 * i..table + 4 * i + 4] else []
  }

  predicate InTable(table: nat, n: nat, x: int) { table <= x < table + 4 * n }

  ghost predicate InString(strings: seq<bytes>, buffer: nat, n: nat, x: int)
    requires n <= |strings|
  {
    exists i :: 0 <= i < n && Within(strings, buffer, i, x)
  }

  predicate Within(strings: seq<bytes>, buffer: nat, i: nat, x: int)
    requires i < |strings|
  {
    buffer + Offset(strings, i) <= x < buffer + Offset(strings, i) + |strings[i]|
  }

  function Put(memory: bytes, at: nat, data: bytes): bytes
    requires at + |data| <= |memory|
  {
    memory[..at] + data + memory[at + |data|..]
  }

  lemma Bounds(memory: nat, strings: seq<bytes>, table: nat, buffer: nat, i: nat)
    requires Room(memory, strings, table, buffer) && i < |strings|
    ensures buffer + Offset(strings, i) + |strings[i]| + 1 <= buffer + Size(strings) <= memory
    ensures table + 4 * i + 4 <= memory
  {
    OffsetsIncrease(strings, i, |strings|);
    assert strings[..|strings|] == strings;
  }

  /** `next` is `mid` with `data` at `at`, the four bytes `pointer` at `slot`, and nothing else changed. */
  ghost predicate Stored(mid: bytes, next: bytes, at: nat, data: bytes, slot: nat, pointer: bytes) {
    && |next| == |mid| && at + |data| <= |mid| && slot + 4 <= |mid|
    && next[at..at + |data|] == data
    && next[slot..slot + 4] == pointer
    && (forall x :: 0 <= x < |mid| && !(at <= x < at + |data|) && !(slot <= x < slot + 4) ==> next[x] == mid[x])
  }

  lemma PutStores(mid: bytes, at: nat, data: bytes, slot: nat, pointer: bytes)
    requires at + |data| <= |mid| && slot + 4 <= |mid| && |pointer| == 4
    requires at + |data| <= slot || slot + 4 <= at
    ensures Stored(mid, Put(Put(mid, at, data), slot, pointer), at, data, slot, pointer)
  {
    var once := Put(mid, at, data);
    var next := Put(once, slot, pointer);
    assert once[at..at + |data|] == data;
    assert forall x :: at <= x < at + |data| ==> next[x] == once[x];
    assert next[at..at + |data|] == once[at..at + |data|];
    assert next[slot..slot + 4] == pointer;
  }

  lemma BytesStep(before: bytes, mid: bytes, next: bytes, strings: seq<bytes>, table: nat, buffer: nat, n: nat, i: nat, k: nat)
    requires Room(|before|, strings, table, buffer) && i <= n < |strings| && Holds(before, mid, strings, table, buffer, n)
    requires Stored(mid, next, buffer + Offset(strings, n), strings[n], table + 4 * n, Le(buffer + Offset(strings, n), 4))
    requires k < |strings[i]|
    ensures ByteOf(next, strings, buffer, i, k) == strings[i][k]
  {
    Bounds(|before|, strings, table, buffer, i);
    var at := buffer + Offset(strings, n);
    if i == n {
      assert next[at + k] == next[at..at + |strings[n]|][k];
    } else {
      OffsetsIncrease(strings, i, n);
      assert ByteOf(mid, strings, buffer, i, k) == strings[i][k];
    }
  }

  lemma SlotKept(mid: bytes, next: bytes, at: nat, data: bytes, slot: nat, pointer: bytes, other: nat)
    requires Stored(mid, next, at, data, slot, pointer)
    requires other + 4 <= slot && (other + 4 <= at || at + |data| <= other)
    ensures next[other..other + 4] == mid[other..other + 4]
  {
  }

  lemma SlotsStep(mid: bytes, next: bytes, at: nat, data: bytes, table: nat, n: nat, pointer: bytes, i: nat, want: bytes)
    requires Stored(mid, next, at, data, table + 4 * n, pointer) && i <= n
    requires table + 4 * n + 4 <= at || at + |data| <= table
    requires want == if i < n then PointerAt(mid, table, i) else pointer
    ensures PointerAt(next, table, i) == want
  {
    if i < n {
      SlotKept(mid, next, at, data, table + 4 * n, pointer, table + 4 * i);
    }
  }

  lemma PointersStep(before: bytes, mid: bytes, next: bytes, strings: seq<bytes>, table: nat, buffer: nat, n: nat, i: nat)
    requires Room(|before|, strings, table, buffer) && i <= n < |strings| && Holds(before, mid, strings, table, buffer, n)
    requires Stored(mid, next, buffer + Offset(strings, n), strings[n], table + 4 * n, Le(buffer + Offset(strings, n), 4))
    ensures PointerAt(next, table, i) == Le(buffer + Offset(strings, i), 4)
  {
    Bounds(|before|, strings, table, buffer, n);
    var at := buffer + Offset(strings, n);
    SlotsStep(mid, next, at, strings[n], table, n, Le(at, 4), i, Le(buffer + Offset(strings, i), 4));
  }

  lemma RestStep(before: bytes, mid: bytes, next: bytes, strings: seq<bytes>, table: nat, buffer: nat, n: nat, x: int)
    requires Room(|before|, strings, table, buffer) && n < |strings| && Holds(before, mid, strings, table, buffer, n)
    requires Stored(mid, next, buffer + Offset(strings, n), strings[n], table + 4 * n, Le(buffer + Offset(strings, n), 4))
    requires !InTable(table, n + 1, x) && !InString(strings, buffer, n + 1, x)
    ensures |next| == |before| && Kept(before, next, x)
  {
    assert !Within(strings, buffer, n, x);
    assert !InString(strings, buffer, n, x);
    assert Kept(before, mid, x);
  }

  /** Writing string n and its pointer extends what the memory holds by one string. */
  lemma HoldsStep(before: bytes, mid: bytes, next: bytes, strings: seq<bytes>, table: nat, buffer: nat, n: nat)
    requires Room(|before|, strings, table, buffer) && n < |strings| && Holds(before, mid, strings, table, buffer, n)
    requires Stored(mid, next, buffer + Offset(strings, n), strings[n], table + 4 * n, Le(buffer + Offset(strings, n), 4))
    ensures Holds(before, next, strings, table, buffer, n + 1)
  {
    forall i, k | 0 <= i < n + 1 && 0 <= k < |strings[i]| ensures ByteOf(next, strings, buffer, i, k) == strings[i][k] {
      BytesStep(before, mid, next, strings, table, buffer, n, i, k);
    }
    forall i | 0 <= i < n + 1 ensures PointerAt(next, table, i) == Le(buffer + Offset(strings, i), 4) {
      PointersStep(before, mid, next, strings, table, buffer, n, i);
    }
    forall x | !InTable(table, n + 1, x) && !InString(strings, buffer, n + 1, x) ensures Kept(before, next, x) {
      RestStep(before, mid, next, strings, table, buffer, n, x);
    }
  }

  // ---------- Reading a string back ----------

  /** The bytes from `at` up to the first zero. */
  function CString(memory: bytes, at: nat): bytes
    decreases |memory| - at
  {
    if at >= |memory| || memory[at] == 0 then [] else [memory[at]] + CString(memory, at + 1)
  }

  lemma {:induction false} CStringIff(memory: bytes, at: nat, s: bytes)
    requires at + |s| < |memory| && memory[at..at + |s|] == s
    ensures CString(memory, at) == s <==> 0 !in s && memory[at + |s|] == 0
    decreases |s|
  {
    if s == [] {
      assert CString(memory, at) == [] <==> memory[at] == 0;
    } else {
      assert memory[at] == s[0] by { assert memory[at..at + |s|][0] == s[0]; }
      assert memory[at + 1..at + |s|] == s[1..];
      CStringIff(memory, at + 1, s[1..]);
      assert s == [s[0]] + s[1..];
      if memory[at] != 0 {
        assert CString(memory, at)[1..] == CString(memory, at + 1);
      }
    }
  }

  /** The guest's view of entry i: follow its pointer and read up to the terminator. */
  function ReadEntry(memory: bytes, table: nat, i: nat): bytes {
    CString(memory, FromLe(PointerAt(memory, table, i)))
  }

  lemma PointerReads(memory: bytes, table: nat, i: nat, at: nat)
    requires PointerAt(memory, table, i) == Le(at, 4) && at < TWO32
    ensures FromLe(PointerAt(memory, table, i)) == at
  {
    PowersUsed();
    LeRoundTrip(at, 4);
  }

  lemma StringPresent(before: bytes, after: bytes, strings: seq<bytes>, table: nat, buffer: nat, i: nat)
    requires Room(|before|, strings, table, buffer) && i < |strings| && Holds(before, after, strings, table, buffer, |strings|)
    ensures var at := buffer + Offset(strings, i);
            at + |strings[i]| < |after| && after[at..at + |strings[i]|] == strings[i] && FromLe(PointerAt(after, table, i)) == at
  {
    Bounds(|before|, strings, table, buffer, i);
    var at := buffer + Offset(strings, i);
    PointerReads(after, table, i, at);
    forall k | 0 <= k < |strings[i]| ensures after[at + k] == strings[i][k] {
      assert ByteOf(after, strings, buffer, i, k) == strings[i][k];
    }
  }

  lemma ReadAtIff(memory: bytes, table: nat, i: nat, at: nat, s: bytes)
    requires FromLe(PointerAt(memory, table, i)) == at && at + |s| < |memory| && memory[at..at + |s|] == s
    ensures ReadEntry(memory, table, i) == s <==> 0 !in s && memory[at + |s|] == 0
  {
    CStringIff(memory, at, s);
  }

  /**
   * No terminator is ever written. An entry reads back as its string exactly
   * when the string has no zero byte and the byte reserved for its terminator
   * was zero before.
   */
  lemma ReadBackIff(before: bytes, after: bytes, strings: seq<bytes>, table: nat, buffer: nat, i: nat)
    requires Room(|before|, strings, table, buffer) && i < |strings| && Holds(before, after, strings, table, buffer, |strings|)
    ensures buffer + Offset(strings, i) + |strings[i]| < |before|
    ensures ReadEntry(after, table, i) == strings[i]
            <==> 0 !in strings[i] && before[buffer + Offset(strings, i) + |strings[i]|] == 0
  {
    StringPresent(before, after, strings, table, buffer, i);
    TerminatorKept(before, after, strings, table, buffer, i);
    ReadAtIff(after, table, i, buffer + Offset(strings, i), strings[i]);
  }

  lemma TerminatorKept(before: bytes, after: bytes, strings: seq<bytes>, table: nat, buffer: nat, i: nat)
    requires Room(|before|, strings, table, buffer) && i < |strings| && Holds(before, after, strings, table, buffer, |strings|)
    ensures var x := buffer + Offset(strings, i) + |strings[i]|; x < |before| && after[x] == before[x]
  {
    Bounds(|before|, strings, table, buffer, i);
    var x := buffer + Offset(strings, i) + |strings[i]|;
    forall j | 0 <= j < |strings| ensures !Within(strings, buffer, j, x) {
      if j < i {
        OffsetsIncrease(strings, j, i);
      } else if i < j {
        OffsetsIncrease(strings, i, j);
      }
    }
    assert !InString(strings, buffer, |strings|, x);
    assert Kept(before, after, x);
  }

  // ---------- Writing ----------

  /** `next` is `mid` outside the string and the pointer. */
  ghost predicate KeptAround(mid: bytes, next: bytes, at: nat, size: nat, slot: nat) {
    |next| == |mid| && forall x :: !(at <= x < at + size) && !(slot <= x < slot + 4) ==> Kept(mid, next, x)
  }

  lemma PutKeeps(mid: bytes, at: nat, data: bytes, slot: nat, pointer: bytes)
    requires at + |data| <= |mid| && slot + 4 <= |mid| && |pointer| == 4
    ensures KeptAround(mid, Put(Put(mid, at, data), slot, pointer), at, |data|, slot)
  {
    var once := Put(mid, at, data);
    assert forall x :: 0 <= x < |mid| && !(at <= x < at + |data|) ==> once[x] == mid[x];
    assert forall x :: 0 <= x < |mid| && !(slot <= x < slot + 4) ==> Put(once, slot, pointer)[x] == once[x];
  }

  /** One string, then its pointer; a pointer that lies on the string overwrites it. */
  method WriteEntry(memory: array<byte>, s: bytes, slot: nat, at: nat)
    requires at + |s| <= memory.Length && slot + 4 <= memory.Length
    modifies memory
    ensures KeptAround(old(memory[..]), memory[..], at, |s|, slot)
    ensures at + |s| <= slot || slot + 4 <= at ==> Stored(old(memory[..]), memory[..], at, s, slot, Le(at, 4))
  {
    ghost var mid := memory[..];
    CopyN(s, memory, at);
    assert memory[..] == Put(mid, at, s);
    var pointer := Le(at, 4);
    CopyN(pointer, memory, slot);
    assert memory[..] == Put(Put(mid, at, s), slot, pointer);
    PutKeeps(mid, at, s, slot, pointer);
    if at + |s| <= slot || slot + 4 <= at {
      PutStores(mid, at, s, slot, pointer);
    }
  }

  lemma HoldsNothing(before: bytes, strings: seq<bytes>, table: nat, buffer: nat)
    requires Room(|before|, strings, table, buffer)
    ensures Holds(before, before, strings, table, buffer, 0)
  {
  }

  /** A 32-bit cursor. */
  function Advance(cursor: nat, step: nat): nat { (cursor + step) % TWO32 }

  /** Linear memory stays a page short of what 32 bits can address. */
  const MAX_MEMORY := 0xFFFF_0000

  /** String i and its pointer lie in the memory. */
  predicate Reaches(memory: nat, strings: seq<bytes>, table: nat, buffer: nat, i: nat)
    requires i < |strings|
  {
    var at := buffer + Offset(strings, i);
    at < memory && at + |strings[i]| <= memory && table + 4 * i + 4 <= memory
  }

  lemma RoomReaches(memory: nat, strings: seq<bytes>, table: nat, buffer: nat)
    requires Room(memory, strings, table, buffer)
    ensures forall i :: 0 <= i < |strings| ==> Reaches(memory, strings, table, buffer, i)
  {
    forall i | 0 <= i < |strings| ensures Reaches(memory, strings, table, buffer, i) {
      Bounds(memory, strings, table, buffer, i);
    }
  }

  /** A 32-bit cursor behind a string in memory does not wrap. */
  lemma NextOffset(memory: nat, strings: seq<bytes>, table: nat, buffer: nat, i: nat)
    requires memory <= MAX_MEMORY && i < |strings| && Reaches(memory, strings, table, buffer, i)
    ensures Advance(buffer + Offset(strings, i), |strings[i]| + 1) == buffer + Offset(strings, i + 1)
    ensures Advance(table + 4 * i, 4) == table + 4 * (i + 1)
  {
    SizeSnoc(strings, i);
  }

  /** Outside the table and the strings, terminators included among the outside, nothing has changed. */
  ghost predicate KeptOutside(before: bytes, after: bytes, strings: seq<bytes>, table: nat, buffer: nat, n: nat)
    requires n <= |strings|
  {
    |after| == |before|
    && forall x :: !InTable(table, n, x) && !InString(strings, buffer, n, x) ==> Kept(before, after, x)
  }

  lemma KeptOutsideStep(before: bytes, mid: bytes, next: bytes, strings: seq<bytes>, table: nat, buffer: nat, n: nat)
    requires n < |strings| && KeptOutside(before, mid, strings, table, buffer, n)
    requires KeptAround(mid, next, buffer + Offset(strings, n), |strings[n]|, table + 4 * n)
    ensures KeptOutside(before, next, strings, table, buffer, n + 1)
  {
    forall x | !InTable(table, n + 1, x) && !InString(strings, buffer, n + 1, x) ensures Kept(before, next, x) {
      assert !Within(strings, buffer, n, x);
      assert !InString(strings, buffer, n, x);
      assert Kept(before, mid, x) && Kept(mid, next, x);
    }
  }

  /** What the first `n` turns have done, with room for everything or without. */
  ghost predicate WrittenUpTo(before: bytes, after: bytes, strings: seq<bytes>, table: nat, buffer: nat, n: nat)
    requires n <= |strings|
  {
    && KeptOutside(before, after, strings, table, buffer, n)
    && (Room(|before|, strings, table, buffer) ==> Holds(before, after, strings, table, buffer, n))
  }

  lemma WrittenNothing(before: bytes, strings: seq<bytes>, table: nat, buffer: nat)
    ensures WrittenUpTo(before, before, strings, table, buffer, 0)
  {
    if Room(|before|, strings, table, buffer) {
      HoldsNothing(before, strings, table, buffer);
    }
  }

  method WriteNext(memory: array<byte>, s: bytes, slot: nat, at: nat,
                   ghost before: bytes, ghost strings: seq<bytes>, ghost table: nat, ghost buffer: nat, ghost n: nat)
    requires n < |strings| && s == strings[n] && at == buffer + Offset(strings, n) && slot == table + 4 * n
    requires |before| == memory.Length && at + |s| <= memory.Length && slot + 4 <= memory.Length
    requires WrittenUpTo(before, memory[..], strings, table, buffer, n)
    modifies memory
    ensures WrittenUpTo(before, memory[..], strings, table, buffer, n + 1)
  {
    ghost var mid := memory[..];
    WriteEntry(memory, s, slot, at);
    KeptOutsideStep(before, mid, memory[..], strings, table, buffer, n);
    if Room(|before|, strings, table, buffer) {
      Bounds(memory.Length, strings, table, buffer, n);
      HoldsStep(before, mid, memory[..], strings, table, buffer, n);
    }
  }

  /**
   Writes every string and its pointer; false stands for the trap of one that does not lie in
   the memory. Nothing else changes, and in a table and a buffer of the advertised sizes,
   apart from each other, every string and every pointer is in its place.
   */
  method WriteStringArrayToMemory(memory: array<byte>, strings: seq<bytes>, table: nat, buffer: nat) returns (inside: bool)
    requires memory.Length <= MAX_MEMORY && table < TWO32 && buffer < TWO32
    modifies memory
    ensures inside <==> forall i :: 0 <= i < |strings| ==> Reaches(memory.Length, strings, table, buffer, i)
    ensures inside ==> KeptOutside(old(memory[..]), memory[..], strings, table, buffer, |strings|)
    ensures Room(memory.Length, strings, table, buffer) ==>
              inside && Holds(old(memory[..]), memory[..], strings, table, buffer, |strings|)
  {
    ghost var before := memory[..];
    WrittenNothing(before, strings, table, buffer);
    if Room(memory.Length, strings, table, buffer) {
      RoomReaches(memory.Length, strings, table, buffer);
    }
    var nextBuffer, nextPointer := buffer, table;
    var i := 0;
    while i < |strings|
      invariant 0 <= i <= |strings|
      invariant nextBuffer == buffer + Offset(strings, i) && nextPointer == table + 4 * i
      invariant forall k :: 0 <= k < i ==> Reaches(memory.Length, strings, table, buffer, k)
      invariant WrittenUpTo(before, memory[..], strings, table, buffer, i)
    {
      if nextBuffer >= memory.Length || nextBuffer + |strings[i]| > memory.Length || nextPointer + 4 > memory.Length {
        assert !Reaches(memory.Length, strings, table, buffer, i);
        return false;
      }
      NextOffset(memory.Length, strings, table, buffer, i);
      WriteNext(memory, strings[i], nextPointer, nextBuffer, before, strings, table, buffer, i);
      nextBuffer := Advance(nextBuffer, |strings[i]| + 1);
      nextPointer := Advance(nextPointer, 4);
      i := i + 1;
    }
    inside := true;
  }

  // ---------- What the guest is told beforehand ----------

  lemma SizeSnoc(strings: seq<bytes>, i: nat)
    requires i < |strings|
    ensures Size(strings[..i + 1]) == Size(strings[..i]) + |strings[i]| + 1
  {
    assert strings[..i + 1][..i] == strings[..i];
  }

  /** The argument count and buffer size advertised are those the strings need. */
  method PrepareArgcArgv(argv: seq<bytes>) returns (argc: nat, argvBufferSize: nat)
    ensures argc == |argv| % TWO32 && argvBufferSize == Size(argv) == TotalLength(argv) + |argv|
  {
    argc := |argv| % TWO32;
    argvBufferSize := 0;
    for i := 0 to |argv|
      invariant argvBufferSize == Size(argv[..i])
    {
      SizeSnoc(argv, i);
      argvBufferSize := argvBufferSize + |argv[i]| + 1;
    }
    assert argv[..|argv|] == argv;
    SizeIs(argv);
  }

  /** A variable as it appears in the environment: key, equals sign, value. */
  function Assignment(v: (bytes, bytes)): bytes { v.0 + [61] + v.1 }

  /** The text up to the first equals sign, and the text behind it. */
  function SplitAssignment(s: bytes): (bytes, bytes) {
    if s == [] then ([], [])
    else if s[0] == 61 then ([], s[1..])
    else
      var (key, value) := SplitAssignment(s[1..]);
      ([s[0]] + key, value)
  }

  lemma {:induction false} KeyHasNoEquals(s: bytes)
    ensures 61 !in SplitAssignment(s).0
  {
    if s != [] && s[0] != 61 {
      KeyHasNoEquals(s[1..]);
    }
  }

  /** Splitting at the first equals sign gives the variable back exactly when its key has none. */
  lemma {:induction false} AssignmentSplits(key: bytes, value: bytes)
    ensures SplitAssignment(Assignment((key, value))) == (key, value) <==> 61 !in key
  {
    var s := Assignment((key, value));
    KeyHasNoEquals(s);
    if key == [] {
      assert s[1..] == value;
    } else if 61 !in key {
      AssignmentSplits(key[1..], value);
      assert s[1..] == Assignment((key[1..], value));
      assert key == [key[0]] + key[1..];
    }
  }

  function Assignments(vars: seq<(bytes, bytes)>): seq<bytes> {
    seq(|vars|, i requires 0 <= i < |vars| => Assignment(vars[i]))
  }

  method GetVars(vars: seq<(bytes, bytes)>) returns (r: seq<bytes>)
    ensures r == Assignments(vars)
    ensures |r| == |vars| && forall i | 0 <= i < |vars| && 61 !in vars[i].0 :: SplitAssignment(r[i]) == vars[i]
  {
    r := [];
    for i := 0 to |vars|
      invariant r == Assignments(vars[..i])
    {
      r := r + [vars[i].0 + [61] + vars[i].1];
    }
    assert vars[..|vars|] == vars;
    forall i | 0 <= i < |vars| && 61 !in vars[i].0 ensures SplitAssignment(r[i]) == vars[i] {
      AssignmentSplits(vars[i].0, vars[i].1);
    }
  }

  lemma WrapsOnce(total: nat, extra: nat)
    ensures (total % TWO32 + extra) % TWO32 == (total + extra) % TWO32
  {
  }

  /** The 32-bit size advertised is what the assignments need, unless that wraps. */
  method GetEnvBufferSize(vars: seq<(bytes, bytes)>) returns (size: nat)
    ensures size == Size(Assignments(vars)) % TWO32 == (TotalLength(Assignments(vars)) + |vars|) % TWO32
  {
    size := 0;
    ghost var all := Assignments(vars);
    for i := 0 to |vars|
      invariant size == Size(all[..i]) % TWO32
    {
      SizeSnoc(all, i);
      assert |all[i]| == |vars[i].0| + |vars[i].1| + 1;
      WrapsOnce(Size(all[..i]), |vars[i].0| + |vars[i].1| + 2);
      size := (size + (|vars[i].0| + |vars[i].1| + 2)) % TWO32;
    }
    assert all[..|vars|] == all;
    SizeIs(all);
  }
}
