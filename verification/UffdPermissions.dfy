/**
 The permission map of a userfaultfd-backed memory range: a sorted list of
 breakpoints, each giving the permission from its address up to the next one.

 The specification of an update is the list of surviving breakpoints in closed
 form (`Updated`); the reference semantics is the plain function from addresses
 to permissions (`PermAt`). The main theorem says exactly when an update is the
 pointwise override it is meant to be.
 */
module UffdPermissions {

  const UINTPTR_MAX: nat := 0xFFFF_FFFF_FFFF_FFFF

  datatype Entry = Entry(addr: nat, perm: nat)

  type PermissionList = seq<Entry>

  ghost predicate Sorted(s: PermissionList) {
    forall i, j :: 0 <= i < j < |s| ==> s[i].addr < s[j].addr
  }

  /** Sorted, with the two sentinels that every range keeps. */
  ghost predicate ValidList(s: PermissionList) {
    && |s| >= 2
    && s[0].addr == 0
    && s[|s| - 1].addr == UINTPTR_MAX
    && Sorted(s)
  }

  const INITIAL_PERMISSIONS: PermissionList := [Entry(0, 0), Entry(UINTPTR_MAX, 0)]

  /** The permission of the last breakpoint strictly below `a`; -1 if there is none. */
  function PermBefore(s: PermissionList, a: nat): (p: int)
    ensures p >= -1
  {
    if s == [] then -1
    else if s[|s| - 1].addr < a then s[|s| - 1].perm
    else PermBefore(s[..|s| - 1], a)
  }

  lemma {:induction false} PermBeforeNone(s: PermissionList, a: nat)
    ensures PermBefore(s, a) == -1 <==> forall i :: 0 <= i < |s| ==> s[i].addr >= a
  {
    if s != [] && s[|s| - 1].addr >= a {
      PermBeforeNone(s[..|s| - 1], a);
    }
  }

  /** The address-to-permission function that a list denotes. */
  function PermAt(s: PermissionList, a: nat): int {
    PermBefore(s, a + 1)
  }

  // ----- Lookup -----

  /** First index whose address is greater than `a`, as in an ordered map. */
  function UpperBound(s: PermissionList, a: nat): (k: nat)
    ensures k <= |s|
    ensures k > 0 ==> s[k - 1].addr <= a
    ensures forall i :: k <= i < |s| ==> s[i].addr > a
  {
    if s == [] then 0
    else if s[|s| - 1].addr <= a then |s|
    else UpperBound(s[..|s| - 1], a)
  }

  function PointerPermissions(s: PermissionList, a: nat): int {
    var it := UpperBound(s, a);
    if it == 0 || it == |s| then 0 else s[it - 1].perm
  }

  /** The lookup reads the denoted function below the upper sentinel and 0 from there on. */
  lemma {:induction false} LookupIsPermAt(s: PermissionList, a: nat)
    requires ValidList(s)
    ensures PointerPermissions(s, a) == if a < UINTPTR_MAX then PermAt(s, a) else 0
  {
    var k := UpperBound(s, a);
    if a < UINTPTR_MAX {
      assert s[0].addr <= a < s[|s| - 1].addr;
      PermBeforePrefix(s, k, a + 1);
    } else {
      assert s[|s| - 1].addr <= a;
    }
  }

  lemma {:induction false} PermBeforePrefix(s: PermissionList, k: nat, a: nat)
    requires k <= |s|
    requires forall i :: k <= i < |s| ==> s[i].addr >= a
    ensures PermBefore(s, a) == PermBefore(s[..k], a)
  {
    if k < |s| {
      var t := s[..|s| - 1];
      PermBeforePrefix(t, k, a);
      assert t[..k] == s[..k];
    } else {
      assert s[..k] == s;
    }
  }

  lemma {:induction false} PermBeforeConcat(x: PermissionList, y: PermissionList, a: nat)
    ensures PermBefore(x + y, a) == if PermBefore(y, a) != -1 then PermBefore(y, a) else PermBefore(x, a)
  {
    if y == [] {
      assert x + y == x;
    } else {
      assert (x + y)[..|x + y| - 1] == x + y[..|y| - 1];
      PermBeforeConcat(x, y[..|y| - 1], a);
    }
  }

  // ----- What an update leaves -----

  /** A breakpoint is re-emitted unless it repeats its old predecessor's permission. */
  predicate Kept(s: PermissionList, i: nat)
    requires i < |s|
  {
    i == 0 || s[i].perm != s[i - 1].perm || s[i].addr == UINTPTR_MAX
  }

  /** The kept breakpoints with addresses in [lo, hi), in order. */
  function Survivors(s: PermissionList, lo: nat, hi: nat): PermissionList {
    if s == [] then []
    else
      var last := |s| - 1;
      var rest := Survivors(s[..last], lo, hi);
      if lo <= s[last].addr < hi && Kept(s, last) then rest + [s[last]] else rest
  }

  predicate HasKey(s: PermissionList, lo: nat, hi: nat) {
    exists i :: 0 <= i < |s| && lo <= s[i].addr < hi
  }

  predicate HasSurvivor(s: PermissionList, lo: nat, hi: nat) {
    exists i :: 0 <= i < |s| && lo <= s[i].addr < hi && Kept(s, i)
  }

  /** The breakpoint opening the range, unless it would repeat the permission that precedes it. */
  function Opening(s: PermissionList, begin: nat, perms: nat): PermissionList {
    if PermBefore(s, begin) == perms then [] else [Entry(begin, perms)]
  }

  /** The permission restored after the range: the last one overwritten, or the first entry's. */
  function EndPerm(s: PermissionList, begin: nat, end: nat): int
    requires s != []
  {
    if HasKey(s, begin, end) then PermBefore(s, end) else s[0].perm
  }

  function HighStart(s: PermissionList, begin: nat, end: nat, perms: nat): nat {
    if Opening(s, begin, perms) != [] && begin == end then end + 1 else end
  }

  function Closing(s: PermissionList, begin: nat, end: nat, perms: nat): PermissionList
    requires s != []
    requires begin <= end
  {
    if HasKey(s, end, end + 1) || HighStart(s, begin, end, perms) != end then []
    else
      EndPermNat(s, begin, end);
      [Entry(end, EndPerm(s, begin, end))]
  }

  /** The list after setting [begin, end) to `perms`. */
  function Updated(s: PermissionList, begin: nat, end: nat, perms: nat): PermissionList
    requires s != []
    requires begin <= end
  {
    Survivors(s, 0, begin) + Opening(s, begin, perms) + Closing(s, begin, end, perms)
    + Survivors(s, HighStart(s, begin, end, perms), UINTPTR_MAX + 1)
  }

  lemma EndPermNat(s: PermissionList, begin: nat, end: nat)
    requires s != []
    ensures EndPerm(s, begin, end) >= 0
  {
    if HasKey(s, begin, end) {
      PermBeforeNone(s, end);
    }
  }

  ghost predicate Within(s: PermissionList, lo: nat, hi: nat) {
    forall i :: 0 <= i < |s| ==> lo <= s[i].addr < hi
  }

  lemma SortedConcat(x: PermissionList, y: PermissionList, lo: nat, mid: nat, hi: nat)
    requires Sorted(x) && Within(x, lo, mid)
    requires Sorted(y) && Within(y, mid, hi)
    requires lo <= mid <= hi
    ensures Sorted(x + y) && Within(x + y, lo, hi)
  {
  }

  lemma {:induction false} SurvivorsSorted(s: PermissionList, lo: nat, hi: nat)
    requires Sorted(s)
    requires lo <= hi
    ensures Sorted(Survivors(s, lo, hi)) && Within(Survivors(s, lo, hi), lo, hi)
    ensures s != [] ==> Within(Survivors(s, lo, hi), lo, s[|s| - 1].addr + 1)
  {
    if s != [] {
      var last := |s| - 1;
      var t := s[..last];
      SurvivorsSorted(t, lo, hi);
      var rest := Survivors(t, lo, hi);
      if last > 0 {
        assert t[last - 1].addr < s[last].addr;
        assert Within(rest, lo, s[last].addr);
      }
    }
  }

  lemma {:induction false} SurvivorsIn(s: PermissionList, lo: nat, hi: nat)
    ensures forall e :: e in Survivors(s, lo, hi) ==> e in s
  {
    if s != [] {
      SurvivorsIn(s[..|s| - 1], lo, hi);
    }
  }

  lemma {:induction false} SurvivorsOfEmptyRange(s: PermissionList, lo: nat)
    ensures Survivors(s, lo, lo) == []
  {
    if s != [] {
      SurvivorsOfEmptyRange(s[..|s| - 1], lo);
    }
  }

  lemma {:induction false} SurvivorsFirst(s: PermissionList, lo: nat, hi: nat)
    requires s != [] && lo <= s[0].addr < hi
    ensures |Survivors(s, lo, hi)| > 0 && Survivors(s, lo, hi)[0] == s[0]
  {
    if |s| > 1 {
      SurvivorsFirst(s[..|s| - 1], lo, hi);
    } else {
      assert s[..0] == [];
    }
  }

  lemma UpdatedSorted(s: PermissionList, begin: nat, end: nat, perms: nat)
    requires ValidList(s)
    requires begin <= end < UINTPTR_MAX
    ensures Sorted(Updated(s, begin, end, perms))
  {
    var from := HighStart(s, begin, end, perms);
    var low := Survivors(s, 0, begin);
    var open := Opening(s, begin, perms);
    var close := Closing(s, begin, end, perms);
    var high := Survivors(s, from, UINTPTR_MAX + 1);
    SurvivorsSorted(s, 0, begin);
    SurvivorsSorted(s, from, UINTPTR_MAX + 1);
    if close != [] {
      HighAbove(s, from, end);
    }
    JoinSorted(low, open, close, high, begin, end, from);
  }

  lemma JoinSorted(low: PermissionList, open: PermissionList, close: PermissionList, high: PermissionList,
                   begin: nat, end: nat, from: nat)
    requires begin <= end <= from <= UINTPTR_MAX
    requires Sorted(low) && Within(low, 0, begin)
    requires |open| <= 1 && (open != [] ==> open[0].addr == begin && begin < from)
    requires |close| <= 1 && (close != [] ==> close[0].addr == end == from && Within(high, end + 1, UINTPTR_MAX + 1))
    requires Sorted(high) && Within(high, from, UINTPTR_MAX + 1)
    ensures Sorted(low + open + close + high)
  {
    var mid := if open == [] then begin else begin + 1;
    SortedConcat(low, open, 0, begin, mid);
    var next := if close == [] then from else end + 1;
    SortedConcat(low + open, close, 0, mid, next);
    SortedConcat(low + open + close, high, 0, next, UINTPTR_MAX + 1);
  }

  /** Every update keeps the list sorted with both sentinels, whatever its arguments. */
  lemma UpdatedValid(s: PermissionList, begin: nat, end: nat, perms: nat)
    requires ValidList(s)
    requires begin <= end < UINTPTR_MAX
    ensures ValidList(Updated(s, begin, end, perms))
  {
    UpdatedSorted(s, begin, end, perms);
    var from := HighStart(s, begin, end, perms);
    var last := |s| - 1;
    assert Survivors(s, from, UINTPTR_MAX + 1) == Survivors(s[..last], from, UINTPTR_MAX + 1) + [s[last]];
    if begin > 0 {
      SurvivorsFirst(s, 0, begin);
    } else {
      PermBeforeNone(s, 0);
      SurvivorsOfEmptyRange(s, 0);
    }
  }

  lemma HighAbove(s: PermissionList, from: nat, end: nat)
    requires ValidList(s)
    requires end <= from <= UINTPTR_MAX && !HasKey(s, end, end + 1)
    ensures Within(Survivors(s, from, UINTPTR_MAX + 1), end + 1, UINTPTR_MAX + 1)
  {
    var high := Survivors(s, from, UINTPTR_MAX + 1);
    SurvivorsSorted(s, from, UINTPTR_MAX + 1);
    SurvivorsIn(s, from, UINTPTR_MAX + 1);
    forall i | 0 <= i < |high| ensures high[i].addr != end {
      assert high[i] in s;
    }
  }

  // ----- The meaning of an update -----

  lemma PermBeforeSnoc(x: PermissionList, e: Entry, a: nat)
    ensures PermBefore(x + [e], a) == if e.addr < a then e.perm else PermBefore(x, a)
  {
    assert (x + [e])[..|x|] == x;
  }

  lemma HasSurvivorSnoc(s: PermissionList, lo: nat, a: nat)
    requires s != []
    ensures var last := |s| - 1;
            HasSurvivor(s, lo, a) <==> HasSurvivor(s[..last], lo, a) || (lo <= s[last].addr < a && Kept(s, last))
  {
    var last := |s| - 1;
    var t := s[..last];
    assert forall i :: 0 <= i < last ==> t[i] == s[i] && Kept(t, i) == Kept(s, i);
    if HasSurvivor(t, lo, a) {
      var i :| 0 <= i < |t| && lo <= t[i].addr < a && Kept(t, i);
      assert lo <= s[i].addr < a && Kept(s, i);
    }
  }

  lemma {:induction false} PermBeforeSurvivors(s: PermissionList, lo: nat, hi: nat, a: nat)
    requires Sorted(s)
    requires a <= hi
    ensures PermBefore(Survivors(s, lo, hi), a)
            == if HasSurvivor(s, lo, a) then PermBefore(s, a) else -1
  {
    if s != [] {
      var last := |s| - 1;
      var t := s[..last];
      PermBeforeSurvivors(t, lo, hi, a);
      HasSurvivorSnoc(s, lo, a);
      PermBeforeSnoc(Survivors(t, lo, hi), s[last], a);
      assert forall i :: 0 <= i < last ==> t[i].addr < s[last].addr;
      if !Kept(s, last) && s[last].addr < a {
        assert last > 0 && t[last - 1].addr < s[last].addr;
        assert PermBefore(t, a) == s[last - 1].perm;
      }
    }
  }

  /** With no surviving breakpoint in [lo, a), the denoted function does not change there. */
  lemma {:induction false} ConstantWithoutSurvivor(s: PermissionList, lo: nat, a: nat)
    requires Sorted(s)
    requires lo <= a
    requires !HasSurvivor(s, lo, a)
    ensures PermBefore(s, a) == PermBefore(s, lo)
  {
    if s != [] {
      var last := |s| - 1;
      var t := s[..last];
      forall i | 0 <= i < |t|
        ensures !(lo <= t[i].addr < a && Kept(t, i))
      {
        assert Kept(t, i) == Kept(s, i) && t[i] == s[i];
      }
      ConstantWithoutSurvivor(t, lo, a);
      if lo <= s[last].addr < a {
        assert !Kept(s, last);
        assert t[last - 1] == s[last - 1];
        assert PermBefore(t, a) == s[last - 1].perm;
      }
    }
  }

  /** The value an update puts on addresses past the range, before the next surviving breakpoint. */
  function TailPerm(s: PermissionList, begin: nat, end: nat, perms: nat): int
    requires s != []
    requires begin <= end
  {
    if Closing(s, begin, end, perms) == [] then perms else EndPerm(s, begin, end)
  }

  /** The exact meaning of an update, for every list and every range, empty ones included. */
  lemma UpdatedMeaning(s: PermissionList, begin: nat, end: nat, perms: nat, a: nat)
    requires ValidList(s)
    requires begin <= end < UINTPTR_MAX
    requires a < UINTPTR_MAX
    ensures PermAt(Updated(s, begin, end, perms), a)
            == if a < begin then PermAt(s, a)
               else if a < end then perms
               else if HasSurvivor(s, HighStart(s, begin, end, perms), a + 1) then PermAt(s, a)
               else TailPerm(s, begin, end, perms)
  {
    var from := HighStart(s, begin, end, perms);
    var low := Survivors(s, 0, begin);
    var open := Opening(s, begin, perms);
    var close := Closing(s, begin, end, perms);
    var high := Survivors(s, from, UINTPTR_MAX + 1);
    PermBeforeConcat(low + open + close, high, a + 1);
    PermBeforeConcat(low + open, close, a + 1);
    PermBeforeConcat(low, open, a + 1);
    PermBeforeSurvivors(s, from, UINTPTR_MAX + 1, a + 1);
    LowMeaning(s, begin, a);
    if HasSurvivor(s, from, a + 1) {
      PermBeforeNone(s, a + 1);
      assert end <= a;
    }
    if a >= begin && open == [] {
      assert PermBefore(low, a + 1) == perms;
    }
    if close != [] {
      EndPermNat(s, begin, end);
      assert close[..0] == [];
    }
    if open != [] {
      assert open[..0] == [];
    }
  }

  lemma LowMeaning(s: PermissionList, begin: nat, a: nat)
    requires ValidList(s)
    ensures a < begin ==> PermBefore(Survivors(s, 0, begin), a + 1) == PermAt(s, a)
    ensures a >= begin ==> PermBefore(Survivors(s, 0, begin), a + 1) == PermBefore(s, begin)
  {
    SurvivorsSorted(s, 0, begin);
    var low := Survivors(s, 0, begin);
    var c := if a < begin then a + 1 else begin;
    PermBeforeSurvivors(s, 0, begin, c);
    if a >= begin {
      PermBeforeAbove(low, begin, a + 1);
    }
    if c > 0 {
      assert Kept(s, 0) && s[0].addr < c;
      assert HasSurvivor(s, 0, c);
    } else {
      PermBeforeNone(s, 0);
      assert |low| == 0;
    }
  }

  lemma PermBeforeAbove(s: PermissionList, a: nat, b: nat)
    requires forall i :: 0 <= i < |s| ==> s[i].addr < a
    requires a <= b
    ensures PermBefore(s, a) == PermBefore(s, b)
  {
    if s != [] {
      assert s[|s| - 1].addr < a;
    }
  }

  function Override(s: PermissionList, begin: nat, end: nat, perms: nat, a: nat): int {
    if begin <= a < end then perms else PermAt(s, a)
  }

  ghost predicate IsOverride(s: PermissionList, begin: nat, end: nat, perms: nat, s': PermissionList) {
    forall a | 0 <= a < UINTPTR_MAX :: PermAt(s', a) == Override(s, begin, end, perms, a)
  }

  /** What a caller can check beforehand: how the list looks at `end` and inside the range. */
  predicate OverrideCondition(s: PermissionList, begin: nat, end: nat, perms: nat)
    requires s != []
  {
    if HasKey(s, end, end + 1) then PermAt(s, end) != PermBefore(s, end) || PermAt(s, end) == perms
    else HasKey(s, begin, end) || PermAt(s, begin) == s[0].perm
  }

  /** An update of a non-empty range is the pointwise override exactly under that condition. */
  lemma OverrideIff(s: PermissionList, begin: nat, end: nat, perms: nat)
    requires ValidList(s)
    requires begin < end < UINTPTR_MAX
    ensures IsOverride(s, begin, end, perms, Updated(s, begin, end, perms))
            <==> OverrideCondition(s, begin, end, perms)
  {
    var s' := Updated(s, begin, end, perms);
    EndBreakpoint(s, end);
    TailAgrees(s, begin, end, perms);
    if OverrideCondition(s, begin, end, perms) {
      forall a | 0 <= a < UINTPTR_MAX
        ensures PermAt(s', a) == Override(s, begin, end, perms, a)
      {
        UpdatedMeaning(s, begin, end, perms, a);
        if a >= end && !HasSurvivor(s, end, a + 1) {
          ConstantWithoutSurvivor(s, end, a + 1);
          assert !HasSurvivor(s, end, end + 1);
        }
      }
    } else {
      UpdatedMeaning(s, begin, end, perms, end);
      if !HasSurvivor(s, end, end + 1) {
        ConstantWithoutSurvivor(s, end, end + 1);
      }
      assert PermAt(s', end) != Override(s, begin, end, perms, end);
    }
  }

  /** A breakpoint at `end` survives exactly when it changes the permission. */
  lemma EndBreakpoint(s: PermissionList, end: nat)
    requires ValidList(s)
    requires 0 < end < UINTPTR_MAX
    ensures HasSurvivor(s, end, end + 1) <==> HasKey(s, end, end + 1) && PermAt(s, end) != PermBefore(s, end)
    ensures !HasKey(s, end, end + 1) ==> PermAt(s, end) == PermBefore(s, end)
  {
    if HasKey(s, end, end + 1) {
      var i :| 0 <= i < |s| && end <= s[i].addr < end + 1;
      assert i > 0;
      PermBeforePrefix(s, i + 1, end + 1);
      PermBeforePrefix(s, i, end);
      assert s[..i + 1][..i] == s[..i];
      forall j | 0 <= j < |s| && end <= s[j].addr < end + 1
        ensures j == i
      {
      }
    } else {
      assert !HasSurvivor(s, end, end + 1);
      ConstantWithoutSurvivor(s, end, end + 1);
    }
  }

  lemma TailAgrees(s: PermissionList, begin: nat, end: nat, perms: nat)
    requires ValidList(s)
    requires begin < end < UINTPTR_MAX
    ensures !HasSurvivor(s, end, end + 1) ==>
              (OverrideCondition(s, begin, end, perms) <==> TailPerm(s, begin, end, perms) == PermBefore(s, end))
    ensures HasSurvivor(s, end, end + 1) ==> OverrideCondition(s, begin, end, perms)
  {
    EndBreakpoint(s, end);
    if !HasKey(s, end, end + 1) && !HasKey(s, begin, end) {
      assert !HasSurvivor(s, begin, end);
      assert !HasSurvivor(s, begin, begin + 1);
      ConstantWithoutSurvivor(s, begin, end);
      ConstantWithoutSurvivor(s, begin, begin + 1);
    }
  }

  /** Updating an empty range should change nothing; this is exactly when it does not. */
  lemma EmptyRangeIff(s: PermissionList, at: nat, perms: nat)
    requires ValidList(s)
    requires 0 < at < UINTPTR_MAX
    ensures (forall a | 0 <= a < UINTPTR_MAX :: PermAt(Updated(s, at, at, perms), a) == PermAt(s, a))
            <==> if PermBefore(s, at) == perms then HasKey(s, at, at + 1) || perms == s[0].perm
                 else PermAt(s, at) == perms
  {
    var s' := Updated(s, at, at, perms);
    EndBreakpoint(s, at);
    assert !HasKey(s, at, at);
    var from := HighStart(s, at, at, perms);
    forall a | at <= a < UINTPTR_MAX && !HasSurvivor(s, from, a + 1)
      ensures PermAt(s, a) == PermAt(s, at)
    {
      if from == at {
        ConstantWithoutSurvivor(s, at, a + 1);
        assert !HasSurvivor(s, at, at + 1);
        ConstantWithoutSurvivor(s, at, at + 1);
      } else {
        ConstantWithoutSurvivor(s, from, a + 1);
      }
    }
    forall a | 0 <= a < UINTPTR_MAX
      ensures PermAt(s', a) == if a < at then PermAt(s, a)
                               else if HasSurvivor(s, from, a + 1) then PermAt(s, a)
                               else TailPerm(s, at, at, perms)
    {
      UpdatedMeaning(s, at, at, perms, a);
    }
    if from == at + 1 {
      assert !HasSurvivor(s, from, at + 1);
    }
  }

  // ----- The update as the range performs it -----

  /** Insertion into an ordered map: no effect when the key is present. */
  function Emplace(s: PermissionList, e: Entry): PermissionList {
    if s == [] then [e]
    else if s[|s| - 1].addr < e.addr then s + [e]
    else if s[|s| - 1].addr == e.addr then s
    else Emplace(s[..|s| - 1], e) + [s[|s| - 1]]
  }

  lemma {:induction false} EmplaceBetween(x: PermissionList, y: PermissionList, e: Entry)
    requires forall i :: 0 <= i < |x| ==> x[i].addr < e.addr
    requires forall i :: 0 <= i < |y| ==> y[i].addr > e.addr
    ensures Emplace(x + y, e) == x + [e] + y
  {
    if y == [] {
      assert x + y == x;
    } else {
      var y', last := y[..|y| - 1], y[|y| - 1];
      EmplaceBetween(x, y', e);
      assert (x + y)[..|x + y| - 1] == x + y' && (x + y)[|x + y| - 1] == last;
      assert Emplace(x + y, e) == Emplace(x + y', e) + [last];
      assert x + [e] + y' + [last] == x + [e] + y;
    }
  }

  lemma {:induction false} EmplacePresent(x: PermissionList, k: Entry, y: PermissionList, e: Entry)
    requires k.addr == e.addr
    requires forall i :: 0 <= i < |y| ==> y[i].addr > e.addr
    ensures Emplace(x + [k] + y, e) == x + [k] + y
  {
    var s := x + [k] + y;
    if y != [] {
      var y' := y[..|y| - 1];
      EmplacePresent(x, k, y', e);
      assert s[..|s| - 1] == x + [k] + y';
      assert y == y' + [y[|y| - 1]];
    }
  }

  function Max(x: nat, y: nat): nat {
    if x < y then y else x
  }

  class UffdMemoryRange {
    const mapStart: nat
    const mapBytes: nat
    var maxUsedBytes: nat
    var permissions: PermissionList

    ghost predicate Valid()
      reads this
    {
      ValidList(permissions)
    }

    constructor (start: nat, bytes: nat)
      ensures mapStart == start && mapBytes == bytes
      ensures Valid() && permissions == INITIAL_PERMISSIONS && maxUsedBytes == 0
    {
      mapStart, mapBytes, maxUsedBytes := start, bytes, 0;
      permissions := INITIAL_PERMISSIONS;
    }

    method ResetPermissions()
      modifies this`permissions
      ensures Valid() && permissions == INITIAL_PERMISSIONS
    {
      permissions := [Entry(0, 0), Entry(UINTPTR_MAX, 0)];
    }

    method Touch(offset: nat)
      modifies this`maxUsedBytes
      ensures maxUsedBytes == Max(old(maxUsedBytes), offset)
    {
      if maxUsedBytes < offset {
        maxUsedBytes := offset;
      }
    }

    /** One pass over the old breakpoints, in the source's order of tests. */
    method SetPermissions(begin: nat, end: nat, perms: nat)
      requires Valid()
      requires mapStart <= begin <= end < UINTPTR_MAX
      modifies this
      ensures Valid()
      ensures permissions == Updated(old(permissions), begin, end, perms)
      ensures maxUsedBytes == Max(old(maxUsedBytes), end - mapStart)
    {
      Touch(end - mapStart);
      var oldPerms := permissions;
      permissions := [];
      var lastPerm: int := -1;
      var endPerm: nat := oldPerms[0].perm;
      var needsEnd, beginDone := true, false;
      for i := 0 to |oldPerms|
        modifies this`permissions
        invariant lastPerm == if i == 0 then -1 else oldPerms[i - 1].perm
        invariant beginDone == Begun(oldPerms, i, begin)
        invariant endPerm == if i == 0 then oldPerms[0].perm else EndPerm(oldPerms[..i], begin, end)
        invariant needsEnd == !HasKey(oldPerms[..i], end, end + 1)
        invariant permissions == Pass(oldPerms, i, begin, end, perms)
      {
        var oldAddr, oldPerm := oldPerms[i].addr, oldPerms[i].perm;
        PassStep(oldPerms, i, begin, end, perms);
        EndPermStep(oldPerms, i, begin, end);
        if !beginDone && oldAddr >= begin {
          beginDone := true;
          LastPermIs(oldPerms, i, begin);
          if lastPerm != perms {
            permissions := Emplace(permissions, Entry(begin, perms));
          }
        }
        if oldAddr < begin || oldAddr >= end {
          if oldPerm != lastPerm || oldAddr == UINTPTR_MAX {
            permissions := Emplace(permissions, Entry(oldAddr, oldPerm));
          }
          if oldAddr == end {
            needsEnd := false;
          }
        } else {
          endPerm := oldPerm;
        }
        lastPerm := oldPerm;
      }
      assert oldPerms[..|oldPerms|] == oldPerms;
      CloseAfterPass(needsEnd, endPerm, oldPerms, begin, end, perms);
    }

    /** After the pass, the end of the range gets a breakpoint unless there was one. */
    method CloseAfterPass(needsEnd: bool, endPerm: nat, ghost oldPerms: PermissionList, ghost begin: nat, end: nat, ghost perms: nat)
      requires ValidList(oldPerms) && begin <= end < UINTPTR_MAX
      requires permissions == Pass(oldPerms, |oldPerms|, begin, end, perms)
      requires needsEnd == !HasKey(oldPerms, end, end + 1) && endPerm == EndPerm(oldPerms, begin, end)
      modifies this`permissions
      ensures Valid() && permissions == Updated(oldPerms, begin, end, perms)
    {
      if needsEnd {
        CloseRange(oldPerms, begin, end, perms);
        permissions := Emplace(permissions, Entry(end, endPerm));
      } else {
        PassComplete(oldPerms, begin, end, perms);
      }
      UpdatedValid(oldPerms, begin, end, perms);
    }
  }

  predicate Begun(s: PermissionList, i: nat, begin: nat)
    requires i <= |s|
  {
    i > 0 && s[i - 1].addr >= begin
  }

  /** The list under construction once the first `i` old breakpoints have been visited. */
  function Pass(s: PermissionList, i: nat, begin: nat, end: nat, perms: nat): PermissionList
    requires i <= |s|
  {
    Survivors(s[..i], 0, begin) + (if Begun(s, i, begin) then Opening(s, begin, perms) else [])
    + Survivors(s[..i], HighStart(s, begin, end, perms), UINTPTR_MAX + 1)
  }

  lemma LastPermIs(s: PermissionList, i: nat, begin: nat)
    requires ValidList(s)
    requires i < |s| && s[i].addr >= begin && !Begun(s, i, begin)
    ensures PermBefore(s, begin) == if i == 0 then -1 else s[i - 1].perm
  {
    PermBeforePrefix(s, i, begin);
    if i > 0 {
      assert s[..i][i - 1] == s[i - 1];
    }
  }

  /** What visiting breakpoint `i` does to the survivors in [lo, hi). */
  ghost predicate Stepped(s: PermissionList, i: nat, lo: nat, hi: nat)
    requires i < |s|
  {
    var before := Survivors(s[..i], lo, hi);
    && Survivors(s[..i + 1], lo, hi) == (if lo <= s[i].addr < hi && Kept(s, i) then before + [s[i]] else before)
    && Within(before, lo, hi)
    && Within(before, 0, s[i].addr)
    && (i == 0 || s[i - 1].addr < lo ==> before == [])
  }

  lemma SurvivorsStep(s: PermissionList, i: nat, lo: nat, hi: nat)
    requires ValidList(s)
    requires i < |s|
    requires lo <= hi
    ensures Stepped(s, i, lo, hi)
  {
    var t := s[..i];
    var kept := Survivors(t, lo, hi);
    SurvivorsSorted(t, lo, hi);
    assert s[..i + 1][..i] == t;
    assert Kept(s[..i + 1], i) == Kept(s, i);
    if i > 0 {
      assert s[i - 1] == t[i - 1];
      assert t[i - 1].addr < s[i].addr;
      assert |kept| > 0 ==> lo <= kept[0].addr < t[i - 1].addr + 1;
    }
  }

  lemma PassStep(s: PermissionList, i: nat, begin: nat, end: nat, perms: nat)
    requires ValidList(s)
    requires begin <= end < UINTPTR_MAX
    requires i < |s|
    ensures var withOpening :=
              if !Begun(s, i, begin) && s[i].addr >= begin && PermBefore(s, begin) != perms
              then Emplace(Pass(s, i, begin, end, perms), Entry(begin, perms))
              else Pass(s, i, begin, end, perms);
            Pass(s, i + 1, begin, end, perms)
            == if (s[i].addr < begin || s[i].addr >= end) && Kept(s, i) then Emplace(withOpening, s[i])
               else withOpening
  {
    SurvivorsStep(s, i, 0, begin);
    SurvivorsStep(s, i, HighStart(s, begin, end, perms), UINTPTR_MAX + 1);
    assert s[i].addr <= UINTPTR_MAX;
    assert i > 0 ==> s[i - 1].addr < s[i].addr;
    if Begun(s, i, begin) {
      PassStepAbove(s, i, begin, end, perms);
    } else if s[i].addr < begin {
      PassStepBelow(s, i, begin, end, perms);
    } else {
      PassStepOpening(s, i, begin, end, perms);
    }
  }

  lemma PassStepBelow(s: PermissionList, i: nat, begin: nat, end: nat, perms: nat)
    requires begin <= end
    requires i < |s| && s[i].addr < begin && !Begun(s, i, begin)
    requires Stepped(s, i, 0, begin) && Stepped(s, i, HighStart(s, begin, end, perms), UINTPTR_MAX + 1)
    ensures Pass(s, i + 1, begin, end, perms)
            == if Kept(s, i) then Emplace(Pass(s, i, begin, end, perms), s[i]) else Pass(s, i, begin, end, perms)
  {
    var from := HighStart(s, begin, end, perms);
    assert Survivors(s[..i], from, UINTPTR_MAX + 1) == [] && Survivors(s[..i + 1], from, UINTPTR_MAX + 1) == [];
    assert !Begun(s, i + 1, begin);
    BelowStep(Survivors(s[..i], 0, begin), Survivors(s[..i + 1], 0, begin), s[i], Kept(s, i));
  }

  lemma BelowStep(low: PermissionList, low': PermissionList, e: Entry, kept: bool)
    requires Within(low, 0, e.addr) && low' == if kept then low + [e] else low
    ensures low' + [] + [] == if kept then Emplace(low + [] + [], e) else low + [] + []
  {
    EmplaceBehind(low, [], [], e);
    assert low + [] + ([] + [e]) == low + [e] + [] + [];
  }

  lemma PassStepAbove(s: PermissionList, i: nat, begin: nat, end: nat, perms: nat)
    requires begin <= end
    requires i < |s| && Begun(s, i, begin) && s[i - 1].addr < s[i].addr <= UINTPTR_MAX
    requires Stepped(s, i, 0, begin) && Stepped(s, i, HighStart(s, begin, end, perms), UINTPTR_MAX + 1)
    ensures Pass(s, i + 1, begin, end, perms)
            == if s[i].addr >= end && Kept(s, i) then Emplace(Pass(s, i, begin, end, perms), s[i])
               else Pass(s, i, begin, end, perms)
  {
    var from := HighStart(s, begin, end, perms);
    var low, open, high := Survivors(s[..i], 0, begin), Opening(s, begin, perms), Survivors(s[..i], from, UINTPTR_MAX + 1);
    assert Survivors(s[..i + 1], 0, begin) == low;
    if s[i].addr >= end && Kept(s, i) {
      assert Survivors(s[..i + 1], from, UINTPTR_MAX + 1) == high + [s[i]];
      EmplaceBehind(low, open, high, s[i]);
    } else {
      assert Survivors(s[..i + 1], from, UINTPTR_MAX + 1) == high;
    }
  }

  /** A breakpoint above everything so far goes to the end. */
  lemma EmplaceBehind(low: PermissionList, open: PermissionList, high: PermissionList, e: Entry)
    requires Within(low, 0, e.addr) && Within(open, 0, e.addr) && Within(high, 0, e.addr)
    ensures Emplace(low + open + high, e) == low + open + (high + [e])
  {
    var built := low + open + high;
    assert |built| > 0 ==> built[|built| - 1].addr < e.addr;
    assert low + open + (high + [e]) == built + [e];
  }

  lemma PassStepOpening(s: PermissionList, i: nat, begin: nat, end: nat, perms: nat)
    requires begin <= end
    requires i < |s| && begin <= s[i].addr <= UINTPTR_MAX && !Begun(s, i, begin)
    requires Stepped(s, i, 0, begin) && Stepped(s, i, HighStart(s, begin, end, perms), UINTPTR_MAX + 1)
    ensures var withOpening := if PermBefore(s, begin) != perms
                               then Emplace(Pass(s, i, begin, end, perms), Entry(begin, perms))
                               else Pass(s, i, begin, end, perms);
            Pass(s, i + 1, begin, end, perms)
            == if s[i].addr >= end && Kept(s, i) then Emplace(withOpening, s[i]) else withOpening
  {
    var from := HighStart(s, begin, end, perms);
    var low := Survivors(s[..i], 0, begin);
    var open := Opening(s, begin, perms);
    EmplaceAfterOpening(low, begin, perms, s[i]);
    assert Survivors(s[..i], from, UINTPTR_MAX + 1) == [];
    assert Pass(s, i, begin, end, perms) == low;
    var tail := if from <= s[i].addr && Kept(s, i) then [s[i]] else [];
    assert Survivors(s[..i + 1], 0, begin) == low;
    assert Survivors(s[..i + 1], from, UINTPTR_MAX + 1) == tail by { assert [] + [s[i]] == [s[i]]; }
    assert Pass(s, i + 1, begin, end, perms) == low + open + tail;
    assert open == [] ==> low + open == low;
  }

  lemma EmplaceAfterOpening(low: PermissionList, begin: nat, perms: nat, e: Entry)
    requires Within(low, 0, begin)
    requires begin <= e.addr
    ensures Emplace(low, Entry(begin, perms)) == low + [Entry(begin, perms)]
    ensures Emplace(low, e) == low + [e]
    ensures Emplace(low + [Entry(begin, perms)], e)
            == if e.addr == begin then low + [Entry(begin, perms)] else low + [Entry(begin, perms)] + [e]
  {
  }

  /** When `end` is already a breakpoint there is nothing left to add after the pass. */
  lemma PassComplete(s: PermissionList, begin: nat, end: nat, perms: nat)
    requires ValidList(s)
    requires begin <= end < UINTPTR_MAX
    requires HasKey(s, end, end + 1)
    ensures Pass(s, |s|, begin, end, perms) == Updated(s, begin, end, perms)
  {
    assert s[..|s|] == s;
    assert Closing(s, begin, end, perms) == [];
  }

  lemma EndPermStep(s: PermissionList, i: nat, begin: nat, end: nat)
    requires ValidList(s)
    requires i < |s|
    ensures EndPerm(s[..i + 1], begin, end)
            == if begin <= s[i].addr < end then s[i].perm
               else if i == 0 then s[0].perm else EndPerm(s[..i], begin, end)
    ensures HasKey(s[..i + 1], end, end + 1) <==> HasKey(s[..i], end, end + 1) || s[i].addr == end
  {
    var t := s[..i + 1];
    assert t[..i] == s[..i];
    assert forall j :: 0 <= j < i ==> t[j] == s[..i][j];
    assert t[i] == s[i];
    if HasKey(s[..i], begin, end) {
      var j :| 0 <= j < i && begin <= s[..i][j].addr < end;
      assert t[j].addr < end;
    }
  }

  lemma CloseRange(s: PermissionList, begin: nat, end: nat, perms: nat)
    requires ValidList(s)
    requires begin <= end < UINTPTR_MAX
    requires !HasKey(s, end, end + 1)
    ensures EndPerm(s, begin, end) >= 0
    ensures Emplace(Pass(s, |s|, begin, end, perms), Entry(end, EndPerm(s, begin, end)))
            == Updated(s, begin, end, perms)
  {
    EndPermNat(s, begin, end);
    var e := Entry(end, EndPerm(s, begin, end));
    var from := HighStart(s, begin, end, perms);
    var low := Survivors(s, 0, begin);
    var open := Opening(s, begin, perms);
    var high := Survivors(s, from, UINTPTR_MAX + 1);
    SurvivorsSorted(s, 0, begin);
    HighAbove(s, from, end);
    assert s[..|s|] == s;
    if from == end {
      EmplaceBetween(low + open, high, e);
    } else {
      EmplacePresent(low, open[0], high, e);
      assert low + open + [] + high == low + [open[0]] + high;
    }
  }
}
