/**
 Histories of one linear memory inside a userfaultfd range: committing pages at the
 top sets them accessible, decommitting pages at the top sets them inaccessible.

 A shrink leaves a breakpoint at the old top that no longer changes the permission.
 A later grow that ends exactly there loses the boundary, and everything above the
 memory becomes accessible. The main theorem says that this is the only way in which
 a history of grows and shrinks fails to keep exactly [base, top) accessible.
 */
module UffdResizing {
  import opened UffdPermissions

  datatype Resize = Grow(to: nat) | Shrink(to: nat)

  /** `stale` is the top that the last shrink left behind, 0 when the last step was no shrink. */
  datatype Committed = Committed(top: nat, stale: nat, list: PermissionList)

  predicate Applicable(base: nat, top: nat, op: Resize) {
    match op
    case Grow(to) => top < to < UINTPTR_MAX
    case Shrink(to) => base <= to < top
  }

  function Apply(c: Committed, op: Resize): (c': Committed)
    requires c.list != []
    requires op.Grow? ==> c.top <= op.to
    requires op.Shrink? ==> op.to <= c.top
    ensures c'.top == op.to
  {
    match op
    case Grow(to) => Committed(to, 0, Updated(c.list, c.top, to, 1))
    case Shrink(to) => Committed(to, c.top, Updated(c.list, to, c.top, 0))
  }

  ghost predicate ValidRun(base: nat, ops: seq<Resize>) {
    0 < base < UINTPTR_MAX
    && (ops != [] ==> ValidRun(base, ops[..|ops| - 1])
                      && Applicable(base, TopAfter(base, ops[..|ops| - 1]), ops[|ops| - 1]))
  }

  function TopAfter(base: nat, ops: seq<Resize>): nat {
    if ops == [] then base else ops[|ops| - 1].to
  }

  ghost function Run(base: nat, ops: seq<Resize>): (c: Committed)
    requires ValidRun(base, ops)
    ensures ValidList(c.list) && base <= c.top < UINTPTR_MAX && c.top == TopAfter(base, ops)
  {
    if ops == [] then Committed(base, 0, INITIAL_PERMISSIONS)
    else
      var c := Run(base, ops[..|ops| - 1]);
      var op := ops[|ops| - 1];
      if op.Grow? then
        UpdatedValid(c.list, c.top, op.to, 1);
        Apply(c, op)
      else
        UpdatedValid(c.list, op.to, c.top, 0);
        Apply(c, op)
  }

  /** Exactly the committed bytes are accessible. */
  ghost predicate Exact(s: PermissionList, base: nat, top: nat) {
    forall a | 0 <= a < UINTPTR_MAX :: PermAt(s, a) == if base <= a < top then 1 else 0
  }

  predicate IsKey(s: PermissionList, k: nat) {
    HasKey(s, k, k + 1)
  }

  /** The only breakpoints are the sentinels, the two ends of the memory, and the stale top. */
  ghost predicate Tidy(base: nat, c: Committed) {
    && ValidList(c.list)
    && Exact(c.list, base, c.top)
    && (c.stale != 0 ==> c.top < c.stale < UINTPTR_MAX && IsKey(c.list, c.stale))
    && forall k | c.top < k < UINTPTR_MAX && IsKey(c.list, k) :: k == c.stale
  }

  /** A breakpoint of an updated list is an end of the range, or the denoted function changes there. */
  lemma {:induction false} KeysOfSurvivors(s: PermissionList, lo: nat, hi: nat, k: nat)
    requires ValidList(s)
    requires 0 < k < UINTPTR_MAX
    requires IsKey(Survivors(s, lo, hi), k)
    ensures HasSurvivor(s, k, k + 1) && lo <= k < hi
  {
    assert s[..|s|] == s;
    KeysOfSurvivorsPrefix(s, |s|, lo, hi, k);
  }

  lemma {:induction false} KeysOfSurvivorsPrefix(s: PermissionList, n: nat, lo: nat, hi: nat, k: nat)
    requires n <= |s|
    requires IsKey(Survivors(s[..n], lo, hi), k)
    ensures HasSurvivor(s, k, k + 1) && lo <= k < hi
  {
    var t := Survivors(s[..n], lo, hi);
    var i :| 0 <= i < |t| && k <= t[i].addr < k + 1;
    if n > 0 {
      assert s[..n][..n - 1] == s[..n - 1];
      assert Kept(s[..n], n - 1) == Kept(s, n - 1);
      var rest := Survivors(s[..n - 1], lo, hi);
      if i < |rest| {
        assert rest[i] == t[i];
        KeysOfSurvivorsPrefix(s, n - 1, lo, hi, k);
      } else {
        assert t[i] == s[n - 1];
      }
    }
  }

  lemma KeysOfUpdated(s: PermissionList, begin: nat, end: nat, perms: nat, k: nat)
    requires ValidList(s)
    requires begin < end < UINTPTR_MAX
    requires end < k < UINTPTR_MAX
    requires IsKey(Updated(s, begin, end, perms), k)
    ensures PermAt(s, k) != PermBefore(s, k)
  {
    SurvivorsSorted(s, 0, begin);
    KeyBehind(Survivors(s, 0, begin) + Opening(s, begin, perms) + Closing(s, begin, end, perms),
              Survivors(s, end, UINTPTR_MAX + 1), k);
    KeysOfSurvivors(s, end, UINTPTR_MAX + 1, k);
    EndBreakpoint(s, k);
  }

  /** A breakpoint above everything in the first list is one of the second. */
  lemma KeyBehind(first: PermissionList, second: PermissionList, k: nat)
    requires forall i :: 0 <= i < |first| ==> first[i].addr < k
    requires IsKey(first + second, k)
    ensures IsKey(second, k)
  {
    var i :| 0 <= i < |first + second| && k <= (first + second)[i].addr < k + 1;
    assert second[i - |first|] == (first + second)[i];
  }

  lemma SurvivorStays(s: PermissionList, begin: nat, end: nat, perms: nat)
    requires ValidList(s)
    requires begin < end < UINTPTR_MAX
    requires HasSurvivor(s, end, end + 1)
    ensures IsKey(Updated(s, begin, end, perms), end)
  {
    var high := Survivors(s, end, UINTPTR_MAX + 1);
    var i :| 0 <= i < |s| && end <= s[i].addr < end + 1 && Kept(s, i);
    SurvivorKept(s, |s|, i, end, UINTPTR_MAX + 1);
    assert s[..|s|] == s;
    var j :| 0 <= j < |high| && high[j] == s[i];
    var u := Updated(s, begin, end, perms);
    assert u[|u| - |high| + j] == s[i];
  }

  lemma {:induction false} SurvivorKept(s: PermissionList, n: nat, i: nat, lo: nat, hi: nat)
    requires i < n <= |s|
    requires lo <= s[i].addr < hi && Kept(s, i)
    ensures s[i] in Survivors(s[..n], lo, hi)
  {
    assert s[..n][..n - 1] == s[..n - 1];
    assert Kept(s[..n], n - 1) == Kept(s, n - 1);
    if i < n - 1 {
      SurvivorKept(s, n - 1, i, lo, hi);
    }
  }

  /** A grow keeps exactly the committed bytes accessible unless it ends on the stale top. */
  lemma GrowStep(base: nat, c: Committed, to: nat)
    requires 0 < base <= c.top
    requires Tidy(base, c)
    requires c.top < to < UINTPTR_MAX
    ensures Exact(Apply(c, Grow(to)).list, base, to) <==> to != c.stale
    ensures to != c.stale ==> Tidy(base, Apply(c, Grow(to)))
  {
    var s := c.list;
    var s' := Updated(s, c.top, to, 1);
    FirstIsLowest(s);
    assert s[0].perm == PermAt(s, 0) == 0;
    assert PermAt(s, to) == 0 && PermAt(s, to - 1) == 0 && PermAt(s, c.top) == 0;
    OverrideIff(s, c.top, to, 1);
    assert OverrideCondition(s, c.top, to, 1) <==> !IsKey(s, to);
    assert IsKey(s, to) <==> to == c.stale;
    OverrideExact(s, s', base, c.top, to);
    if to != c.stale {
      UpdatedValid(s, c.top, to, 1);
      forall k | to < k < UINTPTR_MAX && IsKey(s', k)
        ensures false
      {
        assert PermAt(s, k) == 0 && PermAt(s, k - 1) == 0;
        KeysOfUpdated(s, c.top, to, 1, k);
      }
    }
  }

  lemma OverrideExact(s: PermissionList, s': PermissionList, base: nat, top: nat, to: nat)
    requires base <= top < to < UINTPTR_MAX
    requires Exact(s, base, top)
    ensures IsOverride(s, top, to, 1, s') <==> Exact(s', base, to)
  {
    assert forall a | 0 <= a < UINTPTR_MAX :: Override(s, top, to, 1, a) == if base <= a < to then 1 else 0;
    if Exact(s', base, to) {
      assert forall a | 0 <= a < UINTPTR_MAX :: PermAt(s', a) == Override(s, top, to, 1, a);
    }
    if IsOverride(s, top, to, 1, s') {
      assert forall a | 0 <= a < UINTPTR_MAX :: PermAt(s', a) == if base <= a < to then 1 else 0;
    }
  }

  lemma FirstIsLowest(s: PermissionList)
    requires ValidList(s)
    ensures PermAt(s, 0) == s[0].perm
  {
    PermBeforePrefix(s, 1, 1);
    assert s[..1] == [s[0]];
  }

  /** A shrink always keeps exactly the committed bytes accessible, and leaves the old top stale. */
  lemma ShrinkStep(base: nat, c: Committed, to: nat)
    requires 0 < base <= to < c.top < UINTPTR_MAX
    requires Tidy(base, c)
    ensures Tidy(base, Apply(c, Shrink(to)))
  {
    var s := c.list;
    var s' := Updated(s, to, c.top, 0);
    assert PermAt(s, c.top) == 0 && PermAt(s, c.top - 1) == 1;
    EndBreakpoint(s, c.top);
    OverrideIff(s, to, c.top, 0);
    UpdatedValid(s, to, c.top, 0);
    SurvivorStays(s, to, c.top, 0);
    forall a | 0 <= a < UINTPTR_MAX
      ensures PermAt(s', a) == if base <= a < to then 1 else 0
    {
      assert PermAt(s', a) == Override(s, to, c.top, 0, a);
    }
    forall k | to < k < UINTPTR_MAX && IsKey(s', k)
      ensures k == c.top
    {
      if k > c.top {
        assert PermAt(s, k) == 0 && PermAt(s, k - 1) == 0;
        KeysOfUpdated(s, to, c.top, 0, k);
      } else if k < c.top {
        NoKeyInside(s, to, c.top, k);
      }
    }
  }

  lemma NoKeyInside(s: PermissionList, begin: nat, end: nat, k: nat)
    requires ValidList(s)
    requires begin < k < end < UINTPTR_MAX
    ensures !IsKey(Updated(s, begin, end, 0), k)
  {
    SurvivorsSorted(s, 0, begin);
    SurvivorsSorted(s, end, UINTPTR_MAX + 1);
    var low := Survivors(s, 0, begin);
    var open := Opening(s, begin, 0);
    var close := Closing(s, begin, end, 0);
    var high := Survivors(s, end, UINTPTR_MAX + 1);
    var u := Updated(s, begin, end, 0);
    forall i | 0 <= i < |u| ensures u[i].addr != k {
      var n := |low| + |open| + |close|;
      if i < |low| {
        assert u[i] == low[i];
      } else if i >= n {
        assert u[i] == high[i - n];
      }
    }
  }

  lemma InitiallyTidy(base: nat)
    requires 0 < base < UINTPTR_MAX
    ensures Tidy(base, Committed(base, 0, INITIAL_PERMISSIONS))
  {
    var s := INITIAL_PERMISSIONS;
    forall a | 0 <= a < UINTPTR_MAX ensures PermAt(s, a) == 0 {
      PermBeforePrefix(s, 1, a + 1);
      assert s[..1] == [Entry(0, 0)];
    }
  }

  /** No grow of the run ends on the top that the shrink right before it left. */
  ghost predicate NeverReturns(base: nat, ops: seq<Resize>)
    requires ValidRun(base, ops)
  {
    ops != [] ==>
      var before := ops[..|ops| - 1];
      NeverReturns(base, before)
      && (ops[|ops| - 1].Grow? ==> ops[|ops| - 1].to != Run(base, before).stale)
  }

  ghost predicate ExactThroughout(base: nat, ops: seq<Resize>)
    requires ValidRun(base, ops)
  {
    && Exact(Run(base, ops).list, base, TopAfter(base, ops))
    && (ops != [] ==> ExactThroughout(base, ops[..|ops| - 1]))
  }

  lemma {:induction false} TidyRun(base: nat, ops: seq<Resize>)
    requires ValidRun(base, ops)
    requires NeverReturns(base, ops)
    ensures Tidy(base, Run(base, ops))
  {
    if ops == [] {
      InitiallyTidy(base);
    } else {
      var before := ops[..|ops| - 1];
      TidyRun(base, before);
      match ops[|ops| - 1] {
        case Grow(to) => GrowStep(base, Run(base, before), to);
        case Shrink(to) => ShrinkStep(base, Run(base, before), to);
      }
    }
  }

  /**
   The accessible set equals the committed memory after every step of a history
   exactly when no grow returns to the top its preceding shrink left.
   */
  lemma {:induction false} ExactIff(base: nat, ops: seq<Resize>)
    requires ValidRun(base, ops)
    ensures ExactThroughout(base, ops) <==> NeverReturns(base, ops)
  {
    if ops == [] {
      InitiallyTidy(base);
    } else {
      var before := ops[..|ops| - 1];
      ExactIff(base, before);
      if NeverReturns(base, before) {
        TidyRun(base, before);
        match ops[|ops| - 1] {
          case Grow(to) => GrowStep(base, Run(base, before), to);
          case Shrink(to) => ShrinkStep(base, Run(base, before), to);
        }
      }
    }
  }

  /** Memory that only grows never leaves a stale top, so it is always exact. */
  lemma {:induction false} GrowOnlyIsExact(base: nat, ops: seq<Resize>)
    requires ValidRun(base, ops)
    requires forall i :: 0 <= i < |ops| ==> ops[i].Grow?
    ensures ExactThroughout(base, ops) && Run(base, ops).stale == 0
  {
    ExactIff(base, ops);
    GrowOnlyNeverReturns(base, ops);
  }

  lemma {:induction false} GrowOnlyNeverReturns(base: nat, ops: seq<Resize>)
    requires ValidRun(base, ops)
    requires forall i :: 0 <= i < |ops| ==> ops[i].Grow?
    ensures NeverReturns(base, ops) && Run(base, ops).stale == 0
  {
    if ops != [] {
      GrowOnlyNeverReturns(base, ops[..|ops| - 1]);
    }
  }

  /** A grow that ends on the stale top makes every address above the memory accessible. */
  lemma GrowBackOpensAll(base: nat, c: Committed, a: nat)
    requires 0 < base <= c.top && Tidy(base, c) && c.stale != 0
    requires c.stale <= a < UINTPTR_MAX
    ensures PermAt(Apply(c, Grow(c.stale)).list, a) == 1
  {
    var s := c.list;
    assert PermAt(s, c.stale) == 0 && PermAt(s, c.stale - 1) == 0;
    EndBreakpoint(s, c.stale);
    UpdatedMeaning(s, c.top, c.stale, 1, a);
    forall i | 0 <= i < |s| && c.stale <= s[i].addr < a + 1 ensures !Kept(s, i) {
      assert IsKey(s, s[i].addr);
      assert s[i].addr == c.stale;
    }
  }

  /** The failing history: grow, shrink, grow back. Every address from the top of the memory on is accessible. */
  lemma GrowBackLeaks()
    ensures ValidRun(65536, [Grow(196608), Shrink(131072), Grow(196608)])
    ensures !ExactThroughout(65536, [Grow(196608), Shrink(131072), Grow(196608)])
    ensures forall a | 196608 <= a < UINTPTR_MAX :: PermAt(Run(65536, [Grow(196608), Shrink(131072), Grow(196608)]).list, a) == 1
  {
    var ops := [Grow(196608), Shrink(131072), Grow(196608)];
    assert ops[..2] == [Grow(196608), Shrink(131072)];
    assert ops[..2][..1] == [Grow(196608)];
    assert [Grow(196608)][..0] == [];
    assert ValidRun(65536, ops[..2][..1]);
    assert ValidRun(65536, ops[..2]);
    ExactIff(65536, ops);
    var before := Run(65536, ops[..2]);
    assert NeverReturns(65536, ops[..2][..1]) && NeverReturns(65536, ops[..2]);
    TidyRun(65536, ops[..2]);
    assert before.stale == 196608;
    forall a | 196608 <= a < UINTPTR_MAX ensures PermAt(Run(65536, ops).list, a) == 1 {
      GrowBackOpensAll(65536, before, a);
    }
  }
}
