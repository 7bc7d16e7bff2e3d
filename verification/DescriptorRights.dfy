/**
 * The file descriptor table: numbers are handed out upwards from 5, and what
 * is opened below a descriptor gets at most the rights that descriptor lets
 * its children inherit.
 */
module DescriptorRights {
  import opened Options

  type Rights = bv64

  predicate Within(a: Rights, b: Rights) { a & b == a }

  const FIRST_FREE := 5

  datatype Descriptor = Descriptor(path: string, base: Rights, inheriting: Rights)

  /** `parents` records below which descriptor each one was opened; the predefined ones have none. */
  datatype Table = Table(nextFd: int, fds: map<int, Descriptor>, parents: map<int, int>)

  /** How opening the path below ended: done, refused with an error number, or thrown. */
  datatype Outcome = Done | Refused(errno: int) | Thrown

  datatype Action =
    | Open(root: int, path: string, base: Rights, inheriting: Rights, outcome: Outcome)
    | Dup(fd: int)

  /** A new descriptor for `path`, which is already joined with the root's. */
  function Opened(t: Table, root: int, path: string, base: Rights, inheriting: Rights): Table
    requires root in t.fds
  {
    Added(t, Child(t.fds[root], path, base, inheriting), Some(root))
  }

  function Child(root: Descriptor, path: string, base: Rights, inheriting: Rights): Descriptor {
    Descriptor(path, base & root.inheriting, inheriting & root.inheriting)
  }

  function Added(t: Table, d: Descriptor, parent: Option<int>): Table {
    Table(t.nextFd + 1, t.fds[t.nextFd := d], if parent.Some? then t.parents[t.nextFd := parent.value] else t.parents)
  }

  /** A duplicate hangs below whatever the original hangs below. */
  function Duplicated(t: Table, fd: int): Table
    requires fd in t.fds
  {
    Added(t, t.fds[fd], if fd in t.parents then Some(t.parents[fd]) else None)
  }

  /** An unknown root throws at once; an unknown descriptor to duplicate first uses up a number. */
  function Step(t: Table, a: Action): Table {
    match a
    case Open(root, path, base, inheriting, outcome) =>
      if root !in t.fds then t else Opened(t, root, path, base, inheriting)
    case Dup(fd) =>
      if fd !in t.fds then t.(nextFd := t.nextFd + 1) else Duplicated(t, fd)
  }

  /** What the caller gets: a descriptor, a negated error number, or an exception. */
  function Returned(t: Table, a: Action): Option<int> {
    match a
    case Open(root, path, base, inheriting, outcome) =>
      if root !in t.fds || outcome.Thrown? then None
      else if outcome.Refused? then Some(-outcome.errno)
      else Some(t.nextFd)
    case Dup(fd) => if fd !in t.fds then None else Some(t.nextFd)
  }

  // ---------- Rights ----------

  lemma AndAssociates(a: Rights, b: Rights, c: Rights)
    ensures (a & b) & c == a & (b & c)
  {
  }

  lemma AndCommutes(a: Rights, b: Rights)
    ensures a & b == b & a
  {
  }

  lemma AndAbsorbs(a: Rights, b: Rights)
    ensures (a & b) & b == a & b
  {
  }

  lemma WithinBoth(x: Rights, a: Rights, b: Rights)
    requires Within(x, a) && Within(x, b)
    ensures Within(x, a & b)
  {
    AndAssociates(x, a, b);
  }

  lemma WithinSecond(x: Rights, a: Rights, b: Rights)
    requires Within(x, a & b)
    ensures Within(x, b)
  {
    AndAssociates(x, a, b);
    AndAbsorbs(x & a, b);
  }

  /** What is granted is exactly what was asked for and may be inherited: the greatest such set. */
  lemma GrantIsGreatest(asked: Rights, limit: Rights, x: Rights)
    ensures Within(x, asked & limit) <==> Within(x, asked) && Within(x, limit)
  {
    if Within(x, asked & limit) {
      WithinSecond(x, asked, limit);
      AndCommutes(asked, limit);
      WithinSecond(x, limit, asked);
    } else if Within(x, asked) && Within(x, limit) {
      WithinBoth(x, asked, limit);
    }
  }

  /** What a request got under a limit: a right is in it exactly when it was asked for and the limit has it. */
  ghost predicate Granted(got: Rights, asked: Rights, limit: Rights) {
    forall x: Rights :: Within(x, got) <==> Within(x, asked) && Within(x, limit)
  }

  lemma AndGrants(asked: Rights, limit: Rights)
    ensures Granted(asked & limit, asked, limit)
  {
    forall x ensures Within(x, asked & limit) <==> Within(x, asked) && Within(x, limit) {
      GrantIsGreatest(asked, limit, x);
    }
  }

  /** Opening grants the base rights in full, up to what the root lets its children inherit. */
  lemma ChildBaseGranted(root: Descriptor, path: string, base: Rights, inheriting: Rights)
    ensures Granted(Child(root, path, base, inheriting).base, base, root.inheriting)
  {
    AndGrants(base, root.inheriting);
  }

  /** And the inheriting rights likewise. */
  lemma ChildInheritingGranted(root: Descriptor, path: string, base: Rights, inheriting: Rights)
    ensures Granted(Child(root, path, base, inheriting).inheriting, inheriting, root.inheriting)
  {
    AndGrants(inheriting, root.inheriting);
  }

  lemma WithinTransitive(a: Rights, b: Rights, c: Rights)
    requires Within(a, b) && Within(b, c)
    ensures Within(a, c)
  {
    AndAssociates(a, b, c);
  }

  ghost predicate Sound(t: Table) {
    && t.nextFd >= FIRST_FREE
    && (forall fd :: fd in t.fds ==> fd < t.nextFd)
    && (forall fd :: fd in t.parents ==> fd in t.fds && t.parents[fd] in t.fds && t.parents[fd] < fd)
    && (forall fd :: fd in t.parents ==> Limited(t.fds[fd], t.fds[t.parents[fd]]))
  }

  /** A descriptor's rights are among those its parent lets it inherit. */
  predicate Limited(d: Descriptor, parent: Descriptor) {
    Within(d.base, parent.inheriting) && Within(d.inheriting, parent.inheriting)
  }

  lemma GrantLimited(path: string, base: Rights, inheriting: Rights, parent: Descriptor)
    ensures Limited(Child(parent, path, base, inheriting), parent)
  {
    AndAbsorbs(base, parent.inheriting);
    AndAbsorbs(inheriting, parent.inheriting);
  }

  /** Adding a descriptor below a parent that limits it, or below none. */
  lemma AddSound(t: Table, d: Descriptor, parent: Option<int>)
    requires Sound(t)
    requires parent.Some? ==> parent.value in t.fds && Limited(d, t.fds[parent.value])
    ensures Sound(Added(t, d, parent))
  {
  }

  lemma OpenSound(t: Table, root: int, path: string, base: Rights, inheriting: Rights)
    requires Sound(t) && root in t.fds
    ensures Sound(Opened(t, root, path, base, inheriting))
  {
    var d := t.fds[root];
    GrantLimited(path, base, inheriting, d);
    AddSound(t, Child(d, path, base, inheriting), Some(root));
  }

  lemma DupSound(t: Table, fd: int)
    requires Sound(t) && fd in t.fds
    ensures Sound(Duplicated(t, fd))
  {
    AddSound(t, t.fds[fd], if fd in t.parents then Some(t.parents[fd]) else None);
  }

  /** Every open, refused and thrown ones included, and every duplicate keeps the table sound. */
  lemma StepSound(t: Table, a: Action)
    requires Sound(t)
    ensures Sound(Step(t, a))
  {
    match a
    case Open(root, path, base, inheriting, outcome) =>
      if root in t.fds {
        OpenSound(t, root, path, base, inheriting);
      }
    case Dup(fd) =>
      if fd in t.fds {
        DupSound(t, fd);
      }
  }

  /** `a` is `steps` levels above `fd`. */
  ghost predicate Above(t: Table, a: int, fd: int, steps: nat)
    decreases steps
  {
    if steps == 0 then a == fd
    else fd in t.parents && Above(t, a, t.parents[fd], steps - 1)
  }

  /** Nothing has a right that one of its ancestors, however far up, does not let its children inherit. */
  lemma {:induction false} RightsOfEveryAncestor(t: Table, a: int, fd: int, steps: nat)
    requires Sound(t) && fd in t.fds && Above(t, a, fd, steps) && steps > 0
    ensures a in t.fds && a < fd
    ensures Within(t.fds[fd].base, t.fds[a].inheriting) && Within(t.fds[fd].inheriting, t.fds[a].inheriting)
    decreases steps
  {
    assert Limited(t.fds[fd], t.fds[t.parents[fd]]);
    var p := t.parents[fd];
    if steps > 1 {
      RightsOfEveryAncestor(t, a, p, steps - 1);
      WithinTransitive(t.fds[fd].base, t.fds[p].inheriting, t.fds[a].inheriting);
      WithinTransitive(t.fds[fd].inheriting, t.fds[p].inheriting, t.fds[a].inheriting);
    }
  }

  // ---------- Runs ----------

  function Run(t: Table, actions: seq<Action>): Table
    decreases |actions|
  {
    if actions == [] then t else Run(Step(t, actions[0]), actions[1..])
  }

  /** A run never changes or removes a descriptor, nor moves it to another parent. */
  lemma {:induction false} RunKeeps(t: Table, actions: seq<Action>)
    requires Sound(t)
    ensures var end := Run(t, actions);
            && Sound(end) && end.nextFd >= t.nextFd
            && (forall fd :: fd in t.fds ==>
                  fd in end.fds && end.fds[fd] == t.fds[fd]
                  && (fd in t.parents <==> fd in end.parents)
                  && (fd in t.parents ==> t.parents[fd] == end.parents[fd]))
    decreases |actions|
  {
    if actions != [] {
      StepSound(t, actions[0]);
      RunKeeps(Step(t, actions[0]), actions[1..]);
    }
  }

  /** A number is returned at most once in a run, and never one that was in use. */
  lemma NumbersAreFresh(t: Table, first: Action, between: seq<Action>, second: Action)
    requires Sound(t)
    ensures Succeeds(t, first) ==> Returned(t, first).value !in t.fds
    ensures var after := Run(Step(t, first), between);
            Succeeds(t, first) && Succeeds(after, second) ==> Returned(t, first).value < Returned(after, second).value
  {
    StepSound(t, first);
    RunKeeps(Step(t, first), between);
  }

  predicate Succeeds(t: Table, a: Action) {
    match a
    case Open(root, _, _, _, outcome) => root in t.fds && outcome.Done?
    case Dup(fd) => fd in t.fds
  }

  /**
   * Over any run, whatever is opened has no right that an ancestor withholds,
   * all the way up to the predefined descriptor it descends from.
   */
  lemma RunRights(t: Table, actions: seq<Action>, a: int, fd: int, steps: nat)
    requires Sound(t)
    requires var end := Run(t, actions); fd in end.fds && Above(end, a, fd, steps) && steps > 0
    ensures var end := Run(t, actions);
            a in end.fds && Limited(end.fds[fd], end.fds[a])
  {
    RunKeeps(t, actions);
    RightsOfEveryAncestor(Run(t, actions), a, fd, steps);
  }

  // ---------- The class ----------

  class FileSystem {
    var nextFd: int
    var fileDescriptors: map<int, Descriptor>
    ghost var parents: map<int, int>

    ghost function State(): Table
      reads this
    {
      Table(nextFd, fileDescriptors, parents)
    }

    /** Standard streams at 0 to 2, the roots "/" and "." at 3 and 4. */
    constructor (std: Rights, directory: Rights, inheriting: Rights)
      ensures Sound(State()) && nextFd == FIRST_FREE && parents == map[]
      ensures fileDescriptors.Keys == {0, 1, 2, 3, 4}
      ensures forall fd :: fd in {3, 4} ==> fileDescriptors[fd].base == directory && fileDescriptors[fd].inheriting == inheriting
      ensures forall fd :: fd in {0, 1, 2} ==> fileDescriptors[fd].base == std && fileDescriptors[fd].inheriting == std
      ensures fileDescriptors[3].path == "/" && fileDescriptors[4].path == "."
    {
      fileDescriptors := map[
        0 := Descriptor("/dev/stdin", std, std), 1 := Descriptor("/dev/stdout", std, std), 2 := Descriptor("/dev/stderr", std, std),
        3 := Descriptor("/", directory, inheriting), 4 := Descriptor(".", directory, inheriting)];
      nextFd := 5;
      parents := map[];
    }

    method GetNewFd() returns (fd: int)
      modifies this`nextFd
      ensures fd == old(nextFd) && nextFd == fd + 1
    {
      fd := nextFd;
      nextFd := nextFd + 1;
    }

    method OpenFileDescriptor(root: int, path: string, base: Rights, inheriting: Rights, outcome: Outcome) returns (r: Option<int>)
      requires Sound(State())
      modifies this
      ensures Sound(State())
      ensures State() == Step(old(State()), Open(root, path, base, inheriting, outcome))
      ensures r == Returned(old(State()), Open(root, path, base, inheriting, outcome))
      ensures root !in old(fileDescriptors) ==> r.None? && State() == old(State())
      ensures root in old(fileDescriptors) ==>
                && r == (match outcome case Done => Some(old(nextFd)) case Refused(errno) => Some(-errno) case Thrown => None)
                && nextFd == old(nextFd) + 1 && parents == old(parents)[old(nextFd) := root]
                && fileDescriptors.Keys == old(fileDescriptors).Keys + {old(nextFd)}
                && (forall fd | fd in old(fileDescriptors) :: fileDescriptors[fd] == old(fileDescriptors)[fd])
                && fileDescriptors[old(nextFd)].path == path
                && Granted(fileDescriptors[old(nextFd)].base, base, fileDescriptors[root].inheriting)
                && Granted(fileDescriptors[old(nextFd)].inheriting, inheriting, fileDescriptors[root].inheriting)
    {
      StepSound(State(), Open(root, path, base, inheriting, outcome));
      if root !in fileDescriptors {
        return None;
      }
      var rootDesc := fileDescriptors[root];
      ChildBaseGranted(rootDesc, path, base, inheriting);
      ChildInheritingGranted(rootDesc, path, base, inheriting);
      var fd := GetNewFd();
      fileDescriptors := fileDescriptors[fd := Child(rootDesc, path, base, inheriting)];
      parents := parents[fd := root];
      match outcome {
        case Done => r := Some(fd);
        case Refused(errno) => r := Some(-1 * errno);
        case Thrown => r := None;
      }
    }

    method DupDescriptor(fd: int) returns (r: Option<int>)
      requires Sound(State())
      modifies this
      ensures Sound(State())
      ensures State() == Step(old(State()), Dup(fd)) && r == Returned(old(State()), Dup(fd))
      ensures nextFd == old(nextFd) + 1
      ensures fd !in old(fileDescriptors) ==> r.None? && fileDescriptors == old(fileDescriptors)
      ensures fd in old(fileDescriptors) ==>
                r == Some(old(nextFd)) && fileDescriptors == old(fileDescriptors)[old(nextFd) := old(fileDescriptors)[fd]]
    {
      StepSound(State(), Dup(fd));
      var newFd := GetNewFd();
      if fd !in fileDescriptors {
        return None;
      }
      fileDescriptors := fileDescriptors[newFd := fileDescriptors[fd]];
      if fd in parents {
        parents := parents[newFd := parents[fd]];
      }
      return Some(newFd);
    }
  }
}
