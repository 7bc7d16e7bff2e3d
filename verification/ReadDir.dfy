/**
 Directory listings for the guest, in the format of `fd_readdir` of WASI snapshot
 preview 1: a 24-byte header and the name, one record after the other. The buffer is
 filled to the end, so the last record may be cut; the caller sees the cut record again
 at the start of the next call.
 */
module ReadDir {
  import opened Bytes

  const HEADER_BYTES: nat := 24

  /** What the host's directory stream yields. */
  datatype RawEntry = RawEntry(kind: byte, ino: nat, name: bytes)

  datatype DirEnt = DirEnt(next: nat, kind: byte, ino: nat, name: bytes)

  ghost predicate Encodable(e: DirEnt) {
    e.next < Pow256(8) && e.ino < Pow256(8) && |e.name| < Pow256(4)
  }

  ghost predicate AllEncodable(es: seq<DirEnt>) {
    forall i :: 0 <= i < |es| ==> Encodable(es[i])
  }

  function Header(e: DirEnt): (h: bytes)
    ensures |h| == HEADER_BYTES
  {
    Le(e.next, 8) + Le(e.ino, 8) + Le(|e.name|, 4) + [e.kind] + [0, 0, 0]
  }

  function Record(e: DirEnt): (r: bytes)
    ensures |r| == HEADER_BYTES + |e.name|
  {
    Header(e) + e.name
  }

  function Records(es: seq<DirEnt>): bytes {
    if es == [] then [] else Record(es[0]) + Records(es[1..])
  }

  // ----- The reader -----

  function NameLength(b: bytes): nat
    requires |b| >= HEADER_BYTES
  {
    FromLe(b[16..20])
  }

  predicate StartsWithRecord(b: bytes) {
    |b| >= HEADER_BYTES && |b| >= HEADER_BYTES + NameLength(b)
  }

  /** The complete records at the start of a returned buffer. */
  function Decode(b: bytes): seq<DirEnt>
    decreases |b|
  {
    if !StartsWithRecord(b) then []
    else
      var end := HEADER_BYTES + NameLength(b);
      [DirEnt(FromLe(b[..8]), b[20], FromLe(b[8..16]), b[HEADER_BYTES..end])] + Decode(b[end..])
  }

  lemma HeaderFields(e: DirEnt, rest: bytes)
    requires Encodable(e)
    ensures var b := Header(e) + rest;
            FromLe(b[..8]) == e.next && FromLe(b[8..16]) == e.ino && b[20] == e.kind && NameLength(b) == |e.name|
  {
    var b := Header(e) + rest;
    assert b[..8] == Le(e.next, 8);
    assert b[8..16] == Le(e.ino, 8);
    assert b[16..20] == Le(|e.name|, 4);
    LeRoundTrip(e.next, 8);
    LeRoundTrip(e.ino, 8);
    LeRoundTrip(|e.name|, 4);
  }

  lemma DecodeRecord(e: DirEnt, rest: bytes)
    requires Encodable(e)
    ensures Decode(Record(e) + rest) == [e] + Decode(rest)
  {
    var b := Record(e) + rest;
    assert b == Header(e) + (e.name + rest);
    HeaderFields(e, e.name + rest);
    var end := HEADER_BYTES + |e.name|;
    assert b[HEADER_BYTES..end] == e.name;
    assert b[end..] == rest;
  }

  /** Reading inverts writing, whatever a stopped reader finds behind the records. */
  lemma {:induction false} DecodeRecords(es: seq<DirEnt>, rest: bytes)
    requires AllEncodable(es)
    requires !StartsWithRecord(rest)
    ensures Decode(Records(es) + rest) == es
  {
    if es == [] {
      assert Records(es) + rest == rest;
    } else {
      assert Records(es) + rest == Record(es[0]) + (Records(es[1..]) + rest);
      DecodeRecord(es[0], Records(es[1..]) + rest);
      DecodeRecords(es[1..], rest);
    }
  }

  // ----- What one call writes -----

  /** How many leading records fit into `room` bytes. */
  function Fit(es: seq<DirEnt>, room: nat): (k: nat)
    ensures k <= |es|
  {
    if es == [] || |Record(es[0])| > room then 0 else 1 + Fit(es[1..], room - |Record(es[0])|)
  }

  lemma {:induction false} FitFacts(es: seq<DirEnt>, room: nat)
    ensures var k := Fit(es, room);
            && |Records(es[..k])| <= room
            && (k < |es| ==> |Records(es[..k])| + |Record(es[k])| > room)
  {
    if es != [] && |Record(es[0])| <= room {
      FitFacts(es[1..], room - |Record(es[0])|);
      var k := Fit(es, room);
      assert es[..k][1..] == es[1..][..k - 1];
      assert k < |es| ==> es[k] == es[1..][k - 1];
    }
  }

  lemma {:induction false} FitIs(es: seq<DirEnt>, room: nat, k: nat)
    requires k <= |es|
    requires |Records(es[..k])| <= room
    requires k < |es| ==> |Records(es[..k])| + |Record(es[k])| > room
    ensures Fit(es, room) == k
  {
    if k > 0 {
      assert es[..k][1..] == es[1..][..k - 1];
      assert k < |es| ==> es[k] == es[1..][k - 1];
      FitIs(es[1..], room - |Record(es[0])|, k - 1);
    }
  }

  lemma {:induction false} RecordsSnoc(es: seq<DirEnt>, k: nat)
    requires k < |es|
    ensures Records(es[..k + 1]) == Records(es[..k]) + Record(es[k])
  {
    if k == 0 {
      assert es[..1] == [es[0]];
      assert es[..1][1..] == [] && es[..0] == [];
    } else {
      RecordsSnoc(es[1..], k - 1);
      assert es[..k + 1][1..] == es[1..][..k];
      assert es[..k][1..] == es[1..][..k - 1];
    }
  }

  /** The number of bytes a call reports: the whole buffer unless the listing ended. */
  function Reported(es: seq<DirEnt>, room: nat): nat {
    if Fit(es, room) < |es| then room else |Records(es)|
  }

  /** The cut record: its header if that still fits, never its name. */
  function CutHeader(es: seq<DirEnt>, room: nat): bytes {
    var k := Fit(es, room);
    if k < |es| && |Records(es[..k])| + HEADER_BYTES <= room then Header(es[k]) else []
  }

  /** A header whose name is cut is no record. */
  lemma CutRecord(e: DirEnt, junk: bytes)
    requires Encodable(e) && |junk| < |e.name|
    ensures !StartsWithRecord(Header(e) + junk)
  {
    HeaderFields(e, junk);
  }

  /** Decoding what a call returned gives the records that fitted, whatever was in the buffer before. */
  lemma DecodeReturned(es: seq<DirEnt>, returned: bytes, room: nat)
    requires AllEncodable(es)
    requires |returned| == Reported(es, room)
    requires Records(es[..Fit(es, room)]) + CutHeader(es, room) <= returned
    ensures Decode(returned) == es[..Fit(es, room)]
  {
    var k := Fit(es, room);
    FitFacts(es, room);
    var done := Records(es[..k]);
    var cut := CutHeader(es, room);
    var rest := returned[|done|..];
    assert returned == done + rest;
    if k == |es| {
      assert es[..k] == es;
      assert rest == [];
    } else if cut == [] {
      assert |rest| < HEADER_BYTES;
    } else {
      var junk := returned[|done| + HEADER_BYTES..];
      assert rest == Header(es[k]) + junk;
      CutRecord(es[k], junk);
    }
    DecodeRecords(es[..k], rest);
  }

  /** As much of one record as fits: all of it, its header alone, or nothing. */
  function Piece(e: DirEnt, room: nat): bytes {
    if |Record(e)| <= room then Record(e) else if HEADER_BYTES <= room then Header(e) else []
  }

  /** The buffer holds `k` whole records and, if full, the piece of the next that fits. */
  ghost predicate Filled(es: seq<DirEnt>, room: nat, k: nat, full: bool, filled: bytes) {
    if full then
      && k < |es| && |Records(es[..k])| <= room < |Records(es[..k])| + |Record(es[k])|
      && filled == Records(es[..k]) + Piece(es[k], room - |Records(es[..k])|)
    else
      k == |es| && filled == Records(es[..k])
  }

  lemma FillStep(es: seq<DirEnt>, k: nat, room: nat, before: bytes, after: bytes, full: bool)
    requires k < |es| && before == Records(es[..k]) && |before| <= room
    requires after == before + Piece(es[k], room - |before|) && (full <==> |Record(es[k])| > room - |before|)
    ensures full ==> Filled(es, room, k, true, after)
    ensures !full ==> after == Records(es[..k + 1])
  {
    RecordsSnoc(es, k);
  }

  datatype Result<T> = Ok(value: T) | Threw

  class FileDescriptor {
    const directory: seq<RawEntry>
    var dirContentsLoaded: bool
    var dirContents: seq<DirEnt>
    var dirContentsIdx: nat

    ghost predicate Valid()
      reads this
    {
      && dirContentsIdx <= |dirContents|
      && dirContents == (if dirContentsLoaded then Listing(directory) else [])
    }

    ghost predicate Started()
      reads this
    {
      dirContentsLoaded
    }

    constructor (dir: seq<RawEntry>)
      ensures Valid() && directory == dir && !Started() && dirContentsIdx == 0
    {
      directory := dir;
      dirContentsLoaded, dirContents, dirContentsIdx := false, [], 0;
    }

    method LoadDirContents()
      requires Valid() && !dirContentsLoaded
      modifies this`dirContents, this`dirContentsLoaded
      ensures Valid() && dirContentsLoaded && |dirContents| == |directory|
      ensures forall i | 0 <= i < |directory| ::
                && dirContents[i].name == directory[i].name && dirContents[i].ino == directory[i].ino
                && dirContents[i].kind == directory[i].kind && dirContents[i].next == i + 1
    {
      for i := 0 to |directory|
        invariant dirContents == Listing(directory)[..i]
        invariant !dirContentsLoaded && dirContentsIdx == old(dirContentsIdx)
      {
        var raw := directory[i];
        dirContents := dirContents + [DirEnt(i + 1, raw.kind, raw.ino, raw.name)];
      }
      dirContentsLoaded := true;
    }

    method IterBack() returns (threw: bool)
      requires Valid()
      modifies this`dirContentsIdx
      ensures Valid()
      ensures threw <==> !dirContentsLoaded || old(dirContentsIdx) == 0
      ensures dirContentsIdx == if threw then old(dirContentsIdx) else old(dirContentsIdx) - 1
    {
      if !dirContentsLoaded || dirContentsIdx == 0 {
        return true;
      }
      dirContentsIdx := dirContentsIdx - 1;
      threw := false;
    }

    predicate IterFinished()
      reads this
    {
      dirContentsLoaded && dirContentsIdx >= |dirContents|
    }

    method IterNext() returns (r: Result<DirEnt>)
      requires Valid()
      modifies this
      ensures Valid() && dirContentsLoaded
      ensures r.Threw? <==> old(dirContentsIdx) == |Listing(directory)|
      ensures dirContentsIdx == if r.Threw? then old(dirContentsIdx) else old(dirContentsIdx) + 1
      ensures r.Ok? ==> r.value == Listing(directory)[old(dirContentsIdx)]
    {
      if !dirContentsLoaded {
        LoadDirContents();
      }
      if IterFinished() {
        return Threw;
      }
      r := Ok(dirContents[dirContentsIdx]);
      dirContentsIdx := dirContentsIdx + 1;
    }

    /** The entries still to be listed. */
    ghost function Remaining(): seq<DirEnt>
      reads this
      requires Valid()
    {
      Listing(directory)[dirContentsIdx..]
    }

    static method CopyRecord(d: DirEnt, buffer: array<byte>, at: nat) returns (written: nat, full: bool)
      requires at <= buffer.Length
      modifies buffer
      ensures full <==> |Record(d)| > buffer.Length - at
      ensures written == |Piece(d, buffer.Length - at)| <= buffer.Length - at
      ensures buffer[..at + written] == old(buffer[..at]) + Piece(d, buffer.Length - at)
    {
      if buffer.Length - at < HEADER_BYTES {
        return 0, true;
      }
      CopyN(Header(d), buffer, at);
      if buffer.Length - at - HEADER_BYTES < |d.name| {
        return HEADER_BYTES, true;
      }
      CopyN(d.name, buffer, at + HEADER_BYTES);
      return HEADER_BYTES + |d.name|, false;
    }

    /** The next entry, number `k` of `es`, into the buffer behind the records of those before it. */
    method CopyNext(buffer: array<byte>, at: nat, ghost es: seq<DirEnt>, ghost k: nat) returns (threw: bool, used: nat, full: bool)
      requires Valid() && k <= dirContentsIdx && es == Listing(directory)[dirContentsIdx - k..]
      requires at <= buffer.Length && buffer[..at] == Records(es[..k])
      modifies this, buffer
      ensures Valid() && dirContentsLoaded
      ensures threw <==> k == |es|
      ensures dirContentsIdx == old(dirContentsIdx) + if threw then 0 else 1
      ensures used <= buffer.Length
      ensures !threw ==> if full then Filled(es, buffer.Length, k, true, buffer[..used]) else buffer[..used] == Records(es[..k + 1])
    {
      var d := IterNext();
      if d.Threw? {
        return true, at, false;
      }
      assert d.value == es[k];
      ghost var before := buffer[..at];
      var written;
      written, full := CopyRecord(d.value, buffer, at);
      used := at + written;
      FillStep(es, k, buffer.Length, before, buffer[..used], full);
      threw := false;
    }

    /** The copying loop: `k` whole records, then possibly the header of the one that is cut. */
    method FillBuffer(buffer: array<byte>) returns (threw: bool, used: nat, full: bool, ghost k: nat)
      requires Valid()
      modifies this, buffer
      ensures Valid() && dirContentsLoaded
      ensures threw <==> !old(dirContentsLoaded) && directory == []
      ensures !threw ==> dirContentsIdx == old(dirContentsIdx) + k + if full then 1 else 0
      ensures !threw ==> used <= buffer.Length && Filled(old(Remaining()), buffer.Length, k, full, buffer[..used])
    {
      ghost var es := Remaining();
      threw, used, full, k := false, 0, false, 0;
      assert es[..0] == [];
      while !IterFinished()
        invariant Valid() && 0 <= k <= |es| && dirContentsIdx == old(dirContentsIdx) + k
        invariant dirContentsLoaded == (old(dirContentsLoaded) || k > 0)
        invariant used <= buffer.Length && buffer[..used] == Records(es[..k])
        decreases |es| - k
      {
        threw, used, full := CopyNext(buffer, used, es, k);
        if threw {
          return;
        }
        if full {
          return;
        }
        k := k + 1;
      }
    }

    /** Throws only on the first call for a directory without any entry. */
    method CopyDirentsToWasiBuffer(buffer: array<byte>) returns (r: Result<nat>)
      requires Valid() && AllEncodable(Listing(directory))
      modifies this, buffer
      ensures Valid() && dirContentsLoaded
      ensures r.Threw? <==> !old(dirContentsLoaded) && directory == []
      ensures r.Ok? ==>
                var es := old(Remaining());
                && dirContentsIdx == old(dirContentsIdx) + Fit(es, buffer.Length)
                && r.value == Reported(es, buffer.Length) <= buffer.Length
                && Decode(buffer[..r.value]) == es[..Fit(es, buffer.Length)]
    {
      ghost var es := Remaining();
      var threw, used, full, k := FillBuffer(buffer);
      if threw {
        return Threw;
      }
      var size := if full then buffer.Length else used;
      assert buffer[..used] <= buffer[..size];
      ReturnedDecodes(es, buffer.Length, k, full, buffer[..used], buffer[..size]);
      if full {
        var _ := IterBack();
      }
      r := Ok(size);
    }
  }

  lemma ReturnedDecodes(es: seq<DirEnt>, room: nat, k: nat, full: bool, filled: bytes, returned: bytes)
    requires AllEncodable(es)
    requires Filled(es, room, k, full, filled) && |filled| <= room && filled <= returned
    requires |returned| == if full then room else |filled|
    ensures Fit(es, room) == k && Reported(es, room) == |returned| && Decode(returned) == es[..k]
  {
    FitIs(es, room, k);
    assert k == |es| ==> es[..k] == es;
    DecodeReturned(es, returned, room);
  }

  /** The listing: the host's entries in order, each with the cookie of the one after it. */
  function Listing(directory: seq<RawEntry>): seq<DirEnt> {
    seq(|directory|, i requires 0 <= i < |directory| =>
      DirEnt(i + 1, directory[i].kind, directory[i].ino, directory[i].name))
  }

  /** The host's first entries, in its order: name, inode and kind as the host has them, and the cookie to go on from. */
  ghost predicate ListsFirst(listed: seq<DirEnt>, directory: seq<RawEntry>) {
    && |listed| <= |directory|
    && forall i | 0 <= i < |listed| ::
         && listed[i].name == directory[i].name && listed[i].ino == directory[i].ino
         && listed[i].kind == directory[i].kind && listed[i].next == i + 1
  }

  // ----- Sequences of calls -----

  /** The position in the listing after calls with buffers of these sizes. */
  function Position(es: seq<DirEnt>, sizes: seq<nat>): (p: nat)
    ensures p <= |es|
  {
    if sizes == [] then 0
    else
      var before := Position(es, sizes[..|sizes| - 1]);
      before + Fit(es[before..], sizes[|sizes| - 1])
  }

  /** A call makes progress exactly when its buffer holds the next record. */
  lemma ProgressIff(es: seq<DirEnt>, size: nat)
    requires es != []
    ensures Fit(es, size) > 0 <==> size >= HEADER_BYTES + |es[0].name|
  {
  }

  /** A call reports less than its buffer only at the end of the listing, and never more. */
  lemma ShortOnlyAtEnd(es: seq<DirEnt>, size: nat)
    ensures Reported(es, size) <= size
    ensures Reported(es, size) < size ==> Fit(es, size) == |es|
    ensures Fit(es, size) == |es| ==> Reported(es, size) == |Records(es)|
  {
    FitFacts(es, size);
    assert Fit(es, size) == |es| ==> es[..Fit(es, size)] == es;
  }

  ghost predicate LargeEnough(es: seq<DirEnt>, sizes: seq<nat>) {
    forall i, j :: 0 <= i < |es| && 0 <= j < |sizes| ==> sizes[j] >= HEADER_BYTES + |es[i].name|
  }

  lemma {:induction false} EveryCallAdvances(es: seq<DirEnt>, sizes: seq<nat>)
    requires LargeEnough(es, sizes)
    ensures Position(es, sizes) >= if |sizes| < |es| then |sizes| else |es|
  {
    if sizes != [] {
      var last := |sizes| - 1;
      var rest := sizes[..last];
      EveryCallAdvances(es, rest);
      var before := Position(es, rest);
      if before < |es| {
        var left := es[before..];
        assert left[0] == es[before];
        assert Fit(left, sizes[last]) > 0;
      }
    }
  }

  lemma AllListed(es: seq<DirEnt>, sizes: seq<nat>)
    requires LargeEnough(es, sizes) && |sizes| >= |es|
    ensures es[..Position(es, sizes)] == es
  {
    EveryCallAdvances(es, sizes);
  }

  lemma PositionStep(es: seq<DirEnt>, sizes: seq<nat>, i: nat)
    requires i < |sizes|
    ensures var before := Position(es, sizes[..i]); Position(es, sizes[..i + 1]) == before + Fit(es[before..], sizes[i])
  {
    assert sizes[..i + 1][..i] == sizes[..i];
  }

  lemma PrefixLists(directory: seq<RawEntry>, n: nat)
    requires n <= |directory|
    ensures ListsFirst(Listing(directory)[..n], directory)
  {
  }

  lemma NextSlice(es: seq<DirEnt>, before: nat, more: nat)
    requires before + more <= |es|
    ensures es[..before] + es[before..][..more] == es[..before + more]
  {
  }

  /** One call, and what a caller adds to its list from the bytes returned. */
  method ListMore(fd: FileDescriptor, size: nat, listed: seq<DirEnt>) returns (r: Result<nat>, longer: seq<DirEnt>)
    requires fd.Valid() && AllEncodable(Listing(fd.directory)) && listed == Listing(fd.directory)[..fd.dirContentsIdx]
    modifies fd
    ensures fd.Valid() && fd.Started()
    ensures r.Threw? <==> !old(fd.Started()) && fd.directory == []
    ensures r.Ok? ==> fd.dirContentsIdx == old(fd.dirContentsIdx) + Fit(old(fd.Remaining()), size)
    ensures r.Ok? ==> r.value == Reported(old(fd.Remaining()), size)
    ensures r.Ok? ==> longer == Listing(fd.directory)[..fd.dirContentsIdx]
  {
    var buffer := new byte[size];
    ghost var before, left := fd.dirContentsIdx, fd.Remaining();
    r := fd.CopyDirentsToWasiBuffer(buffer);
    longer := listed;
    if r.Ok? {
      longer := listed + Decode(buffer[..r.value]);
      NextSlice(Listing(fd.directory), before, Fit(left, size));
    }
  }

  /**
   Calls with buffers of any sizes, each holding anything before the call. What a caller
   decodes from the bytes returned is the listing so far: in order, none lost, none twice;
   and all of it once there were as many calls as entries with buffers for any record.
   */
  method ListDirectory(fd: FileDescriptor, sizes: seq<nat>) returns (listed: seq<DirEnt>, threw: bool)
    requires fd.Valid() && !fd.Started() && fd.dirContentsIdx == 0 && AllEncodable(Listing(fd.directory))
    modifies fd
    ensures threw <==> fd.directory == [] && sizes != []
    ensures !threw ==> listed == Listing(fd.directory)[..Position(Listing(fd.directory), sizes)]
    ensures !threw && LargeEnough(Listing(fd.directory), sizes) && |sizes| >= |fd.directory| ==> listed == Listing(fd.directory)
    ensures !threw ==> ListsFirst(listed, fd.directory)
  {
    ghost var es := Listing(fd.directory);
    listed := [];
    for i := 0 to |sizes|
      invariant fd.Valid() && (fd.Started() <==> i > 0) && (i > 0 ==> fd.directory != [])
      invariant fd.dirContentsIdx == Position(es, sizes[..i]) && listed == es[..fd.dirContentsIdx]
    {
      var r, longer := ListMore(fd, sizes[i], listed);
      if r.Threw? {
        return listed, true;
      }
      listed := longer;
      PositionStep(es, sizes, i);
    }
    assert sizes[..|sizes|] == sizes;
    PrefixLists(fd.directory, fd.dirContentsIdx);
    if LargeEnough(es, sizes) && |sizes| >= |fd.directory| {
      AllListed(es, sizes);
    }
    threw := false;
  }

  /**
   The loop a C library makes: calls with one buffer size until a call reports less than the
   buffer. With a buffer that holds any record it ends, and has decoded the whole directory.
   */
  method ListUntilShort(fd: FileDescriptor, size: nat) returns (listed: seq<DirEnt>)
    requires fd.Valid() && !fd.Started() && fd.dirContentsIdx == 0 && AllEncodable(Listing(fd.directory))
    requires fd.directory != [] && size > 0 && LargeEnough(Listing(fd.directory), [size])
    modifies fd
    ensures listed == Listing(fd.directory)
    ensures ListsFirst(listed, fd.directory) && |listed| == |fd.directory|
  {
    ghost var es := Listing(fd.directory);
    listed := [];
    var more := true;
    while more
      invariant fd.Valid() && listed == es[..fd.dirContentsIdx]
      invariant !more ==> fd.dirContentsIdx == |es|
      decreases |es| - fd.dirContentsIdx, more
    {
      ghost var before := fd.dirContentsIdx;
      ghost var left := es[before..];
      ShortOnlyAtEnd(left, size);
      if before < |es| {
        assert left[0] == es[before] && size == [size][0];
        ProgressIff(left, size);
      } else {
        assert Records(left) == [];
      }
      var r, longer := ListMore(fd, size, listed);
      listed := longer;
      more := r.value >= size;
    }
    assert es[..|es|] == es;
  }
}
