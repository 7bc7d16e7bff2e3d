/** Word-at-a-time memory loops of the buffer library: a small-copy routine and two all-zero tests. */
module InlineMemory {
  import opened Bytes

  ghost predicate AllZero(b: bytes) { forall i :: 0 <= i < |b| ==> b[i] == 0 }

  /** A little-endian word is zero exactly when all its bytes are. */
  lemma {:induction false} WordIsZeroIff(b: bytes)
    ensures FromLe(b) == 0 <==> AllZero(b)
  {
    if b != [] {
      WordIsZeroIff(b[1..]);
      assert forall i :: 0 < i < |b| ==> b[i] == b[1..][i - 1];
    }
  }

  lemma AllZeroSplits(m: bytes, i: nat, j: nat, k: nat)
    requires i <= j <= k <= |m|
    ensures AllZero(m[i..k]) <==> AllZero(m[i..j]) && AllZero(m[j..k])
  {
    var whole, left, right := m[i..k], m[i..j], m[j..k];
    assert whole == left + right;
    if AllZero(whole) {
      assert forall x :: 0 <= x < |left| ==> left[x] == whole[x];
      assert forall x :: 0 <= x < |right| ==> right[x] == whole[|left| + x];
    }
  }

  /** A load of `width` bytes at address `at`; the widest ones must be aligned. */
  function Load(memory: bytes, base: nat, at: nat, width: nat): nat
    requires at + width <= |memory|
    requires width == 16 ==> (base + at) % 16 == 0
  {
    FromLe(memory[at..at + width])
  }

  /** The bytes in `words` words. */
  function Span(words: nat, width: nat): nat {
    if words == 0 then 0 else Span(words - 1, width) + width
  }

  lemma {:induction false} SpanIs(words: nat)
    ensures Span(words, 1) == words && Span(words, 4) == 4 * words && Span(words, 8) == 8 * words && Span(words, 16) == 16 * words
  {
    if words > 0 {
      SpanIs(words - 1);
    }
  }

  lemma TestWord(memory: bytes, base: nat, data: nat, at: nat, width: nat, limit: nat)
    requires data <= at && at + width <= limit <= |memory| && (width == 16 ==> (base + at) % 16 == 0)
    requires AllZero(memory[data..at])
    ensures if Load(memory, base, at, width) == 0 then AllZero(memory[data..at + width]) else !AllZero(memory[data..limit])
  {
    WordIsZeroIff(memory[at..at + width]);
    AllZeroSplits(memory, data, at, at + width);
    AllZeroSplits(memory, data, at + width, limit);
  }

  /** Tests `words` words of one width from `data` on. */
  method WordsAreZero(memory: bytes, base: nat, data: nat, words: nat, width: nat) returns (zero: bool)
    requires width > 0 && data + Span(words, width) <= |memory|
    requires width == 16 ==> (base + data) % 16 == 0
    ensures zero <==> AllZero(memory[data..data + Span(words, width)])
  {
    var at := data;
    var limit := data + Span(words, width);
    ghost var left := words;
    while at < limit
      invariant data <= at <= limit && limit - at == Span(left, width)
      invariant width == 16 ==> (base + at) % 16 == 0
      invariant AllZero(memory[data..at])
    {
      TestWord(memory, base, data, at, width, limit);
      if Load(memory, base, at, width) != 0 {
        return false;
      }
      at := at + width;
      left := left - 1;
    }
    return true;
  }

  /** Tests bytes up to the next 16-byte boundary, or up to the first byte that is not zero. */
  method ZeroUpToBoundary(memory: bytes, base: nat, data: nat, len: nat) returns (zero: bool, at: nat)
    requires data + len <= |memory| && len >= 16
    ensures data <= at <= data + len
    ensures zero <==> AllZero(memory[data..at])
    ensures zero ==> (base + at) % 16 == 0
  {
    at := data;
    while (base + at) % 16 != 0
      invariant data <= at < data + len
      invariant at == data || 0 < (base + data) % 16 <= 16 - (at - data)
      invariant AllZero(memory[data..at])
      decreases data + len - at
    {
      AllZeroSplits(memory, data, at, at + 1);
      at := at + 1;
      if memory[at - 1] != 0 {
        assert memory[at - 1..at][0] != 0;
        return false, at;
      }
    }
    return true, at;
  }

  /** For every length and alignment: true exactly when every byte is zero, with wide loads only where aligned. */
  method MemIsZero(memory: bytes, base: nat, data: nat, len: nat) returns (zero: bool)
    requires data + len <= |memory|
    ensures zero <==> AllZero(memory[data..data + len])
  {
    var at, end := data, data + len;
    if len / 16 > 0 {
      zero, at := ZeroUpToBoundary(memory, base, data, len);
      AllZeroSplits(memory, data, at, end);
      if !zero {
        return false;
      }
      var wide := (end - at) / 16;
      var max128 := at + wide * 16;
      SpanIs(wide);
      zero := WordsAreZero(memory, base, at, wide, 16);
      AllZeroSplits(memory, data, at, max128);
      AllZeroSplits(memory, data, max128, end);
      if !zero {
        return false;
      }
      at := max128;
    }
    var words := (end - at) / 4;
    var tail := at + words * 4;
    AllZeroSplits(memory, data, at, end);
    AllZeroSplits(memory, at, tail, end);
    SpanIs(words);
    zero := WordsAreZero(memory, base, at, words, 4);
    if zero {
      SpanIs(end - tail);
      zero := WordsAreZero(memory, base, tail, end - tail, 1);
    }
  }

  /** The portable variant agrees. */
  method MemIsZeroPortable(memory: bytes, data: nat, len: nat) returns (zero: bool)
    requires data + len <= |memory|
    ensures zero <==> AllZero(memory[data..data + len])
  {
    var end, end64 := data + len, data + len / 8 * 8;
    AllZeroSplits(memory, data, end64, end);
    SpanIs(len / 8);
    zero := WordsAreZero(memory, 0, data, len / 8, 8);
    if zero {
      SpanIs(end - end64);
      zero := WordsAreZero(memory, 0, end64, end - end64, 1);
    }
  }

  /** `dest` is `old` with `len` bytes of `src` at `to`. */
  ghost predicate Copied(start: bytes, dest: bytes, src: bytes, to: nat, from: nat, len: nat)
    requires to + len <= |start| && from + len <= |src|
  {
    |dest| == |start|
    && forall x :: 0 <= x < |dest| ==> dest[x] == if to <= x < to + len then src[from + x - to] else start[x]
  }

  lemma CopiedNothing(start: bytes, src: bytes, to: nat, from: nat)
    requires to <= |start| && from <= |src|
    ensures Copied(start, start, src, to, from, 0)
  {
  }

  const INT_LIMIT := 0x8000_0000

  /**
   Copies exactly the bytes asked for and touches nothing else, whichever path is taken. The
   inlined path counts in a 32-bit signed cursor: false means that it went past 2^31 and
   the copy left its buffers, which happens exactly for longer copies that are inlined.
   */
  method MaybeInlineMemcpy(dest: array<byte>, to: nat, src: bytes, from: nat, len: nat, inlineLen: nat) returns (inside: bool)
    requires to + len <= dest.Length && from + len <= |src|
    modifies dest
    ensures inside <==> len > inlineLen || len <= INT_LIMIT
    ensures inside ==> Copied(old(dest[..]), dest[..], src, to, from, len)
  {
    ghost var start := dest[..];
    CopiedNothing(start, src, to, from);
    if len > inlineLen || len in {8, 4, 3, 2, 1} {
      CopyPart(dest, to, src, from, 0, len, start);
      return true;
    }
    var cursor;
    inside, cursor := CopyWords(dest, to, src, from, 0, len, 8, start);
    if inside {
      inside, cursor := CopyWords(dest, to, src, from, cursor, len, 4, start);
    }
    if inside {
      inside, cursor := CopyWords(dest, to, src, from, cursor, len, 1, start);
    }
  }

  /** Copies words of one width for as long as a whole one is left and the cursor has not wrapped. */
  method CopyWords(dest: array<byte>, to: nat, src: bytes, from: nat, begin: nat, len: nat, width: nat, ghost start: bytes)
    returns (inside: bool, cursor: nat)
    requires to + len <= dest.Length == |start| && from + len <= |src| && begin <= len
    requires width in {8, 4, 1} && begin % width == 0 && begin <= INT_LIMIT
    requires Copied(start, dest[..], src, to, from, begin)
    modifies dest
    ensures !inside ==> len > INT_LIMIT
    ensures inside ==> cursor <= len < cursor + width && cursor <= INT_LIMIT && cursor % width == 0
    ensures inside ==> Copied(start, dest[..], src, to, from, cursor)
  {
    cursor := begin;
    var left: nat := len - begin;
    while left >= width
      invariant cursor + left == len && cursor <= INT_LIMIT && cursor % width == 0
      invariant Copied(start, dest[..], src, to, from, cursor)
    {
      if cursor == INT_LIMIT {
        return false, cursor;
      }
      CopyPart(dest, to, src, from, cursor, width, start);
      cursor, left := cursor + width, left - width;
    }
    inside := true;
  }

  method CopyPart(dest: array<byte>, to: nat, src: bytes, from: nat, cursor: nat, width: nat, ghost start: bytes)
    requires to + cursor + width <= dest.Length == |start| && from + cursor + width <= |src|
    requires Copied(start, dest[..], src, to, from, cursor)
    modifies dest
    ensures Copied(start, dest[..], src, to, from, cursor + width)
  {
    ghost var before := dest[..];
    var part := src[from + cursor..from + cursor + width];
    CopyN(part, dest, to + cursor);
    var end := to + cursor + width;
    forall x | 0 <= x < dest.Length
      ensures dest[x] == if to + cursor <= x < end then part[x - to - cursor] else before[x]
    {
      if x < end {
        assert dest[x] == dest[..end][x];
      } else {
        assert dest[x] == dest[end..][x - end] && before[x] == before[end..][x - end];
      }
    }
  }
}
