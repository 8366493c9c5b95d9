/** The runtime's word-wise memory copies. Addresses are offsets into one array whose first byte lies at
    the machine address `base`, so every alignment of source and destination occurs. */
module Memory {
  import opened Basics

  const WORD_SIZE := 8
  const BYTE_THRESHOLD := 32

  /** Memory after the old bytes at `src` have been moved to `dest`; all other bytes are as before. */
  function Moved<T>(m: seq<T>, dest: nat, src: nat, count: nat): (r: seq<T>)
    requires dest + count <= |m| && src + count <= |m|
    ensures |r| == |m|
  {
    m[..dest] + m[src..src + count] + m[dest + count..]
  }

  /** `Moved`, byte by byte. */
  ghost predicate Copied(now: seq<byte>, was: seq<byte>, dest: nat, src: nat, count: nat) {
    && dest + count <= |was| && src + count <= |was| && |now| == |was|
    && forall i :: 0 <= i < |now| ==> now[i] == was[if dest <= i < dest + count then src + (i - dest) else i]
  }

  lemma CopiedIsMoved(now: seq<byte>, was: seq<byte>, dest: nat, src: nat, count: nat)
    requires Copied(now, was, dest, src, count)
    ensures now == Moved(was, dest, src, count)
  {
  }

  lemma NothingCopied(m: seq<byte>, dest: nat, src: nat)
    requires dest <= |m| && src <= |m|
    ensures Copied(m, m, dest, src, 0)
  {
  }

  lemma NothingMoved(m: seq<byte>, dest: nat, src: nat, count: nat)
    requires dest + count <= |m| && src + count <= |m|
    ensures count == 0 || dest == src ==> Moved(m, dest, src, count) == m
  {
  }

  /** A forward copy never reads what it has written: the destination is not inside the bytes still to read. */
  predicate ForwardSafe(dest: nat, src: nat, count: nat) {
    dest <= src || src + count <= dest
  }

  /** Copying `n` bytes and then the next `k` bytes forward is copying `n + k` of the original bytes. */
  lemma CopiedExtends(was: seq<byte>, mid: seq<byte>, now: seq<byte>, dest: nat, src: nat, n: nat, k: nat)
    requires Copied(mid, was, dest, src, n) && Copied(now, mid, dest + n, src + n, k)
    requires ForwardSafe(dest, src, n + k)
    ensures Copied(now, was, dest, src, n + k)
  {
    forall i | 0 <= i < |now|
      ensures now[i] == was[if dest <= i < dest + (n + k) then src + (i - dest) else i]
    {
      if dest + n <= i < dest + n + k {
        var j := src + n + (i - (dest + n));
        assert now[i] == mid[j] && !(dest <= j < dest + n);
      }
    }
  }

  class Ram {
    const base: nat
    const bytes: array<byte>

    constructor (base: nat, size: nat)
      ensures this.base == base && fresh(bytes) && bytes.Length == size
    {
      this.base := base;
      bytes := new byte[size](_ => 0);
    }

    method CopyBytes(dest: nat, src: nat, count: nat)
      requires dest + count <= bytes.Length && src + count <= bytes.Length && ForwardSafe(dest, src, count)
      modifies bytes
      ensures Copied(bytes[..], old(bytes[..]), dest, src, count)
    {
      for i := 0 to count
        invariant Copied(bytes[..], old(bytes[..]), dest, src, i)
      {
        bytes[dest + i] := bytes[src + i];
      }
    }

    /** One 64-bit load and store: all eight bytes are read before any is written. */
    method CopyWord(dest: nat, src: nat)
      requires dest + WORD_SIZE <= bytes.Length && src + WORD_SIZE <= bytes.Length
      modifies bytes
      ensures Copied(bytes[..], old(bytes[..]), dest, src, WORD_SIZE)
    {
      var word := bytes[src..src + WORD_SIZE];
      for i := 0 to WORD_SIZE
        invariant forall j :: 0 <= j < bytes.Length ==>
                    bytes[j] == if dest <= j < dest + i then word[j - dest] else old(bytes[j])
      {
        bytes[dest + i] := word[i];
      }
    }

    /** Copy single bytes until the destination is word-aligned or nothing remains. */
    method CopyForwardAlign(dest: nat, src: nat, remaining: nat) returns (copied: nat)
      requires dest + remaining <= bytes.Length && src + remaining <= bytes.Length && ForwardSafe(dest, src, remaining)
      modifies bytes
      ensures copied <= remaining && Copied(bytes[..], old(bytes[..]), dest, src, copied)
      ensures copied == remaining || (base + dest + copied) % WORD_SIZE == 0
    {
      copied := 0;
      while copied != remaining && (base + dest + copied) % WORD_SIZE != 0
        invariant copied <= remaining && Copied(bytes[..], old(bytes[..]), dest, src, copied)
      {
        bytes[dest + copied] := bytes[src + copied];
        copied := copied + 1;
      }
    }

    method CopyFourWords(dest: nat, src: nat)
      requires dest + 4 * WORD_SIZE <= bytes.Length && src + 4 * WORD_SIZE <= bytes.Length
      requires ForwardSafe(dest, src, 4 * WORD_SIZE)
      modifies bytes
      ensures Copied(bytes[..], old(bytes[..]), dest, src, 4 * WORD_SIZE)
    {
      ghost var was := bytes[..];
      NothingCopied(was, dest, src);
      hide Copied;
      for w := 0 to 4
        invariant Copied(bytes[..], was, dest, src, w * WORD_SIZE)
      {
        ghost var mid := bytes[..];
        CopyWord(dest + w * WORD_SIZE, src + w * WORD_SIZE);
        CopiedExtends(was, mid, bytes[..], dest, src, w * WORD_SIZE, WORD_SIZE);
      }
    }

    /** `memcpy`: byte-wise when short, else align the destination and copy 32, 8 and single bytes at a time. */
    method Memcpy(dest: nat, src: nat, count: nat)
      requires dest + count <= bytes.Length && src + count <= bytes.Length
      requires ForwardSafe(dest, src, count)
      modifies bytes
      ensures bytes[..] == Moved(old(bytes[..]), dest, src, count)
    {
      hide Copied, Moved;
      ghost var was := bytes[..];
      NothingMoved(was, dest, src, count);
      if count == 0 || dest == src { return; }
      if count < BYTE_THRESHOLD {
        CopyBytes(dest, src, count);
        CopiedIsMoved(bytes[..], was, dest, src, count);
        return;
      }
      var done := CopyForwardAlign(dest, src, count);
      while count - done >= 4 * WORD_SIZE
        invariant done <= count && Copied(bytes[..], was, dest, src, done)
      {
        ghost var mid := bytes[..];
        CopyFourWords(dest + done, src + done);
        CopiedExtends(was, mid, bytes[..], dest, src, done, 4 * WORD_SIZE);
        done := done + 4 * WORD_SIZE;
      }
      while count - done >= WORD_SIZE
        invariant done <= count && Copied(bytes[..], was, dest, src, done)
      {
        ghost var mid := bytes[..];
        CopyWord(dest + done, src + done);
        CopiedExtends(was, mid, bytes[..], dest, src, done, WORD_SIZE);
        done := done + WORD_SIZE;
      }
      ghost var mid := bytes[..];
      CopyBytes(dest + done, src + done, count - done);
      CopiedExtends(was, mid, bytes[..], dest, src, done, count - done);
      CopiedIsMoved(bytes[..], was, dest, src, count);
    }

    /** `memmove` is correct for every overlap, alignment and length, although it hands the case of a lower
        destination to the word-wise forward copy. */
    method Memmove(dest: nat, src: nat, count: nat)
      requires dest + count <= bytes.Length && src + count <= bytes.Length
      modifies bytes
      ensures bytes[..] == Moved(old(bytes[..]), dest, src, count)
    {
      if dest == src || count == 0 { return; }
      if dest < src {
        Memcpy(dest, src, count);
        return;
      }
      ghost var was := bytes[..];
      var i: nat := count;
      while i != 0
        invariant i <= count && Copied(bytes[..], was, dest + i, src + i, count - i)
      {
        bytes[dest + i - 1] := bytes[src + i - 1];
        i := i - 1;
      }
      CopiedIsMoved(bytes[..], was, dest, src, count);
    }

    method Memset(dest: nat, value: byte, count: nat)
      requires dest + count <= bytes.Length
      modifies bytes
      ensures bytes[..] == old(bytes[..dest]) + seq(count, _ => value) + old(bytes[dest + count..])
    {
      for i := 0 to count
        invariant forall j :: 0 <= j < bytes.Length ==>
                    bytes[j] == if dest <= j < dest + i then value else old(bytes[j])
      {
        bytes[dest + i] := value;
      }
    }
  }
}
