/** The image file behind a filesystem handle, with the POSIX semantics the
    engine relies on: a byte sequence that a write may extend (a gap left by
    seeking past the end reads as zeros), a cursor that lseek sets, reads that
    come back short at end of file, and a size limit beyond which a write comes
    back short. A transfer never fails with -1 here. */
module BackingFiles {
  import opened Bytes

  function Min(a: int, b: int): int { if a <= b then a else b }
  function Max(a: int, b: int): int { if a <= b then b else a }

  function Zeros(n: nat): (z: seq<byte>)
    ensures |z| == n && forall i :: 0 <= i < n ==> z[i] == 0
  {
    seq(n, _ => 0)
  }

  /** The file contents after writing b at offset off (pwrite semantics). */
  function WriteAt(c: seq<byte>, off: nat, b: seq<byte>): (r: seq<byte>)
    ensures |r| == if b == [] then |c| else Max(|c|, off + |b|)
  {
    if b == [] then c
    else if off <= |c| then
      c[..off] + b + (if off + |b| <= |c| then c[off + |b|..] else [])
    else
      c + Zeros(off - |c|) + b
  }

  /** Byte by byte: the written bytes, then the old contents, then the zero gap. */
  lemma WriteAtBytes(c: seq<byte>, off: nat, b: seq<byte>)
    ensures var r := WriteAt(c, off, b);
      forall i :: 0 <= i < |r| ==>
        r[i] == if off <= i < off + |b| then b[i - off] else if i < |c| then c[i] else 0
  {
  }

  /** The bytes a read of n bytes at offset off returns (pread semantics). */
  function ReadAt(c: seq<byte>, off: nat, n: nat): (r: seq<byte>)
    ensures |r| == if off >= |c| then 0 else Min(n, |c| - off)
    ensures forall i :: 0 <= i < |r| ==> r[i] == c[off + i]
  {
    if off >= |c| then [] else c[off..Min(off + n, |c|)]
  }

  /** How many of n bytes a write at offset off transfers before the size limit. */
  function Writable(off: nat, n: nat, limit: nat): (w: nat)
    ensures w <= n
    ensures n > 0 ==> (w == n <==> off + n <= limit)
  {
    if off >= limit then 0 else Min(n, limit - off)
  }

  lemma ReadElsewhere(c: seq<byte>, off: nat, b: seq<byte>, off2: nat, n: nat)
    requires off2 + n <= |c|
    requires off2 + n <= off || off + |b| <= off2
    ensures ReadAt(WriteAt(c, off, b), off2, n) == ReadAt(c, off2, n)
  {
    WriteAtBytes(c, off, b);
  }

  /** Two writes back to back are one write of the concatenation. */
  lemma WriteAtConcat(c: seq<byte>, off: nat, a: seq<byte>, b: seq<byte>)
    ensures WriteAt(WriteAt(c, off, a), off + |a|, b) == WriteAt(c, off, a + b)
  {
    var lhs := WriteAt(WriteAt(c, off, a), off + |a|, b);
    var rhs := WriteAt(c, off, a + b);
    WriteAtBytes(c, off, a);
    WriteAtBytes(WriteAt(c, off, a), off + |a|, b);
    WriteAtBytes(c, off, a + b);
    assert |lhs| == |rhs|;
    forall i | 0 <= i < |lhs| ensures lhs[i] == rhs[i] {
    }
  }

  /** Writing a prefix and then the next stretch of the same bytes writes a longer prefix. */
  lemma WritePrefixes(c: seq<byte>, off: nat, b: seq<byte>, k: nat, w: nat)
    requires k + w <= |b|
    ensures WriteAt(WriteAt(c, off, b[..k]), off + k, b[k..k + w]) == WriteAt(c, off, b[..k + w])
  {
    WriteAtConcat(c, off, b[..k], b[k..k + w]);
    assert b[..k] + b[k..k + w] == b[..k + w];
  }

  class BackingFile {
    var contents: seq<byte>
    var cursor: nat
    const limit: nat

    constructor (contents: seq<byte>, limit: nat)
      ensures this.contents == contents && cursor == 0 && this.limit == limit
    {
      this.contents := contents;
      this.limit := limit;
      cursor := 0;
    }

    /** lseek(fd, offset, SEEK_SET): fails on a negative offset */
    method Seek(offset: int) returns (ok: bool)
      modifies this
      ensures ok == (offset >= 0)
      ensures contents == old(contents)
      ensures cursor == if ok then offset else old(cursor)
    {
      ok := offset >= 0;
      if ok {
        cursor := offset;
      }
    }

    /** lseek(fd, delta, SEEK_CUR) with a non-negative delta */
    method SeekForward(delta: nat)
      modifies this
      ensures contents == old(contents) && cursor == old(cursor) + delta
    {
      cursor := cursor + delta;
    }

    /** read(fd, buf, n) */
    method Read(n: nat) returns (bytes: seq<byte>)
      modifies this
      ensures bytes == ReadAt(old(contents), old(cursor), n)
      ensures contents == old(contents) && cursor == old(cursor) + |bytes|
    {
      bytes := ReadAt(contents, cursor, n);
      cursor := cursor + |bytes|;
    }

    /** write(fd, buf, |bytes|) */
    method Write(bytes: seq<byte>) returns (written: nat)
      modifies this
      ensures written == Writable(old(cursor), |bytes|, limit)
      ensures contents == WriteAt(old(contents), old(cursor), bytes[..written])
      ensures cursor == old(cursor) + written
    {
      written := Writable(cursor, |bytes|, limit);
      contents := WriteAt(contents, cursor, bytes[..written]);
      cursor := cursor + written;
    }

    /** A Write of part, the stretch of whole that follows the k bytes of it
        already written from off: the written prefix of whole grows by what
        this write transfers. */
    method WriteNext(ghost c0: seq<byte>, ghost off: nat, ghost whole: seq<byte>, ghost k: nat, part: seq<byte>)
      returns (written: nat)
      requires k + |part| <= |whole| && part == whole[k..k + |part|]
      requires contents == WriteAt(c0, off, whole[..k]) && cursor == off + k
      modifies this
      ensures written == Writable(off + k, |part|, limit)
      ensures contents == WriteAt(c0, off, whole[..k + written]) && cursor == off + k + written
    {
      written := Write(part);
      assert part[..written] == whole[k..k + written];
      WritePrefixes(c0, off, whole, k, written);
    }
  }
}
