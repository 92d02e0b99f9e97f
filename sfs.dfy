/** The SFS storage primitives of libsfs: page addressing, the superblock,
    the free-page list threaded through the free pages, the inode header and
    the splice of a continuation page into an inode's chain.

    A filesystem handle owns an image file (a BackingFile); every operation
    seeks and then reads or writes whole fields, as the C code does. */
module Sfs {
  import opened Bytes
  import opened BackingFiles
  import opened Wrappers

  const PAGE_SIZE: nat := 1024
  const SUPERBLOCK_SIZE: nat := 256
  const MAGIC_NO: u32 := 0xC0FFEE
  /** the page type tag written in front of a free page's next index */
  const FREE_PAGE_IDENTIFIER: byte := 3

  /** status codes returned by the engine */
  const SUCCESS: int := 0
  const FAILURE: int := -1
  const E_MALFORMED_SUPERBLOCK: int := -2

  const SUPERBLOCK_BYTES: nat := 20    // magic (4) + page count (8) + first free page (8)
  const FREE_RECORD_BYTES: nat := 9    // tag (1) + next free page (8)
  const INODE_HEADER_SIZE: nat := 40   // five u64 fields

  /** Pages below this index have a non-negative 64-bit byte offset that is
      exactly 256 + 1024 * page; 2 * PAGE_LIMIT pages make 2^64 bytes. */
  const PAGE_LIMIT: nat := 0x20_0000_0000_0000
  const I64_LIMIT: int := 0x8000_0000_0000_0000

  // ---------------------------------------------------------------- errors

  /** sfs_errno_to_str: the message for a status; strerror stands for strerror(errno) */
  function ErrnoToStr(result: int, strerror: string): (msg: string)
    ensures result == SUCCESS ==> msg == "Success"
    ensures result == FAILURE ==> msg == strerror
    ensures result == E_MALFORMED_SUPERBLOCK ==> msg == "Malformed superblock encountered"
    ensures result !in {SUCCESS, FAILURE, E_MALFORMED_SUPERBLOCK} ==> msg == "Unknown error"
  {
    match result
    case 0 => "Success"
    case -1 => strerror
    case -2 => "Malformed superblock encountered"
    case _ => "Unknown error"
  }

  // ------------------------------------------------------- page addressing

  /** The offset sfs_seek_to_page hands to lseek64: SUPERBLOCK_SIZE +
      PAGE_SIZE * page evaluated in uint64_t (wrapping modulo 2^64) and then
      converted to the signed off64_t; there is no check against page_count. */
  function SeekOffset(page: u64): (off: int)
    ensures page % (2 * PAGE_LIMIT) < PAGE_LIMIT ==>
      off == SUPERBLOCK_SIZE + PAGE_SIZE * (page % (2 * PAGE_LIMIT))
    ensures page % (2 * PAGE_LIMIT) >= PAGE_LIMIT ==>
      off == SUPERBLOCK_SIZE + PAGE_SIZE * (page % (2 * PAGE_LIMIT)) - U64_LIMIT < 0
  {
    var wrapped := (SUPERBLOCK_SIZE + PAGE_SIZE * page) % U64_LIMIT;
    var q, r := page / (2 * PAGE_LIMIT), page % (2 * PAGE_LIMIT);
    assert SUPERBLOCK_SIZE + PAGE_SIZE * page == q * U64_LIMIT + (SUPERBLOCK_SIZE + PAGE_SIZE * r);
    assert wrapped == SUPERBLOCK_SIZE + PAGE_SIZE * r;
    if wrapped < I64_LIMIT then wrapped else wrapped - U64_LIMIT
  }

  /** lseek64 accepts the offset of this page */
  predicate Addressable(page: u64) {
    SeekOffset(page) >= 0
  }

  /** The byte offset of an addressable page. */
  function PageOffset(page: u64): (off: nat)
    requires Addressable(page)
  {
    SeekOffset(page)
  }

  lemma PageOffsetExact(page: u64)
    requires page < PAGE_LIMIT
    ensures Addressable(page) && PageOffset(page) == SUPERBLOCK_SIZE + PAGE_SIZE * page
  {
  }

  /** Offsets wrap: a page 2^54 above another lands on the same bytes. */
  lemma PageOffsetAliases(page: u64)
    requires page + 2 * PAGE_LIMIT < U64_LIMIT
    ensures SeekOffset(page + 2 * PAGE_LIMIT) == SeekOffset(page)
  {
    PageResidueShift(page);
  }

  lemma PageResidueShift(page: nat)
    ensures (page + 2 * PAGE_LIMIT) % (2 * PAGE_LIMIT) == page % (2 * PAGE_LIMIT)
  {
  }

  lemma DistinctPagesApart(p: u64, q: u64)
    requires p < PAGE_LIMIT && q < PAGE_LIMIT && p != q
    ensures Addressable(p) && Addressable(q)
    ensures PageOffset(p) + PAGE_SIZE <= PageOffset(q) || PageOffset(q) + PAGE_SIZE <= PageOffset(p)
  {
    PageOffsetExact(p);
    PageOffsetExact(q);
  }

  // ------------------------------------------------------------ superblock

  /** The in-memory copy of the superblock fields kept in the handle. */
  datatype Superblock = Superblock(pageCount: u64, firstFreePageIndex: u64)

  /** The 20 bytes sfs_update_superblock writes at offset 0. */
  function EncodeSuperblock(sb: Superblock): (s: seq<byte>)
    ensures |s| == SUPERBLOCK_BYTES
  {
    EncodeU32(MAGIC_NO) + EncodeU64(sb.pageCount) + EncodeU64(sb.firstFreePageIndex)
  }

  /** What sfs_open_fs makes of an image whose contents are c: the three
      sequential reads from offset 0, the magic check after the first. */
  function ReadSuperblock(c: seq<byte>): (r: Result<Superblock>)
    ensures r.Failure? ==> r.error in {FAILURE, E_MALFORMED_SUPERBLOCK}
    ensures (r.Failure? && r.error == E_MALFORMED_SUPERBLOCK) <==> |c| >= 4 && DecodeU32(c[..4]) != MAGIC_NO
    ensures (r.Failure? && r.error == FAILURE) <==> |c| < 4 || (DecodeU32(c[..4]) == MAGIC_NO && |c| < SUPERBLOCK_BYTES)
    ensures r.Success? ==> |c| >= SUPERBLOCK_BYTES && c[..SUPERBLOCK_BYTES] == EncodeSuperblock(r.value)
  {
    if |c| < 4 then Failure(FAILURE)
    else if DecodeU32(c[..4]) != MAGIC_NO then Failure(E_MALFORMED_SUPERBLOCK)
    else if |c| < 12 then Failure(FAILURE)
    else if |c| < SUPERBLOCK_BYTES then Failure(FAILURE)
    else
      var sb := Superblock(DecodeU64(c[4..12]), DecodeU64(c[12..20]));
      assert c[..SUPERBLOCK_BYTES] == c[..4] + c[4..12] + c[12..20];
      Success(sb)
  }

  datatype Result<T> = Success(value: T) | Failure(error: int)

  /** Opening an image whose superblock was written by sfs_update_superblock
      gives back the page count and free-list head that were written. */
  lemma {:induction false} SuperblockRoundTrip(c: seq<byte>, sb: Superblock)
    ensures ReadSuperblock(WriteAt(c, 0, EncodeSuperblock(sb))) == Success(sb)
  {
    var d := WriteAt(c, 0, EncodeSuperblock(sb));
    var e := EncodeSuperblock(sb);
    assert d[..4] == EncodeU32(MAGIC_NO) by { assert d[..4] == e[..4]; }
    U32RoundTrip(MAGIC_NO);
    assert d[4..12] == EncodeU64(sb.pageCount) by { assert d[4..12] == e[4..12]; }
    assert d[12..20] == EncodeU64(sb.firstFreePageIndex) by { assert d[12..20] == e[12..20]; }
    U64RoundTrip(sb.pageCount);
    U64RoundTrip(sb.firstFreePageIndex);
  }

  // ------------------------------------------------------------- free list

  /** The 9 bytes sfs_free_page writes at the start of a freed page. */
  function FreeRecord(next: u64): (s: seq<byte>)
    ensures |s| == FREE_RECORD_BYTES
  {
    [FREE_PAGE_IDENTIFIER] + EncodeU64(next)
  }

  /** The next free page index sfs_allocate_page reads from page, or None when
      the seek fails or the 8-byte read comes back short. */
  function NextFreeLink(c: seq<byte>, page: u64): (r: Option<u64>)
    ensures r.Some? ==> Addressable(page) && PageOffset(page) + FREE_RECORD_BYTES <= |c|
    ensures r.Some? ==> c[PageOffset(page) + 1..PageOffset(page) + FREE_RECORD_BYTES] == EncodeU64(r.value)
    ensures Addressable(page) && PageOffset(page) + FREE_RECORD_BYTES <= |c| ==> r.Some?
  {
    if !Addressable(page) then None
    else
      var b := ReadAt(c, PageOffset(page) + 1, 8);
      if |b| < 8 then None
      else
        assert b == c[PageOffset(page) + 1..PageOffset(page) + FREE_RECORD_BYTES];
        Some(DecodeU64(b))
  }

  /** Freeing a page and allocating again hands back the page and restores
      the head the list had before the free. */
  lemma FreeThenAllocate(c: seq<byte>, page: u64, head: u64)
    requires Addressable(page)
    ensures NextFreeLink(WriteAt(c, PageOffset(page), FreeRecord(head)), page) == Some(head)
  {
    var off := PageOffset(page);
    var d := WriteAt(c, off, FreeRecord(head));
    assert d[off + 1..off + FREE_RECORD_BYTES] == EncodeU64(head);
    U64RoundTrip(head);
  }

  /** Writing the free record of one page does not change the link read from another. */
  lemma FreeRecordKeepsOtherLinks(c: seq<byte>, page: u64, head: u64, q: u64)
    requires page < PAGE_LIMIT && q < PAGE_LIMIT && page != q
    requires NextFreeLink(c, q).Some?
    ensures NextFreeLink(WriteAt(c, PageOffset(page), FreeRecord(head)), q) == NextFreeLink(c, q)
  {
    DistinctPagesApart(page, q);
    var d := WriteAt(c, PageOffset(page), FreeRecord(head));
    var offq := PageOffset(q);
    ReadElsewhere(c, PageOffset(page), FreeRecord(head), offq + 1, 8);
    assert d[offq + 1..offq + FREE_RECORD_BYTES] == c[offq + 1..offq + FREE_RECORD_BYTES];
    U64RoundTrip(NextFreeLink(c, q).value);
    U64RoundTrip(NextFreeLink(d, q).value);
  }

  /** The page that follows position k of a free list (NONE after the last). */
  function Successor(list: seq<u64>, k: nat): u64
    requires k < |list|
  {
    if k + 1 < |list| then list[k + 1] else NONE
  }

  /** Position k of list holds the link to its successor. */
  ghost predicate LinkAt(c: seq<byte>, list: seq<u64>, k: nat)
    requires k < |list|
  {
    list[k] < PAGE_LIMIT && NextFreeLink(c, list[k]) == Some(Successor(list, k))
  }

  /** The free list on disk: head is the first of list, each page of list
      stores the next one (the last stores NONE), and the pages are distinct
      and low enough that their records cannot overlap. */
  ghost predicate FreeChain(c: seq<byte>, head: u64, list: seq<u64>) {
    && head == (if list == [] then NONE else list[0])
    && (forall j, k :: 0 <= j < k < |list| ==> list[j] != list[k])
    && (forall k :: 0 <= k < |list| ==> LinkAt(c, list, k))
  }

  /** Freeing a page that is not on the list pushes it on the front. */
  lemma FreePushesChain(c: seq<byte>, head: u64, list: seq<u64>, page: u64)
    requires FreeChain(c, head, list)
    requires page < PAGE_LIMIT && page !in list
    ensures FreeChain(WriteAt(c, PageOffset(page), FreeRecord(head)), page, [page] + list)
  {
    PageOffsetExact(page);
    var d := WriteAt(c, PageOffset(page), FreeRecord(head));
    var list' := [page] + list;
    FreeThenAllocate(c, page, head);
    assert LinkAt(d, list', 0);
    forall k | 1 <= k < |list'|
      ensures LinkAt(d, list', k)
    {
      assert list'[k] == list[k - 1] && LinkAt(c, list, k - 1);
      FreeRecordKeepsOtherLinks(c, page, head, list[k - 1]);
    }
  }

  /** Allocation takes the front page off the list and leaves the rest. */
  lemma AllocatePopsChain(c: seq<byte>, head: u64, list: seq<u64>)
    requires FreeChain(c, head, list) && list != []
    ensures head != NONE && head == list[0] && Addressable(head)
    ensures NextFreeLink(c, head).Some? && FreeChain(c, NextFreeLink(c, head).value, list[1..])
  {
    assert LinkAt(c, list, 0);
    PageOffsetExact(head);
    var rest := list[1..];
    forall k | 0 <= k < |rest|
      ensures LinkAt(c, rest, k)
    {
      assert rest[k] == list[k + 1] && LinkAt(c, list, k + 1);
    }
  }

  // ---------------------------------------------------------- inode header

  /** The fields of sfs_inode_t that the engine converts to big-endian. */
  datatype InodeHeader = InodeHeader(
    page: u64,
    parentInodePointer: u64,
    pointerCount: u64,
    nextPage: u64,
    previousPage: u64)

  function EncodeInodeHeader(h: InodeHeader): (s: seq<byte>)
    ensures |s| == INODE_HEADER_SIZE
  {
    EncodeU64(h.page) + EncodeU64(h.parentInodePointer) + EncodeU64(h.pointerCount)
      + EncodeU64(h.nextPage) + EncodeU64(h.previousPage)
  }

  /** Five 8-byte blocks laid end to end are the 8-byte slices of the
      concatenation, and a 40-byte sequence is its five slices laid end to end. */
  lemma EightByteBlocks(a: seq<byte>, b: seq<byte>, c: seq<byte>, d: seq<byte>, e: seq<byte>)
    requires |a| == 8 && |b| == 8 && |c| == 8 && |d| == 8 && |e| == 8
    ensures var s := a + b + c + d + e;
      s[0..8] == a && s[8..16] == b && s[16..24] == c && s[24..32] == d && s[32..40] == e
  {
    var s := a + b + c + d + e;
    assert |s| == 40;
    forall i | 0 <= i < 8
      ensures s[i] == a[i] && s[8 + i] == b[i] && s[16 + i] == c[i]
      ensures s[24 + i] == d[i] && s[32 + i] == e[i]
    {
    }
    assert s[0..8] == a;
    assert s[8..16] == b;
    assert s[16..24] == c;
    assert s[24..32] == d;
    assert s[32..40] == e;
  }

  lemma FortyBytes(s: seq<byte>)
    requires |s| == 40
    ensures s == s[0..8] + s[8..16] + s[16..24] + s[24..32] + s[32..40]
  {
    var t := s[0..8] + s[8..16] + s[16..24] + s[24..32] + s[32..40];
    assert |t| == 40;
    forall i | 0 <= i < 40 ensures t[i] == s[i] {
      if i < 8 {
      } else if i < 16 {
      } else if i < 24 {
      } else if i < 32 {
      } else {
      }
    }
  }

  function DecodeInodeHeader(s: seq<byte>): (h: InodeHeader)
    requires |s| == INODE_HEADER_SIZE
    ensures EncodeInodeHeader(h) == s
  {
    var h := InodeHeader(DecodeU64(s[0..8]), DecodeU64(s[8..16]), DecodeU64(s[16..24]),
                         DecodeU64(s[24..32]), DecodeU64(s[32..40]));
    FortyBytes(s);
    h
  }

  lemma {:induction false} InodeHeaderRoundTrip(h: InodeHeader)
    ensures DecodeInodeHeader(EncodeInodeHeader(h)) == h
  {
    EightByteBlocks(EncodeU64(h.page), EncodeU64(h.parentInodePointer), EncodeU64(h.pointerCount),
                    EncodeU64(h.nextPage), EncodeU64(h.previousPage));
    U64RoundTrip(h.page);
    U64RoundTrip(h.parentInodePointer);
    U64RoundTrip(h.pointerCount);
    U64RoundTrip(h.nextPage);
    U64RoundTrip(h.previousPage);
  }

  /** What sfs_read_inode_headers yields for page of an image with contents
      c: None when the seek fails or the read comes back short. */
  function HeaderAt(c: seq<byte>, page: u64): (r: Option<InodeHeader>)
    ensures r.Some? <==> Addressable(page) && PageOffset(page) + INODE_HEADER_SIZE <= |c|
    ensures r.Some? ==> c[PageOffset(page)..PageOffset(page) + INODE_HEADER_SIZE] == EncodeInodeHeader(r.value)
  {
    if !Addressable(page) then None
    else
      var b := ReadAt(c, PageOffset(page), INODE_HEADER_SIZE);
      if |b| < INODE_HEADER_SIZE then None
      else
        assert b == c[PageOffset(page)..PageOffset(page) + INODE_HEADER_SIZE];
        Some(DecodeInodeHeader(b))
  }

  /** Writing a header and reading it back gives the same five fields. */
  lemma WriteThenReadHeader(c: seq<byte>, page: u64, h: InodeHeader)
    requires Addressable(page)
    ensures HeaderAt(WriteAt(c, PageOffset(page), EncodeInodeHeader(h)), page) == Some(h)
  {
    var off := PageOffset(page);
    var d := WriteAt(c, off, EncodeInodeHeader(h));
    assert d[off..off + INODE_HEADER_SIZE] == EncodeInodeHeader(h);
    InodeHeaderRoundTrip(h);
  }

  /** Writing a header leaves every byte outside those 40 as it was: the
      pointer slots of the page and every other page. */
  lemma WriteHeaderLeavesRest(c: seq<byte>, page: u64, h: InodeHeader, i: nat)
    requires Addressable(page)
    requires i < |c| && !(PageOffset(page) <= i < PageOffset(page) + INODE_HEADER_SIZE)
    ensures WriteAt(c, PageOffset(page), EncodeInodeHeader(h))[i] == c[i]
  {
    WriteAtBytes(c, PageOffset(page), EncodeInodeHeader(h));
  }

  /** Writing the header of one page does not change what is read from another. */
  lemma WriteHeaderKeepsOthers(c: seq<byte>, p: u64, h: InodeHeader, q: u64)
    requires p < PAGE_LIMIT && q < PAGE_LIMIT && p != q
    requires HeaderAt(c, q).Some?
    ensures HeaderAt(WriteAt(c, PageOffset(p), EncodeInodeHeader(h)), q) == HeaderAt(c, q)
  {
    DistinctPagesApart(p, q);
    var d := WriteAt(c, PageOffset(p), EncodeInodeHeader(h));
    var offq := PageOffset(q);
    ReadElsewhere(c, PageOffset(p), EncodeInodeHeader(h), offq, INODE_HEADER_SIZE);
    assert d[offq..offq + INODE_HEADER_SIZE] == c[offq..offq + INODE_HEADER_SIZE];
    assert HeaderAt(d, q).Some?;
    InodeHeaderRoundTrip(HeaderAt(d, q).value);
    InodeHeaderRoundTrip(HeaderAt(c, q).value);
  }

  // ------------------------------------------------- continuation splice

  /** The page's header and, when it has one, its successor's header can be read. */
  predicate SpliceReadable(c: seq<byte>, page: u64) {
    HeaderAt(c, page).Some? &&
    (HeaderAt(c, page).value.nextPage != NONE ==> HeaderAt(c, HeaderAt(c, page).value.nextPage).Some?)
  }

  /** The image after the three header writes of sfs_inode_insert_continuation_page
      that put page r after page: the old successor's previous_page, then
      page's next_page, then r's header copied from page's. */
  function SplicedContents(c: seq<byte>, page: u64, r: u64): seq<byte>
    requires SpliceReadable(c, page) && Addressable(r)
  {
    var h := HeaderAt(c, page).value;
    var c1 := if h.nextPage == NONE then c
              else WriteAt(c, PageOffset(h.nextPage),
                           EncodeInodeHeader(HeaderAt(c, h.nextPage).value.(previousPage := r)));
    var c2 := WriteAt(c1, PageOffset(page), EncodeInodeHeader(h.(nextPage := r)));
    WriteAt(c2, PageOffset(r), EncodeInodeHeader(h.(previousPage := page)))
  }

  /** All three header writes of the splice fit below the file size limit. */
  predicate SpliceWritesFit(c: seq<byte>, page: u64, r: u64, limit: nat)
    requires SpliceReadable(c, page) && Addressable(r)
  {
    var n := HeaderAt(c, page).value.nextPage;
    (n != NONE ==> PageOffset(n) + INODE_HEADER_SIZE <= limit) &&
    PageOffset(page) + INODE_HEADER_SIZE <= limit &&
    PageOffset(r) + INODE_HEADER_SIZE <= limit
  }

  /** The doubly linked chain after inserting r after page: r points back to
      page and forward to page's old successor (or NONE), page points forward
      to r, the old successor points back to r, and r carries page's other
      header fields. */
  lemma SpliceHeaders(c: seq<byte>, page: u64, r: u64)
    requires SpliceReadable(c, page)
    requires page < PAGE_LIMIT && r < PAGE_LIMIT && r != page
    requires var n := HeaderAt(c, page).value.nextPage; n != NONE ==> n < PAGE_LIMIT && n != page && n != r
    ensures Addressable(r)
    ensures var h := HeaderAt(c, page).value;
            var d := SplicedContents(c, page, r);
            && HeaderAt(d, r) == Some(InodeHeader(h.page, h.parentInodePointer, h.pointerCount, h.nextPage, page))
            && HeaderAt(d, page) == Some(h.(nextPage := r))
            && (h.nextPage != NONE ==>
                  HeaderAt(d, h.nextPage) == Some(HeaderAt(c, h.nextPage).value.(previousPage := r)))
  {
    PageOffsetExact(r);
    var h := HeaderAt(c, page).value;
    var n := h.nextPage;
    var c1 := if n == NONE then c
              else WriteAt(c, PageOffset(n), EncodeInodeHeader(HeaderAt(c, n).value.(previousPage := r)));
    if n != NONE {
      WriteThenReadHeader(c, n, HeaderAt(c, n).value.(previousPage := r));
      WriteHeaderKeepsOthers(c, n, HeaderAt(c, n).value.(previousPage := r), page);
    }
    assert HeaderAt(c1, page) == Some(h);
    var c2 := WriteAt(c1, PageOffset(page), EncodeInodeHeader(h.(nextPage := r)));
    WriteThenReadHeader(c1, page, h.(nextPage := r));
    if n != NONE {
      WriteHeaderKeepsOthers(c1, page, h.(nextPage := r), n);
      WriteHeaderKeepsOthers(c2, r, h.(previousPage := page), n);
    }
    WriteThenReadHeader(c2, r, h.(previousPage := page));
    WriteHeaderKeepsOthers(c2, r, h.(previousPage := page), page);
  }

  /** The splice changes the header of no page other than page, r and page's
      old successor. */
  lemma SpliceKeepsOtherHeaders(c: seq<byte>, page: u64, r: u64, q: u64)
    requires SpliceReadable(c, page)
    requires page < PAGE_LIMIT && r < PAGE_LIMIT && q < PAGE_LIMIT
    requires var n := HeaderAt(c, page).value.nextPage; n != NONE ==> n < PAGE_LIMIT
    requires q != page && q != r && q != HeaderAt(c, page).value.nextPage
    requires HeaderAt(c, q).Some?
    ensures Addressable(r) && HeaderAt(SplicedContents(c, page, r), q) == HeaderAt(c, q)
  {
    PageOffsetExact(r);
    var h := HeaderAt(c, page).value;
    var n := h.nextPage;
    var c1 := if n == NONE then c
              else WriteAt(c, PageOffset(n), EncodeInodeHeader(HeaderAt(c, n).value.(previousPage := r)));
    if n != NONE {
      WriteHeaderKeepsOthers(c, n, HeaderAt(c, n).value.(previousPage := r), q);
    }
    var c2 := WriteAt(c1, PageOffset(page), EncodeInodeHeader(h.(nextPage := r)));
    WriteHeaderKeepsOthers(c1, page, h.(nextPage := r), q);
    WriteHeaderKeepsOthers(c2, r, h.(previousPage := page), q);
  }

  // ---------------------------------------------------- defect: allocation

  /** sfs_allocate_page exactly as written: only a failed read (result < 0)
      is caught, so when the 8-byte read of the next index comes back short
      the missing bytes are whatever the uninitialised local variable held;
      stale stands for those 8 bytes. The result is (page returned, new head). */
  function AllocatePageAsWritten(c: seq<byte>, head: u64, stale: seq<byte>): (r: (u64, u64))
    requires |stale| == 8
    ensures head == NONE || !Addressable(head) ==> r == (NONE, head)
    ensures head != NONE && Addressable(head) ==> r.0 == head
    ensures head != NONE && NextFreeLink(c, head).Some? ==> r == (head, NextFreeLink(c, head).value)
  {
    if head == NONE then (NONE, head)
    else if !Addressable(head) then (NONE, head)
    else
      var got := ReadAt(c, PageOffset(head) + 1, 8);
      assert |got| == 8 ==> got + stale[|got|..] == got;
      (head, DecodeU64(got + stale[|got|..]))
  }

  /** The image mkfs.sfs leaves when run on a path that does not exist yet
      (or on an empty file): a zeroed handle's superblock, free-list head 0
      and no page bytes at all. The file is opened without O_TRUNC, so on an
      existing file only bytes 0..19 are rewritten and the old pages stay. */
  function MkfsImage(): seq<byte> {
    EncodeSuperblock(Superblock(0, 0))
  }

  /** On that image the allocation as written hands out page 0 and takes the new
      head from uninitialised memory: two stale contents, two different heads. */
  lemma AllocateAsWrittenReadsStaleBytes()
    ensures var a := AllocatePageAsWritten(MkfsImage(), 0, Zeros(8));
            var b := AllocatePageAsWritten(MkfsImage(), 0, [0, 0, 0, 0, 0, 0, 0, 1]);
            a.0 == 0 && b.0 == 0 && a.1 != b.1
  {
    PageOffsetExact(0);
    assert ReadAt(MkfsImage(), PageOffset(0) + 1, 8) == [];
    assert Zeros(8) != [0, 0, 0, 0, 0, 0, 0, 1] by { assert Zeros(8)[7] == 0; }
  }

  /** With the short read detected, the same image yields no page. */
  lemma FreshImageAllocationFails()
    ensures NextFreeLink(MkfsImage(), 0) == None
  {
    PageOffsetExact(0);
  }

  // ----------------------------------------------------- filesystem handle

  /** sfs_t: the superblock fields kept in memory and the open image file. */
  class FileSystem {
    var pageCount: u64
    var firstFreePageIndex: u64
    var file: BackingFile

    /** the memset of the handle followed by storing the descriptor */
    constructor (file: BackingFile)
      ensures this.file == file && pageCount == 0 && firstFreePageIndex == 0
    {
      this.file := file;
      pageCount := 0;
      firstFreePageIndex := 0;
    }

    /** sfs_update_superblock: the three fields, big-endian, from offset 0. */
    method UpdateSuperblock() returns (status: int)
      modifies file
      ensures var w := Writable(0, SUPERBLOCK_BYTES, file.limit);
              && file.contents == WriteAt(old(file.contents), 0,
                                          EncodeSuperblock(Superblock(pageCount, firstFreePageIndex))[..w])
              && file.cursor == w
      ensures status == (if SUPERBLOCK_BYTES <= file.limit then SUCCESS else FAILURE)
    {
      status := WriteSuperblockBytes(EncodeSuperblock(Superblock(pageCount, firstFreePageIndex)));
    }

    /** The lseek to offset 0 and the three field writes of
        sfs_update_superblock, on the encoded bytes enc of the fields. */
    method WriteSuperblockBytes(enc: seq<byte>) returns (status: int)
      requires |enc| == SUPERBLOCK_BYTES
      modifies file
      ensures var w := Writable(0, SUPERBLOCK_BYTES, file.limit);
              && file.contents == WriteAt(old(file.contents), 0, enc[..w])
              && file.cursor == w
      ensures status == (if SUPERBLOCK_BYTES <= file.limit then SUCCESS else FAILURE)
    {
      ghost var c0 := file.contents;
      // lseek to offset 0 cannot fail
      var _ := file.Seek(0);
      assert WriteAt(c0, 0, enc[..0]) == c0;
      var w := file.WriteNext(c0, 0, enc, 0, enc[..4]);
      if w < 4 {
        return FAILURE;
      }
      w := file.WriteNext(c0, 0, enc, 4, enc[4..12]);
      if w < 8 {
        return FAILURE;
      }
      w := file.WriteNext(c0, 0, enc, 12, enc[12..20]);
      if w < 8 {
        return FAILURE;
      }
      assert enc[..20] == enc;
      return SUCCESS;
    }

    /** sfs_close_fs without the close(2) of the descriptor. */
    method CloseFs() returns (status: int)
      modifies file
      ensures var w := Writable(0, SUPERBLOCK_BYTES, file.limit);
              file.contents == WriteAt(old(file.contents), 0,
                                       EncodeSuperblock(Superblock(pageCount, firstFreePageIndex))[..w])
      ensures status == (if SUPERBLOCK_BYTES <= file.limit then SUCCESS else FAILURE)
    {
      status := UpdateSuperblock();
    }

    /** sfs_seek_to_page */
    method SeekToPage(page: u64) returns (status: int)
      modifies file
      ensures status == (if Addressable(page) then SUCCESS else FAILURE)
      ensures file.contents == old(file.contents)
      ensures file.cursor == if Addressable(page) then PageOffset(page) else old(file.cursor)
    {
      var ok := file.Seek(SeekOffset(page));
      status := if ok then SUCCESS else FAILURE;
    }

    /** sfs_free_page: push page on the free list. The head is switched to
        page before the record is written, so a failed write leaves the head
        on a page that does not hold the link. */
    method FreePage(page: u64) returns (status: int)
      modifies this, file
      ensures file == old(file) && pageCount == old(pageCount)
      ensures !Addressable(page) ==>
        && status == FAILURE && firstFreePageIndex == old(firstFreePageIndex)
        && file.contents == old(file.contents) && file.cursor == old(file.cursor)
      ensures Addressable(page) ==>
        var w := Writable(PageOffset(page), FREE_RECORD_BYTES, file.limit);
        && firstFreePageIndex == page
        && file.contents == WriteAt(old(file.contents), PageOffset(page), FreeRecord(old(firstFreePageIndex))[..w])
        && file.cursor == PageOffset(page) + w
        && status == (if w == FREE_RECORD_BYTES then SUCCESS else FAILURE)
    {
      status := SeekToPage(page);
      if status < 0 {
        return;
      }
      var next: u64;
      if firstFreePageIndex == NONE {
        firstFreePageIndex := page;
        next := NONE;
      } else {
        next := firstFreePageIndex;
        firstFreePageIndex := page;
      }
      status := WriteFreeRecord(next);
    }

    /** The two writes of sfs_free_page at the cursor: the page type tag, then
        the next free page index. */
    method WriteFreeRecord(next: u64) returns (status: int)
      modifies file
      ensures var w := Writable(old(file.cursor), FREE_RECORD_BYTES, file.limit);
        && file.contents == WriteAt(old(file.contents), old(file.cursor), FreeRecord(next)[..w])
        && file.cursor == old(file.cursor) + w
        && status == (if w == FREE_RECORD_BYTES then SUCCESS else FAILURE)
    {
      ghost var c0, off := file.contents, file.cursor;
      var rec := FreeRecord(next);
      assert WriteAt(c0, off, rec[..0]) == c0;
      var w := file.WriteNext(c0, off, rec, 0, [FREE_PAGE_IDENTIFIER]);
      if w < 1 {
        return FAILURE;
      }
      w := file.WriteNext(c0, off, rec, 1, EncodeU64(next));
      if w < 8 {
        return FAILURE;
      }
      return SUCCESS;
    }

    /** sfs_allocate_page with the short read of the next index detected (see
        AllocatePageAsWritten): pop the head of the free list, reading the next
        index from bytes 1..8 of the head page; nothing is written. */
    method AllocatePage() returns (page: u64)
      modifies this, file
      ensures file == old(file) && pageCount == old(pageCount)
      ensures file.contents == old(file.contents)
      ensures var head := old(firstFreePageIndex);
              var link := if head == NONE then None else NextFreeLink(old(file.contents), head);
              && page == (if link.Some? then head else NONE)
              && firstFreePageIndex == (if link.Some? then link.value else head)
      ensures var head := old(firstFreePageIndex);
              file.cursor == if head != NONE && Addressable(head)
                             then PageOffset(head) + 1 + |ReadAt(old(file.contents), PageOffset(head) + 1, 8)|
                             else old(file.cursor)
    {
      if firstFreePageIndex == NONE {
        return NONE;
      }
      var status := SeekToPage(firstFreePageIndex);
      if status < 0 {
        return NONE;
      }
      // skip the page identifier; a forward lseek cannot fail
      file.SeekForward(1);
      var bytes := file.Read(8);
      if |bytes| < 8 {
        return NONE;
      }
      page := firstFreePageIndex;
      firstFreePageIndex := DecodeU64(bytes);
    }

    /** sfs_write_inode_header: the five fields, big-endian, at the start of page. */
    method WriteInodeHeader(page: u64, h: InodeHeader) returns (status: int)
      modifies file
      ensures !Addressable(page) ==>
        status == FAILURE && file.contents == old(file.contents) && file.cursor == old(file.cursor)
      ensures Addressable(page) ==>
        var w := Writable(PageOffset(page), INODE_HEADER_SIZE, file.limit);
        && file.contents == WriteAt(old(file.contents), PageOffset(page), EncodeInodeHeader(h)[..w])
        && file.cursor == PageOffset(page) + w
        && status == (if w == INODE_HEADER_SIZE then SUCCESS else FAILURE)
    {
      status := SeekToPage(page);
      if status < 0 {
        return FAILURE;
      }
      var w := file.Write(EncodeInodeHeader(h));
      status := if w < INODE_HEADER_SIZE then FAILURE else SUCCESS;
    }

    /** sfs_read_inode_headers; None stands for the status -1. */
    method ReadInodeHeaders(page: u64) returns (header: Option<InodeHeader>)
      modifies file
      ensures header == HeaderAt(old(file.contents), page)
      ensures file.contents == old(file.contents)
      ensures file.cursor == if Addressable(page)
                             then PageOffset(page) + |ReadAt(old(file.contents), PageOffset(page), INODE_HEADER_SIZE)|
                             else old(file.cursor)
    {
      var status := SeekToPage(page);
      if status < 0 {
        return None;
      }
      var bytes := file.Read(INODE_HEADER_SIZE);
      if |bytes| < INODE_HEADER_SIZE {
        return None;
      }
      header := Some(DecodeInodeHeader(bytes));
    }

    /** sfs_inode_insert_continuation_page: allocate a page and splice it into
        the chain after page. A failure after the allocation does not give the
        page back to the free list. */
    method InsertContinuationPage(page: u64) returns (continuation: u64)
      modifies this, file
      ensures file == old(file) && pageCount == old(pageCount)
      ensures var head := old(firstFreePageIndex);
              var link := if head == NONE then None else NextFreeLink(old(file.contents), head);
              && (link.None? ==>
                    continuation == NONE && firstFreePageIndex == head && file.contents == old(file.contents))
              && (link.Some? ==> firstFreePageIndex == link.value)
              && (link.Some? && !SpliceReadable(old(file.contents), page) ==>
                    continuation == NONE && file.contents == old(file.contents))
              && (link.Some? && SpliceReadable(old(file.contents), page) ==>
                    (continuation != NONE <==> SpliceWritesFit(old(file.contents), page, head, file.limit)))
              && (continuation != NONE ==>
                    && link.Some? && continuation == head && SpliceReadable(old(file.contents), page)
                    && file.contents == SplicedContents(old(file.contents), page, head))
    {
      continuation := AllocatePage();
      if continuation == NONE {
        return;
      }
      var ok := SpliceAfter(page, continuation);
      if !ok {
        return NONE;
      }
    }

    /** The part of sfs_inode_insert_continuation_page after the allocation:
        read page's header, repoint its old successor (if any) back at
        continuation, point page forward at continuation, and write
        continuation's header as a copy of page's with previous_page = page. */
    method SpliceAfter(page: u64, continuation: u64) returns (ok: bool)
      requires Addressable(continuation)
      modifies file
      ensures !SpliceReadable(old(file.contents), page) ==> !ok && file.contents == old(file.contents)
      ensures SpliceReadable(old(file.contents), page) ==>
        ok == SpliceWritesFit(old(file.contents), page, continuation, file.limit)
      ensures ok ==> SpliceReadable(old(file.contents), page)
      ensures ok ==> file.contents == SplicedContents(old(file.contents), page, continuation)
    {
      ghost var c0 := file.contents;
      var previous := ReadInodeHeaders(page);
      if previous.None? {
        return false;
      }
      var prev := previous.value;
      var newPage := prev.(nextPage := NONE);
      newPage := newPage.(previousPage := page);
      if prev.nextPage != NONE {
        newPage := newPage.(nextPage := prev.nextPage);
        ok := RepointSuccessor(prev.nextPage, continuation);
        if !ok {
          return false;
        }
      }
      ghost var c1 := file.contents;
      assert c1 == if prev.nextPage == NONE then c0
                   else WriteAt(c0, PageOffset(prev.nextPage),
                                EncodeInodeHeader(HeaderAt(c0, prev.nextPage).value.(previousPage := continuation))) by {
        if prev.nextPage != NONE {
          var e0 := EncodeInodeHeader(HeaderAt(c0, prev.nextPage).value.(previousPage := continuation));
          assert e0[..INODE_HEADER_SIZE] == e0;
        }
      }
      assert newPage == prev.(previousPage := page);
      ok := WriteHeaderPair(page, prev.(nextPage := continuation), continuation, newPage);
    }

    /** The last two writes of sfs_inode_insert_continuation_page: page's
        updated header, then continuation's. */
    method WriteHeaderPair(page: u64, h: InodeHeader, continuation: u64, g: InodeHeader) returns (ok: bool)
      requires Addressable(page) && Addressable(continuation)
      modifies file
      ensures ok == (PageOffset(page) + INODE_HEADER_SIZE <= file.limit &&
                     PageOffset(continuation) + INODE_HEADER_SIZE <= file.limit)
      ensures ok ==> file.contents == WriteAt(WriteAt(old(file.contents), PageOffset(page), EncodeInodeHeader(h)),
                                              PageOffset(continuation), EncodeInodeHeader(g))
    {
      var e1 := EncodeInodeHeader(h);
      var e2 := EncodeInodeHeader(g);
      assert e1[..INODE_HEADER_SIZE] == e1 && e2[..INODE_HEADER_SIZE] == e2;
      var status := WriteInodeHeader(page, h);
      if status < 0 {
        return false;
      }
      status := WriteInodeHeader(continuation, g);
      ok := status == SUCCESS;
    }

    /** The step of sfs_inode_insert_continuation_page for a page with a
        successor: read the successor's header and write it back with
        previous_page = continuation. */
    method RepointSuccessor(successor: u64, continuation: u64) returns (ok: bool)
      modifies file
      ensures var r := HeaderAt(old(file.contents), successor);
        && (r.None? ==> !ok && file.contents == old(file.contents))
        && (r.Some? ==>
              var w := Writable(PageOffset(successor), INODE_HEADER_SIZE, file.limit);
              && file.contents == WriteAt(old(file.contents), PageOffset(successor),
                                          EncodeInodeHeader(r.value.(previousPage := continuation))[..w])
              && ok == (w == INODE_HEADER_SIZE))
    {
      var header := ReadInodeHeaders(successor);
      if header.None? {
        return false;
      }
      var status := WriteInodeHeader(successor, header.value.(previousPage := continuation));
      ok := status == SUCCESS;
    }
  }

  /** sfs_open_fs on an image file just opened (cursor at 0); opening the path
      itself is not modelled. Unless the check is skipped, reads the magic,
      the page count and the free-list head in that order. */
  method OpenFs(f: BackingFile, skipSuperblockCheck: bool) returns (fs: FileSystem, status: int)
    requires f.cursor == 0
    modifies f
    ensures fresh(fs) && fs.file == f && f.contents == old(f.contents)
    ensures skipSuperblockCheck ==>
      status == SUCCESS && fs.pageCount == 0 && fs.firstFreePageIndex == 0 && f.cursor == 0
    ensures !skipSuperblockCheck ==>
      var c := old(f.contents);
      var r := ReadSuperblock(c);
      && status == (if r.Success? then SUCCESS else r.error)
      && fs.firstFreePageIndex == (if r.Success? then r.value.firstFreePageIndex else 0)
      && fs.pageCount == (if |c| >= 12 && DecodeU32(c[..4]) == MAGIC_NO then DecodeU64(c[4..12]) else 0)
      && f.cursor == (if |c| >= 4 && DecodeU32(c[..4]) != MAGIC_NO then 4 else Min(|c|, SUPERBLOCK_BYTES))
  {
    fs := new FileSystem(f);
    if skipSuperblockCheck {
      return fs, SUCCESS;
    }
    ghost var c := f.contents;
    var magic := f.Read(4);
    if |magic| < 4 {
      return fs, FAILURE;
    }
    assert magic == c[..4];
    if DecodeU32(magic) != MAGIC_NO {
      return fs, E_MALFORMED_SUPERBLOCK;
    }
    var count := f.Read(8);
    if |count| < 8 {
      return fs, FAILURE;
    }
    assert count == c[4..12];
    fs.pageCount := DecodeU64(count);
    var first := f.Read(8);
    if |first| < 8 {
      return fs, FAILURE;
    }
    assert first == c[12..20];
    fs.firstFreePageIndex := DecodeU64(first);
    status := SUCCESS;
  }
}

