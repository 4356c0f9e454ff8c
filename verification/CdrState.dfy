/** The nRF70 firmware-statistics recording: collection, chunked reading, and its flash copy. */
module CdrState {
  import opened Bytes
  import opened NorFlash
  import opened Commit

  const ENOENT: int := 2
  const EIO: int := 5
  const ENODEV: int := 19
  const ENOSPC: int := 28
  const ENODATA: int := 61

  const BLOB_MAX: nat := 1024
  const MAGIC: nat := 0x43445253
  const VERSION: nat := 1

  /** What the Wi-Fi driver answers to a statistics request. */
  datatype Stats = NoDevice | Failed | Fetched(fw: seq<byte>)

  /** Oversized statistics are cut to the buffer. */
  function Truncated(fw: seq<byte>): seq<byte> {
    if |fw| > BLOB_MAX then fw[..BLOB_MAX] else fw
  }

  /** The blob a collection produces, if it produces one. */
  function Collected(st: Stats): Option<seq<byte>> {
    if st.Fetched? && st.fw != [] then Some(Truncated(st.fw)) else None
  }

  /** A recording comes of a collection exactly if the driver delivers something, and is then as much of
      the front of it as the buffer holds. */
  lemma CollectedIs(st: Stats)
    ensures Collected(st).Some? <==> st.Fetched? && |st.fw| > 0
    ensures Collected(st).Some? ==> Collected(st).value == st.fw[..if |st.fw| <= 1024 then |st.fw| else 1024]
  {
    if st.Fetched? {
      assert st.fw[..|st.fw|] == st.fw;
    }
  }

  function CollectCode(st: Stats): int {
    match st
    case NoDevice => -ENODEV
    case Failed => -EIO
    case Fetched(fw) => if fw == [] then -ENODATA else 0
  }

  // ------------------------------------------------------------------ flash image

  function HeaderBytes(n: nat): (h: seq<byte>)
    ensures |h| == HEADER_SIZE
  {
    LeBytes(MAGIC, 4) + LeBytes(VERSION, 2) + LeBytes(0, 2) + LeBytes(n, 4) + LeBytes(0, 4)
  }

  function BlobSize(f: seq<byte>): nat
    requires |f| >= HEADER_SIZE
  {
    LeVal(f[8..12])
  }

  /** The checks of the restore path; the two reserved fields are not among them. */
  predicate HeaderOk(f: seq<byte>)
    requires |f| >= HEADER_SIZE
  {
    LeVal(f[0..4]) == MAGIC && LeVal(f[4..6]) == VERSION && 0 < BlobSize(f) <= BLOB_MAX
  }

  function StoredBlob(f: seq<byte>): Option<seq<byte>> {
    if |f| < HEADER_SIZE || !HeaderOk(f) || HEADER_SIZE + BlobSize(f) > |f| then None
    else Some(f[HEADER_SIZE..HEADER_SIZE + BlobSize(f)])
  }

  function PersistOps(size: nat, blob: seq<byte>): (ops: seq<FlashOp>)
    requires size % PAGE_SIZE == 0 && HEADER_SIZE + |blob| <= size
    ensures OpsFit(ops, size)
    ensures |ops| == size / PAGE_SIZE + |blob| + HEADER_SIZE
  {
    CommitOps(size, HeaderBytes(|blob|), blob)
  }

  predicate Attempts(f: seq<byte>, st: Stats, openFault: bool) {
    Collected(st).Some? && !openFault && HEADER_SIZE + |Collected(st).value| <= |f|
  }

  function PersistImage(f: seq<byte>, st: Stats, openFault: bool, budget: nat, torn: byte): seq<byte>
    requires |f| % PAGE_SIZE == 0
  {
    if Attempts(f, st, openFault) then CutAt(f, PersistOps(|f|, Collected(st).value), budget, torn) else f
  }

  function PersistCode(f: seq<byte>, st: Stats, openFault: bool, budget: nat): int
    requires |f| % PAGE_SIZE == 0
  {
    if Collected(st).None? then CollectCode(st)
    else if openFault then -EIO
    else if HEADER_SIZE + |Collected(st).value| > |f| then -ENOSPC
    else if budget < |PersistOps(|f|, Collected(st).value)| then -EIO
    else 0
  }

  /** Which of the flash accesses of a restore fail. */
  datatype ReadFaults = ReadFaults(open: bool, header: bool, blob: bool)

  function RestoreCode(f: seq<byte>, rf: ReadFaults): int {
    if rf.open || rf.header || |f| < HEADER_SIZE || !HeaderOk(f) then -ENOENT
    else if rf.blob || HEADER_SIZE + BlobSize(f) > |f| then -EIO
    else 0
  }

  function RestoreImage(f: seq<byte>, rf: ReadFaults, budget: nat): seq<byte>
    requires |f| % PAGE_SIZE == 0
  {
    if RestoreCode(f, rf) == -ENOENT then f else CutAt(f, EraseOps(|f|), budget, 0)
  }

  /** A torn or erased top byte makes the size word exceed the buffer limit. */
  lemma BadTopByteRejected(f: seq<byte>)
    requires |f| >= HEADER_SIZE && f[11] != 0
    ensures BlobSize(f) > BLOB_MAX
    ensures StoredBlob(f) == None
  {
    LeValTopByte(f[8..12]);
    assert f[8..12][3] == f[11];
    assert Pow256(3) == 256 * (256 * Pow256(1));
  }

  lemma HeaderWords(n: nat)
    requires n <= BLOB_MAX
    ensures var h := HeaderBytes(n);
            && LeVal(h[0..4]) == MAGIC && LeVal(h[4..6]) == VERSION && LeVal(h[8..12]) == n
            && h[11] == 0
  {
    var h := HeaderBytes(n);
    assert h[0..4] == LeBytes(MAGIC, 4) && h[4..6] == LeBytes(VERSION, 2) && h[8..12] == LeBytes(n, 4);
    assert Pow256(2) == 256 * Pow256(1);
    assert Pow256(4) == 256 * (256 * Pow256(2));
    LeValOfLeBytes(MAGIC, 4);
    LeValOfLeBytes(VERSION, 2);
    LeValOfLeBytes(n, 4);
    LeBytesTopZero(n, 4);
  }

  lemma SameChecked(g: seq<byte>, h: seq<byte>)
    requires |h| == HEADER_SIZE <= |g| && forall i :: 0 <= i < 12 ==> g[i] == h[i]
    ensures g[0..4] == h[0..4] && g[4..6] == h[4..6] && g[8..12] == h[8..12]
  {
  }

  /** An image whose payload is in place and whose header was cut at byte `j`. */
  lemma TornHeader(g: seq<byte>, blob: seq<byte>, j: nat, torn: byte)
    requires 0 < |blob| <= BLOB_MAX && HEADER_SIZE + |blob| <= |g|
    requires TornImage(g, HeaderBytes(|blob|), blob, j, torn)
    ensures StoredBlob(g) == if j >= 12 || (j == 11 && torn == 0) then Some(blob) else None
  {
    HeaderWords(|blob|);
    if j >= 12 || (j == 11 && torn == 0) {
      SameChecked(g, HeaderBytes(|blob|));
    } else {
      BadTopByteRejected(g);
    }
  }

  /** Crash atomicity.  Whatever the partition held and wherever the sequence is cut: untouched before
      the first page erase, unreadable until the size word is complete, and from there on (the last
      four header bytes are never checked) exactly the collected blob. */
  lemma PersistIsCrashAtomic(f: seq<byte>, blob: seq<byte>, k: nat, torn: byte)
    requires ValidPartition(f)
    requires 0 < |blob| <= BLOB_MAX && HEADER_SIZE + |blob| <= |f|
    ensures var n := |PersistOps(|f|, blob)|;
            var g := CutAt(f, PersistOps(|f|, blob), k, torn);
            && (k == 0 ==> g == f)
            && (k > 0 ==> StoredBlob(g) == if k >= n - 4 || (k == n - 5 && torn == 0) then Some(blob) else None)
  {
    var n := |f| / PAGE_SIZE + |blob|;
    CutCommit(f, HeaderBytes(|blob|), blob, k, torn);
    var g := CutAt(f, PersistOps(|f|, blob), k, torn);
    if 0 < k < n {
      BadTopByteRejected(g);
    } else if k >= n {
      TornHeader(g, blob, k - n, torn);
    }
  }

  lemma RestoreSucceedsIff(f: seq<byte>, rf: ReadFaults)
    ensures RestoreCode(f, rf) == 0 <==> !rf.open && !rf.header && !rf.blob && StoredBlob(f).Some?
  {
  }

  /** One shot, exactly: the blob survives a restore if and only if the ignored erase did nothing. */
  lemma RestoreIsOneShotIff(f: seq<byte>, rf: ReadFaults, budget: nat)
    requires ValidPartition(f)
    requires RestoreCode(f, rf) != -ENOENT
    ensures StoredBlob(RestoreImage(f, rf, budget)) == if budget == 0 then StoredBlob(f) else None
    ensures RestoreCode(f, rf) == 0 ==> (StoredBlob(RestoreImage(f, rf, budget)) == None <==> budget >= 1)
  {
    RestoreSucceedsIff(f, rf);
    CutErase(f, budget, 0);
    if budget > 0 {
      BadTopByteRejected(RestoreImage(f, rf, budget));
    }
  }

  /** The image of a blob, byte by byte; bytes 6, 7 and 12 to 15 are reserved. */
  ghost predicate IsImageOf(f: seq<byte>, blob: seq<byte>) {
    && 0 < |blob| <= BLOB_MAX && HEADER_SIZE + |blob| <= |f|
    && f[0..4] == LeBytes(MAGIC, 4) && f[4..6] == LeBytes(VERSION, 2) && f[8..12] == LeBytes(|blob|, 4)
    && f[HEADER_SIZE..HEADER_SIZE + |blob|] == blob
  }

  /** Nothing but the image of a blob is ever taken for it. */
  lemma StoredIff(f: seq<byte>, blob: seq<byte>)
    requires |f| >= HEADER_SIZE
    ensures StoredBlob(f) == Some(blob) <==> IsImageOf(f, blob)
  {
    assert Pow256(2) == 256 * Pow256(1);
    assert Pow256(4) == 256 * (256 * Pow256(2));
    WordIs(f[0..4], MAGIC);
    WordIs(f[4..6], VERSION);
    if |blob| <= BLOB_MAX {
      WordIs(f[8..12], |blob|);
    }
  }

  // ------------------------------------------------------------------ every way out

  /** A header whose magic, version and a length from 1 to 1024 are in place, byte by byte. */
  ghost predicate GoodHeader(f: seq<byte>) {
    && |f| >= HEADER_SIZE
    && f[0..4] == LeBytes(MAGIC, 4) && f[4..6] == LeBytes(VERSION, 2)
    && exists n: nat :: 1 <= n <= 1024 && f[8..12] == LeBytes(n, 4)
  }

  /** A restore is refused exactly when the area or its header cannot be read or no good header is there. */
  lemma RefusedIff(f: seq<byte>, rf: ReadFaults)
    ensures RestoreCode(f, rf) == -ENOENT <==> rf.open || rf.header || !GoodHeader(f)
  {
    if |f| >= HEADER_SIZE {
      assert Pow256(2) == 256 * Pow256(1);
      assert Pow256(4) == 256 * (256 * Pow256(2));
      WordIs(f[0..4], MAGIC);
      WordIs(f[4..6], VERSION);
      if n: nat :| 1 <= n <= 1024 && f[8..12] == LeBytes(n, 4) {
        WordIs(f[8..12], n);
      }
      if 0 < BlobSize(f) <= BLOB_MAX {
        WordIs(f[8..12], BlobSize(f));
      }
    }
  }

  /** Over the image of a blob, once area and header are read: -EIO exactly if the blob cannot be read,
      success otherwise; and either way one completed page erase takes the image away. */
  lemma RestoreAnswers(f: seq<byte>, blob: seq<byte>, rf: ReadFaults, budget: nat)
    requires ValidPartition(f) && IsImageOf(f, blob) && !rf.open && !rf.header
    ensures RestoreCode(f, rf) == if rf.blob then -EIO else 0
    ensures StoredBlob(RestoreImage(f, rf, budget)) == if budget == 0 then Some(blob) else None
  {
    StoredIff(f, blob);
    RestoreIsOneShotIff(f, rf, budget);
  }

  lemma GoodHeaderNotBlank(f: seq<byte>)
    requires GoodHeader(f)
    ensures f[0] != 255
  {
    assert f[0] == f[0..4][0] == LeBytes(MAGIC, 4)[0] == 0x53;
  }

  /** The partition is left as it was exactly when area or header could not be read, no good header is
      there, or the erase completed no page; otherwise its first page is blank. */
  lemma LeftInPlaceIff(f: seq<byte>, rf: ReadFaults, budget: nat)
    requires ValidPartition(f)
    ensures var g := RestoreImage(f, rf, budget);
            && (g == f <==> rf.open || rf.header || !GoodHeader(f) || budget == 0)
            && (g != f ==> forall i :: 0 <= i < PAGE_SIZE ==> g[i] == 255)
  {
    RefusedIff(f, rf);
    CutErase(f, budget, 0);
    if GoodHeader(f) {
      GoodHeaderNotBlank(f);
    }
  }

  /** What a persist answers, and what its answer means for the flash: success exactly if there is a
      recording, it fits and every step completes, and then it is there; a refusal leaves the flash alone. */
  lemma PersistAnswers(f: seq<byte>, st: Stats, openFault: bool, budget: nat, torn: byte)
    requires ValidPartition(f)
    ensures var code := PersistCode(f, st, openFault, budget);
            var g := PersistImage(f, st, openFault, budget, torn);
            && (code == -ENODEV <==> st.NoDevice?) && (code == -ENODATA <==> st == Fetched([]))
            && (st.Failed? ==> code == -EIO)
            && (code == 0 || code == -ENOSPC ==> st.Fetched? && st.fw != [] && !openFault)
            && (st.Fetched? && st.fw != [] && !openFault ==>
                  var n := if |st.fw| <= 1024 then |st.fw| else 1024;
                  && (code == -ENOSPC <==> |f| < 16 + n)
                  && (code == 0 <==> |f| >= 16 + n && budget >= |f| / PAGE_SIZE + n + 16)
                  && (code == 0 ==> StoredBlob(g) == Some(st.fw[..n])))
            && (!(st.Fetched? && st.fw != []) || openFault || code == -ENOSPC ==> g == f)
  {
    if Attempts(f, st, openFault) {
      CollectedIs(st);
      PersistIsCrashAtomic(f, Collected(st).value, budget, torn);
    }
  }

  // ------------------------------------------------------------------ chunked reading

  /** One read callback: false (None) at or past the end, otherwise at most `len` bytes. */
  function Chunk(b: seq<byte>, off: nat, len: nat): Option<seq<byte>> {
    if off >= |b| then None
    else Some(b[off..off + (if len < |b| - off then len else |b| - off)])
  }

  /** The bytes gathered by reading consecutive offsets with the given buffer sizes until a read says
      false or the sizes run out. */
  function ReadAll(b: seq<byte>, off: nat, lens: seq<nat>): seq<byte>
    decreases |lens|
  {
    if lens == [] then [] else
      match Chunk(b, off, lens[0])
      case None => []
      case Some(c) => c + ReadAll(b, off + |c|, lens[1..])
  }

  /** Reading never invents, repeats or skips a byte. */
  lemma {:induction false} ReadAllIsPrefix(b: seq<byte>, off: nat, lens: seq<nat>)
    requires off <= |b|
    ensures off + |ReadAll(b, off, lens)| <= |b|
    ensures ReadAll(b, off, lens) == b[off..off + |ReadAll(b, off, lens)|]
    decreases |lens|
  {
    if lens != [] && off < |b| {
      var c := Chunk(b, off, lens[0]).value;
      ReadAllIsPrefix(b, off + |c|, lens[1..]);
      var rest := ReadAll(b, off + |c|, lens[1..]);
      assert ReadAll(b, off, lens) == c + rest;
      assert b[off..off + |c| + |rest|] == b[off..off + |c|] + b[off + |c|..off + |c| + |rest|];
    }
  }

  /** The reader has everything exactly when the next read would say false. */
  lemma ReadAllEndsIff(b: seq<byte>, off: nat, lens: seq<nat>)
    requires off <= |b|
    ensures ReadAll(b, off, lens) == b[off..] <==> Chunk(b, off + |ReadAll(b, off, lens)|, 1) == None
  {
    ReadAllIsPrefix(b, off, lens);
  }

  /** Any positive buffer sizes, as many of them as there are bytes left, deliver the whole blob. */
  lemma {:induction false} ReadAllIsComplete(b: seq<byte>, off: nat, lens: seq<nat>)
    requires off <= |b| && |lens| >= |b| - off
    requires forall i :: 0 <= i < |lens| ==> lens[i] > 0
    ensures ReadAll(b, off, lens) == b[off..]
    decreases |lens|
  {
    if off < |b| {
      var c := Chunk(b, off, lens[0]).value;
      ReadAllIsComplete(b, off + |c|, lens[1..]);
      assert b[off..] == c + b[off + |c|..];
    }
  }

  // ------------------------------------------------------------------ the module's state

  class CdrSource {
    const blob: array<byte>
    var size: nat
    var ready: bool
    var readOffset: nat
    var announced: nat

    ghost predicate Valid()
      reads this
    {
      blob.Length == BLOB_MAX && size <= BLOB_MAX && (ready ==> size > 0)
    }

    ghost function Blob(): seq<byte>
      requires Valid()
      reads this, blob
    {
      blob[..size]
    }

    constructor ()
      ensures Valid() && fresh(blob) && !ready && size == 0
    {
      blob := new byte[BLOB_MAX](_ => 0);
      size, ready, readOffset, announced := 0, false, 0, 0;
    }

    /** has_cdr_cb */
    method HasCdr() returns (has: bool, announcedSize: nat)
      requires Valid()
      modifies this`announced
      ensures Valid() && has == ready
      ensures has ==> announcedSize == |Blob()| && 0 < announcedSize <= BLOB_MAX
    {
      if !ready || size == 0 {
        return false, 0;
      }
      announced := size;
      return true, announced;
    }

    /** read_data_cb */
    method ReadData(offset: nat, bufLen: nat) returns (data: Option<seq<byte>>)
      requires Valid()
      modifies this`readOffset
      ensures Valid()
      ensures data == Chunk(Blob(), offset, bufLen)
      ensures readOffset == offset + if data.Some? then |data.value| else 0
    {
      if offset != readOffset {
        readOffset := offset;
      }
      if offset >= size {
        return None;
      }
      var remaining := size - offset;
      var copyLen := if bufLen < remaining then bufLen else remaining;
      data := Some(blob[offset..offset + copyLen]);
      assert Blob()[offset..offset + copyLen] == blob[offset..offset + copyLen];
      readOffset := readOffset + copyLen;
    }

    /** mark_cdr_read_cb */
    method MarkRead()
      requires Valid()
      modifies this
      ensures Valid() && !ready && Blob() == [] && readOffset == 0 && announced == 0
    {
      ready, size, readOffset, announced := false, 0, 0, 0;
    }

    method Fill(data: seq<byte>)
      requires |data| <= blob.Length
      modifies blob
      ensures blob[..|data|] == data
    {
      for i := 0 to |data|
        invariant blob[..i] == data[..i]
      {
        blob[i] := data[i];
      }
    }

    /** mflt_nrf70_fw_stats_cdr_collect: the old recording is gone whether or not a new one arrives. */
    method Collect(st: Stats) returns (err: int)
      requires Valid()
      modifies this, blob
      ensures Valid()
      ensures err == CollectCode(st)
      ensures ready == (err == 0) == (st.Fetched? && st.fw != [])
      ensures ready ==> Blob() <= st.fw && (|Blob()| == |st.fw| || (|Blob()| == BLOB_MAX && |st.fw| > BLOB_MAX))
      ensures Blob() == if Collected(st).Some? then Collected(st).value else []
      ensures readOffset == 0 && announced == old(announced)
    {
      ready, size, readOffset := false, 0, 0;
      match st {
        case NoDevice => return -ENODEV;
        case Failed => return -EIO;
        case Fetched(fw) =>
          var n := if |fw| > BLOB_MAX then BLOB_MAX else |fw|;
          Fill(fw[..n]);
          size := n;
      }
      if size == 0 {
        return -ENODATA;
      }
      ready := true;
      return 0;
    }

    /** mflt_nrf70_fw_stats_cdr_persist_to_flash */
    method PersistToFlash(fa: FlashArea, st: Stats, openFault: bool) returns (err: int)
      requires Valid() && fa.cells.Length % PAGE_SIZE == 0 && fa.cells != blob
      modifies this, blob, fa`budget, fa.cells
      ensures Valid()
      ensures fa.cells[..] == PersistImage(old(fa.cells[..]), st, openFault, old(fa.budget), fa.torn)
      ensures err == PersistCode(old(fa.cells[..]), st, openFault, old(fa.budget))
      ensures ready == Collected(st).Some? && (ready ==> Blob() == Collected(st).value)
    {
      err := Collect(st);
      if err != 0 {
        return;
      }
      if openFault {
        return -EIO;
      }
      if HEADER_SIZE + size > fa.cells.Length {
        return -ENOSPC;
      }
      var payload := blob[..size];
      CutConcat(fa.cells[..], EraseOps(fa.cells.Length), BlobOps(HeaderBytes(size), payload), fa.budget, fa.torn);
      var ok := fa.Erase();
      if !ok {
        return -EIO;
      }
      assert payload + [] == payload;
      ok := WriteBlob(fa, HeaderBytes(size), payload, []);
      return if ok then 0 else -EIO;
    }

    /** mflt_nrf70_fw_stats_cdr_restore_from_flash.  The payload is read straight into the
        blob buffer: a failed read keeps size and ready flag and may spoil the bytes. */
    method RestoreFromFlash(fa: FlashArea, rf: ReadFaults, left: seq<byte>) returns (err: int)
      requires Valid() && fa.cells.Length % PAGE_SIZE == 0 && fa.cells != blob
      modifies this, blob, fa`budget, fa.cells
      ensures Valid()
      ensures err == RestoreCode(old(fa.cells[..]), rf)
      ensures fa.cells[..] == RestoreImage(old(fa.cells[..]), rf, old(fa.budget))
      ensures err == 0 ==> ready && StoredBlob(old(fa.cells[..])) == Some(Blob()) && announced == size && readOffset == 0
      ensures err != 0 ==> ready == old(ready) && size == old(size) && announced == old(announced)
      ensures err == -ENOENT ==> blob[..] == old(blob[..])
      ensures err == -EIO ==>
                && fa.cells.Length >= HEADER_SIZE && BlobSize(old(fa.cells[..])) <= BLOB_MAX
                && blob[..] == Overlay(old(blob[..]), Head(left, BlobSize(old(fa.cells[..]))))
    {
      ghost var f := fa.cells[..];
      var n := ReadSize(fa, rf);
      if n.None? {
        return -ENOENT;
      }
      var ok := fa.ReadInto(HEADER_SIZE, n.value, blob, rf.blob, left);
      var _ := fa.Erase();
      EraseTornFree(f, old(fa.budget), fa.torn);
      if !ok {
        return -EIO;
      }
      size, announced, ready, readOffset := n.value, n.value, true, 0;
      return 0;
    }
  }

  /** Opens the area and checks the header; None on every reason to answer -ENOENT. */
  method ReadSize(fa: FlashArea, rf: ReadFaults) returns (n: Option<nat>)
    ensures n.None? <==> RestoreCode(fa.cells[..], rf) == -ENOENT
    ensures n.Some? ==> |fa.cells[..]| >= HEADER_SIZE && HeaderOk(fa.cells[..]) && n.value == BlobSize(fa.cells[..])
  {
    ghost var f := fa.cells[..];
    if rf.open {
      return None;
    }
    var hdr := fa.Read(0, HEADER_SIZE, rf.header);
    if hdr.None? {
      return None;
    }
    var h := hdr.value;
    assert h[0..4] == f[0..4] && h[4..6] == f[4..6] && h[8..12] == f[8..12];
    if LeVal(h[0..4]) != MAGIC || LeVal(h[4..6]) != VERSION || LeVal(h[8..12]) == 0 || LeVal(h[8..12]) > BLOB_MAX {
      return None;
    }
    return Some(LeVal(h[8..12]));
  }
}
