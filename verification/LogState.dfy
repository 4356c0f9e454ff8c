/** Persisting the Memfault log ring to flash on disconnect and restoring it on connect. */
module LogState {
  import opened Bytes
  import opened NorFlash
  import opened Commit

  const EINVAL: int := 22
  const ENOENT: int := 2
  const ENOSPC: int := 28
  const EIO: int := 5

  const MAGIC: nat := 0x4d4c5352
  const VERSION: nat := 2

  /** The two byte areas that make up the ring state (sMfltLogSaveState). */
  datatype Snapshot = Snapshot(context: seq<byte>, storage: seq<byte>)

  datatype Sizes = Sizes(context: nat, storage: nat)

  function SizesOf(s: Snapshot): Sizes {
    Sizes(|s.context|, |s.storage|)
  }

  function HeaderBytes(z: Sizes): (h: seq<byte>)
    ensures |h| == HEADER_SIZE
  {
    LeBytes(MAGIC, 4) + LeBytes(VERSION, 2) + LeBytes(0, 2) + LeBytes(z.context, 4) + LeBytes(z.storage, 4)
  }

  datatype Header = Header(magic: nat, version: nat, reserved: nat, sizes: Sizes)

  function ReadHeader(h: seq<byte>): Header
    requires |h| == HEADER_SIZE
  {
    Header(LeVal(h[0..4]), LeVal(h[4..6]), LeVal(h[6..8]), Sizes(LeVal(h[8..12]), LeVal(h[12..16])))
  }

  predicate HeaderOk(h: Header) {
    h.magic == MAGIC && h.version == VERSION && h.sizes.context != 0 && h.sizes.storage != 0
  }

  /** What the partition holds for a reader whose live sizes agree with the header. */
  function Stored(f: seq<byte>): Option<Snapshot> {
    if |f| < HEADER_SIZE then None else
      var h := ReadHeader(f[..HEADER_SIZE]);
      var c, s := h.sizes.context, h.sizes.storage;
      if !HeaderOk(h) || HEADER_SIZE + c + s > |f| then None
      else Some(Snapshot(f[HEADER_SIZE..HEADER_SIZE + c], f[HEADER_SIZE + c..HEADER_SIZE + c + s]))
  }

  // ------------------------------------------------------------------ persist

  predicate Fits(s: Snapshot, size: nat) {
    HEADER_SIZE + |s.context| + |s.storage| <= size
  }

  /** Erase everything, write context and storage, and only then the header. */
  function PersistOps(size: nat, s: Snapshot): (ops: seq<FlashOp>)
    requires size % PAGE_SIZE == 0 && Fits(s, size)
    ensures OpsFit(ops, size)
    ensures |ops| == size / PAGE_SIZE + |s.context| + |s.storage| + HEADER_SIZE
  {
    CommitOps(size, HeaderBytes(SizesOf(s)), s.context + s.storage)
  }

  /** Whether a persist attempt gets as far as its erase, and the snapshot it then writes. */
  predicate Attempts(f: seq<byte>, state: Option<Snapshot>, openFault: bool) {
    state.Some? && !openFault && Fits(state.value, |f|)
  }

  function PersistImage(f: seq<byte>, state: Option<Snapshot>, openFault: bool, budget: nat, torn: byte): seq<byte>
    requires |f| % PAGE_SIZE == 0
  {
    if Attempts(f, state, openFault) then CutAt(f, PersistOps(|f|, state.value), budget, torn) else f
  }

  function PersistCode(f: seq<byte>, state: Option<Snapshot>, openFault: bool, budget: nat): int
    requires |f| % PAGE_SIZE == 0
  {
    if state.None? then -EINVAL
    else if openFault then -EIO
    else if !Fits(state.value, |f|) then -ENOSPC
    else if budget < |PersistOps(|f|, state.value)| then -EIO
    else 0
  }

  /** memfault_log_state_persist_now */
  method PersistNow(fa: FlashArea, state: Option<Snapshot>, openFault: bool) returns (err: int)
    requires fa.cells.Length % PAGE_SIZE == 0
    modifies fa`budget, fa.cells
    ensures fa.cells[..] == PersistImage(old(fa.cells[..]), state, openFault, old(fa.budget), fa.torn)
    ensures err == PersistCode(old(fa.cells[..]), state, openFault, old(fa.budget))
  {
    if state.None? {
      return -EINVAL;
    }
    var s := state.value;
    if openFault {
      return -EIO;
    }
    if HEADER_SIZE + |s.context| + |s.storage| > fa.cells.Length {
      return -ENOSPC;
    }
    var header := HeaderBytes(SizesOf(s));
    CutConcat(fa.cells[..], EraseOps(fa.cells.Length), BlobOps(header, s.context + s.storage), fa.budget, fa.torn);
    var ok := fa.Erase();
    if !ok {
      return -EIO;
    }
    ok := WriteBlob(fa, header, s.context, s.storage);
    return if ok then 0 else -EIO;
  }

  lemma HeaderRoundTrip(z: Sizes)
    requires z.context < Pow256(4) && z.storage < Pow256(4)
    ensures ReadHeader(HeaderBytes(z)) == Header(MAGIC, VERSION, 0, z)
  {
    var h := HeaderBytes(z);
    assert h[0..4] == LeBytes(MAGIC, 4);
    assert h[4..6] == LeBytes(VERSION, 2);
    assert h[6..8] == LeBytes(0, 2);
    assert h[8..12] == LeBytes(z.context, 4);
    assert h[12..16] == LeBytes(z.storage, 4);
    assert Pow256(2) == 256 * Pow256(1);
    assert Pow256(4) == 256 * (256 * Pow256(2));
    LeValOfLeBytes(MAGIC, 4);
    LeValOfLeBytes(VERSION, 2);
    LeValOfLeBytes(0, 2);
    LeValOfLeBytes(z.context, 4);
    LeValOfLeBytes(z.storage, 4);
  }

  /** The last header byte decides: as long as it is not the true (zero) top byte of the storage
      length, the length overshoots any partition and nothing can be restored. */
  lemma BadLastByteRejected(f: seq<byte>)
    requires HEADER_SIZE <= |f| <= MAX_PARTITION
    requires f[HEADER_SIZE - 1] != 0
    ensures ReadHeader(f[..HEADER_SIZE]).sizes.storage > |f|
    ensures Stored(f) == None
  {
    var w := f[..HEADER_SIZE][12..16];
    assert w[3] == f[15];
    LeValTopByte(w);
    assert Pow256(3) == 256 * (256 * Pow256(1));
  }

  lemma LastHeaderByte(z: Sizes)
    requires z.storage <= MAX_PARTITION
    ensures HeaderBytes(z)[HEADER_SIZE - 1] == 0
  {
    assert Pow256(3) == 256 * (256 * Pow256(1));
    LeBytesTopZero(z.storage, 4);
  }

  lemma PayloadSplit(g: seq<byte>, s: Snapshot)
    requires Fits(s, |g|)
    requires g[HEADER_SIZE..HEADER_SIZE + |s.context + s.storage|] == s.context + s.storage
    ensures g[HEADER_SIZE..HEADER_SIZE + |s.context|] == s.context
    ensures g[HEADER_SIZE + |s.context|..HEADER_SIZE + |s.context| + |s.storage|] == s.storage
  {
    var p := s.context + s.storage;
    var w := g[HEADER_SIZE..HEADER_SIZE + |p|];
    assert g[HEADER_SIZE..HEADER_SIZE + |s.context|] == w[..|s.context|];
    assert g[HEADER_SIZE + |s.context|..HEADER_SIZE + |p|] == w[|s.context|..];
  }

  /** Every strict prefix of the header is rejected, whatever the torn byte holds; only a torn last
      byte that happens to be right completes the commit. */
  lemma TornHeader(g: seq<byte>, s: Snapshot, j: nat, torn: byte)
    requires Fits(s, |g|) && |g| <= MAX_PARTITION
    requires TornImage(g, HeaderBytes(SizesOf(s)), s.context + s.storage, j, torn)
    ensures Stored(g) == if j >= HEADER_SIZE || (j == HEADER_SIZE - 1 && torn == 0) then Committed(s) else None
  {
    var z := SizesOf(s);
    LastHeaderByte(z);
    if j >= HEADER_SIZE || (j == HEADER_SIZE - 1 && torn == 0) {
      assert g[..HEADER_SIZE] == HeaderBytes(z);
      PayloadSplit(g, s);
      assert Pow256(4) == 256 * (256 * Pow256(2));
      HeaderRoundTrip(z);
    } else {
      BadLastByteRejected(g);
    }
  }

  /** A completed commit is readable unless one of the two areas is empty. */
  function Committed(s: Snapshot): Option<Snapshot> {
    if s.context == [] || s.storage == [] then None else Some(s)
  }

  /** Crash atomicity.  Cut the persist sequence after any number of steps, over any previous content:
      before the first page erase the partition is untouched, from then on nothing is readable, and
      the new snapshot appears with the very last header byte. */
  lemma PersistIsCrashAtomic(f: seq<byte>, s: Snapshot, k: nat, torn: byte)
    requires ValidPartition(f) && Fits(s, |f|)
    ensures var n := |PersistOps(|f|, s)|;
            var g := CutAt(f, PersistOps(|f|, s), k, torn);
            && (k == 0 ==> g == f)
            && (k > 0 ==> Stored(g) == if k >= n || (k == n - 1 && torn == 0) then Committed(s) else None)
  {
    var n := |f| / PAGE_SIZE + |s.context| + |s.storage|;
    CutCommit(f, HeaderBytes(SizesOf(s)), s.context + s.storage, k, torn);
    var g := CutAt(f, PersistOps(|f|, s), k, torn);
    if 0 < k < n {
      BadLastByteRejected(g);
    } else if k >= n {
      TornHeader(g, s, k - n, torn);
    }
  }

  // ------------------------------------------------------------------ restore

  /** Which of the flash accesses of a restore fail. */
  datatype ReadFaults = ReadFaults(open: bool, header: bool, context: bool, storage: bool)

  function RestoreCode(f: seq<byte>, live: Option<Sizes>, rf: ReadFaults): int {
    if rf.open || rf.header || |f| < HEADER_SIZE then -ENOENT else
      var h := ReadHeader(f[..HEADER_SIZE]);
      if !HeaderOk(h) then -ENOENT
      else if live.None? then -EINVAL
      else if h.sizes != live.value then -ENOSPC
      else if rf.context || HEADER_SIZE + h.sizes.context > |f| then -EIO
      else if rf.storage || HEADER_SIZE + h.sizes.context + h.sizes.storage > |f| then -EIO
      else 0
  }

  /** Every exit but -ENOENT erases the partition, and ignores how that erase went. */
  function RestoreImage(f: seq<byte>, live: Option<Sizes>, rf: ReadFaults, budget: nat): seq<byte>
    requires |f| % PAGE_SIZE == 0
  {
    if RestoreCode(f, live, rf) == -ENOENT then f else CutAt(f, EraseOps(|f|), budget, 0)
  }

  /** The live ring buffer of the Memfault SDK. */
  class LogRing {
    const context: array<byte>
    const storage: array<byte>

    constructor (z: Sizes)
      ensures fresh(context) && fresh(storage) && context != storage
      ensures context.Length == z.context && storage.Length == z.storage
    {
      context := new byte[z.context](_ => 0);
      storage := new byte[z.storage](_ => 0);
    }
  }

  function LiveSizes(ring: LogRing?): Option<Sizes> {
    if ring == null then None else Some(Sizes(ring.context.Length, ring.storage.Length))
  }

  ghost function RingArrays(ring: LogRing?): set<object> {
    if ring == null then {} else {ring.context, ring.storage}
  }

  ghost function Contents(ring: LogRing): Snapshot
    reads ring.context, ring.storage
  {
    Snapshot(ring.context[..], ring.storage[..])
  }

  /** The ring after reading both areas over `was`.  The first failed read ends it; that read may have
      delivered `left` already, and the area before it is overwritten for good. */
  function Loaded(f: seq<byte>, was: Snapshot, rf: ReadFaults, left: seq<byte>): (r: Snapshot)
    ensures SizesOf(r) == SizesOf(was)
  {
    var c, s := |was.context|, |was.storage|;
    if rf.context || HEADER_SIZE + c > |f| then was.(context := Overlay(was.context, Head(left, c)))
    else if rf.storage || HEADER_SIZE + c + s > |f| then
      Snapshot(f[HEADER_SIZE..HEADER_SIZE + c], Overlay(was.storage, Head(left, s)))
    else Snapshot(f[HEADER_SIZE..HEADER_SIZE + c], f[HEADER_SIZE + c..HEADER_SIZE + c + s])
  }

  /** Overwrites the live ring in place; a failed second read leaves it half overwritten. */
  method LoadRing(fa: FlashArea, ring: LogRing, rf: ReadFaults, left: seq<byte>) returns (err: int)
    requires fa.cells !in RingArrays(ring) && ring.context != ring.storage
    modifies ring.context, ring.storage
    ensures var c, s := ring.context.Length, ring.storage.Length;
            err == if rf.context || HEADER_SIZE + c > fa.cells.Length then -EIO
                   else if rf.storage || HEADER_SIZE + c + s > fa.cells.Length then -EIO else 0
    ensures Contents(ring) == Loaded(fa.cells[..], old(Contents(ring)), rf, left)
  {
    ghost var f := fa.cells[..];
    var c, s := ring.context.Length, ring.storage.Length;
    assert HEADER_SIZE + c <= |f| ==> fa.cells[HEADER_SIZE..HEADER_SIZE + c] == f[HEADER_SIZE..HEADER_SIZE + c];
    var ok := fa.ReadInto(HEADER_SIZE, c, ring.context, rf.context, left);
    if !ok {
      return -EIO;
    }
    assert HEADER_SIZE + c + s <= |f| ==>
        fa.cells[HEADER_SIZE + c..HEADER_SIZE + c + s] == f[HEADER_SIZE + c..HEADER_SIZE + c + s];
    ok := fa.ReadInto(HEADER_SIZE + c, s, ring.storage, rf.storage, left);
    return if ok then 0 else -EIO;
  }

  /** memfault_log_state_restore_on_connect */
  method RestoreOnConnect(fa: FlashArea, ring: LogRing?, rf: ReadFaults, left: seq<byte>) returns (err: int)
    requires fa.cells.Length % PAGE_SIZE == 0 && fa.cells.Length > 0
    requires fa.cells !in RingArrays(ring) && (ring != null ==> ring.context != ring.storage)
    modifies fa`budget, fa.cells, RingArrays(ring)
    ensures err == RestoreCode(old(fa.cells[..]), LiveSizes(ring), rf)
    ensures fa.cells[..] == RestoreImage(old(fa.cells[..]), LiveSizes(ring), rf, old(fa.budget))
    ensures err == 0 ==> ring != null && Stored(old(fa.cells[..])) == Some(Snapshot(ring.context[..], ring.storage[..]))
    ensures ring != null ==>
              Contents(ring) == if err == 0 || err == -EIO then Loaded(old(fa.cells[..]), old(Contents(ring)), rf, left)
                                else old(Contents(ring))
  {
    ghost var f := fa.cells[..];
    if rf.open {
      return -ENOENT;
    }
    var hdr := fa.Read(0, HEADER_SIZE, rf.header);
    if hdr.None? {
      return -ENOENT;
    }
    assert fa.cells[0..HEADER_SIZE] == f[..HEADER_SIZE];
    var h := ReadHeader(hdr.value);
    if !HeaderOk(h) {
      return -ENOENT;
    }
    if ring == null {
      var _ := fa.Erase();
      EraseTornFree(f, old(fa.budget), fa.torn);
      return -EINVAL;
    }
    if h.sizes != Sizes(ring.context.Length, ring.storage.Length) {
      var _ := fa.Erase();
      EraseTornFree(f, old(fa.budget), fa.torn);
      return -ENOSPC;
    }
    err := LoadRing(fa, ring, rf, left);
    var _ := fa.Erase();
    EraseTornFree(f, old(fa.budget), fa.torn);
  }

  /** Restore succeeds exactly when a readable snapshot of the live sizes is stored and no access fails. */
  lemma RestoreSucceedsIff(f: seq<byte>, live: Option<Sizes>, rf: ReadFaults)
    ensures RestoreCode(f, live, rf) == 0 <==>
            && !rf.open && !rf.header && !rf.context && !rf.storage
            && Stored(f).Some? && live == Some(SizesOf(Stored(f).value))
  {
  }

  /** With live sizes that fit the partition, an unreadable image is refused as empty or mismatched. */
  lemma UnreadableIsRefused(f: seq<byte>, live: Sizes, rf: ReadFaults)
    requires Stored(f) == None
    requires HEADER_SIZE + live.context + live.storage <= |f|
    ensures RestoreCode(f, Some(live), rf) == -ENOENT || RestoreCode(f, Some(live), rf) == -ENOSPC
  {
  }

  /** One shot, exactly: after a successful restore the partition still holds the snapshot if and only
      if the ignored erase did not complete a single page. */
  lemma RestoreIsOneShotIff(f: seq<byte>, live: Option<Sizes>, rf: ReadFaults, budget: nat)
    requires ValidPartition(f)
    requires RestoreCode(f, live, rf) != -ENOENT
    ensures Stored(RestoreImage(f, live, rf, budget)) == if budget == 0 then Stored(f) else None
    ensures RestoreCode(f, live, rf) == 0 ==>
              (Stored(RestoreImage(f, live, rf, budget)) == None <==> budget >= 1)
  {
    RestoreSucceedsIff(f, live, rf);
    CutErase(f, budget, 0);
    if budget > 0 {
      BadLastByteRejected(RestoreImage(f, live, rf, budget));
    }
  }

  /** The image of a snapshot, byte by byte; bytes 6 and 7 are reserved. */
  ghost predicate IsImageOf(f: seq<byte>, s: Snapshot) {
    && Fits(s, |f|) && s.context != [] && s.storage != []
    && f[0..4] == LeBytes(MAGIC, 4) && f[4..6] == LeBytes(VERSION, 2)
    && f[8..12] == LeBytes(|s.context|, 4) && f[12..16] == LeBytes(|s.storage|, 4)
    && f[HEADER_SIZE..HEADER_SIZE + |s.context|] == s.context
    && f[HEADER_SIZE + |s.context|..HEADER_SIZE + |s.context| + |s.storage|] == s.storage
  }

  /** Nothing but the image of a snapshot is ever taken for it. */
  lemma StoredIff(f: seq<byte>, s: Snapshot)
    requires HEADER_SIZE <= |f| <= MAX_PARTITION
    ensures Stored(f) == Some(s) <==> IsImageOf(f, s)
  {
    var h := f[..HEADER_SIZE];
    assert h[0..4] == f[0..4] && h[4..6] == f[4..6] && h[8..12] == f[8..12] && h[12..16] == f[12..16];
    HeaderFieldsIff(h, SizesOf(s));
  }

  /** The four checked header fields read as a good header of these sizes exactly when they hold its
      bytes. */
  lemma HeaderFieldsIff(h: seq<byte>, z: Sizes)
    requires |h| == HEADER_SIZE
    ensures z.context <= MAX_PARTITION && z.storage <= MAX_PARTITION ==>
              (HeaderOk(ReadHeader(h)) && ReadHeader(h).sizes == z <==>
               && h[0..4] == LeBytes(MAGIC, 4) && h[4..6] == LeBytes(VERSION, 2)
               && h[8..12] == LeBytes(z.context, 4) && h[12..16] == LeBytes(z.storage, 4)
               && z.context != 0 && z.storage != 0)
  {
    assert Pow256(2) == 256 * Pow256(1);
    assert Pow256(4) == 256 * (256 * Pow256(2));
    WordIs(h[0..4], MAGIC);
    WordIs(h[4..6], VERSION);
    if z.context <= MAX_PARTITION && z.storage <= MAX_PARTITION {
      WordIs(h[8..12], z.context);
      WordIs(h[12..16], z.storage);
    }
  }

  /** What a persist and the next successful restore do together, without faults. */
  lemma PersistThenRestore(f: seq<byte>, s: Snapshot, budget: nat, torn: byte)
    requires ValidPartition(f) && Fits(s, |f|)
    requires s.context != [] && s.storage != []
    requires budget >= |PersistOps(|f|, s)|
    ensures var g := PersistImage(f, Some(s), false, budget, torn);
            && PersistCode(f, Some(s), false, budget) == 0
            && Stored(g) == Some(s)
            && RestoreCode(g, Some(SizesOf(s)), ReadFaults(false, false, false, false)) == 0
  {
    PersistIsCrashAtomic(f, s, budget, torn);
    RestoreSucceedsIff(PersistImage(f, Some(s), false, budget, torn), Some(SizesOf(s)),
                       ReadFaults(false, false, false, false));
  }

  // ------------------------------------------------------------------ every way out

  /** A header whose magic, version and two non-zero lengths are in place, byte by byte. */
  ghost predicate GoodHeader(f: seq<byte>) {
    && |f| >= HEADER_SIZE
    && f[0..4] == LeBytes(MAGIC, 4) && f[4..6] == LeBytes(VERSION, 2)
    && f[8..12] != LeBytes(0, 4) && f[12..16] != LeBytes(0, 4)
  }

  /** A restore is refused as empty exactly when the area or its header cannot be read or no good header
      is there. */
  lemma RefusedIff(f: seq<byte>, live: Option<Sizes>, rf: ReadFaults)
    ensures RestoreCode(f, live, rf) == -ENOENT <==> rf.open || rf.header || !GoodHeader(f)
  {
    if |f| >= HEADER_SIZE {
      var h := f[..HEADER_SIZE];
      assert h[0..4] == f[0..4] && h[4..6] == f[4..6] && h[8..12] == f[8..12] && h[12..16] == f[12..16];
      assert Pow256(2) == 256 * Pow256(1);
      assert Pow256(4) == 256 * (256 * Pow256(2));
      WordIs(h[0..4], MAGIC);
      WordIs(h[4..6], VERSION);
      WordIs(h[8..12], 0);
      WordIs(h[12..16], 0);
    }
  }

  lemma ImageHasGoodHeader(f: seq<byte>, s: Snapshot)
    requires |f| <= MAX_PARTITION && IsImageOf(f, s)
    ensures GoodHeader(f) && Stored(f) == Some(s)
    ensures ReadHeader(f[..HEADER_SIZE]) == Header(MAGIC, VERSION, LeVal(f[6..8]), SizesOf(s))
  {
    StoredIff(f, s);
    var h := f[..HEADER_SIZE];
    assert h[0..4] == f[0..4] && h[4..6] == f[4..6] && h[6..8] == f[6..8] && h[8..12] == f[8..12] && h[12..16] == f[12..16];
    HeaderFieldsIff(h, SizesOf(s));
    RefusedIff(f, Some(SizesOf(s)), ReadFaults(false, false, false, false));
  }

  /** What a restore answers over the image of a snapshot, once area and header are read: -EINVAL exactly
      without a ring, -ENOSPC exactly for a ring of other sizes, -EIO exactly if an area of a fitting
      ring cannot be read, and success otherwise. */
  lemma RestoreAnswers(f: seq<byte>, s: Snapshot, live: Option<Sizes>, rf: ReadFaults)
    requires |f| <= MAX_PARTITION && IsImageOf(f, s) && !rf.open && !rf.header
    ensures RestoreCode(f, live, rf) == -EINVAL <==> live == None
    ensures RestoreCode(f, live, rf) == -ENOSPC <==> live.Some? && live != Some(SizesOf(s))
    ensures RestoreCode(f, live, rf) == -EIO <==> live == Some(SizesOf(s)) && (rf.context || rf.storage)
    ensures RestoreCode(f, live, rf) == 0 <==> live == Some(SizesOf(s)) && !rf.context && !rf.storage
  {
    ImageHasGoodHeader(f, s);
  }

  /** Whatever the ring: one completed page erase and the image is gone, even if it was of no use. */
  lemma ReadImageIsGone(f: seq<byte>, s: Snapshot, live: Option<Sizes>, rf: ReadFaults, budget: nat)
    requires ValidPartition(f) && IsImageOf(f, s) && !rf.open && !rf.header && budget >= 1
    ensures Stored(RestoreImage(f, live, rf, budget)) == None
  {
    ImageHasGoodHeader(f, s);
    RefusedIff(f, live, rf);
    RestoreIsOneShotIff(f, live, rf, budget);
  }

  lemma GoodHeaderNotBlank(f: seq<byte>)
    requires GoodHeader(f)
    ensures f[0] != 255
  {
    assert f[0] == f[0..4][0] == LeBytes(MAGIC, 4)[0] == 0x52;
  }

  /** The partition is left as it was exactly when area or header could not be read, no good header is
      there, or the erase completed no page; otherwise its first page is blank. */
  lemma LeftInPlaceIff(f: seq<byte>, live: Option<Sizes>, rf: ReadFaults, budget: nat)
    requires ValidPartition(f)
    ensures var g := RestoreImage(f, live, rf, budget);
            && (g == f <==> rf.open || rf.header || !GoodHeader(f) || budget == 0)
            && (g != f ==> forall i :: 0 <= i < PAGE_SIZE ==> g[i] == 255)
  {
    RefusedIff(f, live, rf);
    CutErase(f, budget, 0);
    if GoodHeader(f) {
      GoodHeaderNotBlank(f);
    }
  }

  /** What a persist answers, and what its answer means for the flash: 0 exactly if the state fits and
      every step completes, and then the image is there; a refusal leaves the flash alone. */
  lemma PersistAnswers(f: seq<byte>, state: Option<Snapshot>, openFault: bool, budget: nat, torn: byte)
    requires ValidPartition(f)
    ensures var code := PersistCode(f, state, openFault, budget);
            var g := PersistImage(f, state, openFault, budget, torn);
            && (code == -EINVAL <==> state.None?)
            && (code == -ENOSPC <==> state.Some? && !openFault && |f| < 16 + |state.value.context| + |state.value.storage|)
            && (code == 0 <==> && state.Some? && !openFault && |f| >= 16 + |state.value.context| + |state.value.storage|
                               && budget >= |f| / PAGE_SIZE + |state.value.context| + |state.value.storage| + 16)
            && (code == 0 ==> Stored(g) == Committed(state.value))
            && (code == -EINVAL || code == -ENOSPC || openFault ==> g == f)
  {
    if Attempts(f, state, openFault) {
      PersistIsCrashAtomic(f, state.value, budget, torn);
    }
  }

  /** Reading the areas of an image over a ring of its sizes: the snapshot without a fault; after a failed
      read everything before it is from flash, everything after it untouched, and of the area itself at
      most the bytes the read delivered are lost. */
  lemma LoadedIs(f: seq<byte>, s: Snapshot, was: Snapshot, rf: ReadFaults, left: seq<byte>)
    requires |f| <= MAX_PARTITION && IsImageOf(f, s) && SizesOf(was) == SizesOf(s)
    ensures var r := Loaded(f, was, rf, left);
            && (!rf.context && !rf.storage ==> r == s)
            && (rf.context ==> r.storage == was.storage && forall i :: |left| <= i < |r.context| ==> r.context[i] == was.context[i])
            && (!rf.context && rf.storage ==>
                  r.context == s.context && forall i :: |left| <= i < |r.storage| ==> r.storage[i] == was.storage[i])
  {
  }
}
