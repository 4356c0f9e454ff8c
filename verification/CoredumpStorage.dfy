/** The flash backend for coredumps on the chip's own NOR flash: bounds check, page erase, buffered
    word writes, reads and the clear mark. */
module CoredumpStorage {
  import opened Bytes
  import opened NorFlash
  import opened Words

  /** prv_op_within_flash_bounds: the sum is taken on 32-bit words. */
  predicate WithinBounds(offset: nat, len: nat, size: nat) {
    (offset + len) % WORD <= size
  }

  /** A range that runs past the end of the address space back to something small. */
  predicate WrapsSmall(offset: nat, len: nat, size: nat) {
    offset + len >= WORD && offset + len - WORD <= size
  }

  /** The check is right exactly unless the sum wraps to something small. */
  lemma BoundsCheckIff(offset: nat, len: nat, size: nat)
    requires offset < WORD && len < WORD && size < WORD
    ensures (WithinBounds(offset, len, size) <==> offset + len <= size) <==> !WrapsSmall(offset, len, size)
  {
    if offset + len >= WORD {
      assert (offset + len) % WORD == offset + len - WORD;
    }
  }

  // ------------------------------------------------------------------ what the operations do to a partition

  /** The number of pages the erase loop visits: it runs from `offset` while below `eraseSize`. */
  function PagesErased(offset: nat, eraseSize: nat): nat {
    if offset >= eraseSize then 0 else (eraseSize - offset + PAGE_SIZE - 1) / PAGE_SIZE
  }

  /** The erase clears the whole requested range [offset, offset + eraseSize) if and only if it starts at
      zero or is empty: its loop stops at `eraseSize`, not at `offset + eraseSize`. */
  lemma EraseCoversRequestIff(offset: nat, eraseSize: nat)
    requires offset % PAGE_SIZE == 0
    ensures PagesErased(offset, eraseSize) * PAGE_SIZE >= eraseSize <==> offset == 0 || eraseSize == 0
  {
    if 0 < offset < eraseSize {
      assert offset >= PAGE_SIZE;
    }
  }

  /** The partition after the erase loop. */
  function Erased(f: seq<byte>, offset: nat, eraseSize: nat): (g: seq<byte>)
    ensures |g| == |f|
  {
    var end := offset + PagesErased(offset, eraseSize) * PAGE_SIZE;
    seq(|f|, i requires 0 <= i < |f| => if offset <= i < end then 255 else f[i])
  }

  /** A read of the partition: its bytes, or nothing outside it. */
  function ReadOf(f: seq<byte>, offset: nat, len: nat): Option<seq<byte>> {
    if offset + len <= |f| then Some(f[offset..offset + len]) else None
  }

  /** A programmed range: the new bytes are ANDed into the old ones. */
  function Written(f: seq<byte>, off: nat, data: seq<byte>): (g: seq<byte>)
    requires off + |data| <= |f|
    ensures |g| == |f|
    ensures forall i :: 0 <= i < |f| ==> g[i] == if off <= i < off + |data| then And(f[i], data[i - off]) else f[i]
  {
    seq(|f|, i requires 0 <= i < |f| => if off <= i < off + |data| then And(f[i], data[i - off]) else f[i])
  }

  /** It is what the byte-by-byte program steps leave. */
  lemma WrittenIsProgrammed(f: seq<byte>, off: nat, data: seq<byte>)
    requires off + |data| <= |f|
    ensures Written(f, off, data) == ApplyOps(f, ProgramOps(off, data))
  {
    ProgramPrefix(f, off, data, |data|);
    assert ProgramOps(off, data)[..|data|] == ProgramOps(off, data);
  }

  /** A write block of the coredump writer. */
  datatype Block = Block(offset: nat, data: seq<byte>)

  ghost predicate Separate(a: Block, b: Block) {
    a.offset + |a.data| <= b.offset || b.offset + |b.data| <= a.offset
  }

  ghost predicate GoodBlocks(bs: seq<Block>, size: nat) {
    && (forall i :: 0 <= i < |bs| ==> bs[i].offset + |bs[i].data| <= size)
    && (forall i, j :: 0 <= i < j < |bs| ==> Separate(bs[i], bs[j]))
  }

  function AllWritten(f: seq<byte>, bs: seq<Block>): (g: seq<byte>)
    requires forall i :: 0 <= i < |bs| ==> bs[i].offset + |bs[i].data| <= |f|
    ensures |g| == |f|
  {
    if bs == [] then f
    else
      var b := bs[|bs| - 1];
      Written(AllWritten(f, bs[..|bs| - 1]), b.offset, b.data)
  }

  /** Bytes outside every block keep their value. */
  lemma {:induction false} UntouchedByte(f: seq<byte>, bs: seq<Block>, i: nat)
    requires i < |f| && forall k :: 0 <= k < |bs| ==> bs[k].offset + |bs[k].data| <= |f|
    requires forall k :: 0 <= k < |bs| ==> !(bs[k].offset <= i < bs[k].offset + |bs[k].data|)
    ensures AllWritten(f, bs)[i] == f[i]
  {
    if bs != [] {
      var n := |bs| - 1;
      UntouchedByte(f, bs[..n], i);
    }
  }

  /** Over an erased range a write stores its data, and elsewhere it changes nothing. */
  lemma WrittenOverErased(g: seq<byte>, b: Block)
    requires b.offset + |b.data| <= |g|
    requires forall i :: b.offset <= i < b.offset + |b.data| ==> g[i] == 255
    ensures Written(g, b.offset, b.data)[b.offset..b.offset + |b.data|] == b.data
  {
    forall i | b.offset <= i < b.offset + |b.data|
      ensures And(g[i], b.data[i - b.offset]) == b.data[i - b.offset]
    {
      AndErased(b.data[i - b.offset]);
    }
  }

  lemma WrittenElsewhere(g: seq<byte>, b: Block, a: Block)
    requires b.offset + |b.data| <= |g| && a.offset + |a.data| <= |g| && Separate(a, b)
    ensures var lo, hi := a.offset, a.offset + |a.data|;
            Written(g, b.offset, b.data)[lo..hi] == g[lo..hi]
  {
  }

  lemma GoodPrefix(bs: seq<Block>, size: nat)
    requires GoodBlocks(bs, size) && bs != []
    ensures GoodBlocks(bs[..|bs| - 1], size)
    ensures forall j :: 0 <= j < |bs| - 1 ==> Separate(bs[j], bs[|bs| - 1])
  {
  }

  ghost predicate BlankUnder(f: seq<byte>, b: Block)
    requires b.offset + |b.data| <= |f|
  {
    forall i :: b.offset <= i < b.offset + |b.data| ==> f[i] == 255
  }

  /** Over blank ranges, blocks written at separate offsets, in any order and number, read back exactly. */
  lemma {:induction false} BlocksReadBack(f: seq<byte>, bs: seq<Block>, k: nat)
    requires GoodBlocks(bs, |f|) && k < |bs|
    requires BlankUnder(f, bs[k])
    ensures ReadOf(AllWritten(f, bs), bs[k].offset, |bs[k].data|) == Some(bs[k].data)
  {
    var n := |bs| - 1;
    GoodPrefix(bs, |f|);
    if k == n {
      LastBlockReadsBack(f, bs);
    } else {
      BlocksReadBack(f, bs[..n], k);
      WrittenElsewhere(AllWritten(f, bs[..n]), bs[n], bs[k]);
    }
  }

  lemma LastBlockReadsBack(f: seq<byte>, bs: seq<Block>)
    requires GoodBlocks(bs, |f|) && bs != []
    requires BlankUnder(f, bs[|bs| - 1])
    ensures var b := bs[|bs| - 1]; AllWritten(f, bs)[b.offset..b.offset + |b.data|] == b.data
  {
    var init, b := bs[..|bs| - 1], bs[|bs| - 1];
    GoodPrefix(bs, |f|);
    var g := AllWritten(f, init);
    forall i | b.offset <= i < b.offset + |b.data|
      ensures g[i] == 255
    {
      assert forall j :: 0 <= j < |init| ==> Separate(init[j], b);
      UntouchedByte(f, init, i);
    }
    WrittenOverErased(g, b);
  }

  /** Saving a coredump: after an erase of `eraseSize` bytes from the start, over whatever the partition
      held, every block written below `eraseSize` reads back exactly, and bytes past the erased pages that
      no block touches are as before. */
  lemma SavedReadsBack(f: seq<byte>, eraseSize: nat, bs: seq<Block>, k: nat)
    requires eraseSize <= |f| && GoodBlocks(bs, eraseSize) && k < |bs|
    ensures GoodBlocks(bs, |f|)
    ensures var g := AllWritten(Erased(f, 0, eraseSize), bs);
            && ReadOf(g, bs[k].offset, |bs[k].data|) == Some(bs[k].data)
            && forall i :: PagesErased(0, eraseSize) * PAGE_SIZE <= i < |f| ==> g[i] == f[i]
  {
    EraseCoversRequestIff(0, eraseSize);
    var e := Erased(f, 0, eraseSize);
    BlocksReadBack(e, bs, k);
    forall i | PagesErased(0, eraseSize) * PAGE_SIZE <= i < |f|
      ensures AllWritten(e, bs)[i] == f[i]
    {
      UntouchedByte(e, bs, i);
    }
  }

  /** A cleared first word stays zero under any further writes: only an erase brings it back. */
  lemma {:induction false} ClearedWordSticks(f: seq<byte>, bs: seq<Block>, i: nat)
    requires i < |f| && f[i] == 0 && forall k :: 0 <= k < |bs| ==> bs[k].offset + |bs[k].data| <= |f|
    ensures AllWritten(f, bs)[i] == 0
  {
    if bs != [] {
      var n := |bs| - 1;
      ClearedWordSticks(f, bs[..n], i);
      AndZeroLeft(8, if bs[n].offset <= i < bs[n].offset + |bs[n].data| then bs[n].data[i - bs[n].offset] else 0);
    }
  }

  lemma {:induction false} AndZeroLeft(n: nat, b: nat)
    ensures AndBits(n, 0, b) == 0
  {
    if n > 0 { AndZeroLeft(n - 1, b / 2); }
  }

  // ------------------------------------------------------------------ the storage

  /** `mem` is the chip's flash and [base, base + size) the partition in it. */
  class Storage {
    const mem: array<byte>
    const base: nat
    const size: nat
    var lastCoredumpCleared: bool

    ghost predicate Valid()
      reads this
    {
      base + size <= mem.Length && mem.Length < WORD && size % PAGE_SIZE == 0 && size >= 4
    }

    ghost function Partition(): seq<byte>
      requires Valid()
      reads this, mem
    {
      mem[base..base + size]
    }

    constructor (mem: array<byte>, base: nat, size: nat)
      requires base + size <= mem.Length && mem.Length < WORD && size % PAGE_SIZE == 0 && size >= 4
      ensures Valid() && this.mem == mem && this.base == base && this.size == size && !lastCoredumpCleared
    {
      this.mem, this.base, this.size, this.lastCoredumpCleared := mem, base, size, false;
    }

    /** memfault_platform_coredump_storage_read */
    method Read(offset: nat, len: nat) returns (data: Option<seq<byte>>)
      requires Valid() && offset < WORD && len < WORD && !WrapsSmall(offset, len, size)
      ensures data == ReadOf(Partition(), offset, len)
    {
      BoundsCheckIff(offset, len, size);
      if (offset + len) % WORD > size {
        return None;
      }
      SliceOfSlice(mem[..], base, size, offset, len);
      assert mem[..][base..base + size] == mem[base..base + size];
      return Some(mem[base + offset..base + offset + len]);
    }

    /** memfault_platform_coredump_storage_erase */
    method Erase(offset: nat, eraseSize: nat) returns (ok: bool)
      requires Valid() && offset < WORD && eraseSize < WORD && !WrapsSmall(offset, eraseSize, size)
      modifies mem
      ensures ok == (offset + eraseSize <= size && offset % PAGE_SIZE == 0)
      ensures Partition() == if ok then Erased(old(Partition()), offset, eraseSize) else old(Partition())
      ensures !ok ==> mem[..] == old(mem[..])
      ensures ok ==> offset + PagesErased(offset, eraseSize) * PAGE_SIZE <= size || PagesErased(offset, eraseSize) == 0
      ensures ok ==> forall i :: 0 <= i < mem.Length ==>
                                   mem[i] == if base + offset <= i < base + offset + PagesErased(offset, eraseSize) * PAGE_SIZE
                                             then 255 else old(mem[i])
    {
      BoundsCheckIff(offset, eraseSize, size);
      if (offset + eraseSize) % WORD > size || offset % PAGE_SIZE != 0 {
        return false;
      }
      var page := offset;
      ghost var n := 0;
      while page < eraseSize
        invariant page == offset + n * PAGE_SIZE && page <= size
        invariant n == 0 || page - PAGE_SIZE < eraseSize
        invariant forall i :: 0 <= i < mem.Length ==>
                                mem[i] == if base + offset <= i < base + page then 255 else old(mem[i])
      {
        PageFits(page, size, offset, n);
        forall i | base + page <= i < base + page + PAGE_SIZE {
          mem[i] := 255;
        }
        page := page + PAGE_SIZE;
        n := n + 1;
      }
      LoopCount(offset, eraseSize, n);
      return true;
    }

    /** memfault_platform_coredump_storage_buffered_write, for a block of whole words */
    method BufferedWrite(b: Block) returns (ok: bool)
      requires Valid() && b.offset < WORD && |b.data| < WORD && |b.data| % 4 == 0
      requires !WrapsSmall(b.offset, |b.data|, size)
      modifies mem
      ensures ok == (b.offset + |b.data| <= size)
      ensures !ok ==> mem[..] == old(mem[..])
      ensures ok ==> Partition() == Written(old(Partition()), b.offset, b.data)
      ensures forall i :: 0 <= i < mem.Length && !(base <= i < base + size) ==> mem[i] == old(mem[i])
    {
      BoundsCheckIff(b.offset, |b.data|, size);
      if (b.offset + |b.data|) % WORD > size {
        return false;
      }
      for k := 0 to |b.data|
        invariant forall i :: 0 <= i < mem.Length ==>
                                mem[i] == if base + b.offset <= i < base + b.offset + k
                                          then And(old(mem[i]), b.data[i - base - b.offset]) else old(mem[i])
      {
        mem[base + b.offset + k] := And(mem[base + b.offset + k], b.data[k]);
      }
      return true;
    }

    /** memfault_coredump_read */
    method CoredumpRead(offset: nat, len: nat) returns (data: Option<seq<byte>>)
      requires Valid() && offset < WORD && len < WORD
      requires !lastCoredumpCleared ==> !WrapsSmall(offset, len, size)
      ensures data == if lastCoredumpCleared then Some(seq(len, _ => 0)) else ReadOf(Partition(), offset, len)
    {
      if lastCoredumpCleared {
        return Some(seq(len, _ => 0));
      }
      data := Read(offset, len);
    }

    method ZeroBytes(done: nat)
      requires Valid() && done <= size
      modifies mem
      ensures forall i :: 0 <= i < mem.Length ==> mem[i] == if base <= i < base + done then 0 else old(mem[i])
    {
      for k := 0 to done
        invariant forall i :: 0 <= i < mem.Length ==> mem[i] == if base <= i < base + k then 0 else old(mem[i])
      {
        AndErased(mem[base + k]);
        mem[base + k] := And(mem[base + k], 0);
      }
    }

    /** memfault_platform_coredump_storage_clear; `done` bytes are written before the write fails */
    method Clear(openFault: bool, done: nat)
      requires Valid() && done <= 4
      modifies this`lastCoredumpCleared, mem
      ensures Valid()
      ensures lastCoredumpCleared == (old(lastCoredumpCleared) || (!openFault && done == 4))
      ensures Partition() == if openFault then old(Partition()) else Written(old(Partition()), 0, seq(done, _ => 0))
      ensures !openFault && done == 4 ==> Partition()[..4] == [0, 0, 0, 0]
      ensures forall i :: 0 <= i < mem.Length && !(base <= i < base + 4) ==> mem[i] == old(mem[i])
    {
      if openFault {
        return;
      }
      ghost var f := Partition();
      ZeroBytes(done);
      ZeroesWritten(f, Partition(), done);
      if done < 4 {
        return;
      }
      lastCoredumpCleared := true;
    }
  }

  lemma ZeroesWritten(f: seq<byte>, g: seq<byte>, done: nat)
    requires |g| == |f| && done <= |f|
    requires forall i :: 0 <= i < |f| ==> g[i] == if i < done then 0 else f[i]
    ensures g == Written(f, 0, seq(done, _ => 0))
  {
    forall i | 0 <= i < |f|
      ensures And(f[i], 0) == 0
    {
      AndErased(f[i]);
    }
  }

  lemma PageFits(page: nat, size: nat, offset: nat, n: nat)
    requires page < size && size % PAGE_SIZE == 0 && offset % PAGE_SIZE == 0 && page == offset + n * PAGE_SIZE
    ensures page + PAGE_SIZE <= size
  {
  }

  lemma LoopCount(offset: nat, eraseSize: nat, n: nat)
    requires offset + n * PAGE_SIZE >= eraseSize
    requires n == 0 || offset + n * PAGE_SIZE - PAGE_SIZE < eraseSize
    ensures n == PagesErased(offset, eraseSize)
  {
  }
}
