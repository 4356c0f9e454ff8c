/** NOR flash as the flash_area API shows it: erase sets a page to 0xFF, a program step ANDs one byte,
    and the hardware may stop after any number of such atomic steps. */
module NorFlash {
  import opened Bytes

  const PAGE_SIZE: nat := 0x1000
  /** The external part holds 8 MB. */
  const MAX_PARTITION: nat := 0x80_0000

  ghost predicate ValidPartition(f: seq<byte>) {
    0 < |f| <= MAX_PARTITION && |f| % PAGE_SIZE == 0
  }

  datatype FlashOp = ErasePage(page: nat) | Program(addr: nat, value: byte) {
    predicate Fits(size: nat) {
      match this
      case ErasePage(p) => (p + 1) * PAGE_SIZE <= size
      case Program(a, _) => a < size
    }
  }

  ghost predicate OpsFit(ops: seq<FlashOp>, size: nat) {
    forall i :: 0 <= i < |ops| ==> ops[i].Fits(size)
  }

  function ErasedPage(f: seq<byte>, page: nat): (g: seq<byte>)
    ensures |g| == |f|
    ensures forall i :: 0 <= i < |f| ==>
                          g[i] == if page * PAGE_SIZE <= i < (page + 1) * PAGE_SIZE then 255 else f[i]
  {
    seq(|f|, i requires 0 <= i < |f| => if page * PAGE_SIZE <= i < (page + 1) * PAGE_SIZE then 255 else f[i])
  }

  function ApplyOp(f: seq<byte>, op: FlashOp): (g: seq<byte>)
    requires op.Fits(|f|)
    ensures |g| == |f|
  {
    match op
    case ErasePage(p) => ErasedPage(f, p)
    case Program(a, v) => f[a := And(f[a], v)]
  }

  function ApplyOps(f: seq<byte>, ops: seq<FlashOp>): (g: seq<byte>)
    requires OpsFit(ops, |f|)
    ensures |g| == |f|
  {
    if ops == [] then f
    else ApplyOp(ApplyOps(f, ops[..|ops| - 1]), ops[|ops| - 1])
  }

  /** The image left when only `k` of the steps complete.  A byte whose programming was cut short may
      hold any value at all. */
  function CutAt(f: seq<byte>, ops: seq<FlashOp>, k: nat, torn: byte): (g: seq<byte>)
    requires OpsFit(ops, |f|)
    ensures |g| == |f|
  {
    if k >= |ops| then ApplyOps(f, ops)
    else
      var g := ApplyOps(f, ops[..k]);
      match ops[k]
      case ErasePage(_) => g
      case Program(a, _) => assert ops[k].Fits(|f|); g[a := torn]
  }

  /** flash_area_erase over a whole partition: one page after another, from the start. */
  function EraseOps(size: nat): (ops: seq<FlashOp>)
    requires size % PAGE_SIZE == 0
    ensures |ops| == size / PAGE_SIZE
    ensures OpsFit(ops, size)
  {
    seq(size / PAGE_SIZE, p requires 0 <= p < size / PAGE_SIZE => ErasePage(p))
  }

  /** flash_area_write: one byte after another, from the start. */
  function ProgramOps(off: nat, data: seq<byte>): (ops: seq<FlashOp>)
    ensures |ops| == |data|
    ensures forall size :: off + |data| <= size ==> OpsFit(ops, size)
  {
    seq(|data|, i requires 0 <= i < |data| => Program(off + i, data[i]))
  }

  lemma {:induction false} ApplyOpsConcat(f: seq<byte>, a: seq<FlashOp>, b: seq<FlashOp>)
    requires OpsFit(a, |f|) && OpsFit(b, |f|)
    ensures OpsFit(a + b, |f|)
    ensures ApplyOps(f, a + b) == ApplyOps(ApplyOps(f, a), b)
  {
    if b == [] {
      assert a + b == a;
    } else {
      var b' := b[..|b| - 1];
      ApplyOpsConcat(f, a, b');
      assert (a + b)[..|a + b| - 1] == a + b';
    }
  }

  /** Where the cut falls decides which of two consecutive phases is torn. */
  lemma CutConcat(f: seq<byte>, a: seq<FlashOp>, b: seq<FlashOp>, k: nat, torn: byte)
    requires OpsFit(a, |f|) && OpsFit(b, |f|)
    ensures OpsFit(a + b, |f|)
    ensures CutAt(f, a + b, k, torn)
         == if k < |a| then CutAt(f, a, k, torn) else CutAt(ApplyOps(f, a), b, k - |a|, torn)
  {
    ApplyOpsConcat(f, a, b);
    if k < |a| {
      assert (a + b)[..k] == a[..k];
    } else if k < |a + b| {
      assert (a + b)[..k] == a + b[..k - |a|];
      ApplyOpsConcat(f, a, b[..k - |a|]);
    }
  }

  /** The first `k` page erases blank exactly the first `k` pages. */
  lemma {:induction false} ErasePrefix(f: seq<byte>, k: nat)
    requires |f| % PAGE_SIZE == 0 && k <= |f| / PAGE_SIZE
    ensures OpsFit(EraseOps(|f|)[..k], |f|)
    ensures forall i :: 0 <= i < |f| ==>
                          ApplyOps(f, EraseOps(|f|)[..k])[i] == if i < k * PAGE_SIZE then 255 else f[i]
  {
    if k > 0 {
      ErasePrefix(f, k - 1);
      assert EraseOps(|f|)[..k][..k - 1] == EraseOps(|f|)[..k - 1];
    }
  }

  /** The first `k` program steps AND exactly the first `k` bytes into place. */
  lemma {:induction false} ProgramPrefix(f: seq<byte>, off: nat, data: seq<byte>, k: nat)
    requires off + |data| <= |f| && k <= |data|
    ensures OpsFit(ProgramOps(off, data)[..k], |f|)
    ensures var g := ApplyOps(f, ProgramOps(off, data)[..k]);
            forall i :: 0 <= i < |f| ==>
                          g[i] == if off <= i < off + k then And(f[i], data[i - off]) else f[i]
  {
    if k > 0 {
      ProgramPrefix(f, off, data, k - 1);
      assert ProgramOps(off, data)[..k][..k - 1] == ProgramOps(off, data)[..k - 1];
    }
  }

  lemma EraseAll(f: seq<byte>)
    requires |f| % PAGE_SIZE == 0
    ensures ApplyOps(f, EraseOps(|f|)) == seq(|f|, _ => 255)
  {
    ErasePrefix(f, |f| / PAGE_SIZE);
    assert EraseOps(|f|)[..|f| / PAGE_SIZE] == EraseOps(|f|);
  }

  /** However far an erase gets beyond its first step, the first page is blank; without that step
      nothing changes. */
  lemma CutErase(f: seq<byte>, k: nat, torn: byte)
    requires |f| % PAGE_SIZE == 0
    ensures var g := CutAt(f, EraseOps(|f|), k, torn);
            && (k == 0 ==> g == f)
            && (k > 0 ==> forall i :: 0 <= i < |f| && i < PAGE_SIZE ==> g[i] == 255)
  {
    var pages := |f| / PAGE_SIZE;
    if k < pages {
      ErasePrefix(f, k);
    } else {
      EraseAll(f);
    }
  }

  /** An erase has no byte to tear. */
  lemma EraseTornFree(f: seq<byte>, k: nat, torn: byte)
    requires |f| % PAGE_SIZE == 0
    ensures CutAt(f, EraseOps(|f|), k, torn) == CutAt(f, EraseOps(|f|), k, 0)
  {
  }

  /** A cut write into an erased range: bytes before the cut are stored, the byte at the cut is
      arbitrary, bytes after it are still erased, and nothing else moves. */
  lemma CutWriteOverErased(f: seq<byte>, off: nat, data: seq<byte>, k: nat, torn: byte)
    requires off + |data| <= |f|
    requires forall i :: off <= i < off + |data| ==> f[i] == 255
    ensures var g := CutAt(f, ProgramOps(off, data), k, torn);
            forall i :: 0 <= i < |f| ==>
                          g[i] == if off <= i < off + |data| then
                                    (if i - off < k then data[i - off] else if i - off == k then torn else 255)
                                  else f[i]
  {
    var ops := ProgramOps(off, data);
    forall i | off <= i < off + |data|
      ensures And(f[i], data[i - off]) == data[i - off]
    {
      AndErased(data[i - off]);
    }
    if k < |data| {
      ProgramPrefix(f, off, data, k);
      assert CutAt(f, ops, k, torn) == ApplyOps(f, ops[..k])[off + k := torn];
    } else {
      ProgramPrefix(f, off, data, |data|);
      assert ops[..|data|] == ops;
    }
  }

  /** A complete write into an erased range. */
  lemma WriteOverErased(f: seq<byte>, off: nat, data: seq<byte>)
    requires off + |data| <= |f|
    requires forall i :: off <= i < off + |data| ==> f[i] == 255
    ensures var g := ApplyOps(f, ProgramOps(off, data));
            && g[off..off + |data|] == data
            && (forall i :: 0 <= i < |f| && !(off <= i < off + |data|) ==> g[i] == f[i])
  {
    var g := CutAt(f, ProgramOps(off, data), |data|, 0);
    CutWriteOverErased(f, off, data, |data|, 0);
    assert g == ApplyOps(f, ProgramOps(off, data));
    forall i | 0 <= i < |data|
      ensures g[off..off + |data|][i] == data[i]
    {
      assert g[off + i] == data[i];
    }
  }

  function Head(s: seq<byte>, n: nat): seq<byte> {
    if |s| <= n then s else s[..n]
  }

  /** `dst` with its first bytes replaced by `src`. */
  function Overlay(dst: seq<byte>, src: seq<byte>): seq<byte>
    requires |src| <= |dst|
  {
    src + dst[|src|..]
  }

  /** An opened flash area.  `budget` is the number of atomic steps the hardware completes before the
      next fault, and `torn` the byte a cut program step leaves behind. */
  class FlashArea {
    const cells: array<byte>
    var budget: nat
    var torn: byte

    constructor (size: nat, budget: nat, torn: byte)
      ensures cells.Length == size && fresh(cells)
      ensures forall i :: 0 <= i < size ==> cells[i] == 255
      ensures this.budget == budget && this.torn == torn
    {
      cells := new byte[size](_ => 255);
      this.budget := budget;
      this.torn := torn;
    }

    /** flash_area_erase(fa, 0, fa->fa_size) */
    method Erase() returns (ok: bool)
      requires cells.Length % PAGE_SIZE == 0
      modifies this`budget, cells
      ensures cells[..] == CutAt(old(cells[..]), EraseOps(cells.Length), old(budget), torn)
      ensures ok == (old(budget) >= cells.Length / PAGE_SIZE)
      ensures budget == if ok then old(budget) - cells.Length / PAGE_SIZE else 0
    {
      ghost var f := cells[..];
      var pages := cells.Length / PAGE_SIZE;
      ok := true;
      for p := 0 to pages
        invariant budget == old(budget) - p
        invariant cells[..] == ApplyOps(f, EraseOps(|f|)[..p])
      {
        if budget == 0 {
          return false;
        }
        ErasePrefix(f, p);
        ErasePrefix(f, p + 1);
        forall i | p * PAGE_SIZE <= i < (p + 1) * PAGE_SIZE {
          cells[i] := 255;
        }
        budget := budget - 1;
      }
      assert EraseOps(|f|)[..pages] == EraseOps(|f|);
    }

    /** flash_area_write(fa, off, data, len): refuses a range outside the area. */
    method Write(off: nat, data: seq<byte>) returns (ok: bool)
      modifies this`budget, cells
      ensures off + |data| > cells.Length ==> !ok && budget == old(budget) && cells[..] == old(cells[..])
      ensures off + |data| <= cells.Length ==>
                && cells[..] == CutAt(old(cells[..]), ProgramOps(off, data), old(budget), torn)
                && ok == (old(budget) >= |data|)
                && budget == if ok then old(budget) - |data| else 0
    {
      if off + |data| > cells.Length {
        return false;
      }
      ghost var f := cells[..];
      ok := true;
      for i := 0 to |data|
        invariant budget == old(budget) - i
        invariant cells[..] == ApplyOps(f, ProgramOps(off, data)[..i])
      {
        if budget == 0 {
          cells[off + i] := torn;
          return false;
        }
        assert ProgramOps(off, data)[..i + 1][..i] == ProgramOps(off, data)[..i];
        cells[off + i] := And(cells[off + i], data[i]);
        budget := budget - 1;
      }
      assert ProgramOps(off, data)[..|data|] == ProgramOps(off, data);
    }

    /** flash_area_read(fa, off, buf, len): refuses a range outside the area, or fails outright. */
    method Read(off: nat, len: nat, fault: bool) returns (r: Option<seq<byte>>)
      ensures r == if fault || off + len > cells.Length then None else Some(cells[off..off + len])
    {
      if fault || off + len > cells.Length {
        return None;
      }
      return Some(cells[off..off + len]);
    }

    /** flash_area_read into a buffer the caller already uses: a failed read may have put `left` there. */
    method ReadInto(off: nat, len: nat, dst: array<byte>, fault: bool, left: seq<byte>) returns (ok: bool)
      requires len <= dst.Length && dst != cells
      modifies dst
      ensures ok == (!fault && off + len <= cells.Length)
      ensures dst[..] == Overlay(old(dst[..]), if ok then cells[off..off + len] else Head(left, len))
    {
      ok := !fault && off + len <= cells.Length;
      var src := if ok then cells[off..off + len] else Head(left, len);
      for i := 0 to |src|
        invariant forall k :: 0 <= k < dst.Length ==> dst[k] == if k < i then src[k] else old(dst[k])
      {
        dst[i] := src[i];
      }
    }
  }
}
