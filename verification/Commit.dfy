/** The commit sequence both persist paths share: erase the partition, write the payload behind the
    header area, and write the 16-byte header last. */
module Commit {
  import opened Bytes
  import opened NorFlash

  const HEADER_SIZE: nat := 16

  /** The two write phases. */
  function BlobOps(header: seq<byte>, payload: seq<byte>): (ops: seq<FlashOp>)
    ensures |ops| == |payload| + |header|
    ensures forall size :: HEADER_SIZE + |payload| <= size && |header| <= size ==> OpsFit(ops, size)
  {
    ProgramOps(HEADER_SIZE, payload) + ProgramOps(0, header)
  }

  function CommitOps(size: nat, header: seq<byte>, payload: seq<byte>): (ops: seq<FlashOp>)
    requires size % PAGE_SIZE == 0 && HEADER_SIZE + |payload| <= size && |header| == HEADER_SIZE
    ensures OpsFit(ops, size)
    ensures |ops| == size / PAGE_SIZE + |payload| + HEADER_SIZE
  {
    EraseOps(size) + BlobOps(header, payload)
  }

  ghost predicate Blank(f: seq<byte>) {
    forall i :: 0 <= i < |f| ==> f[i] == 255
  }

  /** The payload is in place and the header was cut at byte `j`. */
  ghost predicate TornImage(g: seq<byte>, header: seq<byte>, payload: seq<byte>, j: nat, torn: byte)
    requires |header| == HEADER_SIZE && HEADER_SIZE + |payload| <= |g|
  {
    && g[HEADER_SIZE..HEADER_SIZE + |payload|] == payload
    && forall i :: 0 <= i < HEADER_SIZE ==> g[i] == if i < j then header[i] else if i == j then torn else 255
  }

  lemma CutInHeader(g: seq<byte>, header: seq<byte>, payload: seq<byte>, j: nat, torn: byte)
    requires |header| == HEADER_SIZE && HEADER_SIZE + |payload| <= |g|
    requires g[HEADER_SIZE..HEADER_SIZE + |payload|] == payload
    requires forall i :: 0 <= i < HEADER_SIZE ==> g[i] == 255
    ensures TornImage(CutAt(g, ProgramOps(0, header), j, torn), header, payload, j, torn)
  {
    CutWriteOverErased(g, 0, header, j, torn);
    var g' := CutAt(g, ProgramOps(0, header), j, torn);
    assert g'[HEADER_SIZE..HEADER_SIZE + |payload|] == g[HEADER_SIZE..HEADER_SIZE + |payload|];
  }

  lemma CutInBlob(f: seq<byte>, header: seq<byte>, payload: seq<byte>, k: nat, torn: byte)
    requires |header| == HEADER_SIZE && HEADER_SIZE + |payload| <= |f| && Blank(f)
    ensures var g := CutAt(f, BlobOps(header, payload), k, torn);
            && (k < |payload| ==> forall i :: 0 <= i < HEADER_SIZE ==> g[i] == 255)
            && (k >= |payload| ==> TornImage(g, header, payload, k - |payload|, torn))
  {
    CutConcat(f, ProgramOps(HEADER_SIZE, payload), ProgramOps(0, header), k, torn);
    if k < |payload| {
      CutWriteOverErased(f, HEADER_SIZE, payload, k, torn);
    } else {
      WriteOverErased(f, HEADER_SIZE, payload);
      CutInHeader(ApplyOps(f, ProgramOps(HEADER_SIZE, payload)), header, payload, k - |payload|, torn);
    }
  }

  /** Where the whole sequence is cut, exactly: untouched, then an erased header, then the complete
      payload behind a header prefix. */
  lemma CutCommit(f: seq<byte>, header: seq<byte>, payload: seq<byte>, k: nat, torn: byte)
    requires ValidPartition(f) && |header| == HEADER_SIZE && HEADER_SIZE + |payload| <= |f|
    ensures var n := |f| / PAGE_SIZE + |payload|;
            var g := CutAt(f, CommitOps(|f|, header, payload), k, torn);
            && (k == 0 ==> g == f)
            && (0 < k < n ==> forall i :: 0 <= i < HEADER_SIZE ==> g[i] == 255)
            && (k >= n ==> TornImage(g, header, payload, k - n, torn))
  {
    var pages := |f| / PAGE_SIZE;
    CutConcat(f, EraseOps(|f|), BlobOps(header, payload), k, torn);
    if k < pages {
      CutErase(f, k, torn);
    } else {
      EraseAll(f);
      CutInBlob(ApplyOps(f, EraseOps(|f|)), header, payload, k - pages, torn);
    }
  }

  /** One write of a concatenation is the two adjacent writes. */
  lemma AdjacentWrites(off: nat, a: seq<byte>, b: seq<byte>)
    ensures ProgramOps(off, a + b) == ProgramOps(off, a) + ProgramOps(off + |a|, b)
  {
  }

  /** Writes the payload in the two adjacent pieces `a` and `b`, then the header; the first failed
      write ends it. */
  method WriteBlob(fa: FlashArea, header: seq<byte>, a: seq<byte>, b: seq<byte>) returns (ok: bool)
    requires |header| == HEADER_SIZE && HEADER_SIZE + |a + b| <= fa.cells.Length
    modifies fa`budget, fa.cells
    ensures fa.cells[..] == CutAt(old(fa.cells[..]), BlobOps(header, a + b), old(fa.budget), fa.torn)
    ensures ok == (old(fa.budget) >= |BlobOps(header, a + b)|)
  {
    CutConcat(fa.cells[..], ProgramOps(HEADER_SIZE, a + b), ProgramOps(0, header), fa.budget, fa.torn);
    ok := WriteBoth(fa, a, b);
    if ok {
      ok := fa.Write(0, header);
    }
  }

  method WriteBoth(fa: FlashArea, a: seq<byte>, b: seq<byte>) returns (ok: bool)
    requires HEADER_SIZE + |a + b| <= fa.cells.Length
    modifies fa`budget, fa.cells
    ensures fa.cells[..] == CutAt(old(fa.cells[..]), ProgramOps(HEADER_SIZE, a + b), old(fa.budget), fa.torn)
    ensures ok == (old(fa.budget) >= |a + b|)
    ensures fa.budget == if ok then old(fa.budget) - |a + b| else 0
  {
    AdjacentWrites(HEADER_SIZE, a, b);
    CutConcat(fa.cells[..], ProgramOps(HEADER_SIZE, a), ProgramOps(HEADER_SIZE + |a|, b), fa.budget, fa.torn);
    ok := fa.Write(HEADER_SIZE, a);
    if ok {
      ok := fa.Write(HEADER_SIZE + |a|, b);
    }
  }
}
