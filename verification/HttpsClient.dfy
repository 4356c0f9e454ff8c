/** The HTTPS request: the receive loop into a fixed buffer, the status line taken from it, and the
    request ledger. */
module HttpsClient {
  import opened Bytes
  import opened Words

  const RECV_BUF_SIZE: nat := 2048
  const STATUS_SIZE: nat := 64

  // ------------------------------------------------------------------ receiving

  /** What the peer does on one call: an error, or bytes of which recv delivers at most what was asked. */
  datatype Recv = RecvError | Data(bytes: seq<byte>)

  function Delivered(d: seq<byte>, room: nat): seq<byte> {
    if |d| <= room then d else d[..room]
  }

  /** Everything delivered from call `k` on into `room` bytes, or None on an error. */
  function Drain(net: nat -> Recv, k: nat, room: nat): (r: Option<seq<byte>>)
    ensures r.Some? ==> |r.value| <= room
    decreases room
  {
    match net(k)
    case RecvError => None
    case Data(d) =>
      var got := Delivered(d, room);
      if got == [] then Some([])
      else match Drain(net, k + 1, room - |got|)
        case None => None
        case Some(rest) => Some(got + rest)
  }

  function Joined(chunks: seq<seq<byte>>): seq<byte> {
    if chunks == [] then [] else chunks[0] + Joined(chunks[1..])
  }

  /** The peer sends these pieces on the calls from `k` on. */
  ghost predicate Sends(net: nat -> Recv, k: nat, chunks: seq<seq<byte>>) {
    forall i :: 0 <= i < |chunks| ==> chunks[i] != [] && net(k + i) == Data(chunks[i])
  }

  /** What the loop makes of any pieces that fit: an error after them loses everything, the peer's close
      delivers them all in order. */
  lemma {:induction false} DrainOfPieces(net: nat -> Recv, k: nat, chunks: seq<seq<byte>>, room: nat)
    requires Sends(net, k, chunks) && |Joined(chunks)| <= room
    ensures net(k + |chunks|).RecvError? ==> Drain(net, k, room) == None
    ensures net(k + |chunks|) == Data([]) ==> Drain(net, k, room) == Some(Joined(chunks))
    decreases |chunks|
  {
    if chunks != [] {
      SendsTail(net, k, chunks);
      DrainOfPieces(net, k + 1, chunks[1..], room - |chunks[0]|);
    }
  }

  lemma SendsTail(net: nat -> Recv, k: nat, chunks: seq<seq<byte>>)
    requires Sends(net, k, chunks) && chunks != []
    ensures net(k) == Data(chunks[0]) && Sends(net, k + 1, chunks[1..])
  {
    var rest := chunks[1..];
    assert net(k + 0) == Data(chunks[0]);
    forall i | 0 <= i < |rest|
      ensures rest[i] != [] && net(k + 1 + i) == Data(rest[i])
    {
      assert rest[i] == chunks[i + 1] && net(k + (i + 1)) == Data(chunks[i + 1]);
    }
  }

  /** Of more than fits, the buffer keeps the front. */
  lemma {:induction false} DrainOfTooMuch(net: nat -> Recv, k: nat, chunks: seq<seq<byte>>, room: nat)
    requires Sends(net, k, chunks) && |Joined(chunks)| > room && net(k + |chunks|).Data?
    ensures Drain(net, k, room) == Some(Joined(chunks)[..room])
    decreases |chunks|
  {
    SendsTail(net, k, chunks);
    var first, rest := chunks[0], chunks[1..];
    if 0 < room {
      if |first| < room {
        DrainOfTooMuch(net, k + 1, rest, room - |first|);
        assert Joined(chunks)[..room] == first + Joined(rest)[..room - |first|];
      } else {
        assert net(k + 1).Data? by {
          if rest != [] {
            SendsTail(net, k + 1, rest);
          }
        }
        assert Drain(net, k + 1, 0) == Some([]);
        assert first[..room] + [] == first[..room] == Joined(chunks)[..room];
      }
    }
  }

  /** The receive loop: terminates whatever arrives, never runs over the buffer, and leaves exactly the
      delivered bytes in front of whatever an earlier request left behind. */
  method Receive(buf: array<byte>, net: nat -> Recv) returns (received: Option<nat>)
    requires buf.Length == RECV_BUF_SIZE
    modifies buf
    ensures received.None? ==> Drain(net, 0, RECV_BUF_SIZE) == None
    ensures received.Some? ==>
              && received.value <= RECV_BUF_SIZE
              && Drain(net, 0, RECV_BUF_SIZE) == Some(buf[..received.value])
              && forall i :: received.value <= i < RECV_BUF_SIZE ==> buf[i] == old(buf[i])
  {
    var off, k := 0, 0;
    ghost var was, stored := buf[..], [];
    ghost var all := Drain(net, 0, RECV_BUF_SIZE);
    AllPending(net, RECV_BUF_SIZE);
    while true
      invariant off <= RECV_BUF_SIZE
      invariant Front(buf[..], was, stored, off)
      invariant Pending(net, k, RECV_BUF_SIZE - off, stored, all)
      decreases RECV_BUF_SIZE - off
    {
      var bytes;
      bytes, stored := ReceiveOnce(buf, off, k, net, was, stored, all);
      if bytes < 0 {
        return None;
      }
      off := off + bytes;
      k := k + 1;
      if bytes == 0 {
        FrontIs(buf[..], was, stored, off);
        return Some(off);
      }
    }
  }

  /** One round of the loop: an error ends the delivery, nothing received completes it. */
  method ReceiveOnce(buf: array<byte>, off: nat, k: nat, net: nat -> Recv,
                     ghost was: seq<byte>, ghost stored: seq<byte>, ghost all: Option<seq<byte>>)
    returns (bytes: int, ghost stored': seq<byte>)
    requires buf.Length == RECV_BUF_SIZE && off <= RECV_BUF_SIZE
    requires Front(buf[..], was, stored, off) && Pending(net, k, RECV_BUF_SIZE - off, stored, all)
    modifies buf
    ensures bytes < 0 ==> all == None
    ensures bytes == 0 ==> all == Some(stored')
    ensures bytes >= 0 ==> off + bytes <= RECV_BUF_SIZE && Front(buf[..], was, stored', off + bytes)
    ensures bytes > 0 ==> Pending(net, k + 1, RECV_BUF_SIZE - (off + bytes), stored', all)
  {
    ghost var before := buf[..];
    stored' := stored;
    bytes := RecvInto(buf, off, net(k));
    if bytes >= 0 {
      ghost var got := Delivered(net(k).bytes, RECV_BUF_SIZE - off);
      FrontGrows(before, buf[..], was, stored, off, got);
      stored' := stored + got;
      assert got == [] ==> stored' == stored;
    }
  }

  /** The buffer holds `stored` in its first `off` bytes and its earlier contents behind them. */
  ghost predicate Front(buf: seq<byte>, was: seq<byte>, stored: seq<byte>, off: nat) {
    && |buf| == |was| == RECV_BUF_SIZE && |stored| == off <= RECV_BUF_SIZE
    && buf == stored + was[off..]
  }

  lemma FrontIs(buf: seq<byte>, was: seq<byte>, stored: seq<byte>, off: nat)
    requires Front(buf, was, stored, off)
    ensures buf[..off] == stored && forall i :: off <= i < RECV_BUF_SIZE ==> buf[i] == was[i]
  {
  }

  lemma FrontGrows(before: seq<byte>, buf: seq<byte>, was: seq<byte>, stored: seq<byte>, off: nat, got: seq<byte>)
    requires Front(before, was, stored, off) && off + |got| <= RECV_BUF_SIZE
    requires buf == Placed(before, off, got)
    ensures Front(buf, was, stored + got, off + |got|)
  {
    assert before[..off] == stored;
    assert before[off + |got|..] == was[off + |got|..];
  }

  /** `buf` with `data` written over it at `off`. */
  function Placed(buf: seq<byte>, off: nat, data: seq<byte>): seq<byte>
    requires off + |data| <= |buf|
  {
    buf[..off] + data + buf[off + |data|..]
  }

  /** recv(fd, &buf[off], size - off): negative on error, otherwise the number of bytes stored. */
  method RecvInto(buf: array<byte>, off: nat, r: Recv) returns (bytes: int)
    requires off <= buf.Length
    modifies buf
    ensures r.RecvError? ==> bytes == -1 && buf[..] == old(buf[..])
    ensures r.Data? ==>
              && bytes == |Delivered(r.bytes, buf.Length - off)|
              && buf[..] == Placed(old(buf[..]), off, Delivered(r.bytes, buf.Length - off))
  {
    if r.RecvError? {
      return -1;
    }
    var got := Delivered(r.bytes, buf.Length - off);
    Store(buf, off, got);
    return |got|;
  }

  /** With `stored` received so far, the calls from `k` on complete the delivery to `all`. */
  ghost predicate Pending(net: nat -> Recv, k: nat, room: nat, stored: seq<byte>, all: Option<seq<byte>>)
    decreases room
  {
    match net(k)
    case RecvError => all == None
    case Data(d) =>
      var got := Delivered(d, room);
      if got == [] then all == Some(stored) else Pending(net, k + 1, room - |got|, stored + got, all)
  }

  lemma {:induction false} DrainPending(net: nat -> Recv, k: nat, room: nat, stored: seq<byte>, all: Option<seq<byte>>)
    requires var rest := Drain(net, k, room);
             if rest.None? then all == None else all == Some(stored + rest.value)
    ensures Pending(net, k, room, stored, all)
    decreases room
  {
    if net(k).Data? {
      var got := Delivered(net(k).bytes, room);
      if got == [] {
        assert stored + [] == stored;
      } else {
        var rest := Drain(net, k + 1, room - |got|);
        if rest.Some? {
          assert stored + (got + rest.value) == (stored + got) + rest.value;
        }
        DrainPending(net, k + 1, room - |got|, stored + got, all);
      }
    }
  }

  lemma AllPending(net: nat -> Recv, room: nat)
    ensures Pending(net, 0, room, [], Drain(net, 0, room))
  {
    var all := Drain(net, 0, room);
    if all.Some? {
      assert [] + all.value == all.value;
    }
    DrainPending(net, 0, room, [], all);
  }

  method Store(buf: array<byte>, off: nat, data: seq<byte>)
    requires off + |data| <= buf.Length
    modifies buf
    ensures buf[..] == Placed(old(buf[..]), off, data)
  {
    for k := 0 to |data|
      invariant forall i :: 0 <= i < buf.Length ==>
                              buf[i] == if off <= i < off + k then data[i - off] else old(buf[i])
    {
      buf[off + k] := data[k];
    }
  }

  // ------------------------------------------------------------------ the status line

  /** What the terminator leaves of the received bytes: one is lost when the buffer is full. */
  function Kept(received: seq<byte>): seq<byte> {
    if |received| < RECV_BUF_SIZE then received else received[..RECV_BUF_SIZE - 1]
  }

  /** A CRLF at `j`. */
  predicate CrlfAt(t: seq<byte>, j: nat) {
    j + 1 < |t| && t[j] == 13 && t[j + 1] == 10
  }

  /** The first line of `t` ends at `j`: a CRLF, no CRLF before it, and no NUL before it. */
  ghost predicate LineEndsAt(t: seq<byte>, j: nat) {
    CrlfAt(t, j) && forall i :: 0 <= i < j ==> t[i] != 0 && !CrlfAt(t, i)
  }

  ghost predicate HasLine(t: seq<byte>) {
    exists j: nat :: LineEndsAt(t, j)
  }

  /** The status line of a response: its first line cut to 63 bytes, empty if it has none. */
  ghost predicate IsStatusLine(received: seq<byte>, line: seq<byte>) {
    var t := Kept(received);
    if HasLine(t) then
      exists j: nat :: LineEndsAt(t, j) && line == t[..if j < STATUS_SIZE then j else STATUS_SIZE - 1]
    else line == []
  }

  lemma StatusLineUnique(received: seq<byte>, a: seq<byte>, b: seq<byte>)
    requires IsStatusLine(received, a) && IsStatusLine(received, b)
    ensures a == b && |a| < STATUS_SIZE
  {
    var t := Kept(received);
    if HasLine(t) {
      var i: nat :| LineEndsAt(t, i) && a == t[..if i < STATUS_SIZE then i else STATUS_SIZE - 1];
      var j: nat :| LineEndsAt(t, j) && b == t[..if j < STATUS_SIZE then j else STATUS_SIZE - 1];
      assert i == j;
    }
  }

  /** In terms of the received bytes alone: the line up to the first CRLF if that ends within the first 2047
      bytes and no NUL comes before it, cut to 63 bytes; otherwise empty. */
  lemma StatusLineIs(received: seq<byte>, line: seq<byte>)
    requires |received| <= 2048 && IsStatusLine(received, line)
    ensures forall j: nat :: LineEndsAt(received, j) && j + 2 <= 2047 ==> line == received[..if j < 63 then j else 63]
    ensures (forall j: nat :: LineEndsAt(received, j) ==> j + 2 > 2047) ==> line == []
  {
    var t := Kept(received);
    forall j: nat
      ensures LineEndsAt(t, j) <==> LineEndsAt(received, j) && j + 2 <= 2047
    {
      assert forall i: nat :: i < j && j + 2 <= |t| ==> t[i] == received[i] && (CrlfAt(t, i) <==> CrlfAt(received, i));
    }
    if HasLine(t) {
      var k: nat :| LineEndsAt(t, k) && line == t[..if k < STATUS_SIZE then k else STATUS_SIZE - 1];
      assert forall j: nat :: LineEndsAt(received, j) && j + 2 <= 2047 ==> j == k;
      assert line == received[..if k < 63 then k else 63];
    }
  }

  /** strstr(buf, "\\r\\n") on the NUL-terminated text at the start of the buffer. */
  method FindCrlf(buf: array<byte>, end: nat) returns (p: Option<nat>)
    requires end < buf.Length && buf[end] == 0
    ensures p.Some? ==> LineEndsAt(buf[..end], p.value)
    ensures p.None? ==> !HasLine(buf[..end])
  {
    ghost var t := buf[..end];
    var i := 0;
    while buf[i] != 0
      invariant i <= end
      invariant forall k :: 0 <= k < i ==> t[k] != 0 && !CrlfAt(t, k)
      decreases end - i
    {
      if buf[i] == 13 && buf[i + 1] == 10 {
        assert i + 1 != end;
        return Some(i);
      }
      i := i + 1;
    }
    assert forall j: nat :: LineEndsAt(t, j) ==> j >= i;
    return None;
  }

  /** The part of send_http_request from the terminator to the status line.  The result depends on the
      bytes of this request only, not on what the buffer held before. */
  method TakeStatusLine(buf: array<byte>, off: nat) returns (line: seq<byte>)
    requires buf.Length == RECV_BUF_SIZE && off <= RECV_BUF_SIZE
    modifies buf
    ensures IsStatusLine(old(buf[..off]), line)
    ensures |line| < STATUS_SIZE
  {
    ghost var received := buf[..off];
    var end := if off < RECV_BUF_SIZE then off else RECV_BUF_SIZE - 1;
    buf[end] := 0;
    assert buf[..end] == Kept(received);
    var p := FindCrlf(buf, end);
    if p.None? {
      return [];
    }
    var slen := if p.value >= STATUS_SIZE then STATUS_SIZE - 1 else p.value;
    line := buf[..slen];
    assert line == Kept(received)[..slen];
  }

  // ------------------------------------------------------------------ one request

  /** The length of the request text for the default host name. */
  const HTTP_HEAD_LEN: nat := 61
  const DNS_EAI_CANCELED: int := -101

  /** What one send answers: an error, or how many of the offered bytes it takes. */
  datatype Send = SendError | Accepted(n: nat)

  function Taken(n: nat, room: nat): nat {
    if n <= room then n else room
  }

  /** Whether the whole request goes out, `off` bytes being out already.  The socket has a send timeout:
      once the listed answers are used up, the next call fails. */
  predicate SentAll(sends: seq<Send>, off: nat)
    requires off < HTTP_HEAD_LEN
    decreases |sends|
  {
    && sends != [] && sends[0].Accepted?
    && (var off' := off + Taken(sends[0].n, HTTP_HEAD_LEN - off);
        off' == HTTP_HEAD_LEN || SentAll(sends[1..], off'))
  }

  /** How many bytes the first `n` calls took, as long as all of them were accepted. */
  function TakenBy(sends: seq<Send>, n: nat): nat
    requires n <= |sends|
  {
    if n == 0 then 0 else TakenBy(sends, n - 1) + if sends[n - 1].Accepted? then sends[n - 1].n else 0
  }

  lemma {:induction false} TakenByTail(sends: seq<Send>, n: nat)
    requires 0 < n <= |sends|
    ensures TakenBy(sends, n) == TakenBy(sends[1..], n - 1) + if sends[0].Accepted? then sends[0].n else 0
  {
    if n > 1 { TakenByTail(sends, n - 1); }
  }

  /** The request went out within the first `n` calls. */
  ghost predicate OutBy(sends: seq<Send>, n: nat, room: nat) {
    n <= |sends| && (forall i :: 0 <= i < n ==> sends[i].Accepted?) && TakenBy(sends, n) >= room
  }

  ghost predicate GoesOut(sends: seq<Send>, room: nat) {
    exists n: nat :: OutBy(sends, n, room)
  }

  /** The whole request goes out exactly if some number of calls without an error takes all its bytes. */
  lemma {:induction false} SentAllIff(sends: seq<Send>, off: nat)
    requires off < HTTP_HEAD_LEN
    ensures SentAll(sends, off) <==> GoesOut(sends, HTTP_HEAD_LEN - off)
    decreases |sends|
  {
    var room := HTTP_HEAD_LEN - off;
    if sends != [] && sends[0].Accepted? {
      var rest, k := sends[1..], sends[0].n;
      if k >= room {
        TakenByTail(sends, 1);
        assert OutBy(sends, 1, room);
      } else {
        SentAllIff(rest, off + k);
        if GoesOut(rest, room - k) {
          var n: nat :| OutBy(rest, n, room - k);
          TakenByTail(sends, n + 1);
          assert forall i :: 0 < i < n + 1 ==> sends[i] == rest[i - 1];
          assert OutBy(sends, n + 1, room);
        }
        if GoesOut(sends, room) {
          var n: nat :| OutBy(sends, n, room);
          TakenByTail(sends, n);
          assert forall i :: 0 <= i < n - 1 ==> rest[i] == sends[i + 1];
          assert OutBy(rest, n - 1, room - k);
        }
      }
    } else {
      forall n: nat
        ensures !OutBy(sends, n, room)
      {
      }
    }
  }

  /** The send loop: true once every byte is out, false on the first error. */
  method SendHead(sends: seq<Send>) returns (ok: bool)
    ensures ok == SentAll(sends, 0)
  {
    var off, k := 0, 0;
    while off < HTTP_HEAD_LEN
      invariant 0 <= off <= HTTP_HEAD_LEN && k <= |sends|
      invariant SentAll(sends, 0) == (off == HTTP_HEAD_LEN || SentAll(sends[k..], off))
      decreases |sends| - k
    {
      if k == |sends| || sends[k].SendError? {
        return false;
      }
      assert sends[k..][1..] == sends[k + 1..];
      off := off + Taken(sends[k].n, HTTP_HEAD_LEN - off);
      k := k + 1;
    }
    return true;
  }

  /** What the calls of one request return: the lookup and its one retry, socket, TLS setup, connect,
      and the answers to send and recv. */
  datatype Exchange = Exchange(lookup: int, retry: int, socket: int, tls: int, connect: int,
                               sends: seq<Send>, net: nat -> Recv)

  function LookupResult(x: Exchange): int {
    if x.lookup == DNS_EAI_CANCELED then x.retry else x.lookup
  }

  /** Everything has to go through; only a canceled lookup gets a second chance. */
  predicate Succeeds(x: Exchange) {
    && LookupResult(x) == 0 && x.socket != -1 && x.tls == 0 && x.connect == 0
    && SentAll(x.sends, 0)
    && Drain(x.net, 0, RECV_BUF_SIZE).Some?
  }

  /** One failed step is enough to fail the request, whichever it is; and if the lookup, its retry after a
      cancellation included, the socket, TLS, the connection, all sends and all receives go through, it
      succeeds. */
  lemma OneFailureIsEnough(x: Exchange)
    ensures x.lookup != 0 && x.lookup != -101 ==> !Succeeds(x)
    ensures x.lookup == -101 && x.retry != 0 ==> !Succeeds(x)
    ensures x.socket == -1 || x.tls != 0 || x.connect != 0 ==> !Succeeds(x)
    ensures !GoesOut(x.sends, HTTP_HEAD_LEN) ==> !Succeeds(x)
    ensures Drain(x.net, 0, 2048) == None ==> !Succeeds(x)
    ensures (&& (x.lookup == 0 || (x.lookup == -101 && x.retry == 0))
             && x.socket >= 0 && x.tls == 0 && x.connect == 0
             && GoesOut(x.sends, HTTP_HEAD_LEN) && Drain(x.net, 0, 2048).Some?) ==> Succeeds(x)
  {
    SentAllIff(x.sends, 0);
  }

  // ------------------------------------------------------------------ the client thread and its ledger

  /** Asleep on the semaphore; provisioning, DNS wait and first delay; at the loop's test; about to call
      send_http_request. */
  datatype Thread = Asleep | Preparing | Looping | Sending

  datatype State = State(thread: Thread, ready: bool, seen: bool, total: nat, failures: nat)

  const START := State(Asleep, false, false, 0, 0)

  /** NetUp and NetDown come from the Wi-Fi listener at any moment; the rest are the thread's own steps.
      A step out of turn does nothing. */
  datatype Event =
    | NetUp
    | NetDown
    | Wake
    | CertFails
    | Prepared
    | LoopTest
    | Request(x: Exchange)

  /** What an event adds to the ledger: a request carried out, or an interval lost to a missing network. */
  datatype Entry = NoEntry | Done(ok: bool) | Missed

  predicate GivesUp(s: State, e: Event) {
    !s.ready && s.seen && ((e.Wake? && s.thread.Asleep?) || (e.LoopTest? && s.thread.Looping?))
  }

  function EntryOf(s: State, e: Event): Entry {
    if GivesUp(s, e) then Missed
    else if e.Request? && s.thread.Sending? && s.ready then Done(Succeeds(e.x))
    else NoEntry
  }

  function Posted(s: State, n: Entry): State {
    match n
    case NoEntry => s
    case Done(ok) => s.(total := Inc(s.total), failures := if ok then s.failures else Inc(s.failures))
    case Missed => s.(total := Inc(s.total), failures := Inc(s.failures))
  }

  function Moved(s: State, e: Event): State {
    match e
    case NetUp => if s.ready then s else s.(ready := true, seen := true)
    case NetDown => s.(ready := false)
    case Wake => if s.thread.Asleep? && s.ready then s.(thread := Preparing) else s
    case CertFails => if s.thread.Preparing? then s.(thread := Asleep, ready := false) else s
    case Prepared => if s.thread.Preparing? then s.(thread := if s.ready then Looping else Asleep) else s
    case LoopTest => if s.thread.Looping? then s.(thread := if s.ready then Sending else Asleep) else s
    case Request(_) => if s.thread.Sending? then s.(thread := Looping) else s
  }

  function Step(s: State, e: Event): State {
    Moved(Posted(s, EntryOf(s, e)), e)
  }

  function After(es: seq<Event>): State {
    if es == [] then START else Step(After(es[..|es| - 1]), es[|es| - 1])
  }

  /** The entries of a run from reset. */
  function Entries(es: seq<Event>): (ns: seq<Entry>)
    ensures |ns| == |es|
  {
    if es == [] then [] else Entries(es[..|es| - 1]) + [EntryOf(After(es[..|es| - 1]), es[|es| - 1])]
  }

  function Count(ns: seq<Entry>, n: Entry): nat {
    if ns == [] then 0 else Count(ns[..|ns| - 1], n) + if ns[|ns| - 1] == n then 1 else 0
  }

  lemma CountAfter(ns: seq<Entry>, m: Entry, n: Entry)
    ensures Count(ns + [m], n) == Count(ns, n) + if m == n then 1 else 0
  {
    assert (ns + [m])[..|ns|] == ns;
  }

  /** The counters are what the entries add up to, modulo the word: total the requests that went through,
      those that did not and the intervals without network; failures the latter two. */
  ghost predicate Balanced(s: State, ns: seq<Entry>) {
    && s.total == (Count(ns, Done(true)) + Count(ns, Done(false)) + Count(ns, Missed)) % WORD
    && s.failures == (Count(ns, Done(false)) + Count(ns, Missed)) % WORD
  }

  lemma PostingBalances(s: State, ns: seq<Entry>, n: Entry)
    requires Balanced(s, ns)
    ensures Balanced(Posted(s, n), ns + [n])
  {
    CountAfter(ns, n, Done(true));
    CountAfter(ns, n, Done(false));
    CountAfter(ns, n, Missed);
    IncMod(Count(ns, Done(true)) + Count(ns, Done(false)) + Count(ns, Missed));
    IncMod(Count(ns, Done(false)) + Count(ns, Missed));
  }

  /** Over every run: every request carried out and every interval lost is counted once, and a failure
      exactly unless all steps of the exchange went through. */
  lemma {:induction false} LedgerBalances(es: seq<Event>)
    ensures Balanced(After(es), Entries(es))
  {
    if es != [] {
      var es', e := es[..|es| - 1], es[|es| - 1];
      var s := After(es');
      LedgerBalances(es');
      PostingBalances(s, Entries(es'), EntryOf(s, e));
    }
  }

  /** The score the client reports. */
  function Score(s: State): nat {
    (s.total - s.failures) % WORD
  }

  lemma ScoreOf(s: State, ns: seq<Entry>)
    requires Balanced(s, ns)
    ensures Score(s) == Count(ns, Done(true)) % WORD
  {
    ModDifference(Count(ns, Done(true)) + Count(ns, Done(false)) + Count(ns, Missed), Count(ns, Done(false)) + Count(ns, Missed));
  }

  /** Total minus failures is the number of exchanges that succeeded. */
  lemma ScoreIsSuccesses(es: seq<Event>)
    ensures Score(After(es)) == Count(Entries(es), Done(true)) % WORD
  {
    LedgerBalances(es);
    ScoreOf(After(es), Entries(es));
  }

  /** Event `j` marks the network as down: a loss, or certificates that could not be provisioned. */
  ghost predicate TakesDown(es: seq<Event>, j: nat) {
    j < |es| && (es[j].NetDown? || (es[j].CertFails? && After(es[..j]).thread.Preparing?))
  }

  ghost predicate IsReady(es: seq<Event>) {
    exists i: nat :: i < |es| && es[i].NetUp? && forall j: nat :: i < j < |es| ==> !TakesDown(es, j)
  }

  lemma ReadyAfter(es: seq<Event>, e: Event)
    ensures IsReady(es + [e]) <==>
            e.NetUp? || (IsReady(es) && !e.NetDown? && !(e.CertFails? && After(es).thread.Preparing?))
  {
    var es', n := es + [e], |es|;
    assert es'[n] == e && es'[..n] == es;
    assert forall j :: 0 <= j < n ==> es'[j] == es[j] && es'[..j] == es[..j];
    assert forall j: nat :: j < n ==> (TakesDown(es', j) <==> TakesDown(es, j));
    assert TakesDown(es', n) <==> e.NetDown? || (e.CertFails? && After(es).thread.Preparing?);
    if IsReady(es) && !TakesDown(es', n) {
      var i: nat :| i < n && es[i].NetUp? && forall j: nat :: i < j < n ==> !TakesDown(es, j);
      assert es'[i].NetUp? && forall j: nat :: i < j < |es'| ==> !TakesDown(es', j);
    }
    if IsReady(es') && !e.NetUp? {
      var i: nat :| i < |es'| && es'[i].NetUp? && forall j: nat :: i < j < |es'| ==> !TakesDown(es', j);
      assert i < n && !TakesDown(es', n);
      assert es[i].NetUp? && forall j: nat :: i < j < n ==> !TakesDown(es, j);
    }
  }

  /** Over every run: the network counts as up exactly if no loss and no failed provisioning came after the
      last notification that it is. */
  lemma {:induction false} ReadyFollows(es: seq<Event>)
    ensures After(es).ready == IsReady(es)
  {
    if es != [] {
      var n := |es| - 1;
      ReadyFollows(es[..n]);
      assert es == es[..n] + [es[n]];
      ReadyAfter(es[..n], es[n]);
    }
  }

  /** With the network up the thread gets from its semaphore to a request, and the request is counted; with
      the network lost meanwhile it goes back to sleep uncounted; and with provisioning failed it goes back to
      sleep, and its next wake-up counts a lost interval. */
  lemma RoundsGoThrough(s: State, x: Exchange)
    requires s.thread.Asleep? && s.ready && s.seen
    ensures var t := Step(Step(Step(s, Wake), Prepared), LoopTest);
            && t == s.(thread := Sending) && EntryOf(t, Request(x)) == Done(Succeeds(x))
            && Step(t, Request(x)).thread.Looping?
    ensures var t := Step(Step(Step(s, Wake), NetDown), Prepared);
            t == s.(ready := false) && Step(Step(s, Wake), Prepared).thread.Looping?
    ensures var t := Step(Step(s, Wake), CertFails);
            && t == s.(ready := false) && EntryOf(t, Wake) == Missed
  {
  }

  /** The seen-network guard is open whenever the network is up or the thread is past its semaphore. */
  lemma {:induction false} SeenOnceReady(es: seq<Event>)
    ensures After(es).ready || !After(es).thread.Asleep? ==> After(es).seen
  {
    if es != [] { SeenOnceReady(es[..|es| - 1]); }
  }

  /** So leaving the request loop is always recorded, whatever its guard, and a request is skipped without
      an entry exactly when the network went between the loop's test and its own. */
  lemma LoopExitIsRecorded(es: seq<Event>, e: Event)
    ensures var s := After(es);
            && (s.thread.Looping? && e.LoopTest? ==> (EntryOf(s, e) == Missed <==> Step(s, e).thread.Asleep?))
            && (s.thread.Asleep? && e.Wake? ==> (EntryOf(s, e) == Missed <==> s.seen && !s.ready))
            && (s.thread.Sending? && e.Request? ==> (EntryOf(s, e) == NoEntry <==> !s.ready))
  {
    SeenOnceReady(es);
  }

  class Client {
    const recvBuf: array<byte>
    var networkReady: bool
    var hasSeenNetwork: bool
    var total: nat
    var failures: nat
    ghost var thread: Thread

    ghost function View(): State
      reads this
    {
      State(thread, networkReady, hasSeenNetwork, total, failures)
    }

    constructor ()
      ensures recvBuf.Length == RECV_BUF_SIZE && fresh(recvBuf)
      ensures View() == START
    {
      recvBuf := new byte[RECV_BUF_SIZE](_ => 0);
      networkReady, hasSeenNetwork, total, failures := false, false, 0, 0;
      thread := Asleep;
    }

    /** app_https_client_notify_connected */
    method NotifyConnected()
      modifies this
      ensures View() == Step(old(View()), NetUp)
    {
      if !networkReady {
        hasSeenNetwork := true;
        networkReady := true;
      }
    }

    /** app_https_client_notify_disconnected */
    method NotifyDisconnected()
      modifies this
      ensures View() == Step(old(View()), NetDown)
    {
      networkReady := false;
    }

    /** https_record_failed_attempt behind its has-seen-network guard */
    method RecordMissedInterval()
      modifies this`total, this`failures
      ensures View() == Posted(old(View()), if hasSeenNetwork then Missed else NoEntry)
    {
      if hasSeenNetwork {
        total := Inc(total);
        failures := Inc(failures);
      }
    }

    /** The thread after its semaphore: an interval without network is recorded. */
    method WakeUp() returns (go: bool)
      requires thread.Asleep?
      modifies this
      ensures View() == Step(old(View()), Wake) && go == thread.Preparing?
    {
      if !networkReady {
        RecordMissedInterval();
        return false;
      }
      thread := Preparing;
      return true;
    }

    /** The test of the request loop, and what follows the loop when it fails. */
    method TestLoop() returns (again: bool)
      requires thread.Looping?
      modifies this
      ensures View() == Step(old(View()), LoopTest) && again == thread.Sending?
    {
      if networkReady {
        thread := Sending;
        return true;
      }
      RecordMissedInterval();
      thread := Asleep;
      return false;
    }

    /** send_http_request.  Each exit sets the failure flag for itself; the clean-up counts it.  The status
        line is that of the bytes received, empty on failure. */
    method SendHttpRequest(x: Exchange) returns (status: seq<byte>)
      requires recvBuf.Length == RECV_BUF_SIZE && thread.Sending?
      modifies this, recvBuf
      ensures View() == Step(old(View()), Request(x))
      ensures if old(networkReady) && Succeeds(x) then IsStatusLine(Drain(x.net, 0, RECV_BUF_SIZE).value, status)
              else status == []
    {
      thread := Looping;
      status := [];
      if !networkReady {
        return;
      }
      total := Inc(total);
      var requestFailed;
      requestFailed, status := Perform(x);
      if requestFailed {
        failures := Inc(failures);
      }
    }

    /** The body of send_http_request up to its clean-up label. */
    method Perform(x: Exchange) returns (requestFailed: bool, status: seq<byte>)
      requires recvBuf.Length == RECV_BUF_SIZE
      modifies recvBuf
      ensures requestFailed == !Succeeds(x)
      ensures if Succeeds(x) then IsStatusLine(Drain(x.net, 0, RECV_BUF_SIZE).value, status) else status == []
    {
      requestFailed, status := false, [];
      var err := x.lookup;
      if err == DNS_EAI_CANCELED {
        err := x.retry;
      }
      if err != 0 {
        requestFailed := true;
        return;
      }
      if x.socket == -1 {
        requestFailed := true;
        return;
      }
      if x.tls != 0 {
        requestFailed := true;
        return;
      }
      if x.connect != 0 {
        requestFailed := true;
        return;
      }
      var sent := SendHead(x.sends);
      if !sent {
        requestFailed := true;
        return;
      }
      var off := Receive(recvBuf, x.net);
      if off.None? {
        requestFailed := true;
        return;
      }
      status := TakeStatusLine(recvBuf, off.value);
    }
  }
}
