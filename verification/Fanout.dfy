// One input stream copied to several independent targets: bounded rings, non-blocking writes,
// back-pressure on the reader, eviction of hung targets, and the verdict of every target.
module Fanout {
  import opened Words
  import Ring
  import Xxh64
  import FanoutSha
  import Fips180

  const READ_CHUNK := 1024 * 1024
  const MAX_TARGETS := 8

  datatype Reason =
    | NoReader | CouldNotOpen | QueueInvariant | WriteError | Stalled
    | WrongLength | EmptyStream | FsyncFailed | CloseFailed

  datatype Status = Alive | Failed(reason: Reason)

  // What happened to a target: what opening it gave, whether a write ever failed, how long it had taken no
  // byte when it was evicted (not positive if it never was), whether fsync and close failed.
  datatype Evidence = Evidence(atOpen: Status, broken: bool, idle: int, fsyncBad: bool, closeBad: bool)

  function Running(e: Evidence, stall: int): Status {
    if e.atOpen.Failed? then e.atOpen
    else if e.broken then Failed(WriteError)
    else if e.idle >= stall then Failed(Stalled)
    else Alive
  }

  // The line of a target, from what happened to it and the length of the stream.
  function Verdict(e: Evidence, stall: int, got: nat, expected: nat): Status {
    if Running(e, stall).Failed? then Running(e, stall)
    else if expected > 0 && got != expected then Failed(WrongLength)
    else if expected == 0 && got == 0 then Failed(EmptyStream)
    else if e.fsyncBad then Failed(FsyncFailed)
    else if e.closeBad then Failed(CloseFailed)
    else Alive
  }

  // What one write() returns: a count, would-block, interrupted by a signal, or an error.
  datatype Written = Took(n: nat) | WouldBlock | Interrupted | WriteFailed

  // The machine around the process. The clock is monotonic; how many signals interrupt a call and
  // how many polls end before the clock moves is unknown, but finite.
  class Machine {
    var now: int
    var signals: nat
    var wakeups: nat

    constructor ()
    {
      var s, w :| 0 <= s && 0 <= w;
      now, signals, wakeups := *, s, w;
    }

    method NowMs() returns (t: int)
      modifies `now
      ensures old(now) <= now == t
    {
      var d :| 0 <= d;
      now := now + d;
      t := now;
    }

    // poll(): returns once the clock has moved, or early.
    method Poll()
      modifies `now, `wakeups
      ensures now >= old(now) && wakeups <= old(wakeups)
      ensures now > old(now) || wakeups < old(wakeups)
    {
      var early: bool := *;
      var d :| 0 <= d;
      if early && wakeups > 0 {
        wakeups := wakeups - 1;
        now := now + d;
      } else {
        now := now + d + 1;
      }
    }
  }

  class Target {
    const cap: nat
    const mem: array<byte>      // the allocation behind buf
    var buf: array?<byte>
    var head: nat
    var len: nat
    var status: Status
    var taken: nat
    var queued: nat
    var lastProgress: int
    ghost var accepted: bytes   // everything the kernel took, in order
    ghost var full: bool        // the last write() would have blocked
    ghost var broken: bool      // a write() failed, or took nothing of what it was offered
    ghost var tookAt: int       // when the last byte was taken, at first when it was opened
    ghost var evictedAt: int    // when the reader evicted it
    ghost var fsyncBad: bool
    ghost var closeBad: bool
    ghost const atOpen: Status  // what opening it gave

    ghost predicate Valid()
      reads this, mem
    {
      && mem.Length == cap > 0 && head < cap && len <= cap
      && taken == |accepted|
      && buf == (if status.Alive? then mem else null)
    }

    ghost function Queue(): bytes
      requires Valid()
      reads this, mem
    {
      Ring.Contents(mem[..], head, len)
    }

    ghost function History(): Evidence
      reads this
    {
      Evidence(atOpen, broken, evictedAt - tookAt, fsyncBad, closeBad)
    }

    // While the stream runs a target is failed for what happened to it, and for nothing else.
    ghost predicate Fair(now: int, stall: int)
      reads this
    {
      && status == Running(History(), stall) && !fsyncBad && !closeBad
      && (atOpen.Failed? ==> atOpen.reason in {NoReader, CouldNotOpen})
      && (status.Alive? ==> tookAt <= lastProgress <= now)
      && (status == Failed(Stalled) ==> full && evictedAt <= now)
    }

    // Never discard a block and let the target continue.
    ghost predicate Delivers(stream: bytes)
      reads this, mem
    {
      Valid() && if status.Alive? then accepted + Queue() == stream else accepted <= stream
    }

    constructor (cap: nat, initial: Status, m: Machine, ghost stall: int)
      requires cap > 0 && stall > 0 && (initial.Failed? ==> initial.reason in {NoReader, CouldNotOpen})
      modifies m`now
      ensures Delivers([]) && this.cap == cap && fresh(mem) && status == atOpen == initial
      ensures old(m.now) <= m.now && Fair(m.now, stall)
    {
      this.cap := cap;
      var b := new byte[cap];
      mem, buf := b, if initial.Alive? then b else null;
      head, len, taken, queued, lastProgress := 0, 0, 0, 0, 0;
      status, atOpen := initial, initial;
      accepted, full, broken, tookAt, evictedAt, fsyncBad, closeBad := [], false, false, m.now, m.now, false, false;
      new;
      if status.Alive? { lastProgress := m.NowMs(); }
    }

    method Fail(reason: Reason)
      modifies `status, `buf
      ensures status == if old(status.Alive?) then Failed(reason) else old(status)
      ensures buf == if old(status.Alive?) then null else old(buf)
    {
      if !status.Alive? { return; }
      status := Failed(reason);
      buf := null;
    }

    // fsync of a real file and close, at the end.
    method Conclude() returns (line: Status)
      requires Valid() && !fsyncBad && !closeBad
      modifies `status, `buf, `fsyncBad, `closeBad
      ensures line == status == if old(status.Failed?) then old(status)
                                else if fsyncBad then Failed(FsyncFailed)
                                else if closeBad then Failed(CloseFailed)
                                else Alive
    {
      if status.Alive? {
        var ok := Fsync();
        if !ok { Fail(FsyncFailed); }
      }
      if status.Alive? {
        var ok := Close();
        if !ok { Fail(CloseFailed); }
      }
      line := status;
    }

    method Fsync() returns (ok: bool)
      modifies `fsyncBad
      ensures fsyncBad == !ok
    {
      ok := *;
      fsyncBad := !ok;
    }

    method Close() returns (ok: bool)
      modifies `closeBad
      ensures closeBad == !ok
    {
      ok := *;
      closeBad := !ok;
    }

    // write() on the target's descriptor: any outcome, and any count up to what was offered.
    method Write(data: bytes, m: Machine) returns (w: Written)
      modifies `accepted, `full, `broken, `tookAt, m`signals
      ensures broken == (old(broken) || w.WriteFailed? || w == Took(0))
      ensures tookAt == if w.Took? && w.n > 0 then m.now else old(tookAt)
      ensures w.Took? ==> w.n <= |data| && accepted == old(accepted) + data[..w.n]
      ensures !w.Took? ==> accepted == old(accepted)
      ensures m.signals <= old(m.signals) && (w.Interrupted? ==> m.signals < old(m.signals))
      ensures full == w.WouldBlock?
    {
      w := *;
      if w.Took? {
        var n :| 0 <= n <= |data|;
        w := Took(n);
        accepted := accepted + data[..n];
      } else if w.Interrupted? {
        if m.signals == 0 { w := WriteFailed; } else { m.signals := m.signals - 1; }
      }
      full := w.WouldBlock?;
      broken := broken || w.WriteFailed? || w == Took(0);
      if w.Took? && w.n > 0 { tookAt := m.now; }
    }

    // The room check is repeated here; a block that does not fit is an internal error.
    method Enqueue(data: bytes) returns (ok: bool)
      requires Valid()
      modifies `status, `buf, `len, mem
      ensures Valid()
      ensures !old(status.Alive?) ==> ok && status == old(status) && len == old(len)
      ensures old(status.Alive?) && old(len) + |data| > cap ==>
        !ok && status == Failed(QueueInvariant) && len == old(len)
      ensures old(status.Alive?) && old(len) + |data| <= cap ==>
        ok && status.Alive? && len == old(len) + |data| && Queue() == old(Queue()) + data
    {
      hide Ring.Contents, Ring.Filled;
      if !status.Alive? { return true; }
      var n := |data|;
      if len + n > cap {
        Fail(QueueInvariant);
        return false;
      }
      Ring.Append(mem[..], head, len, data);
      Ring.CopyIn(buf, head, len, data);
      len := len + n;
      ok := true;
    }

    // The bookkeeping of an accepted write.
    method Credit(n: nat, m: Machine)
      modifies `taken, `lastProgress, m`now
      ensures taken == old(taken) + n && old(m.now) <= m.now == lastProgress
    {
      taken := taken + n;
      lastProgress := m.NowMs();
    }

    // The accepted bytes leave the ring.
    method Advance(n: nat, m: Machine)
      requires mem.Length == cap > 0 && head < cap && len <= cap && 0 < n <= len && head + n <= cap
      modifies `head, `len, `taken, `lastProgress, m`now
      ensures head < cap && len == old(len) - n && taken == old(taken) + n && old(m.now) <= m.now == lastProgress
      ensures Ring.Contents(mem[..], old(head), old(len)) ==
              mem[old(head)..old(head) + n] + Ring.Contents(mem[..], head, len)
    {
      hide Ring.Contents, Ring.Wrap;
      Ring.Remove(mem[..], head, len, n);
      head := Ring.Wrap(head + n, cap);
      len := len - n;
      Credit(n, m);
    }

    // One write of the bytes at `head`: some are taken, or the pipe is full, or the call is repeated, or
    // the target is failed.
    method FlushOnce(m: Machine, ghost stall: int, ghost stream: bytes) returns (again: bool)
      requires Delivers(stream) && Fair(m.now, stall) && status.Alive? && len > 0
      modifies `head, `len, `status, `buf, `taken, `lastProgress, `accepted
      modifies `full, `broken, `tookAt, m`signals, m`now
      ensures Delivers(stream) && old(m.now) <= m.now && Fair(m.now, stall) && m.signals <= old(m.signals)
      ensures !status.Alive? ==> status == Failed(WriteError)
      ensures len <= old(len) && (len == old(len) ==> lastProgress == old(lastProgress))
      ensures again ==> status.Alive? && (len < old(len) || m.signals < old(m.signals))
      ensures !again && status.Alive? ==> full
    {
      hide Ring.Contents, Ring.Wrap;
      var run := cap - head;
      if run > len { run := len; }
      ghost var before := accepted;
      var w := Write(buf[head..head + run], m);
      if w.Took? && w.n > 0 {
        ghost var chunk := mem[head..head + w.n];
        assert accepted == before + chunk;
        Advance(w.n, m);
        assert before + chunk + Queue() == before + (chunk + Queue());
        return true;
      }
      if w.WouldBlock? { return false; }
      if w.Interrupted? { return true; }
      Fail(WriteError);
      again := false;
    }

    // Pushes as much as the pipe takes now.
    method Flush(m: Machine, ghost stall: int, ghost stream: bytes)
      requires Delivers(stream) && Fair(m.now, stall)
      modifies `head, `len, `status, `buf, `taken, `lastProgress, `accepted
      modifies `full, `broken, `tookAt, m`signals, m`now
      ensures Delivers(stream) && old(m.now) <= m.now && Fair(m.now, stall)
      ensures !old(status.Alive?) ==> unchanged(this)
      ensures !status.Alive? ==> status == old(status) || status == Failed(WriteError)
      ensures status.Alive? ==> len <= old(len) && (len == old(len) ==> lastProgress == old(lastProgress))
      ensures status.Alive? && len > 0 ==> full
      ensures m.signals <= old(m.signals)
    {
      hide Delivers, Fair;
      while status.Alive? && len > 0
        invariant Delivers(stream) && old(m.now) <= m.now && Fair(m.now, stall)
        invariant !old(status.Alive?) ==> unchanged(this)
        invariant !status.Alive? ==> status == old(status)
        invariant len <= old(len) && (len == old(len) ==> lastProgress == old(lastProgress))
        invariant m.signals <= old(m.signals)
        decreases len, m.signals
      {
        var again := FlushOnce(m, stall, stream);
        if !again { return; }
      }
    }

    // One write straight from the read buffer.
    method SendOnce(data: bytes, m: Machine, ghost stall: int, ghost stream: bytes) returns (n: nat, again: bool)
      requires Delivers(stream) && Fair(m.now, stall) && status.Alive? && len == 0 && data != []
      modifies `status, `buf, `taken, `lastProgress, `accepted, `full, `broken, `tookAt, m`signals, m`now
      ensures n <= |data| && Delivers(stream + data[..n])
      ensures old(m.now) <= m.now && Fair(m.now, stall) && m.signals <= old(m.signals)
      ensures !status.Alive? ==> status == Failed(WriteError) && n == 0
      ensures again ==> status.Alive? && (n > 0 || m.signals < old(m.signals))
      ensures !again ==> n == 0
    {
      hide Ring.Contents;
      assert Ring.Contents(mem[..], head, 0) == [];
      var w := Write(data, m);
      if w.Took? && w.n > 0 {
        Credit(w.n, m);
        return w.n, true;
      }
      assert stream + data[..0] == stream;
      if w.WouldBlock? { return 0, false; }
      if w.Interrupted? { return 0, true; }
      Fail(WriteError);
      n, again := 0, false;
    }

    // With nothing queued the chunk is written straight from the read buffer; only what the pipe
    // does not take now is copied into the ring.
    method SendChunk(data: bytes, m: Machine, ghost stall: int, ghost stream: bytes)
      requires Delivers(stream) && Fair(m.now, stall) && (status.Alive? ==> len + |data| <= cap)
      modifies this, mem, m`signals, m`now
      ensures Delivers(stream + data) && old(m.now) <= m.now && Fair(m.now, stall)
      ensures !old(status.Alive?) ==> unchanged(this)
      ensures !status.Alive? ==> status == old(status) || status == Failed(WriteError)
      ensures old(queued) <= queued <= old(queued) + |data|
    {
      hide Ring.Contents;
      var p := 0;
      while status.Alive? && len == 0 && p < |data|
        invariant p <= |data| && (status == old(status) || (old(status.Alive?) && status == Failed(WriteError)))
        invariant !old(status.Alive?) ==> unchanged(this) && p == 0
        invariant Delivers(stream + data[..p]) && (status.Alive? ==> len + |data| - p <= cap)
        invariant old(m.now) <= m.now && Fair(m.now, stall)
        invariant queued == old(queued)
        decreases |data| - p, m.signals, status.Alive?
      {
        var n, again := SendOnce(data[p..], m, stall, stream + data[..p]);
        assert stream + data[..p + n] == stream + data[..p] + data[p..][..n];
        p := p + n;
        if !again { break; }
      }
      assert stream + data == stream + data[..p] + data[p..];
      if !status.Alive? || p == |data| { return; }
      queued := queued + |data| - p;
      EnqueueRest(data[p..], m, stall, stream + data[..p]);
    }

    // The rest waits in the ring, behind what is there.
    method EnqueueRest(data: bytes, m: Machine, ghost stall: int, ghost stream: bytes)
      requires Delivers(stream) && Fair(m.now, stall) && status.Alive? && len + |data| <= cap
      modifies this, mem, m`signals, m`now
      ensures Delivers(stream + data) && old(m.now) <= m.now && Fair(m.now, stall)
      ensures queued == old(queued) && (!status.Alive? ==> status == Failed(WriteError))
      ensures status.Alive? && len > 0 ==> full
    {
      hide Ring.Contents;
      var ok := Enqueue(data);
      assert accepted + Queue() == stream + data;
      if ok { Flush(m, stall, stream + data); }
    }

    // Evicted by the reader: still too full after a write that would have blocked, and no byte
    // accepted for the whole stall period.
    ghost predicate Hung(n: nat, stall: int)
      reads this
    {
      status == Failed(Stalled) && len > cap - n && full && evictedAt - lastProgress >= stall
    }

    // What waiting for room may do to a target: drain it, or fail it for one of two reasons.
    twostate predicate Kept(n: nat, stall: int)
      reads this
    {
      && (!old(status.Alive?) ==> unchanged(this))
      && (status.Alive? ==> old(status.Alive?))
      && (old(status.Alive?) && !status.Alive? ==> status == Failed(WriteError) || Hung(n, stall))
    }

    // The stall clock of a live target moves only when a byte leaves its ring.
    twostate predicate Drained()
      reads this
    {
      status.Alive? ==> len <= old(len) && (len == old(len) ==> lastProgress == old(lastProgress))
    }

    // One target's turn in a pass: flush, then wait for it or evict it.
    method Serve(n: nat, m: Machine, stall: int, ghost stream: bytes) returns (blocked: bool)
      requires Delivers(stream) && n <= cap && Fair(m.now, stall)
      modifies this, m`signals, m`now
      ensures Delivers(stream) && old(m.now) <= m.now && Fair(m.now, stall)
      ensures Kept(n, stall) && Drained()
      ensures blocked ==> status.Alive? && old(m.now) - lastProgress < stall
      ensures !blocked && status.Alive? ==> len + n <= cap
    {
      Flush(m, stall, stream);
      if !(status.Alive? && len > cap - n) { return false; }
      var now := m.NowMs();
      if now - lastProgress >= stall {
        evictedAt := now;
        Fail(Stalled);
        return false;
      }
      blocked := true;
    }
  }

  ghost predicate Apart(ts: seq<Target>)
  {
    forall i, j | 0 <= i < j < |ts| :: ts[i] != ts[j] && ts[i].mem != ts[j].mem
  }

  // Every target has the stream so far, or a prefix of it if it failed.
  ghost predicate AllDeliver(ts: seq<Target>, stream: bytes, now: int, stall: int)
    reads ts, set t | t in ts :: t.mem
  {
    forall t | t in ts :: t.Delivers(stream) && t.Fair(now, stall)
  }

  ghost function Weight(t: Target): nat
    reads t
  {
    if t.status.Alive? then t.len + 1 else 0
  }

  ghost function Load(ts: seq<Target>): nat
    reads ts
  {
    if ts == [] then 0 else Weight(ts[0]) + Load(ts[1..])
  }

  // A pass lowers the load, or leaves every stall clock where it was.
  twostate lemma {:induction false} LoadDrops(ts: seq<Target>)
    requires forall t | t in ts && t.status.Alive? :: old(t.status.Alive?) && t.len <= old(t.len)
    requires forall t | t in ts && t.status.Alive? && t.len == old(t.len) :: t.lastProgress == old(t.lastProgress)
    ensures Load(ts) <= old(Load(ts))
    ensures Load(ts) == old(Load(ts)) ==> forall t | t in ts && t.status.Alive? :: t.lastProgress == old(t.lastProgress)
  {
    if ts != [] { LoadDrops(ts[1..]); }
  }

  // Blocks the reader until every live target has room for n bytes.
  method MakeRoom(ts: seq<Target>, n: nat, m: Machine, stall: int, ghost stream: bytes)
    requires Apart(ts) && AllDeliver(ts, stream, m.now, stall) && stall > 0
    requires forall t | t in ts :: n <= t.cap
    modifies ts, m
    ensures AllDeliver(ts, stream, m.now, stall) && old(m.now) <= m.now
    ensures forall t | t in ts && t.status.Alive? :: t.len + n <= t.cap
    ensures forall t | t in ts :: t.Kept(n, stall)
  {
    hide Target.Delivers, Target.Hung, Load;
    ghost var deadline := m.now;
    var blocked := true;
    while blocked
      invariant AllDeliver(ts, stream, m.now, stall) && old(m.now) <= m.now
      invariant forall t | t in ts && t.status.Alive? :: t.lastProgress <= deadline
      invariant forall t | t in ts :: t.Kept(n, stall)
      invariant !blocked ==> forall t | t in ts && t.status.Alive? :: t.len + n <= t.cap
      decreases Load(ts), m.wakeups, if m.now < deadline + stall then deadline + stall - m.now else 0, blocked
    {
      label turn:
      blocked := Pass(ts, n, m, stall, stream);
      LoadDrops@turn(ts);
      if blocked { m.Poll(); }
      if Load(ts) < old@turn(Load(ts)) { deadline := m.now; }
    }
  }

  // One pass over the targets. It is blocked by a live target that is too full and not yet hung.
  method Pass(ts: seq<Target>, n: nat, m: Machine, stall: int, ghost stream: bytes) returns (blocked: bool)
    requires Apart(ts) && AllDeliver(ts, stream, m.now, stall)
    requires forall t | t in ts :: n <= t.cap
    modifies ts, m`signals, m`now
    ensures AllDeliver(ts, stream, m.now, stall) && old(m.now) <= m.now
    ensures forall t | t in ts :: t.Kept(n, stall)
    ensures forall t | t in ts :: t.Drained()
    ensures blocked ==> exists t | t in ts :: t.status.Alive? && old(m.now) - t.lastProgress < stall
    ensures !blocked ==> forall t | t in ts && t.status.Alive? :: t.len + n <= t.cap
  {
    hide Target.Delivers, Target.Hung;
    blocked := false;
    ghost var holder := 0;
    for i := 0 to |ts|
      invariant forall j | 0 <= j < |ts| :: ts[j].Delivers(stream)
      invariant forall j | 0 <= j < |ts| :: ts[j].Fair(m.now, stall)
      invariant old(m.now) <= m.now
      invariant forall j | i <= j < |ts| :: unchanged(ts[j])
      invariant forall j | 0 <= j < i :: ts[j].Kept(n, stall)
      invariant forall j | 0 <= j < i :: ts[j].Drained()
      invariant blocked ==> holder < i && ts[holder].status.Alive? && old(m.now) - ts[holder].lastProgress < stall
      invariant !blocked ==> forall j | 0 <= j < i && ts[j].status.Alive? :: ts[j].len + n <= ts[j].cap
    {
      var b := ts[i].Serve(n, m, stall, stream);
      if b { blocked, holder := true, i; }
    }
  }

  // What one read() of standard input returns.
  datatype Got = Data(d: bytes) | Eof | ReadInterrupted | ReadFailed

  class Stdin {
    var rest: bytes           // what has not been read yet
    ghost var failed: bool    // a read() failed
    ghost var ended: bool     // a read() reported the end

    // Any piece of at most `limit` bytes, and end of file only when nothing is left.
    method Read(limit: nat, m: Machine) returns (g: Got)
      requires limit > 0
      modifies this, m`signals
      ensures g.Data? ==> 0 < |g.d| <= limit && old(rest) == g.d + rest
      ensures !g.Data? ==> rest == old(rest)
      ensures g.Eof? ==> rest == []
      ensures m.signals <= old(m.signals) && (g.ReadInterrupted? ==> m.signals < old(m.signals))
      ensures failed == (old(failed) || g.ReadFailed?) && ended == (old(ended) || g.Eof?)
    {
      g := *;
      if g.ReadInterrupted? && m.signals > 0 {
        m.signals := m.signals - 1;
      } else if !g.ReadFailed? {
        if rest == [] {
          g := Eof;
        } else {
          var k :| 0 < k <= |rest| && k <= limit;
          g, rest := Data(rest[..k]), rest[k..];
        }
      }
      failed, ended := failed || g.ReadFailed?, ended || g.Eof?;
    }
  }

  ghost predicate Nobody(ts: seq<Target>)
    reads ts
  {
    forall t | t in ts :: !t.status.Alive?
  }

  method AliveCount(ts: seq<Target>) returns (n: nat)
    ensures n == 0 <==> Nobody(ts)
  {
    n := 0;
    for i := 0 to |ts|
      invariant n == 0 <==> forall j | 0 <= j < i :: !ts[j].status.Alive?
    {
      if ts[i].status.Alive? { n := n + 1; }
    }
  }

  // No target was ever failed for a queue that its own reader had not made room in.
  ghost predicate NoInternalError(ts: seq<Target>)
    reads ts
  {
    forall t | t in ts :: t.status != Failed(QueueInvariant)
  }

  ghost predicate Caps(ts: seq<Target>, cap: nat) {
    forall t | t in ts :: t.cap == cap
  }

  // The loop over the targets that hands one chunk to each.
  method Dispatch(ts: seq<Target>, d: bytes, m: Machine, ghost stall: int, ghost stream: bytes)
    requires Apart(ts) && AllDeliver(ts, stream, m.now, stall) && NoInternalError(ts)
    requires forall t | t in ts && t.status.Alive? :: t.len + |d| <= t.cap
    modifies ts, set t | t in ts :: t.mem, m`signals, m`now
    ensures AllDeliver(ts, stream + d, m.now, stall) && old(m.now) <= m.now && NoInternalError(ts)
  {
    hide Target.Delivers;
    for i := 0 to |ts|
      invariant old(m.now) <= m.now && NoInternalError(ts)
      invariant forall j | 0 <= j < |ts| :: ts[j].Fair(m.now, stall)
      invariant forall j | 0 <= j < i :: ts[j].Delivers(stream + d)
      invariant forall j | i <= j < |ts| :: ts[j].Delivers(stream) && unchanged(ts[j])
      invariant forall j | i <= j < |ts| :: unchanged(ts[j].mem)
    {
      ts[i].SendChunk(d, m, stall, stream);
    }
  }

  // The XXH64 of the stream, where its byte counter allows.
  ghost predicate XxhOf(x: Word64, stream: bytes) {
    x == Xxh64.ByCounter(stream) && (Xxh64.Counted(|stream|) ==> x == Xxh64.Hash(stream))
  }

  class Digests {
    const xxh: Xxh64.Xxh64
    const sha: FanoutSha.Sha256

    ghost predicate Of(wantXxh: bool, wantSha: bool, stream: bytes)
      reads this, xxh, xxh.tail, sha, sha.h, sha.tail
    {
      && (wantXxh ==> xxh.Valid() && xxh.msg == stream)
      && (wantSha ==> sha.Valid() && sha.msg == stream)
    }

    ghost function Repr(): set<object>
    {
      {xxh, xxh.tail, sha, sha.h, sha.tail}
    }

    constructor (wantXxh: bool, wantSha: bool)
      ensures Of(wantXxh, wantSha, []) && fresh(Repr())
    {
      xxh := new Xxh64.Xxh64();
      sha := new FanoutSha.Sha256();
    }

    // Only what was asked for is hashed.
    method Update(d: bytes, wantXxh: bool, wantSha: bool, ghost stream: bytes)
      requires Of(wantXxh, wantSha, stream)
      modifies Repr()
      ensures Of(wantXxh, wantSha, stream + d)
    {
      if wantXxh { xxh.Update(d); }
      if wantSha { sha.Update(d); }
    }

    // The digest files, or an early fatal exit when one cannot be written.
    method WriteFiles(wantXxh: bool, wantSha: bool, xxhFails: bool, shaFails: bool, ghost stream: bytes)
      returns (ok: bool, xxhFile: File<Word64>, shaFile: File<bytes>)
      requires Of(wantXxh, wantSha, stream)
      ensures xxhFile.Holds? ==> XxhOf(xxhFile.content, stream)
      ensures shaFile.Holds? ==> shaFile.content == Fips180.Sha256(stream)
      ensures ok <==> !(wantXxh && xxhFails) && !(wantSha && shaFails)
      ensures xxhFile.Holds? <==> wantXxh && !xxhFails
      ensures shaFile.Holds? <==> wantSha && !shaFails && !(wantXxh && xxhFails)
    {
      ok, xxhFile, shaFile := false, NotWritten, NotWritten;
      if wantXxh {
        if xxhFails { return; }
        var x := xxh.Digest();
        xxhFile := Holds(x);
      }
      if wantSha {
        if shaFails { return; }
        var d := sha.Digest();
        shaFile := Holds(d);
      }
      ok := true;
    }
  }

  // One chunk: hashed, waited for, and handed to every target.
  method Copy(ts: seq<Target>, d: bytes, cap: nat, m: Machine, stall: int,
              wantXxh: bool, wantSha: bool, digests: Digests, ghost stream: bytes)
    requires Apart(ts) && AllDeliver(ts, stream, m.now, stall) && NoInternalError(ts) && Caps(ts, cap)
    requires |d| <= cap && stall > 0
    requires digests.Of(wantXxh, wantSha, stream) && forall t | t in ts :: t.mem !in digests.Repr()
    modifies ts, set t | t in ts :: t.mem, m, digests.Repr()
    ensures AllDeliver(ts, stream + d, m.now, stall) && NoInternalError(ts) && digests.Of(wantXxh, wantSha, stream + d)
  {
    hide Target.Delivers, Digests.Of;
    digests.Update(d, wantXxh, wantSha, stream);
    MakeRoom(ts, |d|, m, stall, stream);
    Dispatch(ts, d, m, stall, stream);
  }

  datatype Stop = AtEof | NobodyLeft | Broken

  // The reading loop. `sent` is the stream dispatched so far.
  method Pump(ts: seq<Target>, input: Stdin, chunk: nat, cap: nat, m: Machine, stall: int,
              wantXxh: bool, wantSha: bool, digests: Digests) returns (stop: Stop, got: nat, ghost sent: bytes)
    requires Apart(ts) && AllDeliver(ts, [], m.now, stall) && NoInternalError(ts) && Caps(ts, cap)
    requires 0 < chunk <= cap && stall > 0
    requires digests.Of(wantXxh, wantSha, []) && forall t | t in ts :: t.mem !in digests.Repr()
    requires !input.failed && !input.ended
    modifies ts, set t | t in ts :: t.mem, input, m, digests.Repr()
    ensures AllDeliver(ts, sent, m.now, stall) && NoInternalError(ts) && digests.Of(wantXxh, wantSha, sent)
    ensures sent + input.rest == old(input.rest) && got == |sent|
    ensures stop.AtEof? ==> input.rest == []
    ensures stop.NobodyLeft? <==> Nobody(ts)
    ensures old(Nobody(ts)) ==> input.rest == old(input.rest) && stop.NobodyLeft?
    ensures (stop.Broken? <==> input.failed) && (stop.AtEof? <==> input.ended)
  {
    hide AllDeliver, Digests.Of, NoInternalError, Caps, Nobody;
    got, sent := 0, [];
    ghost var nobody := Nobody(ts);
    while true
      invariant nobody ==> Nobody(ts) && input.rest == old(input.rest)
      invariant AllDeliver(ts, sent, m.now, stall) && NoInternalError(ts) && digests.Of(wantXxh, wantSha, sent)
      invariant sent + input.rest == old(input.rest) && got == |sent| && !input.failed && !input.ended
      decreases |input.rest|, m.signals
    {
      var n := AliveCount(ts);
      if n == 0 { return NobodyLeft, got, sent; }
      var g := input.Read(chunk, m);
      match g {
        case Eof => return AtEof, got, sent;
        case ReadInterrupted => continue;
        case ReadFailed => return Broken, got, sent;
        case Data(d) =>
          got := got + |d|;
          Copy(ts, d, cap, m, stall, wantXxh, wantSha, digests, sent);
          sent := sent + d;
      }
    }
  }

  // fsync and close, and the line printed for each target.
  method Verdicts(ts: seq<Target>) returns (lines: seq<Status>)
    requires Apart(ts) && forall t | t in ts :: t.Valid() && !t.fsyncBad && !t.closeBad
    modifies ts`status, ts`buf, ts`fsyncBad, ts`closeBad
    ensures |lines| == |ts|
    ensures forall i | 0 <= i < |ts| ::
      lines[i] == ts[i].status == if old(ts[i].status.Failed?) then old(ts[i].status)
                                  else if ts[i].fsyncBad then Failed(FsyncFailed)
                                  else if ts[i].closeBad then Failed(CloseFailed)
                                  else Alive
  {
    lines := [];
    for i := 0 to |ts|
      invariant |lines| == i
      invariant forall j | 0 <= j < i ::
        lines[j] == ts[j].status == if old(ts[j].status.Failed?) then old(ts[j].status)
                                    else if ts[j].fsyncBad then Failed(FsyncFailed)
                                    else if ts[j].closeBad then Failed(CloseFailed)
                                    else Alive
      invariant forall j | i <= j < |ts| :: unchanged(ts[j])
    {
      var line := ts[i].Conclude();
      lines := lines + [line];
    }
  }

  method FailAll(ts: seq<Target>, reason: Reason)
    requires forall t | t in ts :: t.Valid()
    modifies ts`status, ts`buf
    ensures forall t | t in ts :: t.Valid()
    ensures forall t | t in ts :: t.status == if old(t.status.Alive?) then Failed(reason) else old(t.status)
  {
    for i := 0 to |ts|
      invariant forall t | t in ts :: t.Valid()
      invariant forall j | 0 <= j < i ::
        ts[j].status == if old(ts[j].status.Alive?) then Failed(reason) else old(ts[j].status)
      invariant forall t | t in ts ::
        unchanged(t) || t.status == if old(t.status.Alive?) then Failed(reason) else old(t.status)
    {
      ts[i].Fail(reason);
    }
  }

  // What is on disk under a digest's path when the program ends.
  datatype File<T> = NotWritten | Holds(content: T)

  // Opens every target; one that could not be opened starts out failed.
  method OpenAll(cap: nat, paths: seq<Status>, m: Machine, ghost stall: int) returns (ts: seq<Target>)
    requires cap > 0 && stall > 0 && forall p | p in paths :: p.Failed? ==> p.reason in {NoReader, CouldNotOpen}
    modifies m`now
    ensures |ts| == |paths| && Apart(ts) && AllDeliver(ts, [], m.now, stall) && NoInternalError(ts) && Caps(ts, cap)
    ensures forall t | t in ts :: fresh(t) && fresh(t.mem)
    ensures forall i | 0 <= i < |ts| :: ts[i].atOpen == paths[i]
    ensures (forall p | p in paths :: p.Failed?) ==> Nobody(ts)
  {
    ts := [];
    for i := 0 to |paths|
      invariant |ts| == i && Apart(ts) && AllDeliver(ts, [], m.now, stall) && NoInternalError(ts) && Caps(ts, cap)
      invariant forall t | t in ts :: fresh(t) && fresh(t.mem)
      invariant forall j | 0 <= j < i :: ts[j].atOpen == paths[j]
    {
      var t := new Target(cap, paths[i], m, stall);
      ts := ts + [t];
    }
  }

  // What the length check leaves of a target's status.
  function Measured(s: Status, got: nat, expected: nat): Status {
    if s.Failed? then s
    else if expected > 0 && got != expected then Failed(WrongLength)
    else if expected == 0 && got == 0 then Failed(EmptyStream)
    else Alive
  }

  // The length is checked before any target may be called ok.
  method CheckLength(ts: seq<Target>, got: nat, expected: nat)
    requires forall t | t in ts :: t.Valid()
    modifies ts`status, ts`buf
    ensures forall t | t in ts :: t.Valid() && t.status == Measured(old(t.status), got, expected)
  {
    var n := AliveCount(ts);
    if n > 0 {
      if expected > 0 && got != expected {
        FailAll(ts, WrongLength);
      } else if expected == 0 && got == 0 {
        FailAll(ts, EmptyStream);
      }
    }
  }

  // "ok" is said only of a target that took the whole, non-empty stream, of the expected length if
  // one is known; a failed target has a prefix of it, and never for a queue overrun.
  ghost predicate Honest(line: Status, took: bytes, stdin: bytes, expected: nat) {
    if line.Alive? then took == stdin != [] && expected in {0, |stdin|}
    else took <= stdin && line != Failed(QueueInvariant)
  }

  method ExitCode(lines: seq<Status>) returns (exit: nat)
    ensures exit == if forall l | l in lines :: l.Alive? then 0 else 1
  {
    exit := 0;
    for i := 0 to |lines|
      invariant exit == if forall j | 0 <= j < i :: lines[j].Alive? then 0 else 1
    {
      if !lines[i].Alive? { exit := 1; }
    }
  }

  // The drained targets: check the length, print the verdicts.
  method Conclude(ts: seq<Target>, got: nat, expected: nat, ghost now: int, ghost stall: int, ghost stream: bytes)
    returns (exit: nat, lines: seq<Status>)
    requires Apart(ts) && AllDeliver(ts, stream, now, stall) && NoInternalError(ts) && got == |stream|
    requires forall t | t in ts && t.status.Alive? :: t.accepted == stream
    modifies ts`status, ts`buf, ts`fsyncBad, ts`closeBad
    ensures |lines| == |ts| && exit == if forall l | l in lines :: l.Alive? then 0 else 1
    ensures forall i | 0 <= i < |ts| :: lines[i] == Verdict(ts[i].History(), stall, got, expected)
    ensures forall i | 0 <= i < |ts| :: Honest(lines[i], ts[i].accepted, stream, expected)
  {
    hide Target.Delivers, Target.Valid, Verdict, Running, Measured, AllDeliver, NoInternalError, Honest;
    Prefixes(ts, stream, now, stall);
    assert forall i | 0 <= i < |ts| :: ts[i] in ts;
    CheckLength(ts, got, expected);
    lines := Verdicts(ts);
    forall i | 0 <= i < |ts|
      ensures lines[i] == Verdict(ts[i].History(), stall, got, expected)
      ensures Honest(lines[i], ts[i].accepted, stream, expected)
    {
      VerdictSteps(old(ts[i].History()), ts[i].fsyncBad, ts[i].closeBad, stall, got, expected);
      IsHonest(old(ts[i].status), lines[i], ts[i].accepted, stream, got, expected);
    }
    exit := ExitCode(lines);
  }

  lemma VerdictSteps(e: Evidence, fsyncBad: bool, closeBad: bool, stall: int, got: nat, expected: nat)
    requires !e.fsyncBad && !e.closeBad
    ensures var s := Measured(Running(e, stall), got, expected);
      Verdict(e.(fsyncBad := fsyncBad, closeBad := closeBad), stall, got, expected) ==
      if s.Failed? then s else if fsyncBad then Failed(FsyncFailed) else if closeBad then Failed(CloseFailed) else Alive
  { }

  lemma IsHonest(was: Status, line: Status, took: bytes, stream: bytes, got: nat, expected: nat)
    requires took <= stream && got == |stream| && (was.Alive? ==> took == stream) && was != Failed(QueueInvariant)
    requires line.Alive? ==> Measured(was, got, expected).Alive?
    requires line.Failed? ==> line == Measured(was, got, expected) || line.reason in {FsyncFailed, CloseFailed}
    ensures Honest(line, took, stream, expected)
  { }

  lemma Prefixes(ts: seq<Target>, stream: bytes, now: int, stall: int)
    requires AllDeliver(ts, stream, now, stall) && NoInternalError(ts)
    ensures forall t | t in ts ::
      && t.Valid() && t.accepted <= stream && t.status != Failed(QueueInvariant)
      && t.status == Running(t.History(), stall) && !t.fsyncBad && !t.closeBad
  { }

  // After the last chunk: drain every live ring, check the length, print the verdicts.
  method Finish(ts: seq<Target>, cap: nat, got: nat, expected: nat, m: Machine, stall: int, ghost stream: bytes)
    returns (exit: nat, lines: seq<Status>)
    requires Apart(ts) && AllDeliver(ts, stream, m.now, stall) && NoInternalError(ts) && Caps(ts, cap) && stall > 0
    requires got == |stream|
    modifies ts, m
    ensures |lines| == |ts| && exit == if forall l | l in lines :: l.Alive? then 0 else 1
    ensures forall i | 0 <= i < |ts| :: lines[i] == Verdict(ts[i].History(), stall, got, expected)
    ensures forall i | 0 <= i < |ts| :: Honest(lines[i], ts[i].accepted, stream, expected)
    ensures forall i | 0 <= i < |ts| && !old(ts[i].status.Alive?) :: Running(ts[i].History(), stall).Failed?
  {
    hide Verdict, Honest;
    MakeRoom(ts, cap, m, stall, stream);
    assert forall t | t in ts && t.status.Alive? :: t.accepted == stream;
    assert forall i | 0 <= i < |ts| :: ts[i] in ts;
    label drained:
    assert forall i | 0 <= i < |ts| && !old(ts[i].status.Alive?) :: Running(ts[i].History(), stall).Failed?;
    exit, lines := Conclude(ts, got, expected, m.now, stall, stream);
    forall i | 0 <= i < |ts| && !old(ts[i].status.Alive?) ensures Running(ts[i].History(), stall).Failed? {
      assert old@drained(Running(ts[i].History(), stall)).Failed?;
    }
  }

  // Everything after the targets are open; exit code 2 prints no verdict.
  method RunTargets(ts: seq<Target>, input: Stdin, chunk: nat, cap: nat, m: Machine, stall: int, expected: nat,
                    wantXxh: bool, wantSha: bool, xxhFails: bool, shaFails: bool)
    returns (exit: nat, lines: seq<Status>, xxhFile: File<Word64>, shaFile: File<bytes>)
    requires Apart(ts) && AllDeliver(ts, [], m.now, stall) && NoInternalError(ts) && Caps(ts, cap)
    requires 0 < chunk <= cap && stall > 0 && !input.failed && !input.ended
    modifies ts, set t | t in ts :: t.mem, input, m
    ensures exit == 2 <==> input.failed || (input.ended && ((wantXxh && xxhFails) || (wantSha && shaFails)))
    ensures exit == 2 ==> lines == []
    ensures !input.ended && !input.failed ==> forall l | l in lines :: l.Failed?
    ensures old(Nobody(ts)) ==> input.rest == old(input.rest) && !input.ended && !input.failed
    ensures exit != 2 ==> |lines| == |ts| && exit == if forall l | l in lines :: l.Alive? then 0 else 1
    ensures forall i | 0 <= i < |lines| :: Honest(lines[i], ts[i].accepted, old(input.rest), expected)
    ensures forall i | 0 <= i < |lines| :: lines[i] == Verdict(ts[i].History(), stall, |old(input.rest)|, expected)
    ensures xxhFile.Holds? <==> wantXxh && input.ended && !xxhFails
    ensures shaFile.Holds? <==> wantSha && input.ended && !shaFails && !(wantXxh && xxhFails)
    ensures xxhFile.Holds? ==> XxhOf(xxhFile.content, old(input.rest))
    ensures shaFile.Holds? ==> shaFile.content == Fips180.Sha256(old(input.rest))
  {
    hide Digests.Of, Apart, AllDeliver, Caps, NoInternalError, XxhOf, Fips180.Sha256;
    exit, lines, xxhFile, shaFile := 2, [], NotWritten, NotWritten;
    var digests := new Digests(wantXxh, wantSha);
    var stop, got, sent := Pump(ts, input, chunk, cap, m, stall, wantXxh, wantSha, digests);
    if stop.Broken? { return; }
    if stop.AtEof? {
      assert sent == old(input.rest);
      var ok;
      ok, xxhFile, shaFile := digests.WriteFiles(wantXxh, wantSha, xxhFails, shaFails, sent);
      if !ok { return; }
    }
    label pumped:
    exit, lines := Finish(ts, cap, got, expected, m, stall, sent);
    assert forall i | 0 <= i < |ts| :: ts[i] in ts;
  }

  // The whole program. `lines` is what it prints, one status per target, `taken` what each target's
  // descriptor accepted, and `history` what happened to it.
  method FanOut(bufferBytes: int, chunkBytes: int, paths: seq<Status>, input: Stdin, m: Machine,
                stall: int, expected: nat, wantXxh: bool, wantSha: bool, xxhFails: bool, shaFails: bool)
    returns (exit: nat, lines: seq<Status>, xxhFile: File<Word64>, shaFile: File<bytes>,
             ghost taken: seq<bytes>, ghost history: seq<Evidence>)
    requires forall p | p in paths :: p.Failed? ==> p.reason in {NoReader, CouldNotOpen}
    requires stall > 0 && !input.failed && !input.ended
    modifies input, m
    ensures var usage := paths == [] || |paths| > 8 || bufferBytes < 0x10_0000;
      exit == 2 <==> usage || input.failed || (input.ended && ((wantXxh && xxhFails) || (wantSha && shaFails)))
    ensures exit == 2 ==> lines == []
    ensures !input.ended && !input.failed ==> forall l | l in lines :: l.Failed?
    ensures (forall p | p in paths :: p.Failed?) ==> input.rest == old(input.rest) && !input.ended && !input.failed
    ensures exit != 2 ==> |lines| == |paths| && exit == if forall l | l in lines :: l.Alive? then 0 else 1
    ensures |taken| == |history| == |lines|
    ensures forall i | 0 <= i < |lines| :: Honest(lines[i], taken[i], old(input.rest), expected)
    ensures forall i | 0 <= i < |lines| ::
      history[i].atOpen == paths[i] && lines[i] == Verdict(history[i], stall, |old(input.rest)|, expected)
    ensures xxhFile.Holds? <==> wantXxh && input.ended && !xxhFails
    ensures shaFile.Holds? <==> wantSha && input.ended && !shaFails && !(wantXxh && xxhFails)
    ensures xxhFile.Holds? ==> XxhOf(xxhFile.content, old(input.rest))
    ensures shaFile.Holds? ==> shaFile.content == Fips180.Sha256(old(input.rest))
  {
    hide Apart, AllDeliver, Caps, NoInternalError, Nobody, Honest, XxhOf, Fips180.Sha256, Verdict;
    exit, lines, xxhFile, shaFile, taken, history := 2, [], NotWritten, NotWritten, [], [];
    if paths == [] || bufferBytes < READ_CHUNK || |paths| > MAX_TARGETS { return; }
    var chunk := if chunkBytes < READ_CHUNK || chunkBytes > bufferBytes then READ_CHUNK else chunkBytes;
    var ts := OpenAll(bufferBytes, paths, m, stall);
    assert forall t | t in ts :: fresh(t) && fresh(t.mem);
    exit, lines, xxhFile, shaFile :=
      RunTargets(ts, input, chunk, bufferBytes, m, stall, expected, wantXxh, wantSha, xxhFails, shaFails);
    taken := seq(|lines|, i requires 0 <= i < |lines| reads ts => ts[i].accepted);
    history := seq(|lines|, i requires 0 <= i < |lines| reads ts => ts[i].History());
  }
}
