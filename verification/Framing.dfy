/** Length-prefixed messages over a byte stream that is cut anywhere. */
module Framing {
  import opened Base

  const MAX_MESSAGE := 65536  // 64 << 10

  type u32 = x: int | 0 <= x < 0x1_0000_0000

  function Be32(v: u32): (b: bytes)
    ensures |b| == 4
  {
    [v / 0x100_0000, v / 0x1_0000 % 256, v / 256 % 256, v % 256]
  }

  function FromBe32(b: bytes): u32
    requires |b| == 4
  {
    var b0: int, b1: int, b2: int := b[0], b[1], b[2];
    b0 * 0x100_0000 + b1 * 0x1_0000 + b2 * 256 + b[3]
  }

  lemma Be32RoundTrip(v: u32)
    ensures FromBe32(Be32(v)) == v
  {
    var h, m, l := v / 0x100_0000, v / 0x1_0000, v / 256;
    assert m / 256 == h && l / 256 == m;
  }

  function Frame(payload: bytes): bytes
    requires |payload| <= MAX_MESSAGE
  {
    Be32(|payload|) + payload
  }

  predicate Sendable(msgs: seq<bytes>) {
    forall i :: 0 <= i < |msgs| ==> |msgs[i]| <= MAX_MESSAGE
  }

  function Frames(msgs: seq<bytes>): bytes
    requires Sendable(msgs)
  {
    if msgs == [] then [] else Frame(msgs[0]) + Frames(msgs[1..])
  }

  datatype Read = Read(payload: bytes, rest: bytes)

  /** One message off the front of what is left of a stream, if it is all there. */
  function ReadFrame(s: bytes): Option<Read> {
    if |s| < 4 then None
    else
      var n := FromBe32(s[..4]);
      if n > MAX_MESSAGE || |s| < 4 + n then None else Some(Read(s[4..4 + n], s[4 + n..]))
  }

  /** Messages read until one cannot be. */
  function ReadAll(s: bytes): seq<bytes>
    decreases |s|
  {
    match ReadFrame(s)
    case None => []
    case Some(r) => [r.payload] + ReadAll(r.rest)
  }

  // ----- on the wire

  /** The number four bytes spell, most significant first. */
  function Announced(s: bytes): nat
    requires |s| >= 4
  {
    var b0: int, b1: int, b2: int := s[0], s[1], s[2];
    16777216 * b0 + 65536 * b1 + 256 * b2 + s[3]
  }

  /** A frame announces the length of what follows it, and that is all there is to it. */
  lemma FrameOnTheWire(payload: bytes)
    requires |payload| <= 65536
    ensures var f := Frame(payload); |f| == 4 + |payload| && Announced(f) == |payload| && f[4..] == payload
  {
    Be32RoundTrip(|payload|);
    assert Frame(payload)[..4] == Be32(|payload|);
    assert FromBe32(Frame(payload)[..4]) == Announced(Frame(payload));
  }

  /** What a reader takes off a stream: as many bytes after the first four as those announce, if that is no more
      than 64 KiB and they are there. */
  lemma ReadOffTheWire(s: bytes)
    ensures ReadFrame(s).Some? <==> |s| >= 4 && Announced(s) <= 65536 && |s| >= 4 + Announced(s)
    ensures ReadFrame(s).Some? ==>
      var n := Announced(s);
      ReadFrame(s).value.payload == s[4..4 + n] && ReadFrame(s).value.rest == s[4 + n..]
  {
    if |s| >= 4 {
      assert FromBe32(s[..4]) == Announced(s);
    }
  }

  // ----- as it runs

  /** The stream between the two ends: what has been written and not yet read. */
  class Pipe {
    const steady: bool  // no write fails
    var data: bytes

    constructor (steady: bool)
      ensures data == [] && this.steady == steady
    {
      this.steady, data := steady, [];
    }

    /** A write that fails may have delivered part of its bytes. */
    method Write(b: bytes) returns (ok: bool)
      modifies this
      ensures ok ==> data == old(data) + b
      ensures old(data) <= data <= old(data) + b
      ensures steady ==> ok
    {
      ok := *;
      ok := ok || steady;
      if ok {
        data := data + b;
      } else {
        var n: nat :| n <= |b|;
        data := data + b[..n];
      }
    }

    /** Some of what is there, at most `k` bytes; nothing only at the end of the stream. */
    method ReadSome(k: nat) returns (b: bytes)
      requires k > 0
      modifies this
      ensures old(data) == b + data && |b| <= k
      ensures old(data) != [] ==> b != []
    {
      if data == [] {
        return [];
      }
      var n: nat :| 0 < n <= k && n <= |data|;
      b := data[..n];
      data := data[n..];
    }

    /** io.ReadFull: exactly `k` bytes, however they arrive, or an error at the end of the stream. */
    method ReadFull(k: nat) returns (b: Option<bytes>)
      modifies this
      ensures b.Some? <==> |old(data)| >= k
      ensures b.Some? ==> b.value == old(data)[..k] && data == old(data)[k..]
    {
      var buf := [];
      while |buf| < k
        invariant |buf| <= k && buf + data == old(data)
        decreases k - |buf|
      {
        var chunk := ReadSome(k - |buf|);
        if chunk == [] {
          return None;
        }
        buf := buf + chunk;
      }
      return Some(buf);
    }
  }

  /** Two writes, header then body; an oversized payload writes neither. */
  method WriteMsg(w: Pipe, payload: bytes) returns (ok: bool)
    modifies w
    ensures |payload| > MAX_MESSAGE ==> !ok && w.data == old(w.data)
    ensures ok ==> |payload| <= MAX_MESSAGE && w.data == old(w.data) + Frame(payload)
    ensures |payload| <= MAX_MESSAGE ==> old(w.data) <= w.data <= old(w.data) + Frame(payload)
    ensures w.steady ==> (ok <==> |payload| <= MAX_MESSAGE)
  {
    if |payload| > MAX_MESSAGE {
      return false;
    }
    ok := w.Write(Be32(|payload|));
    if !ok {
      return;
    }
    ok := w.Write(payload);
  }

  method ReadMsg(r: Pipe) returns (msg: Option<bytes>)
    modifies r
    ensures msg.Some? <==> ReadFrame(old(r.data)).Some?
    ensures msg.Some? ==> ReadFrame(old(r.data)) == Some(Read(msg.value, r.data))
  {
    var hdr := r.ReadFull(4);
    if hdr.None? {
      return None;
    }
    var n := FromBe32(hdr.value);
    if n > MAX_MESSAGE {
      return None;
    }
    msg := r.ReadFull(n);
    if msg.Some? {
      assert old(r.data)[4..][..n] == old(r.data)[4..4 + n];
      assert old(r.data)[4..][n..] == old(r.data)[4 + n..];
    }
  }

  // ----- the round trip

  lemma ReadOwnFrame(payload: bytes, rest: bytes)
    requires |payload| <= MAX_MESSAGE
    ensures ReadFrame(Frame(payload) + rest) == Some(Read(payload, rest))
  {
    var s := Frame(payload) + rest;
    Be32RoundTrip(|payload|);
    assert s[..4] == Be32(|payload|);
    assert s[4..4 + |payload|] == payload && s[4 + |payload|..] == rest;
  }

  lemma ReadAllStep(payload: bytes, rest: bytes)
    requires |payload| <= MAX_MESSAGE
    ensures ReadAll(Frame(payload) + rest) == [payload] + ReadAll(rest)
  {
    ReadOwnFrame(payload, rest);
  }

  lemma FramesSplit(msgs: seq<bytes>, rest: bytes)
    requires Sendable(msgs) && msgs != []
    ensures Frames(msgs) + rest == Frame(msgs[0]) + (Frames(msgs[1..]) + rest)
  {}

  lemma FirstThenRest(msgs: seq<bytes>, more: seq<bytes>)
    requires msgs != []
    ensures [msgs[0]] + (msgs[1..] + more) == msgs + more
  {}

  /** The first `k` messages of a stream that starts with their frames, and then whatever follows. */
  lemma {:induction false} ReadAllFrames(msgs: seq<bytes>, rest: bytes)
    requires Sendable(msgs)
    ensures ReadAll(Frames(msgs) + rest) == msgs + ReadAll(rest)
    decreases |msgs|
  {
    if msgs == [] {
      assert Frames(msgs) + rest == rest && msgs + ReadAll(rest) == ReadAll(rest);
    } else {
      FramesSplit(msgs, rest);
      ReadAllStep(msgs[0], Frames(msgs[1..]) + rest);
      ReadAllFrames(msgs[1..], rest);
      FirstThenRest(msgs, ReadAll(rest));
    }
  }

  /** Part of a frame is not a message. */
  lemma PartialFrame(payload: bytes, n: nat)
    requires |payload| <= MAX_MESSAGE && n < |Frame(payload)|
    ensures ReadAll(Frame(payload)[..n]) == []
  {
    var s := Frame(payload)[..n];
    if n >= 4 {
      Be32RoundTrip(|payload|);
      assert s[..4] == Be32(|payload|);
    }
  }

  lemma {:induction false} FramesAppend(a: seq<bytes>, b: seq<bytes>)
    requires Sendable(a) && Sendable(b)
    ensures Sendable(a + b) && Frames(a + b) == Frames(a) + Frames(b)
    decreases |a|
  {
    if a == [] {
      assert a + b == b;
    } else {
      FramesAppend(a[1..], b);
      assert (a + b)[1..] == a[1..] + b && (a + b)[0] == a[0];
      assert Frames(a + b) == Frame(a[0]) + (Frames(a[1..]) + Frames(b));
    }
  }

  /** A stream cut anywhere still yields every message whose frame is complete, and no other. */
  lemma TruncatedStream(msgs: seq<bytes>, k: nat, n: nat)
    requires Sendable(msgs) && k < |msgs| && n < |Frame(msgs[k])|
    ensures |Frames(msgs[..k])| + n <= |Frames(msgs)|
    ensures ReadAll(Frames(msgs)[..|Frames(msgs[..k])| + n]) == msgs[..k]
  {
    var a, b := msgs[..k], msgs[k..];
    assert msgs == a + b;
    FramesAppend(a, b);
    var cut := Frames(msgs)[..|Frames(a)| + n];
    assert Frames(b) == Frame(msgs[k]) + Frames(b[1..]);
    assert cut == Frames(a) + Frame(msgs[k])[..n];
    ReadAllFrames(a, Frame(msgs[k])[..n]);
    PartialFrame(msgs[k], n);
    assert a + [] == a;
  }

  /** The whole stream, read to its end. */
  lemma {:induction false} WholeStream(msgs: seq<bytes>)
    requires Sendable(msgs)
    ensures ReadAll(Frames(msgs)) == msgs
  {
    ReadAllFrames(msgs, []);
    assert Frames(msgs) + [] == Frames(msgs) && msgs + [] == msgs;
  }

  // ----- a whole conversation in one direction

  /** Messages sent one after another until one is refused or a write fails; `sent` were reported written. */
  method SendAll(w: Pipe, msgs: seq<bytes>) returns (sent: nat, ghost cut: nat)
    requires w.data == []
    modifies w
    ensures sent <= |msgs| && Sendable(msgs[..sent])
    ensures sent == |msgs| || |msgs[sent]| > MAX_MESSAGE ==> w.data == Frames(msgs[..sent])
    ensures sent < |msgs| && |msgs[sent]| <= MAX_MESSAGE ==>
      !w.steady && cut <= |Frame(msgs[sent])| && w.data == Frames(msgs[..sent]) + Frame(msgs[sent])[..cut]
  {
    sent, cut := 0, 0;
    while sent < |msgs|
      invariant sent <= |msgs| && Sendable(msgs[..sent]) && w.data == Frames(msgs[..sent])
    {
      var ok := WriteMsg(w, msgs[sent]);
      if !ok {
        if |msgs[sent]| <= MAX_MESSAGE {
          cut := |w.data| - |Frames(msgs[..sent])|;
          assert w.data == (Frames(msgs[..sent]) + Frame(msgs[sent]))[..|w.data|];
        }
        return;
      }
      FramesSnoc(msgs, sent);
      sent := sent + 1;
    }
  }

  lemma FramesSnoc(msgs: seq<bytes>, k: nat)
    requires k < |msgs| && Sendable(msgs[..k]) && |msgs[k]| <= MAX_MESSAGE
    ensures Sendable(msgs[..k + 1]) && Frames(msgs[..k + 1]) == Frames(msgs[..k]) + Frame(msgs[k])
  {
    assert msgs[..k + 1] == msgs[..k] + [msgs[k]];
    FramesAppend(msgs[..k], [msgs[k]]);
    assert Frames([msgs[k]]) == Frame(msgs[k]);
  }

  /** ReadMsg until it fails. */
  method ReceiveAll(r: Pipe) returns (got: seq<bytes>)
    modifies r
    ensures got == ReadAll(old(r.data))
  {
    got := [];
    while true
      invariant got + ReadAll(r.data) == ReadAll(old(r.data))
      decreases |r.data|
    {
      ghost var before := r.data;
      var msg := ReadMsg(r);
      if msg.None? {
        assert got + [] == got;
        return;
      }
      assert got + ([msg.value] + ReadAll(r.data)) == got + [msg.value] + ReadAll(r.data);
      got := got + [msg.value];
    }
  }

  /** Sent with WriteMsg and read with ReadMsg, the messages come back in order: all of them when every
      write went through, and otherwise all that were reported written and at most the one that was not. Where
      no write fails, that is everything up to the first message that is too long. */
  method Transmit(msgs: seq<bytes>, steady: bool) returns (sent: nat, got: seq<bytes>)
    ensures sent <= |msgs| && (sent == |msgs| ==> got == msgs)
    ensures sent < |msgs| ==> got == msgs[..sent] || (|msgs[sent]| <= 65536 && got == msgs[..sent + 1])
    ensures forall i :: 0 <= i < sent ==> |msgs[i]| <= 65536
    ensures steady ==> got == msgs[..sent] && (sent < |msgs| ==> |msgs[sent]| > 65536)
  {
    var pipe := new Pipe(steady);
    ghost var cut;
    sent, cut := SendAll(pipe, msgs);
    forall i | 0 <= i < sent ensures |msgs[i]| <= 65536 {
      assert msgs[..sent][i] == msgs[i];
    }
    if sent == |msgs| || |msgs[sent]| > MAX_MESSAGE {
      WholeStream(msgs[..sent]);
      assert sent == |msgs| ==> msgs[..sent] == msgs;
    } else if cut < |Frame(msgs[sent])| {
      ReadAllFrames(msgs[..sent], Frame(msgs[sent])[..cut]);
      PartialFrame(msgs[sent], cut);
      assert msgs[..sent] + [] == msgs[..sent];
    } else {
      FramesSnoc(msgs, sent);
      assert Frame(msgs[sent])[..cut] == Frame(msgs[sent]);
      WholeStream(msgs[..sent + 1]);
    }
    got := ReceiveAll(pipe);
  }

  // ----- two writers on one stream

  /** What a sender encodes: never empty, and no JSON text starts with a zero byte. */
  predicate IsText(m: bytes) {
    0 < |m| <= MAX_MESSAGE && m[0] != 0
  }

  predicate AllText(msgs: seq<bytes>) {
    forall i :: 0 <= i < |msgs| ==> IsText(msgs[i])
  }

  /** The writes one sender makes: a header and a body for each message. */
  function Writes(msgs: seq<bytes>): (r: seq<bytes>)
    requires AllText(msgs)
    ensures |r| == 2 * |msgs|
  {
    if msgs == [] then [] else [Be32(|msgs[0]|), msgs[0]] + Writes(msgs[1..])
  }

  /** Whose turn it is, write by write, until both have written everything; `true` is the first sender. */
  predicate Schedules(sched: seq<bool>, a: seq<bytes>, b: seq<bytes>) {
    if sched == [] then a == [] && b == []
    else if sched[0] then a != [] && Schedules(sched[1..], a[1..], b)
    else b != [] && Schedules(sched[1..], a, b[1..])
  }

  /** The stream two senders produce together. */
  function Woven(a: seq<bytes>, b: seq<bytes>, sched: seq<bool>): bytes
    requires Schedules(sched, a, b)
  {
    if sched == [] then []
    else if sched[0] then a[0] + Woven(a[1..], b, sched[1..])
    else b[0] + Woven(a, b[1..], sched[1..])
  }

  /** Every header is followed at once by its own body. */
  predicate Unbroken(sched: seq<bool>) {
    sched == [] || (|sched| >= 2 && sched[0] == sched[1] && Unbroken(sched[2..]))
  }

  lemma Regroup(x: bytes, y: bytes, z: bytes)
    ensures x + (y + z) == x + y + z
  {}

  /** Two writes of the first sender, and the rest. */
  lemma FirstWritesTwo(a: seq<bytes>, b: seq<bytes>, sched: seq<bool>)
    requires Schedules(sched, a, b) && |sched| >= 2 && sched[0] && sched[1]
    ensures |a| >= 2 && Schedules(sched[2..], a[2..], b)
    ensures Woven(a, b, sched) == a[0] + a[1] + Woven(a[2..], b, sched[2..])
  {
    assert sched[1..][1..] == sched[2..] && a[1..][1..] == a[2..];
    Regroup(a[0], a[1], Woven(a[2..], b, sched[2..]));
  }

  /** Two writes of the second sender, and the rest. */
  lemma SecondWritesTwo(a: seq<bytes>, b: seq<bytes>, sched: seq<bool>)
    requires Schedules(sched, a, b) && |sched| >= 2 && !sched[0] && !sched[1]
    ensures |b| >= 2 && Schedules(sched[2..], a, b[2..])
    ensures Woven(a, b, sched) == b[0] + b[1] + Woven(a, b[2..], sched[2..])
  {
    assert sched[1..][1..] == sched[2..] && b[1..][1..] == b[2..];
    Regroup(b[0], b[1], Woven(a, b[2..], sched[2..]));
  }

  /** One write of each sender, and the rest. */
  lemma EachWritesOne(a: seq<bytes>, b: seq<bytes>, sched: seq<bool>)
    requires Schedules(sched, a, b) && |sched| >= 2 && sched[0] != sched[1]
    ensures a != [] && b != [] && Schedules(sched[2..], a[1..], b[1..])
    ensures var rest := Woven(a[1..], b[1..], sched[2..]);
            Woven(a, b, sched) == if sched[0] then a[0] + b[0] + rest else b[0] + a[0] + rest
  {
    assert sched[1..][1..] == sched[2..];
    Regroup(a[0], b[0], Woven(a[1..], b[1..], sched[2..]));
    Regroup(b[0], a[0], Woven(a[1..], b[1..], sched[2..]));
  }

  lemma {:induction false} EveryWriteHasATurn(sched: seq<bool>, a: seq<bytes>, b: seq<bytes>)
    requires Schedules(sched, a, b)
    ensures |sched| == |a| + |b|
  {
    if sched != [] {
      EveryWriteHasATurn(sched[1..], if sched[0] then a[1..] else a, if sched[0] then b else b[1..]);
    }
  }

  /** What a sender has still to write is still to come. */
  lemma {:induction false} StillToCome(a: seq<bytes>, b: seq<bytes>, sched: seq<bool>)
    requires Schedules(sched, a, b)
    ensures a != [] ==> |Woven(a, b, sched)| >= |a[0]|
    ensures b != [] ==> |Woven(a, b, sched)| >= |b[0]|
  {
    if sched != [] {
      if sched[0] {
        StillToCome(a[1..], b, sched[1..]);
      } else {
        StillToCome(a, b[1..], sched[1..]);
      }
    }
  }

  /** A header where a body should be is read as that body: a payload that starts with a zero byte. */
  lemma HeaderReadAsBody(x: nat, y: nat, rest: bytes)
    requires 0 < x <= MAX_MESSAGE && y <= MAX_MESSAGE && |rest| >= x
    ensures var r := ReadAll(Be32(x) + Be32(y) + rest);
            r != [] && !IsText(r[0])
  {
    var s := Be32(x) + Be32(y) + rest;
    Be32RoundTrip(x);
    assert s[..4] == Be32(x) && s[4] == Be32(y)[0] == 0;
  }

  lemma WritesOfText(msgs: seq<bytes>)
    requires AllText(msgs) && msgs != []
    ensures var w := Writes(msgs);
            && w[0] == Be32(|msgs[0]|) && w[0] + w[1] == Frame(msgs[0]) && w[1] == msgs[0]
            && w[2..] == Writes(msgs[1..])
  {}

  /** The head of an unbroken pair is one whole frame: the first sender's. */
  lemma FirstSendsFrame(p: seq<bytes>, q: seq<bytes>, sched: seq<bool>)
    requires AllText(p) && AllText(q) && Schedules(sched, Writes(p), Writes(q))
    requires |sched| >= 2 && sched[0] && sched[1]
    ensures p != [] && Schedules(sched[2..], Writes(p[1..]), Writes(q))
    ensures ReadAll(Woven(Writes(p), Writes(q), sched))
         == [p[0]] + ReadAll(Woven(Writes(p[1..]), Writes(q), sched[2..]))
  {
    FirstWritesTwo(Writes(p), Writes(q), sched);
    WritesOfText(p);
    ReadAllStep(p[0], Woven(Writes(p[1..]), Writes(q), sched[2..]));
  }

  /** Or the second one's. */
  lemma SecondSendsFrame(p: seq<bytes>, q: seq<bytes>, sched: seq<bool>)
    requires AllText(p) && AllText(q) && Schedules(sched, Writes(p), Writes(q))
    requires |sched| >= 2 && !sched[0] && !sched[1]
    ensures q != [] && Schedules(sched[2..], Writes(p), Writes(q[1..]))
    ensures ReadAll(Woven(Writes(p), Writes(q), sched))
         == [q[0]] + ReadAll(Woven(Writes(p), Writes(q[1..]), sched[2..]))
  {
    SecondWritesTwo(Writes(p), Writes(q), sched);
    WritesOfText(q);
    ReadAllStep(q[0], Woven(Writes(p), Writes(q[1..]), sched[2..]));
  }

  lemma ApartIsCorrupted(p: seq<bytes>, q: seq<bytes>, sched: seq<bool>)
    requires AllText(p) && AllText(q) && Schedules(sched, Writes(p), Writes(q))
    requires |sched| >= 2 && sched[0] != sched[1]
    ensures var r := ReadAll(Woven(Writes(p), Writes(q), sched));
            r != [] && !IsText(r[0])
  {
    var a, b := Writes(p), Writes(q);
    EachWritesOne(a, b, sched);
    var rest := Woven(a[1..], b[1..], sched[2..]);
    StillToCome(a[1..], b[1..], sched[2..]);
    WritesOfText(p);
    WritesOfText(q);
    if sched[0] {
      HeaderReadAsBody(|p[0]|, |q[0]|, rest);
    } else {
      HeaderReadAsBody(|q[0]|, |p[0]|, rest);
    }
  }

  /** Unbroken, the reader gets every message, each sender's in the order sent. */
  lemma {:induction false} UnbrokenIsRead(p: seq<bytes>, q: seq<bytes>, sched: seq<bool>)
    requires AllText(p) && AllText(q) && Schedules(sched, Writes(p), Writes(q)) && Unbroken(sched)
    ensures IsMerge(ReadAll(Woven(Writes(p), Writes(q), sched)), p, q)
    decreases |sched|
  {
    if sched != [] {
      if sched[0] {
        FirstSendsFrame(p, q, sched);
        UnbrokenIsRead(p[1..], q, sched[2..]);
      } else {
        SecondSendsFrame(p, q, sched);
        UnbrokenIsRead(p, q[1..], sched[2..]);
      }
    }
  }

  /** `r` is `p` and `q` merged, the order within each kept. */
  ghost predicate IsMerge(r: seq<bytes>, p: seq<bytes>, q: seq<bytes>) {
    if r == [] then p == [] && q == []
    else
      || (p != [] && r[0] == p[0] && IsMerge(r[1..], p[1..], q))
      || (q != [] && r[0] == q[0] && IsMerge(r[1..], p, q[1..]))
  }

  lemma {:induction false} MergedIsSent(r: seq<bytes>, p: seq<bytes>, q: seq<bytes>, i: nat)
    requires IsMerge(r, p, q) && i < |r|
    ensures r[i] in p || r[i] in q
    decreases |r|
  {
    if i > 0 {
      if p != [] && r[0] == p[0] && IsMerge(r[1..], p[1..], q) {
        MergedIsSent(r[1..], p[1..], q, i - 1);
      } else {
        MergedIsSent(r[1..], p, q[1..], i - 1);
      }
    }
  }

  /** Broken, the reader gets something nobody sent. */
  lemma {:induction false} BrokenIsCorrupted(p: seq<bytes>, q: seq<bytes>, sched: seq<bool>) returns (i: nat)
    requires AllText(p) && AllText(q) && Schedules(sched, Writes(p), Writes(q)) && !Unbroken(sched)
    ensures i < |ReadAll(Woven(Writes(p), Writes(q), sched))|
    ensures !IsText(ReadAll(Woven(Writes(p), Writes(q), sched))[i])
    decreases |sched|
  {
    EveryWriteHasATurn(sched, Writes(p), Writes(q));
    if sched[0] != sched[1] {
      ApartIsCorrupted(p, q, sched);
      return 0;
    }
    if sched[0] {
      FirstSendsFrame(p, q, sched);
      i := BrokenIsCorrupted(p[1..], q, sched[2..]);
    } else {
      SecondSendsFrame(p, q, sched);
      i := BrokenIsCorrupted(p, q[1..], sched[2..]);
    }
    i := i + 1;
  }

  /** Two senders on one stream, any messages, any interleaving of their writes: the reader gets exactly
      what was sent, each sender's messages in order, if and only if no write comes between a header and
      its body. Otherwise it gets something nobody sent. */
  lemma InterleavedWriters(p: seq<bytes>, q: seq<bytes>, sched: seq<bool>)
    requires AllText(p) && AllText(q) && Schedules(sched, Writes(p), Writes(q))
    ensures IsMerge(ReadAll(Woven(Writes(p), Writes(q), sched)), p, q) <==> Unbroken(sched)
    ensures !Unbroken(sched) ==> exists m :: m in ReadAll(Woven(Writes(p), Writes(q), sched)) && m !in p && m !in q
  {
    if Unbroken(sched) {
      UnbrokenIsRead(p, q, sched);
    } else {
      var i := BrokenIsCorrupted(p, q, sched);
      var r := ReadAll(Woven(Writes(p), Writes(q), sched));
      assert r[i] in r && r[i] !in p && r[i] !in q;
      if IsMerge(r, p, q) {
        MergedIsSent(r, p, q, i);
      }
    }
  }
}
