/** The length field in front of every message, Networking/data.h. */
module LengthField {
  import opened Arith

  type Byte = b: nat | b < 256

  datatype Encoding = Bytes(bytes: seq<Byte>) | InvalidLength

  const SIZE_BOUND: nat := 0x1_0000_0000_0000_0000

  function LittleEndian(v: nat, n: nat): (r: seq<Byte>)
    ensures |r| == n
  {
    if n == 0 then [] else [v % 256] + LittleEndian(v / 256, n - 1)
  }

  function Value(b: seq<Byte>): nat
  {
    if b == [] then 0 else b[0] + 256 * Value(b[1..])
  }

  lemma {:induction false} LittleEndianValue(v: nat, n: nat)
    ensures Pow(256, n) > 0 && Value(LittleEndian(v, n)) == v % Pow(256, n)
  {
    if n > 0 {
      LittleEndianValue(v / 256, n - 1);
      assert LittleEndian(v, n)[1..] == LittleEndian(v / 256, n - 1);
      LowDigits(v, Pow(256, n - 1));
    }
  }

  /** Byte i of a length is its digit i in base 256: the lowest comes first. */
  lemma {:induction false} LittleEndianAt(v: nat, n: nat, i: nat)
    requires i < n
    ensures Pow(256, i) > 0 && LittleEndian(v, n)[i] == (v / Pow(256, i)) % 256
  {
    LittleEndianValue(0, i);
    if i > 0 {
      LittleEndianAt(v / 256, n - 1, i - 1);
      LittleEndianValue(0, i - 1);
      DivideTwice(v, Pow(256, i - 1));
    }
  }

  lemma DivideTwice(v: nat, w: int)
    requires w > 0
    ensures (v / 256) / w == v / (256 * w)
  {
    var q, rest := (v / 256) / w, 256 * ((v / 256) % w) + v % 256;
    assert v / 256 == q * w + (v / 256) % w;
    assert v == q * (256 * w) + rest && 0 <= rest < 256 * w;
    ModUnique(v, 256 * w, q, rest);
  }

  lemma LowDigits(v: nat, m: int)
    requires m > 0
    ensures v % (256 * m) == v % 256 + 256 * ((v / 256) % m)
  {
    var q, r := (v / 256) / m, (v / 256) % m;
    assert v == 256 * (q * m + r) + v % 256;
    assert v == q * (256 * m) + (v % 256 + 256 * r);
    ModUnique(v, 256 * m, q, v % 256 + 256 * r);
  }

  /** The bits above the field, shifted arithmetically from a signed 64-bit word. */
  function Upper(len: nat, n: nat): int
    requires len < SIZE_BOUND
  {
    LittleEndianValue(0, n);
    (if 2 * len >= SIZE_BOUND then len - SIZE_BOUND else len) / Pow(256, n)
  }

  function EncodeLength(len: nat, n: nat): Encoding
    requires len < SIZE_BOUND
  {
    if n > 8 then InvalidLength
    else if n < 8 && Upper(len, n) != 0 && Upper(len, n) != -1 then InvalidLength
    else Bytes(LittleEndian(len, n))
  }

  lemma FloorNearZero(x: int, m: int)
    requires m > 0
    ensures (x / m == 0 <==> 0 <= x < m) && (x / m == -1 <==> -m <= x < 0)
  {
    var q := x / m;
    assert x == q * m + x % m;
    if 0 <= x < m { ModUnique(x, m, 0, x); }
    if -m <= x < 0 { ModUnique(x, m, -1, x + m); }
  }

  lemma UpperIsZero(len: nat, n: nat)
    requires len < SIZE_BOUND && n < 8
    ensures 0 < Pow(256, n) <= 0x100_0000_0000_0000 && (Upper(len, n) == 0 <==> len < Pow(256, n))
    ensures Upper(len, n) == -1 <==> len >= SIZE_BOUND - Pow(256, n)
  {
    LittleEndianValue(0, n);
    PowMonotone(n, 7);
    assert Pow(256, 7) == 0x100_0000_0000_0000;
    FloorNearZero(if 2 * len >= SIZE_BOUND then len - SIZE_BOUND else len, Pow(256, n));
  }

  lemma {:induction false} PowMonotone(j: nat, k: nat)
    requires j <= k
    ensures 0 < Pow(256, j) <= Pow(256, k)
    decreases k
  {
    LittleEndianValue(0, j);
    if j < k { PowMonotone(j, k - 1); }
  }

  /** A length is refused in the middle range only, and of the lengths written exactly those that fit
      the field are read back: lengths just below 2^64 are written although they do not fit. */
  lemma LengthRoundTrip(len: nat, n: nat)
    requires len < SIZE_BOUND
    ensures EncodeLength(len, n).InvalidLength? <==> n > 8 || Pow(256, n) <= len < SIZE_BOUND - Pow(256, n)
    ensures EncodeLength(len, n).Bytes? ==> |EncodeLength(len, n).bytes| == n
    ensures EncodeLength(len, n).Bytes? ==> (Value(EncodeLength(len, n).bytes) == len <==> len < Pow(256, n))
  {
    if n > 8 { return; }
    LittleEndianValue(len, n);
    ModMod(len, Pow(256, n));
    if len < Pow(256, n) { Small(len, Pow(256, n)); }
    if n < 8 {
      UpperIsZero(len, n);
    } else {
      assert Pow(256, 8) == SIZE_BOUND;
    }
  }
}

/** Full-duplex exchange of two messages, Networking/Exchanger.h.  A `Side` is the state of one
    endpoint; what the operating system transfers in one call is a parameter of the round. */
module Exchange {
  import opened LengthField
  import opened Arith

  const LENGTH_SIZE: nat := 4

  function Min(a: nat, b: nat): nat { if a < b then a else b }

  /** With `shared`, the message is sent from the buffer it is received into. */
  datatype Side = Side(shared: bool, outgoing: seq<Byte>, buffer: seq<Byte>, len: nat,
                       sent: nat, received: nat, lengthReceived: bool, newLen: nat)

  function Source(s: Side): seq<Byte> { if s.shared then s.buffer else s.outgoing }

  /** What the source relies on for its own memory safety. */
  predicate Ok(s: Side) {
    && s.sent <= s.len <= |Source(s)|
    && (if s.lengthReceived then s.newLen <= |s.buffer| else s.newLen == 0 && s.received == 0)
  }

  predicate Done(s: Side) { !(s.received < s.newLen || s.sent < s.len || !s.lengthReceived) }

  // ----- one round

  function SendCount(s: Side, quota: nat): nat
    requires Ok(s)
  {
    Min(s.len - s.sent, quota)
  }

  function SentBytes(s: Side, quota: nat): seq<Byte>
    requires Ok(s)
  {
    Source(s)[s.sent..s.sent + SendCount(s, quota)]
  }

  function AfterSend(s: Side, quota: nat): (r: Side)
    requires Ok(s)
  {
    s.(sent := s.sent + SendCount(s, quota))
  }

  /** How many bytes the endpoint asks for. */
  function ToReceive(s: Side): nat
    requires s.received < s.newLen
  {
    if s.sent == s.len || !s.shared then s.newLen - s.received
    else if s.sent > s.received then s.sent - s.received
    else 0
  }

  datatype Reception = Took(count: nat) | Blocked

  /** How many of the `visible` bytes are consumed: all or nothing for the length and for a blocking call. */
  function ReceiveCount(s: Side, visible: nat, block: bool): Reception {
    var patient := s.sent == s.len && block;
    if s.received < s.newLen then
      var n := ToReceive(s);
      if n == 0 then Took(0)
      else if !patient then Took(Min(n, visible))
      else if visible < n then Blocked
      else Took(n)
    else if !s.lengthReceived then
      if visible >= LENGTH_SIZE then Took(LENGTH_SIZE)
      else if patient then Blocked
      else Took(0)
    else Took(0)
  }

  function Resize(buffer: seq<Byte>, n: nat): (r: seq<Byte>)
    ensures |r| >= n && |r| >= |buffer| && r[..|buffer|] == buffer
  {
    if n < |buffer| then buffer else buffer + seq(2 * n - |buffer|, _ => 0)
  }

  function Overwrite(buffer: seq<Byte>, at: nat, bytes: seq<Byte>): (r: seq<Byte>)
    requires at + |bytes| <= |buffer|
    ensures |r| == |buffer|
  {
    buffer[..at] + bytes + buffer[at + |bytes|..]
  }

  /** The endpoint after consuming the given bytes. */
  function AfterReceive(s: Side, bytes: seq<Byte>): (r: Side)
    requires Ok(s) && (s.received < s.newLen ==> |bytes| <= ToReceive(s))
  {
    if s.received < s.newLen then
      s.(buffer := Overwrite(s.buffer, s.received, bytes), received := s.received + |bytes|)
    else if !s.lengthReceived && |bytes| == LENGTH_SIZE then
      var n := Value(bytes);
      s.(newLen := n, buffer := Resize(s.buffer, if n > s.len then n else s.len), lengthReceived := true)
    else s
  }

  lemma NothingReceived(s: Side)
    requires Ok(s) && s.received < s.newLen && s.received <= |s.buffer|
    ensures AfterReceive(s, []) == s
  {
    assert Overwrite(s.buffer, s.received, []) == s.buffer;
  }

  datatype RoundResult = RoundResult(side: Side, written: seq<Byte>, rest: seq<Byte>, blocked: bool)

  /** The whole round: send what the system takes, then receive.  At most receiveQuota bytes have
      arrived.  A blocked call resumes as a further round. */
  function Round(s: Side, incoming: seq<Byte>, block: bool, sendQuota: nat, receiveQuota: nat): RoundResult
    requires Ok(s)
  {
    var s1 := AfterSend(s, sendQuota);
    match ReceiveCount(s1, Min(receiveQuota, |incoming|), block)
    case Blocked => RoundResult(s1, SentBytes(s, sendQuota), incoming, true)
    case Took(n) =>
      RoundResult(AfterReceive(s1, incoming[..n]), SentBytes(s, sendQuota), incoming[n..], false)
  }

  /** A round sends all that the system takes and receives all that has arrived, up to the message and, in a
      shared buffer, up to what has been sent.  Only a blocking round that has sent everything blocks, and
      it returns with the rest of the message or with the length. */
  lemma RoundIsGreedy(s: Side, incoming: seq<Byte>, block: bool, sendQuota: nat, receiveQuota: nat)
    requires Ok(s)
    ensures var r := Round(s, incoming, block, sendQuota, receiveQuota);
            var visible := if receiveQuota <= |incoming| then receiveQuota else |incoming|;
            && (r.side.sent == s.len || |r.written| == r.side.sent - s.sent == sendQuota)
            && (r.blocked ==> block && r.side.sent == s.len && r.rest == incoming && !Done(r.side))
            && (!r.blocked && s.received < s.newLen ==>
                  || |incoming| - |r.rest| == visible
                  || r.side.received == s.newLen
                  || (s.shared && r.side.sent < s.len && r.side.received >= r.side.sent))
            && (!r.blocked && block && r.side.sent == s.len && s.received < s.newLen ==> r.side.received == s.newLen)
            && (!r.blocked && s.received >= s.newLen && !s.lengthReceived ==>
                  r.side.lengthReceived || (visible < LENGTH_SIZE && !(block && r.side.sent == s.len)))
  {
    hide Overwrite, Resize, Value;
  }

  // ----- two endpoints

  /** p and q with the bytes in flight from p to q and back. */
  datatype Net = Net(p: Side, q: Side, pUp: bool, qUp: bool, pq: seq<Byte>, qp: seq<Byte>)

  datatype Event =
    | Start
    | DoRound(block: bool, sendQuota: nat, receiveQuota: nat)
    | NextExchange(bytes: seq<Byte>)   // a finished endpoint writes on

  function Header(m: seq<Byte>): seq<Byte> { LittleEndian(|m|, LENGTH_SIZE) }

  ghost predicate CanStep(net: Net, e: Event) {
    match e
    case Start => !net.pUp
    case DoRound(_, _, _) => net.pUp && Ok(net.p)
    case NextExchange(_) => net.pUp && Done(net.p)
  }

  /** A step of p. */
  ghost function StepP(net: Net, e: Event, mp: seq<Byte>): Net
    requires CanStep(net, e)
  {
    match e
    case Start => net.(pUp := true, pq := net.pq + Header(mp))
    case DoRound(block, k, l) =>
      var r := Round(net.p, net.qp, block, k, l);
      net.(p := r.side, pq := net.pq + r.written, qp := r.rest)
    case NextExchange(bytes) => net.(pq := net.pq + bytes)
  }

  ghost function Mirror(net: Net): Net { Net(net.q, net.p, net.qUp, net.pUp, net.qp, net.pq) }

  /** What q has sent of its message mq and p has not consumed. */
  ghost function Pending(p: Side, q: Side, qUp: bool, mq: seq<Byte>): seq<Byte>
    requires p.received <= q.sent <= |mq|
  {
    (if qUp && !p.lengthReceived then Header(mq) else []) + mq[p.received..q.sent]
  }

  /** p's state against the stream from q: p holds a prefix of mq, its own unsent bytes are those of
      its message, and nothing but the rest of mq is in flight unless q has finished. */
  ghost predicate Flow(p: Side, q: Side, pUp: bool, qUp: bool, mp: seq<Byte>, mq: seq<Byte>, qp: seq<Byte>) {
    && Ok(p) && p.len == |mp| && p.received <= q.sent <= |mq| == q.len < Pow(256, LENGTH_SIZE)
    && Source(p)[p.sent..p.len] == mp[p.sent..]
    && (!pUp ==> p.sent == 0 && !p.lengthReceived)
    && (!qUp ==> q.sent == 0 && !p.lengthReceived)
    && (p.lengthReceived ==> p.newLen == |mq|)
    && p.received <= p.newLen
    && p.buffer[..p.received] == mq[..p.received]
    && (p.shared && p.sent < p.len ==> p.received <= p.sent)
    && Pending(p, q, qUp, mq) <= qp
    && (Pending(p, q, qUp, mq) != qp ==> Done(q) && qUp)
  }

  ghost predicate Inv(net: Net, mp: seq<Byte>, mq: seq<Byte>) {
    && Flow(net.p, net.q, net.pUp, net.qUp, mp, mq, net.qp)
    && Flow(net.q, net.p, net.qUp, net.pUp, mq, mp, net.pq)
  }

  /** Both endpoints before they are constructed. */
  ghost predicate Fresh(s: Side, m: seq<Byte>) {
    && s.sent == 0 && s.received == 0 && !s.lengthReceived && s.newLen == 0
    && s.len == |m| <= |Source(s)| && Source(s)[..s.len] == m && |m| < Pow(256, LENGTH_SIZE)
  }

  lemma InitialStateHasInv(net: Net, mp: seq<Byte>, mq: seq<Byte>)
    requires Fresh(net.p, mp) && Fresh(net.q, mq) && !net.pUp && !net.qUp && net.pq == [] && net.qp == []
    ensures Inv(net, mp, mq)
  {}

  /** What is written is the next part of the message. */
  lemma WrittenBytes(p: Side, m: seq<Byte>, k: nat)
    requires Ok(p) && p.len == |m| && Source(p)[p.sent..p.len] == m[p.sent..]
    ensures var p' := AfterSend(p, k); p.sent <= p'.sent <= |m| && SentBytes(p, k) == m[p.sent..p'.sent]
    ensures var p' := AfterSend(p, k); Source(p')[p'.sent..p.len] == m[p'.sent..]
  {
    var n := SendCount(p, k);
    assert SentBytes(p, k) == Source(p)[p.sent..p.len][..n];
    assert Source(p)[p.sent + n..p.len] == Source(p)[p.sent..p.len][n..];
    assert m[p.sent + n..] == m[p.sent..][n..];
  }

  /** Sending touches only the counter and the outgoing stream. */
  lemma SendKeepsOwn(p: Side, q: Side, mp: seq<Byte>, mq: seq<Byte>, qp: seq<Byte>, k: nat, qUp: bool)
    requires Flow(p, q, true, qUp, mp, mq, qp)
    ensures Flow(AfterSend(p, k), q, true, qUp, mp, mq, qp)
  {
    WrittenBytes(p, mp, k);
    assert Pending(AfterSend(p, k), q, qUp, mq) == Pending(p, q, qUp, mq);
  }

  /** p sends to s and receives from q, which need not be the same. */
  lemma SendKeepsPeer(p: Side, q: Side, s: Side, mp: seq<Byte>, mq: seq<Byte>, ms: seq<Byte>, ps: seq<Byte>, qp: seq<Byte>,
                      k: nat, qUp: bool, sUp: bool)
    requires Flow(p, q, true, qUp, mp, mq, qp) && Flow(s, p, sUp, true, ms, mp, ps)
    ensures Flow(s, AfterSend(p, k), sUp, true, ms, mp, ps + SentBytes(p, k))
  {
    var p', w := AfterSend(p, k), SentBytes(p, k);
    if SendCount(p, k) == 0 {
      assert p' == p && ps + w == ps;
    } else {
      WrittenBytes(p, mp, k);
      assert !Done(p);
      PendingGrows(s, p, p', mp, w);
    }
  }

  lemma PendingGrows(q: Side, p: Side, p': Side, m: seq<Byte>, w: seq<Byte>)
    requires q.received <= p.sent <= p'.sent <= |m| && w == m[p.sent..p'.sent]
    ensures Pending(q, p', true, m) == Pending(q, p, true, m) + w
  {
    assert m[q.received..p'.sent] == m[q.received..p.sent] + w;
  }

  /** While p still sends from a shared buffer, q cannot have finished. */
  lemma PeerIsNotDone(p: Side, q: Side, mp: seq<Byte>, mq: seq<Byte>, pq: seq<Byte>, qUp: bool)
    requires Flow(q, p, qUp, true, mq, mp, pq) && p.sent < |mp|
    ensures !Done(q)
  {}

  /** What keeps an endpoint that still sends from a shared buffer within q's message although it may ask
      for more than is left of it: q has not finished, or the own message is at most one byte longer, or
      q's is empty. */
  ghost predicate StaysWithin(p: Side, q: Side, mq: seq<Byte>) {
    p.shared && p.sent < p.len ==> !Done(q) || p.len <= |mq| + 1 || |mq| == 0
  }

  lemma SplitSlice(m: seq<Byte>, from: nat, to: nat, n: nat)
    requires from <= from + n <= to <= |m|
    ensures m[from..to][..n] == m[from..from + n] && m[from..to][n..] == m[from + n..to]
  {}

  /** Then the bytes that arrive are the next ones of q's message. */
  lemma NextBytesTaken(p: Side, q: Side, mp: seq<Byte>, mq: seq<Byte>, qp: seq<Byte>, qUp: bool, n: nat)
    requires Flow(p, q, true, qUp, mp, mq, qp) && StaysWithin(p, q, mq)
    requires p.received < p.newLen && n <= ToReceive(p) && n <= |qp|
    ensures p.received + n <= q.sent && qp[..n] == mq[p.received..p.received + n]
    ensures qp[n..] == mq[p.received + n..q.sent] + qp[q.sent - p.received..]
  {
    NextFits(p, q, mp, mq, qp, qUp, n);
    hide Flow, StaysWithin, ToReceive;
    PrefixTaken(mq, qp, p.received, q.sent, n);
  }

  lemma NextFits(p: Side, q: Side, mp: seq<Byte>, mq: seq<Byte>, qp: seq<Byte>, qUp: bool, n: nat)
    requires Flow(p, q, true, qUp, mp, mq, qp) && StaysWithin(p, q, mq)
    requires p.received < p.newLen && n <= ToReceive(p) && n <= |qp|
    ensures p.received + n <= q.sent <= |mq| && mq[p.received..q.sent] <= qp
  {
    hide Pow, Header, Source;
    assert Pending(p, q, qUp, mq) == mq[p.received..q.sent];
  }

  lemma PrefixTaken(m: seq<Byte>, wire: seq<Byte>, from: nat, to: nat, n: nat)
    requires from + n <= to <= |m| && m[from..to] <= wire
    ensures wire[..n] == m[from..from + n] && wire[n..] == m[from + n..to] + wire[to - from..]
  {
    var pending := m[from..to];
    SplitSlice(m, from, to, n);
    assert wire == pending + wire[|pending|..];
    assert wire[..n] == pending[..n];
    assert wire[n..] == pending[n..] + wire[|pending|..];
  }

  /** Between two endpoints the peer cannot have finished, so this always holds. */
  lemma BytesTaken(p: Side, q: Side, mp: seq<Byte>, mq: seq<Byte>, pq: seq<Byte>, qp: seq<Byte>, qUp: bool, n: nat)
    requires Flow(p, q, true, qUp, mp, mq, qp) && Flow(q, p, qUp, true, mq, mp, pq)
    requires p.received < p.newLen && n <= ToReceive(p) && n <= |qp|
    ensures p.received + n <= q.sent && qp[..n] == mq[p.received..p.received + n]
    ensures qp[n..] == mq[p.received + n..q.sent] + qp[q.sent - p.received..]
  {
    if p.sent < p.len { PeerIsNotDone(p, q, mp, mq, pq, qUp); }
    NextBytesTaken(p, q, mp, mq, qp, qUp, n);
  }

  lemma ReceiveKeeps(p: Side, q: Side, mp: seq<Byte>, mq: seq<Byte>, qp: seq<Byte>, qUp: bool, n: nat)
    requires Flow(p, q, true, qUp, mp, mq, qp) && StaysWithin(p, q, mq)
    requires p.received < p.newLen && n <= ToReceive(p) && n <= |qp|
    ensures Flow(AfterReceive(p, qp[..n]), q, true, qUp, mp, mq, qp[n..])
  {
    hide Pow, Header;
    NextBytesTaken(p, q, mp, mq, qp, qUp, n);
    var p' := AfterReceive(p, qp[..n]);
    assert p'.buffer[..p'.received] == p.buffer[..p.received] + qp[..n];
    assert p'.buffer[..p'.received] == mq[..p'.received];
    assert Source(p')[p.sent..p.len] == mp[p.sent..] by { UnsentUntouched(p, mp, qp[..n]); }
    var pending := Pending(p', q, qUp, mq);
    assert pending == mq[p'.received..q.sent];
    assert qp[n..][..|pending|] == pending;
    if Pending(p, q, qUp, mq) == qp { assert qp[n..] == pending; }
  }

  /** Bytes not yet sent are never overwritten. */
  lemma UnsentUntouched(p: Side, mp: seq<Byte>, bytes: seq<Byte>)
    requires Ok(p) && p.received < p.newLen && |bytes| <= ToReceive(p)
    requires p.shared && p.sent < p.len ==> p.received <= p.sent
    ensures Source(AfterReceive(p, bytes))[p.sent..p.len] == Source(p)[p.sent..p.len]
  {
    var p' := AfterReceive(p, bytes);
    if p.shared && p.sent < p.len {
      forall i | p.sent <= i < p.len ensures p'.buffer[i] == p.buffer[i] {}
    }
  }

  lemma HeaderKeeps(p: Side, q: Side, mp: seq<Byte>, mq: seq<Byte>, qp: seq<Byte>, qUp: bool)
    requires Flow(p, q, true, qUp, mp, mq, qp) && !p.lengthReceived && |qp| >= LENGTH_SIZE
    ensures Flow(AfterReceive(p, qp[..LENGTH_SIZE]), q, true, qUp, mp, mq, qp[LENGTH_SIZE..])
  {
    var pending, p' := Pending(p, q, qUp, mq), AfterReceive(p, qp[..LENGTH_SIZE]);
    assert !qUp ==> pending == [];
    assert qp == pending + qp[|pending|..];
    assert qp[..LENGTH_SIZE] == Header(mq);
    LittleEndianValue(|mq|, LENGTH_SIZE);
    Small(|mq|, Pow(256, LENGTH_SIZE));
    assert Source(p')[p.sent..p.len] == Source(p)[p.sent..p.len] by {
      if p.shared { assert p'.buffer[..|p.buffer|] == p.buffer; }
    }
    assert Pending(p', q, qUp, mq) == mq[0..q.sent];
    assert qp[LENGTH_SIZE..][..q.sent] == mq[0..q.sent];
    if pending == qp { assert qp[LENGTH_SIZE..] == mq[0..q.sent]; }
  }

  /** Receiving does not concern the stream in the other direction. */
  lemma OtherDirection(p: Side, p': Side, q: Side, mp: seq<Byte>, mq: seq<Byte>, pq: seq<Byte>, qUp: bool)
    requires Flow(q, p, qUp, true, mq, mp, pq) && p'.sent == p.sent && p'.len == p.len && (Done(p) ==> p' == p)
    ensures Flow(q, p', qUp, true, mq, mp, pq)
  {
    assert Pending(q, p', true, mp) == Pending(q, p, true, mp);
  }

  lemma ReceptionKeeps(p: Side, q: Side, s: Side, mp: seq<Byte>, mq: seq<Byte>, ms: seq<Byte>, ps: seq<Byte>, qp: seq<Byte>,
                       qUp: bool, sUp: bool, visible: nat, block: bool)
    requires Flow(p, q, true, qUp, mp, mq, qp) && StaysWithin(p, q, mq) && Flow(s, p, sUp, true, ms, mp, ps) && visible <= |qp|
    requires ReceiveCount(p, visible, block).Took?
    ensures var n := ReceiveCount(p, visible, block).count;
            && Flow(AfterReceive(p, qp[..n]), q, true, qUp, mp, mq, qp[n..])
            && Flow(s, AfterReceive(p, qp[..n]), sUp, true, ms, mp, ps)
  {
    var n := ReceiveCount(p, visible, block).count;
    var p' := AfterReceive(p, qp[..n]);
    if p.received < p.newLen {
      ReceiveKeeps(p, q, mp, mq, qp, qUp, n);
    } else if !p.lengthReceived && n == LENGTH_SIZE {
      HeaderKeeps(p, q, mp, mq, qp, qUp);
    } else {
      assert qp[n..] == qp;
    }
    OtherDirection(p, p', s, mp, ms, ps, sUp);
  }

  /** A round of p keeps the stream it reads and the stream it writes in order. */
  lemma RoundKeepsFlows(p: Side, q: Side, s: Side, mp: seq<Byte>, mq: seq<Byte>, ms: seq<Byte>, ps: seq<Byte>, qp: seq<Byte>,
                        qUp: bool, sUp: bool, block: bool, k: nat, l: nat)
    requires Flow(p, q, true, qUp, mp, mq, qp) && Flow(s, p, sUp, true, ms, mp, ps)
    requires StaysWithin(AfterSend(p, k), q, mq)
    ensures var r := Round(p, qp, block, k, l);
            Flow(r.side, q, true, qUp, mp, mq, r.rest) && Flow(s, r.side, sUp, true, ms, mp, ps + r.written)
  {
    hide Pending, Pow, Source, Done;
    SendKeepsOwn(p, q, mp, mq, qp, k, qUp);
    SendKeepsPeer(p, q, s, mp, mq, ms, ps, qp, k, qUp, sUp);
    var s1, visible := AfterSend(p, k), Min(l, |qp|);
    if ReceiveCount(s1, visible, block).Took? {
      ReceptionKeeps(s1, q, s, mp, mq, ms, ps + SentBytes(p, k), qp, qUp, sUp, visible, block);
    }
  }

  lemma RoundKeepsInv(net: Net, mp: seq<Byte>, mq: seq<Byte>, block: bool, k: nat, l: nat)
    requires Inv(net, mp, mq) && net.pUp
    ensures Inv(StepP(net, DoRound(block, k, l), mp), mp, mq)
  {
    hide Pending, Pow, Source;
    var s1 := AfterSend(net.p, k);
    SendKeepsPeer(net.p, net.q, net.q, mp, mq, mq, net.pq, net.qp, k, net.qUp, net.qUp);
    if s1.sent < s1.len { PeerIsNotDone(s1, net.q, mp, mq, net.pq + SentBytes(net.p, k), net.qUp); }
    RoundKeepsFlows(net.p, net.q, net.q, mp, mq, mq, net.pq, net.qp, net.qUp, net.qUp, block, k, l);
  }

  lemma StepKeepsInv(net: Net, e: Event, mp: seq<Byte>, mq: seq<Byte>)
    requires Inv(net, mp, mq) && CanStep(net, e)
    ensures Inv(StepP(net, e, mp), mp, mq)
  {
    match e
    case Start =>
      assert Pending(net.q, net.p, true, mp) == Header(mp);
    case DoRound(block, k, l) => RoundKeepsInv(net, mp, mq, block, k, l);
    case NextExchange(bytes) =>
      assert Pending(net.q, net.p, true, mp) <= net.pq + bytes;
  }

  // ----- runs

  /** Which endpoint moves, and how. */
  datatype Move = P(e: Event) | Q(e: Event)

  ghost predicate CanMove(net: Net, m: Move) {
    match m
    case P(e) => CanStep(net, e)
    case Q(e) => CanStep(Mirror(net), e)
  }

  ghost function After(net: Net, m: Move, mp: seq<Byte>, mq: seq<Byte>): Net
    requires CanMove(net, m)
  {
    match m
    case P(e) => StepP(net, e, mp)
    case Q(e) => Mirror(StepP(Mirror(net), e, mq))
  }

  /** The states of a run from the first to the last. */
  ghost predicate Run(states: seq<Net>, moves: seq<Move>, mp: seq<Byte>, mq: seq<Byte>) {
    && |states| == |moves| + 1
    && Fresh(states[0].p, mp) && Fresh(states[0].q, mq)
    && !states[0].pUp && !states[0].qUp && states[0].pq == [] && states[0].qp == []
    && forall i :: 0 <= i < |moves| ==> Linked(states[i], moves[i], states[i + 1], mp, mq)
  }

  ghost predicate Linked(net: Net, m: Move, net': Net, mp: seq<Byte>, mq: seq<Byte>) {
    CanMove(net, m) && net' == After(net, m, mp, mq)
  }

  lemma {:induction false} RunHasInv(states: seq<Net>, moves: seq<Move>, mp: seq<Byte>, mq: seq<Byte>, i: nat)
    requires Run(states, moves, mp, mq) && i <= |moves|
    ensures Inv(states[i], mp, mq)
  {
    hide Flow, Fresh, Round, Header;
    if i == 0 {
      InitialStateHasInv(states[0], mp, mq);
    } else {
      RunHasInv(states, moves, mp, mq, i - 1);
      var net := states[i - 1];
      assert Linked(net, moves[i - 1], states[i], mp, mq);
      match moves[i - 1]
      case P(e) => StepKeepsInv(net, e, mp, mq);
      case Q(e) => StepKeepsInv(Mirror(net), e, mq, mp);
    }
  }

  lemma SideIsCorrect(s: Side, q: Side, pUp: bool, qUp: bool, mine: seq<Byte>, theirs: seq<Byte>, qp: seq<Byte>)
    requires Flow(s, q, pUp, qUp, mine, theirs, qp)
    ensures s.sent <= |mine| <= |Source(s)| && Source(s)[s.sent..|mine|] == mine[s.sent..]
    ensures s.received <= s.newLen && s.received <= |theirs| && s.received <= |s.buffer|
    ensures s.buffer[..s.received] == theirs[..s.received]
    ensures Done(s) ==> s.newLen == |theirs| <= |s.buffer| && s.buffer[..s.newLen] == theirs
  {
    hide Pending;
  }

  /** In every state of every run, whatever the partial transfers: the counters are in range, the bytes
      an endpoint has not sent are those of its message, what it has received is a prefix of the
      other's message, and once it is done it holds exactly that message. */
  lemma ExchangeIsCorrect(states: seq<Net>, moves: seq<Move>, mp: seq<Byte>, mq: seq<Byte>, i: nat)
    requires Run(states, moves, mp, mq) && i <= |moves|
    ensures forall s, mine, theirs ::
      (s, mine, theirs) in [(states[i].p, mp, mq), (states[i].q, mq, mp)] ==>
        && s.sent <= |mine| <= |Source(s)| && Source(s)[s.sent..|mine|] == mine[s.sent..]
        && s.received <= s.newLen && s.received <= |theirs| && s.received <= |s.buffer|
        && s.buffer[..s.received] == theirs[..s.received]
        && (Done(s) ==> s.newLen == |theirs| <= |s.buffer| && s.buffer[..s.newLen] == theirs)
  {
    RunHasInv(states, moves, mp, mq, i);
    hide Run, Flow, Source, Done;
    SideIsCorrect(states[i].p, states[i].q, states[i].pUp, states[i].qUp, mp, mq, states[i].qp);
    SideIsCorrect(states[i].q, states[i].p, states[i].qUp, states[i].pUp, mq, mp, states[i].pq);
  }

  function Total(net: Net): nat {
    net.p.sent + net.p.received + (if net.p.lengthReceived then 1 else 0)
    + net.q.sent + net.q.received + (if net.q.lengthReceived then 1 else 0)
  }

  /** A round of an unfinished endpoint that can send, or whose peer has sent everything, moves on
      when the system transfers what there is. */
  lemma RoundProgresses(net: Net, mp: seq<Byte>, mq: seq<Byte>, block: bool, k: nat, l: nat)
    requires Inv(net, mp, mq) && net.pUp && net.qUp && !Done(net.p)
    requires net.p.sent < net.p.len || net.q.sent == net.q.len
    requires k >= net.p.len && l >= |net.qp|
    ensures Total(StepP(net, DoRound(block, k, l), mp)) > Total(net)
  {
    var p, q, qp := net.p, net.q, net.qp;
    var s1 := AfterSend(p, k);
    assert s1.sent == s1.len;
    if p.sent == p.len {
      assert |qp| >= |Pending(p, q, true, mq)|;
    }
  }

  /** No deadlock: as long as one endpoint is not done, a round of one of them makes progress. */
  lemma NoDeadlock(net: Net, mp: seq<Byte>, mq: seq<Byte>)
    requires Inv(net, mp, mq) && net.pUp && net.qUp && !(Done(net.p) && Done(net.q))
    ensures exists m :: CanMove(net, m) && m.e.DoRound? && Total(After(net, m, mp, mq)) > Total(net)
  {
    var forP := P(DoRound(true, net.p.len, |net.qp|));
    var forQ := Q(DoRound(true, net.q.len, |net.pq|));
    assert CanMove(net, forP) && CanMove(net, forQ);
    if !Done(net.p) && (net.p.sent < net.p.len || net.q.sent == net.q.len) {
      RoundProgresses(net, mp, mq, true, net.p.len, |net.qp|);
      assert Total(After(net, forP, mp, mq)) > Total(net);
    } else {
      RoundProgresses(Mirror(net), mq, mp, true, net.q.len, |net.pq|);
      assert Total(After(net, forQ, mp, mq)) > Total(net);
    }
  }

  /** A run goes on with any move that its last state allows. */
  lemma RunGoesOn(states: seq<Net>, moves: seq<Move>, m: Move, mp: seq<Byte>, mq: seq<Byte>)
    requires Run(states, moves, mp, mq) && CanMove(states[|moves|], m)
    ensures Run(states + [After(states[|moves|], m, mp, mq)], moves + [m], mp, mq)
  {
    hide CanMove, After, Fresh;
    var states', moves' := states + [After(states[|moves|], m, mp, mq)], moves + [m];
    forall i | 0 <= i < |moves'| ensures Linked(states'[i], moves'[i], states'[i + 1], mp, mq) {
      if i < |moves| { assert Linked(states[i], moves[i], states[i + 1], mp, mq); }
    }
  }

  /** What is still to do: endpoints to start, and steps of the counters. */
  ghost function Remaining(net: Net, mp: seq<Byte>, mq: seq<Byte>): int {
    (if net.pUp then 0 else 1) + (if net.qUp then 0 else 1) + 2 * (|mp| + |mq|) + 2 - Total(net)
  }

  lemma RemainingNonnegative(net: Net, mp: seq<Byte>, mq: seq<Byte>)
    requires Inv(net, mp, mq)
    ensures Remaining(net, mp, mq) >= 0
  {
    hide Pending, Done, Source;
  }

  /** Some move of an unfinished exchange leaves less to do. */
  lemma MoveForward(net: Net, mp: seq<Byte>, mq: seq<Byte>) returns (m: Move)
    requires Inv(net, mp, mq) && !(Done(net.p) && Done(net.q))
    ensures CanMove(net, m) && Remaining(After(net, m, mp, mq), mp, mq) < Remaining(net, mp, mq)
  {
    hide Inv, Round;
    if !net.pUp {
      m := P(Start);
    } else if !net.qUp {
      m := Q(Start);
    } else {
      NoDeadlock(net, mp, mq);
      m :| CanMove(net, m) && m.e.DoRound? && Total(After(net, m, mp, mq)) > Total(net);
    }
  }

  /** From every state of every run both endpoints can still finish. */
  lemma {:induction false} RunCanFinish(states: seq<Net>, moves: seq<Move>, mp: seq<Byte>, mq: seq<Byte>)
    returns (states': seq<Net>, moves': seq<Move>)
    requires Run(states, moves, mp, mq)
    ensures Run(states', moves', mp, mq) && states <= states' && moves <= moves'
    ensures Done(states'[|moves'|].p) && Done(states'[|moves'|].q)
    decreases Remaining(states[|moves|], mp, mq)
  {
    hide CanMove, After, Total, Inv, Done;
    var net := states[|moves|];
    RunHasInv(states, moves, mp, mq, |moves|);
    if Done(net.p) && Done(net.q) {
      states', moves' := states, moves;
    } else {
      RemainingNonnegative(net, mp, mq);
      var m := MoveForward(net, mp, mq);
      RunGoesOn(states, moves, m, mp, mq);
      states', moves' := RunCanFinish(states + [After(net, m, mp, mq)], moves + [m], mp, mq);
    }
  }

  // ----- the class

  class Stream {
    var data: seq<Byte>
    var len: nat
  }

  class Channel {
    var bytes: seq<Byte>
  }

  class Exchanger {
    const sendChannel: Channel
    const receiveChannel: Channel
    const sendStream: Stream
    const receiveStream: Stream
    var sent: nat
    var received: nat
    var lengthReceived: bool
    var newLen: nat
    var len: nat

    ghost function Abs(): Side
      reads this, sendStream, receiveStream
    {
      Side(sendStream == receiveStream, if sendStream == receiveStream then [] else sendStream.data,
           receiveStream.data, len, sent, received, lengthReceived, newLen)
    }

    ghost predicate Valid()
      reads this, sendStream, receiveStream
    {
      Ok(Abs()) && sendChannel != receiveChannel
    }

    /** The source throws when the length does not encode. */
    constructor (sendChannel: Channel, sendStream: Stream, receiveChannel: Channel, receiveStream: Stream)
      requires sendChannel != receiveChannel && sendStream.len <= |sendStream.data|
      requires sendStream.len < SIZE_BOUND && EncodeLength(sendStream.len, LENGTH_SIZE).Bytes?
      modifies sendChannel
      ensures Valid()
      ensures this.sendChannel == sendChannel && this.receiveChannel == receiveChannel
      ensures this.sendStream == sendStream && this.receiveStream == receiveStream
      ensures sendStream.len < Pow(256, LENGTH_SIZE) ==> Fresh(Abs(), sendStream.data[..sendStream.len])
      ensures sendChannel.bytes == old(sendChannel.bytes) + Header(sendStream.data[..sendStream.len])
    {
      this.sendChannel, this.receiveChannel := sendChannel, receiveChannel;
      this.sendStream, this.receiveStream := sendStream, receiveStream;
      len := sendStream.len;
      sent, received, lengthReceived, newLen := 0, 0, false, 0;
      new;
      sendChannel.bytes := sendChannel.bytes + EncodeLength(len, LENGTH_SIZE).bytes;
    }

    method DoSend(quota: nat)
      requires Valid()
      modifies this`sent, sendChannel
      ensures Valid() && Abs() == AfterSend(old(Abs()), quota)
      ensures sendChannel.bytes == old(sendChannel.bytes) + SentBytes(old(Abs()), quota)
    {
      if sent < len {
        var toSend := len - sent;
        var newlySent := if quota < toSend then quota else toSend;
        sendChannel.bytes := sendChannel.bytes + sendStream.data[sent..sent + newlySent];
        sent := sent + newlySent;
      }
    }

    /** Moves n bytes from the channel to the buffer. */
    method Take(n: nat)
      requires Valid() && received < newLen && n <= ToReceive(Abs()) && n <= |receiveChannel.bytes|
      modifies this`received, receiveStream`data, receiveChannel
      ensures Valid() && Abs() == AfterReceive(old(Abs()), old(receiveChannel.bytes)[..n])
      ensures receiveChannel.bytes == old(receiveChannel.bytes)[n..]
    {
      receiveStream.data := Overwrite(receiveStream.data, received, receiveChannel.bytes[..n]);
      receiveChannel.bytes := receiveChannel.bytes[n..];
      received := received + n;
    }

    /** Reads the length field and makes room. */
    method TakeLength()
      requires Valid() && received >= newLen && !lengthReceived && |receiveChannel.bytes| >= LENGTH_SIZE
      modifies this`newLen, this`lengthReceived, receiveStream`data, receiveChannel
      ensures Valid() && Abs() == AfterReceive(old(Abs()), old(receiveChannel.bytes)[..LENGTH_SIZE])
      ensures receiveChannel.bytes == old(receiveChannel.bytes)[LENGTH_SIZE..]
    {
      newLen := Value(receiveChannel.bytes[..LENGTH_SIZE]);
      receiveStream.data := Resize(receiveStream.data, if newLen > len then newLen else len);
      receiveChannel.bytes := receiveChannel.bytes[LENGTH_SIZE..];
      lengthReceived := true;
    }

    method DoReceive(block: bool, quota: nat) returns (blocked: bool)
      requires Valid()
      modifies this`received, this`newLen, this`lengthReceived, receiveStream`data, receiveChannel
      ensures Valid()
      ensures match ReceiveCount(old(Abs()), Min(quota, |old(receiveChannel.bytes)|), block)
        case Blocked => blocked && Abs() == old(Abs()) && receiveChannel.bytes == old(receiveChannel.bytes)
        case Took(n) => !blocked && Abs() == AfterReceive(old(Abs()), old(receiveChannel.bytes)[..n])
                        && receiveChannel.bytes == old(receiveChannel.bytes)[n..]
    {
      hide Overwrite, Resize, Value;
      blocked := false;
      var visible := Min(quota, |receiveChannel.bytes|);
      if received < newLen {
        var toReceive := 0;
        if sent == len || sendStream != receiveStream {
          toReceive := newLen - received;
        } else if sent > received {
          toReceive := sent - received;
        }
        if toReceive > 0 {
          if sent < len || !block {
            Take(Min(toReceive, visible));
          } else if visible < toReceive {
            blocked := true;
          } else {
            Take(toReceive);
          }
        } else {
          NothingReceived(Abs());
        }
      } else if !lengthReceived {
        if visible >= LENGTH_SIZE {
          TakeLength();
        } else if sent == len && block {
          blocked := true;
        }
      }
    }

    /** One call of round: the step of the state machine on this endpoint and its two channels.  When
        the call blocks it has not returned yet and goes on as a further round. */
    method DoOneRound(block: bool, sendQuota: nat, receiveQuota: nat) returns (more: bool, blocked: bool)
      requires Valid()
      modifies this`sent, this`received, this`newLen, this`lengthReceived, receiveStream`data,
               sendChannel, receiveChannel
      ensures Valid() && more == !Done(Abs())
      ensures old(sendChannel.bytes) <= sendChannel.bytes
      ensures RoundResult(Abs(), sendChannel.bytes[|old(sendChannel.bytes)|..], receiveChannel.bytes, blocked)
           == Round(old(Abs()), old(receiveChannel.bytes), block, sendQuota, receiveQuota)
    {
      DoSend(sendQuota);
      blocked := DoReceive(block, receiveQuota);
      more := received < newLen || sent < len || !lengthReceived;
    }

    /** The destructor hands the received message over. */
    method Finish()
      requires Valid()
      modifies receiveStream`len
      ensures receiveStream.len == newLen
    {
      receiveStream.len := newLen;
    }
  }
}
