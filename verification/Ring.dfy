/** Any number of endpoints in a ring, each sending to the next and receiving from the one before:
    pass_around of Networking/Player.cpp over the exchanger of Networking/Exchanger.h. */
module Ring {
  import opened LengthField
  import opened Exchange
  import opened Arith

  /** wire[i] holds what endpoint i has written and the next one has not consumed. */
  datatype Ring = Ring(sides: seq<Side>, up: seq<bool>, wire: seq<seq<Byte>>)

  datatype Turn = Turn(who: nat, e: Event)

  function Before(i: nat, n: nat): nat
    requires i < n
  {
    if i == 0 then n - 1 else i - 1
  }

  predicate Shaped(r: Ring, ms: seq<seq<Byte>>) { |r.sides| == |r.up| == |r.wire| == |ms| >= 2 }

  /** Endpoint i with its two wires. */
  ghost function View(r: Ring, ms: seq<seq<Byte>>, i: nat): Net
    requires Shaped(r, ms) && i < |ms|
  {
    var q := Before(i, |ms|);
    Net(r.sides[i], r.sides[q], r.up[i], r.up[q], r.wire[i], r.wire[q])
  }

  ghost function Put(r: Ring, ms: seq<seq<Byte>>, i: nat, net: Net): (r': Ring)
    requires Shaped(r, ms) && i < |ms|
    ensures Shaped(r', ms)
  {
    Ring(r.sides[i := net.p], r.up[i := net.pUp], r.wire[i := net.pq][Before(i, |ms|) := net.qp])
  }

  /** One step of one endpoint; a step that is not possible changes nothing. */
  ghost function Step(r: Ring, ms: seq<seq<Byte>>, t: Turn): (r': Ring)
    requires Shaped(r, ms)
    ensures Shaped(r', ms)
  {
    if t.who < |ms| && CanStep(View(r, ms, t.who), t.e)
    then Put(r, ms, t.who, StepP(View(r, ms, t.who), t.e, ms[t.who]))
    else r
  }

  ghost function Play(r: Ring, ms: seq<seq<Byte>>, turns: seq<Turn>): (r': Ring)
    requires Shaped(r, ms)
    ensures Shaped(r', ms)
  {
    if turns == [] then r else Step(Play(r, ms, turns[..|turns| - 1]), ms, turns[|turns| - 1])
  }

  ghost predicate FreshRing(r: Ring, ms: seq<seq<Byte>>) {
    Shaped(r, ms) && forall i :: 0 <= i < |ms| ==> Fresh(r.sides[i], ms[i]) && !r.up[i] && r.wire[i] == []
  }

  // ----- safety

  /** A buffer used both ways is at least two bytes longer than a nonempty incoming message. */
  predicate Overreads(shared: bool, mine: nat, theirs: nat) { shared && 1 <= theirs && theirs + 2 <= mine }

  ghost predicate LengthsAgree(r: Ring, ms: seq<seq<Byte>>)
    requires Shaped(r, ms)
  {
    forall i :: 0 <= i < |ms| ==> !Overreads(r.sides[i].shared, |ms[i]|, |ms[Before(i, |ms|)]|)
  }

  ghost predicate FlowAt(r: Ring, ms: seq<seq<Byte>>, i: nat)
    requires Shaped(r, ms) && i < |ms|
  {
    var q := Before(i, |ms|);
    Flow(r.sides[i], r.sides[q], r.up[i], r.up[q], ms[i], ms[q], r.wire[q])
  }

  ghost predicate RingInv(r: Ring, ms: seq<seq<Byte>>) {
    && Shaped(r, ms)
    && (forall i :: 0 <= i < |ms| ==> FlowAt(r, ms, i))
  }

  ghost predicate SameKinds(r: Ring, r': Ring) {
    |r.sides| == |r'.sides| && forall i :: 0 <= i < |r.sides| ==> r'.sides[i].shared == r.sides[i].shared
  }

  /** What a step of p does to the stream it reads and to the stream it writes, which s reads. */
  lemma StepKeepsFlows(net: Net, e: Event, s: Side, sUp: bool, mp: seq<Byte>, mq: seq<Byte>, ms: seq<Byte>)
    requires CanStep(net, e) && Flow(net.p, net.q, net.pUp, net.qUp, mp, mq, net.qp)
    requires Flow(s, net.p, sUp, net.pUp, ms, mp, net.pq) && !Overreads(net.p.shared, |mp|, |mq|)
    ensures var net' := StepP(net, e, mp);
            && Flow(net'.p, net.q, net'.pUp, net.qUp, mp, mq, net'.qp) && Flow(s, net'.p, sUp, net'.pUp, ms, mp, net'.pq)
            && net'.p.shared == net.p.shared && net'.q == net.q && net'.qUp == net.qUp
  {
    match e
    case Start =>
      assert Pending(s, net.p, true, mp) == Header(mp);
    case DoRound(block, k, l) =>
      RoundWithin(net.p, net.q, s, mp, mq, ms, net.pq, net.qp, net.qUp, sUp, block, k, l);
    case NextExchange(bytes) =>
      assert Pending(s, net.p, true, mp) <= net.pq + bytes;
  }

  lemma RoundWithin(p: Side, q: Side, s: Side, mp: seq<Byte>, mq: seq<Byte>, ms: seq<Byte>, ps: seq<Byte>, qp: seq<Byte>,
                    qUp: bool, sUp: bool, block: bool, k: nat, l: nat)
    requires Flow(p, q, true, qUp, mp, mq, qp) && Flow(s, p, sUp, true, ms, mp, ps) && !Overreads(p.shared, |mp|, |mq|)
    ensures var r := Round(p, qp, block, k, l);
            && Flow(r.side, q, true, qUp, mp, mq, r.rest) && Flow(s, r.side, sUp, true, ms, mp, ps + r.written)
            && r.side.shared == p.shared
  {
    RoundKeepsFlows(p, q, s, mp, mq, ms, ps, qp, qUp, sUp, block, k, l);
  }

  lemma StepKeepsRing(r: Ring, ms: seq<seq<Byte>>, t: Turn)
    requires RingInv(r, ms) && LengthsAgree(r, ms)
    ensures RingInv(Step(r, ms, t), ms) && SameKinds(r, Step(r, ms, t))
  {
    hide Flow, StepP, CanStep;
    var n, i, r' := |ms|, t.who, Step(r, ms, t);
    if i < n && CanStep(View(r, ms, i), t.e) {
      var q, s, net := Before(i, n), if i == n - 1 then 0 else i + 1, View(r, ms, i);
      assert FlowAt(r, ms, i) && FlowAt(r, ms, s) && Before(s, n) == i;
      StepKeepsFlows(net, t.e, r.sides[s], r.up[s], ms[i], ms[q], ms[s]);
      forall j | 0 <= j < n ensures FlowAt(r', ms, j) {
        assert FlowAt(r, ms, j);
        if j != i && j != s { assert Before(j, n) != i && Before(j, n) != q; }
      }
    }
  }

  lemma {:induction false} PlayKeepsRing(r: Ring, ms: seq<seq<Byte>>, turns: seq<Turn>)
    requires FreshRing(r, ms) && LengthsAgree(r, ms)
    ensures RingInv(Play(r, ms, turns), ms) && SameKinds(r, Play(r, ms, turns))
  {
    hide Flow, Step;
    if turns == [] {
      forall i | 0 <= i < |ms| ensures FlowAt(r, ms, i) { FreshFlow(r, ms, i); }
    } else {
      var before := Play(r, ms, turns[..|turns| - 1]);
      PlayKeepsRing(r, ms, turns[..|turns| - 1]);
      StepKeepsRing(before, ms, turns[|turns| - 1]);
    }
  }

  lemma FreshFlow(r: Ring, ms: seq<seq<Byte>>, i: nat)
    requires FreshRing(r, ms) && i < |ms|
    ensures FlowAt(r, ms, i)
  {
    var q := Before(i, |ms|);
    assert Fresh(r.sides[i], ms[i]) && Fresh(r.sides[q], ms[q]);
  }

  /** With lengths that agree, in every state of every run in a ring: what an endpoint has received is a
      prefix of the message of the one before, and once it is done it holds exactly that message. */
  lemma RingIsCorrect(r: Ring, ms: seq<seq<Byte>>, turns: seq<Turn>, i: nat)
    requires FreshRing(r, ms) && LengthsAgree(r, ms) && i < |ms|
    ensures var s, theirs := Play(r, ms, turns).sides[i], ms[Before(i, |ms|)];
            && s.received <= s.newLen && s.received <= |theirs| && s.received <= |s.buffer|
            && s.buffer[..s.received] == theirs[..s.received]
            && (Done(s) ==> s.newLen == |theirs| <= |s.buffer| && s.buffer[..s.newLen] == theirs)
  {
    hide Play;
    PlayKeepsRing(r, ms, turns);
    FlowMeans(Play(r, ms, turns), ms, i);
  }

  lemma FlowMeans(r: Ring, ms: seq<seq<Byte>>, i: nat)
    requires RingInv(r, ms) && i < |ms|
    ensures var s, theirs := r.sides[i], ms[Before(i, |ms|)];
            && s.received <= s.newLen && s.received <= |theirs| && s.received <= |s.buffer|
            && s.buffer[..s.received] == theirs[..s.received]
            && (Done(s) ==> s.newLen == |theirs| <= |s.buffer| && s.buffer[..s.newLen] == theirs)
  {
    hide Pending, Pow, Header;
    assert FlowAt(r, ms, i);
  }

  // ----- the failing run

  /** A first round that sends k bytes and meets nothing to receive. */
  lemma SendOnly(p: Side, m: seq<Byte>, k: nat, incoming: seq<Byte>)
    requires Fresh(p, m) && k <= |m|
    ensures Ok(p) && Round(p, incoming, false, k, 0) == RoundResult(p.(sent := k), m[..k], incoming, false)
  {
    assert SentBytes(p, k) == m[..k];
  }

  /** A first round that sends k bytes and receives the length of the message before. */
  lemma SendAndLength(p: Side, m: seq<Byte>, k: nat, theirs: seq<Byte>, rest: seq<Byte>)
    requires Fresh(p, m) && k <= |m| && |theirs| < Pow(256, LENGTH_SIZE)
    ensures var x := Round(p, Header(theirs) + rest, false, k, LENGTH_SIZE);
            && x.written == m[..k] && x.rest == rest && Ok(x.side) && x.side.shared == p.shared && x.side.len == p.len
            && x.side.sent == k && x.side.received == 0 && x.side.lengthReceived && x.side.newLen == |theirs|
  {
    var incoming := Header(theirs) + rest;
    assert incoming[..LENGTH_SIZE] == Header(theirs) && incoming[LENGTH_SIZE..] == rest;
    assert SentBytes(p, k) == m[..k];
    LittleEndianValue(|theirs|, LENGTH_SIZE);
    Small(|theirs|, Pow(256, LENGTH_SIZE));
  }

  /** A round that receives as much as the endpoint asks for. */
  lemma ReceiveOnly(p: Side, incoming: seq<Byte>)
    requires Ok(p) && p.lengthReceived && p.received == 0 && p.newLen <= |incoming|
    requires p.received < p.newLen ==> ToReceive(p) <= |incoming|
    ensures var x := Round(p, incoming, false, 0, |incoming|);
            && x.written == [] && Ok(p) && x.side.sent == p.sent && x.side.len == p.len && x.side.newLen == p.newLen
            && x.side.lengthReceived && x.side.received == if 0 < p.newLen then ToReceive(p) else 0
  {}

  lemma StartOne(r: Ring, ms: seq<seq<Byte>>, j: nat)
    requires Shaped(r, ms) && j < |ms| && !r.up[j]
    ensures Step(r, ms, Turn(j, Start)) == Ring(r.sides, r.up[j := true], r.wire[j := r.wire[j] + Header(ms[j])])
  {
    var r' := Step(r, ms, Turn(j, Start));
    assert r'.sides == r.sides && r'.wire == r.wire[j := r.wire[j] + Header(ms[j])];
  }

  lemma RoundOne(r: Ring, ms: seq<seq<Byte>>, j: nat, k: nat, l: nat, x: RoundResult)
    requires Shaped(r, ms) && j < |ms| && r.up[j] && Ok(r.sides[j])
    requires x == Round(r.sides[j], r.wire[Before(j, |ms|)], false, k, l)
    ensures Step(r, ms, Turn(j, DoRound(false, k, l)))
         == Ring(r.sides[j := x.side], r.up, r.wire[j := r.wire[j] + x.written][Before(j, |ms|) := x.rest])
  {
    hide Round, Ok;
    var r' := Step(r, ms, Turn(j, DoRound(false, k, l)));
    assert r.up[j := true] == r.up && r'.up == r.up;
  }

  lemma WriteOn(r: Ring, ms: seq<seq<Byte>>, j: nat, bytes: seq<Byte>)
    requires Shaped(r, ms) && j < |ms| && r.up[j] && Done(r.sides[j])
    ensures Step(r, ms, Turn(j, NextExchange(bytes))) == Ring(r.sides, r.up, r.wire[j := r.wire[j] + bytes])
  {
    var r' := Step(r, ms, Turn(j, NextExchange(bytes)));
    assert r'.sides == r.sides && r'.up == r.up && r'.wire == r.wire[j := r.wire[j] + bytes];
  }

  lemma PlaySnoc(r: Ring, ms: seq<seq<Byte>>, turns: seq<Turn>, t: Turn)
    requires Shaped(r, ms)
    ensures Play(r, ms, turns + [t]) == Step(Play(r, ms, turns), ms, t)
  {
    assert (turns + [t])[..|turns|] == turns;
  }

  /** Endpoints a, q and i have been constructed. */
  lemma Constructed(r: Ring, ms: seq<seq<Byte>>, a: nat, q: nat, i: nat) returns (turns: seq<Turn>, r': Ring)
    requires FreshRing(r, ms) && a < |ms| && q < |ms| && i < |ms| && a != q && q != i && i != a
    ensures r' == Play(r, ms, turns) && r'.sides == r.sides && r'.up[a] && r'.up[q] && r'.up[i]
    ensures r'.wire[a] == Header(ms[a]) && r'.wire[q] == Header(ms[q])
  {
    hide Step;
    var ta, tq, ti := Turn(a, Start), Turn(q, Start), Turn(i, Start);
    PlaySnoc(r, ms, [], ta);
    PlaySnoc(r, ms, [ta], tq);
    PlaySnoc(r, ms, [ta] + [tq], ti);
    assert [] + [ta] == [ta];
    StartOne(r, ms, a);
    var r1 := Step(r, ms, ta);
    StartOne(r1, ms, q);
    var r2 := Step(r1, ms, tq);
    StartOne(r2, ms, i);
    turns, r' := [ta] + [tq] + [ti], Step(r2, ms, ti);
  }

  /** Endpoint a sends its whole message. */
  lemma SendsAll(r: Ring, ms: seq<seq<Byte>>, a: nat, t: Turn)
    requires Shaped(r, ms) && a < |ms| && Fresh(r.sides[a], ms[a]) && r.up[a] && r.wire[a] == Header(ms[a])
    requires t == Turn(a, DoRound(false, |ms[a]|, 0))
    ensures var r' := Step(r, ms, t);
            && r'.up == r.up && r'.wire == r.wire[a := Header(ms[a]) + ms[a]]
            && r'.sides == r.sides[a := r.sides[a].(sent := |ms[a]|)]
  {
    hide Step, Round, Header;
    var incoming := r.wire[Before(a, |ms|)];
    SendOnly(r.sides[a], ms[a], |ms[a]|, incoming);
    RoundOne(r, ms, a, |ms[a]|, 0, Round(r.sides[a], incoming, false, |ms[a]|, 0));
    assert ms[a][..|ms[a]|] == ms[a];
    var w := Header(ms[a]) + ms[a];
    assert r.wire[a := w][Before(a, |ms|) := incoming] == r.wire[a := w];
  }

  /** Endpoint q sends k bytes and learns the length of the message before. */
  lemma Learns(r: Ring, ms: seq<seq<Byte>>, q: nat, k: nat, theirs: seq<Byte>, rest: seq<Byte>, t: Turn)
    requires Shaped(r, ms) && q < |ms| && Fresh(r.sides[q], ms[q]) && r.up[q] && k <= |ms[q]|
    requires r.wire[Before(q, |ms|)] == Header(theirs) + rest && |theirs| < Pow(256, LENGTH_SIZE)
    requires t == Turn(q, DoRound(false, k, LENGTH_SIZE))
    ensures var r' := Step(r, ms, t); var p := r'.sides[q];
            && r'.up == r.up && r'.wire == r.wire[q := r.wire[q] + ms[q][..k]][Before(q, |ms|) := rest]
            && r'.sides == r.sides[q := p] && Ok(p) && p.shared == r.sides[q].shared && p.len == |ms[q]|
            && p.sent == k && p.received == 0 && p.lengthReceived && p.newLen == |theirs|
  {
    hide Step, Round, Header;
    FreshIsOk(r.sides[q], ms[q]);
    SendAndLength(r.sides[q], ms[q], k, theirs, rest);
    RoundOne(r, ms, q, k, LENGTH_SIZE, Round(r.sides[q], Header(theirs) + rest, false, k, LENGTH_SIZE));
  }

  /** Endpoint q receives what it asks for. */
  lemma Receives(r: Ring, ms: seq<seq<Byte>>, q: nat, incoming: seq<Byte>, t: Turn)
    requires Shaped(r, ms) && q < |ms| && r.up[q] && r.wire[Before(q, |ms|)] == incoming
    requires Ok(r.sides[q]) && r.sides[q].lengthReceived && r.sides[q].received == 0 && r.sides[q].newLen <= |incoming|
    requires 0 < r.sides[q].newLen ==> ToReceive(r.sides[q]) <= |incoming|
    requires t == Turn(q, DoRound(false, 0, |incoming|))
    ensures var r', p := Step(r, ms, t), r.sides[q]; var p' := r'.sides[q];
            && r'.up == r.up && r'.wire[q] == r.wire[q] && r'.sides == r.sides[q := p']
            && p'.sent == p.sent && p'.len == p.len && p'.newLen == p.newLen && p'.lengthReceived
            && p'.received == if 0 < p.newLen then ToReceive(p) else 0
  {
    hide Step, Round, Header;
    ReceiveOnly(r.sides[q], incoming);
    RoundOne(r, ms, q, 0, |incoming|, Round(r.sides[q], incoming, false, 0, |incoming|));
    assert r.wire[q] + [] == r.wire[q];
  }

  /** Endpoint a sends everything; q sends and receives everything, is done and writes one byte on. */
  lemma PeerFinishes(r: Ring, ms: seq<seq<Byte>>, a: nat, q: nat) returns (turns: seq<Turn>, r': Ring)
    requires Shaped(r, ms) && q < |ms| && a == Before(q, |ms|)
    requires Fresh(r.sides[a], ms[a]) && Fresh(r.sides[q], ms[q]) && r.up[a] && r.up[q]
    requires r.wire[a] == Header(ms[a]) && r.wire[q] == Header(ms[q])
    ensures r' == Play(r, ms, turns) && r'.up == r.up && r'.wire[q] == Header(ms[q]) + (ms[q] + [0])
    ensures forall j :: 0 <= j < |ms| && j != a && j != q ==> r'.sides[j] == r.sides[j]
  {
    hide Step, Round, Fresh, Header, Play;
    FreshIsOk(r.sides[a], ms[a]);
    FreshIsOk(r.sides[q], ms[q]);
    var t1, t2 := Turn(a, DoRound(false, |ms[a]|, 0)), Turn(q, DoRound(false, |ms[q]|, LENGTH_SIZE));
    var t3, t4 := Turn(q, DoRound(false, 0, |ms[a]|)), Turn(q, NextExchange([0]));
    SendsAll(r, ms, a, t1);
    var r1 := Step(r, ms, t1);
    Learns(r1, ms, q, |ms[q]|, ms[a], ms[a], t2);
    var r2 := Step(r1, ms, t2);
    assert ms[q][..|ms[q]|] == ms[q];
    Receives(r2, ms, q, ms[a], t3);
    var r3 := Step(r2, ms, t3);
    WriteOn(r3, ms, q, [0]);
    r' := Step(r3, ms, t4);
    turns := [t1, t2, t3, t4];
    PlayFour(r, ms, t1, t2, t3, t4);
    assert r'.wire[q] == Header(ms[q]) + ms[q] + [0];
  }

  lemma PlayFour(r: Ring, ms: seq<seq<Byte>>, t1: Turn, t2: Turn, t3: Turn, t4: Turn)
    requires Shaped(r, ms)
    ensures Play(r, ms, [t1, t2, t3, t4]) == Step(Step(Step(Step(r, ms, t1), ms, t2), ms, t3), ms, t4)
    ensures Play(r, ms, [t1, t2]) == Step(Step(r, ms, t1), ms, t2)
  {
    hide Step;
    PlaySnoc(r, ms, [], t1);
    PlaySnoc(r, ms, [t1], t2);
    PlaySnoc(r, ms, [t1, t2], t3);
    PlaySnoc(r, ms, [t1, t2, t3], t4);
    assert [] + [t1] == [t1] && [t1] + [t2] == [t1, t2] && [t1, t2] + [t3] == [t1, t2, t3];
    assert [t1, t2, t3] + [t4] == [t1, t2, t3, t4];
  }

  lemma {:induction false} PlayOn(r: Ring, ms: seq<seq<Byte>>, first: seq<Turn>, more: seq<Turn>)
    requires Shaped(r, ms)
    ensures Play(r, ms, first + more) == Play(Play(r, ms, first), ms, more)
  {
    hide Step;
    if more == [] {
      assert first + more == first;
    } else {
      var k := |more| - 1;
      PlayOn(r, ms, first, more[..k]);
      assert (first + more)[..|first| + k] == first + more[..k];
    }
  }

  /** The endpoint two before i sends everything, so the one before i receives everything, finishes and writes
      on; then i, in the middle of its own message, takes a byte that is not of this exchange. */
  lemma OverreadRun(r: Ring, ms: seq<seq<Byte>>, i: nat) returns (turns: seq<Turn>)
    requires FreshRing(r, ms) && |ms| >= 3 && i < |ms|
    requires Overreads(r.sides[i].shared, |ms[i]|, |ms[Before(i, |ms|)]|)
    ensures var p := Play(r, ms, turns).sides[i]; p.received == p.newLen + 1
  {
    hide Step, Round, Fresh, Header, Play;
    var n := |ms|;
    var q := Before(i, n);
    var a := Before(q, n);
    assert Fresh(r.sides[a], ms[a]) && Fresh(r.sides[q], ms[q]) && Fresh(r.sides[i], ms[i]);
    FreshIsOk(r.sides[q], ms[q]);
    var first, r1 := Constructed(r, ms, a, q, i);
    var next, r2 := PeerFinishes(r1, ms, a, q);
    PlayOn(r, ms, first, next);
    var k := |ms[q]| + 1;
    var t1, t2 := Turn(i, DoRound(false, k, LENGTH_SIZE)), Turn(i, DoRound(false, 0, |ms[q] + [0]|));
    Learns(r2, ms, i, k, ms[q], ms[q] + [0], t1);
    var r3 := Step(r2, ms, t1);
    Receives(r3, ms, i, ms[q] + [0], t2);
    PlayFour(r2, ms, t1, t2, t2, t2);
    PlayOn(r, ms, first + next, [t1, t2]);
    turns := first + next + [t1, t2];
  }

  ghost predicate InBounds(r: Ring) { forall i :: 0 <= i < |r.sides| ==> r.sides[i].received <= r.sides[i].newLen }

  /** In a ring of three or more, no endpoint of any run receives more than the message before it exactly when
      no buffer that is used both ways is two or more bytes longer than a nonempty incoming message. */
  lemma RingIsSafeIff(r: Ring, ms: seq<seq<Byte>>)
    requires FreshRing(r, ms) && |ms| >= 3
    ensures (forall turns :: InBounds(Play(r, ms, turns))) <==> LengthsAgree(r, ms)
  {
    hide Step, Fresh, Flow, Play;
    if LengthsAgree(r, ms) {
      forall turns ensures InBounds(Play(r, ms, turns)) {
        forall i | 0 <= i < |ms| ensures Play(r, ms, turns).sides[i].received <= Play(r, ms, turns).sides[i].newLen {
          RingIsCorrect(r, ms, turns, i);
        }
      }
    } else {
      var i :| 0 <= i < |ms| && Overreads(r.sides[i].shared, |ms[i]|, |ms[Before(i, |ms|)]|);
      var turns := OverreadRun(r, ms, i);
      assert !InBounds(Play(r, ms, turns));
    }
  }

  lemma FreshIsOk(p: Side, m: seq<Byte>)
    requires Fresh(p, m)
    ensures Ok(p) && p.len == |m| && |m| < Pow(256, LENGTH_SIZE)
  {}
}
