/** Runs of psock_send (uip/psock.c:145-213): chains of one-segment buffers, and one call for data of any length. */
module PsockSends {
  import opened P = Psock
  import opened Words

  // ---- Chains of sends ----

  datatype SendCall = SendCall(ended: bool, handed: seq<byte>)

  /**
   * The calls made in event `e` by a thread that sends the buffers one after the other and
   * stands in (or before, if not waiting) buffer i; afterwards it stands at j.
   */
  ghost predicate SendCalls(bufs: seq<seq<byte>>, i: nat, waiting: bool, e: Event,
                            calls: seq<SendCall>, j: nat, waits: bool)
    requires e.mss > 0 && i <= |bufs|
    decreases |bufs| - i
  {
    if i == |bufs| then calls == [] && j == i && !waits
    else
      && calls != []
      && SendContract(bufs[i], 0, waiting, e, calls[0].ended, calls[0].handed)
      && (if calls[0].ended then SendCalls(bufs, i + 1, false, e, calls[1..], j, waits)
          else |calls| == 1 && j == i && waits)
  }

  /** What uip_send was last called with in the event. */
  function Handed(calls: seq<SendCall>): seq<byte>
  {
    if calls == [] then []
    else
      var last := calls[|calls| - 1].handed;
      if last != [] then last else Handed(calls[..|calls| - 1])
  }

  predicate FitOneSegment(bufs: seq<seq<byte>>, e: Event)
  {
    forall k :: 0 <= k < |bufs| ==> 1 <= |bufs[k]| <= e.mss
  }

  /** With one-segment buffers only an ACK event moves on, and the event hands over one whole buffer or nothing. */
  lemma SendEvent(bufs: seq<seq<byte>>, i: nat, waiting: bool, e: Event, calls: seq<SendCall>, j: nat, waits: bool)
    requires e.mss > 0 && i <= |bufs| && FitOneSegment(bufs, e) && (waiting ==> i < |bufs|)
    requires SendCalls(bufs, i, waiting, e, calls, j, waits)
    ensures j == i + (if waiting && e.acked then 1 else 0) && j <= |bufs| && waits == (j < |bufs|)
    ensures Handed(calls) == if waits && (!waiting || e.acked || e.rexmit) then bufs[j] else []
  {
    if waiting && e.acked {
      if i + 1 < |bufs| {
        assert calls[1..][0] == calls[1] && calls[1] == SendCall(false, bufs[i + 1]);
      } else {
        assert calls[..0] == [];
      }
    } else if i < |bufs| {
      assert calls[..0] == [];
    }
  }

  datatype Position = Position(i: nat, waiting: bool)

  /** Event t is one in which the thread moves from position t to position t + 1. */
  ghost predicate SendStep(bufs: seq<seq<byte>>, e: Event, calls: seq<SendCall>, p: Position, q: Position)
  {
    && p.i <= |bufs| && (p.waiting ==> p.i < |bufs|)
    && e.mss > 0 && FitOneSegment(bufs, e)
    && (e.rexmit ==> p.waiting && !e.acked)
    && SendCalls(bufs, p.i, p.waiting, e, calls, q.i, q.waiting)
  }

  ghost predicate IsSendRun(bufs: seq<seq<byte>>, es: seq<Event>, callss: seq<seq<SendCall>>, ps: seq<Position>)
  {
    && |callss| == |es| && |ps| == |es| + 1 && ps[0] == Position(0, false)
    && forall t :: 0 <= t < |es| ==> SendStep(bufs, es[t], callss[t], ps[t], ps[t + 1])
  }

  /** The bytes handed over in those of the first n events that do not ask for a retransmission. */
  function NewBytes(es: seq<Event>, callss: seq<seq<SendCall>>, n: nat): seq<byte>
    requires n <= |es| == |callss|
  {
    if n == 0 then []
    else NewBytes(es, callss, n - 1) + (if es[n - 1].rexmit then [] else Handed(callss[n - 1]))
  }

  /** How many buffers have been acknowledged in the first n events. */
  function AckedCount(es: seq<Event>, ps: seq<Position>, n: nat): nat
    requires n <= |es| < |ps|
  {
    if n == 0 then 0 else AckedCount(es, ps, n - 1) + (if ps[n - 1].waiting && es[n - 1].acked then 1 else 0)
  }

  function Join(bufs: seq<seq<byte>>, n: nat): seq<byte>
    requires n <= |bufs|
  {
    if n == 0 then [] else Join(bufs, n - 1) + bufs[n - 1]
  }

  /**
   * Over every run each buffer is handed over as new data once and in order, and the thread
   * stands after precisely the buffers that have been acknowledged.
   */
  lemma {:induction false} ExactlyOnce(bufs: seq<seq<byte>>, es: seq<Event>, callss: seq<seq<SendCall>>,
                                       ps: seq<Position>, n: nat)
    requires IsSendRun(bufs, es, callss, ps) && n <= |es|
    ensures var p := ps[n];
            && p.i <= |bufs| && (p.waiting ==> p.i < |bufs|) && (n > 0 ==> p.waiting == (p.i < |bufs|))
            && p.i == AckedCount(es, ps, n)
            && NewBytes(es, callss, n) == Join(bufs, p.i + (if p.waiting then 1 else 0))
  {
    if n > 0 {
      ExactlyOnce(bufs, es, callss, ps, n - 1);
      var p, q := ps[n - 1], ps[n];
      assert SendStep(bufs, es[n - 1], callss[n - 1], p, q);
      SendEvent(bufs, p.i, p.waiting, es[n - 1], callss[n - 1], q.i, q.waiting);
    }
  }

  /** A retransmission repeats exactly the buffer that is outstanding. */
  lemma RexmitRepeats(bufs: seq<seq<byte>>, es: seq<Event>, callss: seq<seq<SendCall>>, ps: seq<Position>, t: nat)
    requires IsSendRun(bufs, es, callss, ps) && t < |es| && es[t].rexmit
    ensures ps[t].i < |bufs| && Handed(callss[t]) == bufs[ps[t].i] && ps[t + 1] == ps[t]
  {
    assert SendStep(bufs, es[t], callss[t], ps[t], ps[t + 1]);
    SendEvent(bufs, ps[t].i, ps[t].waiting, es[t], callss[t], ps[t + 1].i, ps[t + 1].waiting);
  }

  /** Where the thread stands after `k` events; an acknowledgement alone moves it on. */
  function Standing(n: nat, es: seq<Event>, k: nat): Position
    requires k <= |es|
  {
    if k == 0 then Position(0, false)
    else
      var p := Standing(n, es, k - 1);
      var i := p.i + (if p.waiting && es[k - 1].acked then 1 else 0);
      Position(i, i < n)
  }

  /** The events are those of a connection whose segments hold the buffers, asking for retransmissions of what is outstanding. */
  predicate Served(bufs: seq<seq<byte>>, es: seq<Event>)
  {
    forall t :: 0 <= t < |es| ==>
      && es[t].mss > 0 && FitOneSegment(bufs, es[t])
      && (es[t].rexmit ==> Standing(|bufs|, es, t).waiting && !es[t].acked)
  }

  /** The thread waits in buffer `i`, or is about to begin it. */
  predicate AtBuffer(s: Psock, bufs: seq<seq<byte>>, i: nat)
    reads s
  {
    && i <= |bufs|
    && (s.waiting ==> i < |bufs| && s.state == DataSent && s.sendptr == 0 && 0 < s.sendlen == |bufs[i]|)
  }

  /** The calls of one event: a call of psock_send that has ended is followed by the next. */
  method SendInEvent(s: Psock, bufs: seq<seq<byte>>, i: nat, e: Event) returns (calls: seq<SendCall>, j: nat)
    requires AtBuffer(s, bufs, i) && e.mss > 0
    modifies s`sendptr, s`sendlen, s`state, s`waiting
    ensures AtBuffer(s, bufs, j) && SendCalls(bufs, i, old(s.waiting), e, calls, j, s.waiting)
    decreases |bufs| - i
  {
    if i == |bufs| {
      return [], i;
    }
    var ended, handed := s.Send(bufs[i], e);
    calls, j := [SendCall(ended, handed)], i;
    if ended {
      var more;
      more, j := SendInEvent(s, bufs, i + 1, e);
      calls := calls + more;
      assert calls[1..] == more;
    }
  }

  /** A thread that sends the buffers one after the other, over any events that serve it. */
  method SendAll(s: Psock, bufs: seq<seq<byte>>, es: seq<Event>)
      returns (callss: seq<seq<SendCall>>, ghost ps: seq<Position>)
    requires !s.waiting && Served(bufs, es)
    modifies s`sendptr, s`sendlen, s`state, s`waiting
    ensures IsSendRun(bufs, es, callss, ps)
    ensures var p := Standing(|bufs|, es, |es|);
            && p.i <= |bufs| && ps[|es|] == p && (es != [] ==> s.waiting == p.waiting)
            && NewBytes(es, callss, |es|) == Join(bufs, p.i + (if p.waiting then 1 else 0))
  {
    callss, ps := [], [Position(0, false)];
    var k, i := 0, 0;
    while k < |es|
      invariant 0 <= k <= |es| && AtBuffer(s, bufs, i)
      invariant |callss| == k && |ps| == k + 1 && ps[0] == Position(0, false)
      invariant ps[k] == Position(i, s.waiting) == Standing(|bufs|, es, k)
      invariant forall t :: 0 <= t < k ==> SendStep(bufs, es[t], callss[t], ps[t], ps[t + 1])
    {
      ghost var p := ps[k];
      var calls, j := SendInEvent(s, bufs, i, es[k]);
      SendEvent(bufs, i, p.waiting, es[k], calls, j, s.waiting);
      callss, ps := callss + [calls], ps + [Position(j, s.waiting)];
      i := j;
      k := k + 1;
    }
    ExactlyOnce(bufs, es, callss, ps, |es|);
  }

  // ---- One call of psock_send, whatever the size of its data ----

  /**
   * The events of one call: the one it begins in, events without acknowledgement, and the one
   * that brings the acknowledgement.  `handed[k]` is what is handed over in event k.
   */
  ghost predicate IsSendCall(data: seq<byte>, es: seq<Event>, handed: seq<seq<byte>>)
  {
    && |es| == |handed| >= 2
    && CallEvents(es)
    && forall k :: 0 <= k < |es| ==> SendContract(data, 0, k > 0, es[k], k == |es| - 1, handed[k])
  }

  predicate CallEvents(es: seq<Event>)
  {
    && |es| >= 2 && !es[0].rexmit
    && (forall k :: 0 < k < |es| - 1 ==> !es[k].acked)
    && es[|es| - 1].acked && !es[|es| - 1].rexmit && es[|es| - 1].mss > 0
  }

  /** The method makes such a call. */
  method SendOne(s: Psock, data: seq<byte>, es: seq<Event>) returns (handed: seq<seq<byte>>)
    requires !s.waiting && data != [] && CallEvents(es)
    modifies s`sendptr, s`sendlen, s`state, s`waiting
    ensures IsSendCall(data, es, handed) && !s.waiting
  {
    handed := [];
    var k := 0;
    while k < |es|
      invariant 0 <= k <= |es| && |handed| == k && s.waiting == (0 < k < |es|)
      invariant s.waiting ==> s.state == DataSent && s.sendptr == 0 && 0 < s.sendlen == |data|
      invariant forall t :: 0 <= t < k ==> SendContract(data, 0, t > 0, es[t], t == |es| - 1, handed[t])
    {
      var ended, bytes := s.Send(data, es[k]);
      handed := handed + [bytes];
      k := k + 1;
    }
  }

  /** What the first `n` events hand over, retransmissions excepted. */
  function NewIn(es: seq<Event>, handed: seq<seq<byte>>, n: nat): seq<byte>
    requires n <= |es| == |handed|
  {
    if n == 0 then [] else NewIn(es, handed, n - 1) + (if es[n - 1].rexmit then [] else handed[n - 1])
  }

  /** Between the first event and the last nothing new is handed over. */
  lemma {:induction false} NewBeforeAck(data: seq<byte>, es: seq<Event>, handed: seq<seq<byte>>, n: nat)
    requires IsSendCall(data, es, handed) && data != [] && 0 < n < |es|
    ensures NewIn(es, handed, n) == Cap(data, es[0].mss)
  {
    if n > 1 {
      NewBeforeAck(data, es, handed, n - 1);
      assert SendContract(data, 0, true, es[n - 1], false, handed[n - 1]);
    } else {
      assert SendContract(data, 0, false, es[0], false, handed[0]);
      assert NewIn(es, handed, 0) == [];
    }
  }

  /**
   * The first event hands over one segment by the size then in force.  In the event of the
   * acknowledgement a segment by the size now in force counts as acknowledged, and the last of
   * the pieces behind it is handed over, if there is any.
   */
  lemma NewInCall(data: seq<byte>, es: seq<Event>, handed: seq<seq<byte>>)
    requires IsSendCall(data, es, handed) && data != []
    ensures var m := es[|es| - 1].mss;
            && handed[|es| - 1] == (if |data| <= m then [] else LastPiece(data[m..], m))
            && NewIn(es, handed, |es|) == Cap(data, es[0].mss) + handed[|es| - 1]
  {
    NewBeforeAck(data, es, handed, |es| - 1);
    assert SendContract(data, 0, true, es[|es| - 1], true, handed[|es| - 1]);
  }

  /** What is handed over as new is exactly the data, and nothing with the acknowledgement. */
  lemma NewAcknowledgedIff(data: seq<byte>, es: seq<Event>, handed: seq<seq<byte>>)
    requires IsSendCall(data, es, handed) && data != []
    ensures NewIn(es, handed, |es|) == data && handed[|es| - 1] == [] <==>
            |data| <= es[0].mss && |data| <= es[|es| - 1].mss
  {
    NewInCall(data, es, handed);
    var m := es[|es| - 1].mss;
    if |data| > m {
      LastPieceIs(data[m..], m);
    }
  }

  /** A retransmission hands over what the size now in force allows, whatever went out before. */
  lemma RexmitHands(data: seq<byte>, es: seq<Event>, handed: seq<seq<byte>>, k: nat)
    requires IsSendCall(data, es, handed) && k < |es| && es[k].rexmit
    ensures 0 < k < |es| - 1 && handed[k] == Cap(data, es[k].mss)
    ensures handed[k] == data <==> |data| <= es[k].mss
    ensures |data| <= es[0].mss ==> (handed[k] == handed[0] <==> |data| <= es[k].mss)
  {
    assert SendContract(data, 0, false, es[0], false, handed[0]);
    assert SendContract(data, 0, true, es[k], false, handed[k]);
  }

  /** The data, once as new and again in every retransmission, and none of it in flight at the end. */
  ghost predicate Delivers(data: seq<byte>, es: seq<Event>, handed: seq<seq<byte>>)
  {
    && |es| == |handed| > 0
    && NewIn(es, handed, |es|) == data && handed[|es| - 1] == []
    && forall k :: 0 <= k < |es| && es[k].rexmit ==> handed[k] == data
  }

  /** The data fits the size in force in the first event, in every retransmission and at the acknowledgement. */
  predicate FitsThroughout(data: seq<byte>, es: seq<Event>)
    requires |es| > 0
  {
    && |data| <= es[0].mss && |data| <= es[|es| - 1].mss
    && forall k :: 0 <= k < |es| && es[k].rexmit ==> |data| <= es[k].mss
  }

  /** The exact condition under which a call of psock_send does what it is for. */
  lemma AllAcknowledgedIff(data: seq<byte>, es: seq<Event>, handed: seq<seq<byte>>)
    requires IsSendCall(data, es, handed) && data != []
    ensures Delivers(data, es, handed) <==> FitsThroughout(data, es)
  {
    NewAcknowledgedIff(data, es, handed);
    forall k | 0 <= k < |es| && es[k].rexmit ensures handed[k] == data <==> |data| <= es[k].mss {
      RexmitHands(data, es, handed, k);
    }
  }

  /**
   * Its data and nothing else is handed over as new in one more case: it takes one full segment,
   * and the piece that is handed over with the acknowledgement is what was left.
   */
  lemma HandedOnceIff(data: seq<byte>, es: seq<Event>, handed: seq<seq<byte>>)
    requires IsSendCall(data, es, handed) && data != []
    ensures var first, m := es[0].mss, es[|es| - 1].mss;
            NewIn(es, handed, |es|) == data <==>
              || (|data| <= first && |data| <= m)
              || (|data| > first && |data| > m && |data| - first == (|data| - m - 1) % m + 1)
  {
    NewInCall(data, es, handed);
    TwoPieces(data, es[0].mss, es[|es| - 1].mss);
  }

  lemma TwoPieces(data: seq<byte>, first: nat, m: nat)
    requires m > 0 && data != []
    ensures Cap(data, first) + (if |data| <= m then [] else LastPiece(data[m..], m)) == data <==>
              || (|data| <= first && |data| <= m)
              || (|data| > first && |data| > m && |data| - first == (|data| - m - 1) % m + 1)
  {
    if |data| > m {
      var t := data[m..];
      LastPieceIs(t, m);
      var k := (|t| - 1) % m + 1;
      assert t[|t| - k..] == data[|data| - k..];
      EndJoins(data, first, k);
    } else {
      assert Cap(data, first) + [] == Cap(data, first);
    }
  }

  /** A first segment and an end make up the data exactly when they meet. */
  lemma EndJoins(data: seq<byte>, first: nat, k: nat)
    requires 0 < k <= |data|
    ensures Cap(data, first) + data[|data| - k..] == data <==> |data| > first && |data| - first == k
  {
    if |data| > first && |data| - first == k {
      assert data[..first] + data[first..] == data;
    } else {
      assert |Cap(data, first) + data[|data| - k..]| != |data|;
    }
  }

  /** The last piece is the end of the data, of the length that division leaves. */
  lemma {:induction false} LastPieceIs(s: seq<byte>, mss: nat)
    requires mss > 0 && s != []
    ensures var k := (|s| - 1) % mss + 1; k <= |s| && LastPiece(s, mss) == s[|s| - k..]
  {
    if |s| > mss {
      var t := s[mss..];
      LastPieceIs(t, mss);
      var k := (|t| - 1) % mss + 1;
      assert t[|t| - k..] == s[|s| - k..];
      Shorter(|s| - 1, mss);
    } else {
      DivisionIs(|s| - 1, mss, 0, |s| - 1);
    }
  }

  lemma Shorter(n: nat, m: nat)
    requires 0 < m <= n
    ensures (n - m) % m == n % m
  {
    var q := n / m;
    assert n - m == (q - 1) * m + n % m;
    DivisionIs(n - m, m, q - 1, n % m);
  }

  lemma DivisionIs(n: nat, m: nat, q: int, r: nat)
    requires m > 0 && n == q * m + r && r < m
    ensures n % m == r
  {
    var d := n / m - q;
    var k: int := m;
    assert d * k == r - n % m;
    AtLeastOnce(d, k);
  }

  lemma AtLeastOnce(d: int, k: int)
    requires k > 0
    ensures d >= 1 ==> d * k >= k
    ensures d <= -1 ==> d * k <= -k
  {
  }

  function Silent(mss: u16): Event { Event(false, [], false, false, mss) }

  function Retransmission(mss: u16): Event { Event(false, [], true, false, mss) }

  function Acknowledged(mss: u16): Event { Event(false, [], false, true, mss) }

  /** The size grows from 100 to 200: of 150 bytes the last 50 are never handed over. */
  lemma GrowingSizeLoses(data: seq<byte>) returns (es: seq<Event>, handed: seq<seq<byte>>)
    requires |data| == 150
    ensures es == [Silent(100), Acknowledged(200)] && IsSendCall(data, es, handed)
    ensures NewIn(es, handed, 2) == data[..100]
  {
    es, handed := [Silent(100), Acknowledged(200)], [data[..100], []];
    NewInCall(data, es, handed);
  }

  /** The size shrinks from 200 to 100: the last 50 of 150 bytes are handed over twice. */
  lemma ShrinkingSizeRepeats(data: seq<byte>) returns (es: seq<Event>, handed: seq<seq<byte>>)
    requires |data| == 150
    ensures es == [Silent(200), Acknowledged(100)] && IsSendCall(data, es, handed)
    ensures NewIn(es, handed, 2) == data + data[100..]
  {
    es, handed := [Silent(200), Acknowledged(100)], [data, data[100..]];
    assert LastPiece(data[100..], 100) == data[100..];
    NewInCall(data, es, handed);
  }

  /**
   * The size shrinks from 200 to 100 for a while: all of the data goes out as new and is
   * acknowledged, and yet the retransmission hands over only the first 100 of 150 bytes.
   */
  lemma ShrunkRetransmission(data: seq<byte>) returns (es: seq<Event>, handed: seq<seq<byte>>)
    requires |data| == 150
    ensures es == [Silent(200), Retransmission(100), Acknowledged(200)] && IsSendCall(data, es, handed)
    ensures NewIn(es, handed, 3) == data && handed[1] == data[..100] && handed[2] == []
    ensures !Delivers(data, es, handed)
  {
    es, handed := [Silent(200), Retransmission(100), Acknowledged(200)], [data, data[..100], []];
    NewInCall(data, es, handed);
    assert es[1].rexmit && |handed[1]| == 100;
  }
}
