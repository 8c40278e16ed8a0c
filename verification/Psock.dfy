/**
 * Protosockets (uip/psock.c, with the protothread macros of uip/pt.h and uip/lc-switch.h).
 *
 * A protothread that is parked at its only PT_WAIT_UNTIL is a `waiting` flag; each call
 * continues there.  One call is made per application event, and another in the same event
 * whenever a call has ended.
 */
module Psock {
  import opened Words

  datatype SockState = NoState | Acked | Read | BlockedNewdata | DataSent

  /** What uip_newdata, uip_appdata with uip_datalen, uip_rexmit, uip_acked and uip_mss return in an event. */
  datatype Event = Event(newdata: bool, data: seq<byte>, rexmit: bool, acked: bool, mss: u16)

  /** The index of the first `c`, or the length. */
  function IndexOf(s: seq<byte>, c: byte): (k: nat)
    ensures k <= |s|
    ensures k < |s| ==> s[k] == c
    ensures forall j :: 0 <= j < k ==> s[j] != c
  {
    if s == [] || s[0] == c then 0 else 1 + IndexOf(s[1..], c)
  }

  /** Reading `d` up to the marker turns the line `l0` into `l1` and leaves `rest` bytes. */
  ghost predicate Scanned(l0: seq<byte>, d: seq<byte>, c: byte, found: bool, l1: seq<byte>, rest: nat)
  {
    var k := IndexOf(d, c);
    && (found <==> k < |d|)
    && l1 == l0 + (if found then d[..k + 1] else d)
    && rest == (if found then |d| - (k + 1) else 0)
  }

  /** A scan may be interrupted after any bytes that are not markers. */
  lemma {:induction false} ScannedFrom(l0: seq<byte>, d: seq<byte>, c: byte, i: nat, found: bool, l1: seq<byte>, rest: nat)
    requires i <= |d| && forall j :: 0 <= j < i ==> d[j] != c
    requires Scanned(l0 + d[..i], d[i..], c, found, l1, rest)
    ensures Scanned(l0, d, c, found, l1, rest)
  {
    IndexOfSuffix(d, c, i);
    TakeSplit(l0, d, i, if found then IndexOf(d, c) + 1 else |d|);
  }

  lemma TakeSplit(l: seq<byte>, d: seq<byte>, i: nat, m: nat)
    requires i <= m <= |d|
    ensures l + d[..i] + d[i..][..m - i] == l + d[..m]
    ensures d[..|d|] == d && d[i..][..|d| - i] == d[i..]
  {
    assert d[..m] == d[..i] + d[i..][..m - i];
  }

  lemma {:induction false} IndexOfSuffix(s: seq<byte>, c: byte, i: nat)
    requires i <= |s| && forall j :: 0 <= j < i ==> s[j] != c
    ensures IndexOf(s, c) == i + IndexOf(s[i..], c)
  {
    if i > 0 {
      IndexOfSuffix(s[1..], c, i - 1);
      assert s[1..][i - 1..] == s[i..];
    }
  }

  /** The first `n` bytes at most. */
  function Cap(s: seq<byte>, n: nat): seq<byte> { if |s| <= n then s else s[..n] }

  /** The last of the pieces of at most `mss` bytes. */
  function LastPiece(s: seq<byte>, mss: nat): seq<byte>
    requires mss > 0
  {
    if |s| <= mss then s else LastPiece(s[mss..], mss)
  }

  /** struct psock_buf, with `ptr` as an index into the application's buffer. */
  class PsockBuf {
    const mem: array<byte>
    var ptr: nat
    var left: nat
    /** All bytes read since buf_setup, stored or thrown away. */
    ghost var line: seq<byte>

    /** The buffer holds what fits of the line. */
    ghost predicate Valid()
      reads this, mem
    {
      && mem.Length > 0 && ptr + left == mem.Length
      && ptr == (if |line| <= mem.Length then |line| else mem.Length)
      && forall i :: 0 <= i < ptr ==> mem[i] == line[i]
    }

    constructor (buffer: array<byte>)
      requires buffer.Length > 0
      ensures Valid() && mem == buffer && line == []
    {
      mem, ptr, left, line := buffer, 0, buffer.Length, [];
    }

    /** buf_setup */
    method Setup()
      requires Valid()
      modifies this
      ensures Valid() && line == []
    {
      ptr := 0;
      left := mem.Length;
      line := [];
    }

    method Store(c: byte)
      requires Valid() && left > 0
      modifies this, mem
      ensures Valid() && left == old(left) - 1 && line == old(line) + [c]
    {
      mem[ptr] := c;
      ptr := ptr + 1;
      left := left - 1;
      line := line + [c];
    }

    /** The first loop of buf_bufto: all bytes but the last that are stored are no markers. */
    method FillTo(endmarker: byte, data: seq<byte>) returns (found: bool, n: nat)
      requires Valid()
      modifies this, mem
      ensures Valid() && n <= |data| && line == old(line) + data[..n] && left == old(left) - n
      ensures found ==> n > 0 && IndexOf(data, endmarker) == n - 1
      ensures !found ==> (left == 0 || n == |data|) && forall j :: 0 <= j < n ==> data[j] != endmarker
    {
      n := 0;
      while left > 0 && n < |data|
        invariant Valid() && n <= |data| && line == old(line) + data[..n] && left == old(left) - n
        invariant forall j :: 0 <= j < n ==> data[j] != endmarker
      {
        var c := data[n];
        Store(c);
        n := n + 1;
        assert data[..n] == data[..n - 1] + [c];
        if c == endmarker {
          IndexOfIs(data, endmarker, n - 1);
          return true, n;
        }
      }
      return false, n;
    }

    /** The second loop of buf_bufto, which throws bytes away while the buffer is full. */
    method SkipTo(endmarker: byte, data: seq<byte>) returns (found: bool, n: nat)
      requires Valid() && left == 0
      modifies `line
      ensures Valid() && n <= |data| && Scanned(old(line), data, endmarker, found, line, |data| - n)
    {
      n := 0;
      while n < |data|
        invariant Valid() && n <= |data| && line == old(line) + data[..n]
        invariant forall j :: 0 <= j < n ==> data[j] != endmarker
      {
        var c := data[n];
        line := line + [c];
        n := n + 1;
        assert data[..n] == data[..n - 1] + [c];
        if c == endmarker {
          IndexOfIs(data, endmarker, n - 1);
          return true, n;
        }
      }
      assert data[..n] == data;
      return false, n;
    }

    /**
     * buf_bufto on the unread `data`, of which it takes the first `n` bytes; `found` and `full`
     * are the bits BUF_FOUND and BUF_FULL of the result.
     */
    method BufTo(endmarker: byte, data: seq<byte>) returns (found: bool, full: bool, n: nat)
      requires Valid()
      modifies this, mem
      ensures Valid() && n <= |data| && Scanned(old(line), data, endmarker, found, line, |data| - n)
      ensures full <==> old(left) < |data| && old(left) <= IndexOf(data, endmarker)
    {
      found, n := FillTo(endmarker, data);
      if found {
        return true, false, n;
      }
      if n == |data| {
        assert data[..n] == data;
        return false, false, n;
      }
      var m;
      found, m := SkipTo(endmarker, data[n..]);
      ScannedFrom(old(line), data, endmarker, n, found, line, |data| - n - m);
      return found, true, n + m;
    }

    /** memcpy of `d` to buf->ptr, with the updates of ptr and left that follow it. */
    method Copy(d: seq<byte>)
      requires Valid() && |d| <= left && |line| == ptr
      modifies this, mem
      ensures Valid() && |line| == ptr && left == old(left) - |d| && line == old(line) + d
    {
      forall i | 0 <= i < |d| {
        mem[ptr + i] := d[i];
      }
      ptr := ptr + |d|;
      left := left - |d|;
      line := line + d;
    }

    /** buf_bufdata on the unread `data`, of which it takes the first `n` bytes. */
    method BufData(data: seq<byte>) returns (full: bool, n: nat)
      requires Valid() && |line| == ptr
      modifies this, mem
      ensures Valid() && |line| == ptr && n <= |data| && line == old(line) + data[..n]
      ensures full <==> |data| >= old(left)
      ensures n == if full then old(left) else |data|
      ensures left == old(left) - n
    {
      if |data| < left {
        Copy(data);
        assert data[..|data|] == data;
        return false, |data|;
      } else if |data| == left {
        Copy(data);
        assert data[..|data|] == data;
        return true, |data|;
      } else {
        n := left;
        Copy(data[..left]);
        return true, n;
      }
    }
  }

  class Psock {
    const buf: PsockBuf
    var readptr: nat
    var readlen: nat
    /** Index into the caller's buffer. */
    var sendptr: nat
    var sendlen: nat
    var state: SockState
    var waiting: bool

    ghost predicate Valid()
      reads this, buf, buf.mem
    {
      && buf.Valid()
      && (readlen > 0 ==> state == Read)
      && (waiting ==> readlen == 0 && state != Read)
    }

    /** What is left unread is the end of the event's data. */
    ghost predicate ToTheEnd(e: Event)
      reads this
    {
      readlen > 0 ==> readptr + readlen == |e.data|
    }

    /** The input a read can still consume in this event. */
    ghost function Pending(e: Event): seq<byte>
      requires ToTheEnd(e)
      reads this
    {
      if readlen > 0 then e.data[readptr..]
      else if state != Read then Input(e)
      else []
    }

    /** The part of the record under way that was read in earlier events. */
    ghost function Begun(): seq<byte>
      reads this, buf
    {
      if waiting then buf.line else []
    }

    /** psock_init */
    constructor (b: PsockBuf)
      requires b.Valid()
      ensures Valid() && buf == b && state == NoState && readlen == 0 && !waiting
    {
      buf := b;
      readptr, readlen, sendptr, sendlen := 0, 0, 0, 0;
      state, waiting := NoState, false;
    }

    /** psock_newdata */
    method NewData(e: Event) returns (b: bool)
      modifies `state
      ensures b <==> readlen > 0 || (old(state) != Read && e.newdata)
      ensures state == if readlen == 0 && old(state) == Read then BlockedNewdata else old(state)
    {
      if readlen > 0 {
        return true;
      } else if state == Read {
        state := BlockedNewdata;
        return false;
      } else if e.newdata {
        return true;
      } else {
        return false;
      }
    }

    /** The `if` in the loops of psock_readto and psock_readbuf; false when the protothread waits. */
    method Await(resumed: bool, e: Event) returns (ready: bool)
      requires ToTheEnd(e) && (resumed ==> readlen == 0)
      modifies `state, `readptr, `readlen
      ensures ready ==> readptr + readlen == |e.data| && e.data[readptr..] == old(Pending(e))
      ensures ready ==> state == if old(readlen) > 0 then old(state) else Read
      ensures ready && old(readlen) == 0 ==> old(state) != Read
      ensures !ready ==> old(Pending(e)) == [] && readlen == 0 && state != Read
    {
      if resumed || readlen == 0 {
        ready := NewData(e);
        if !ready {
          return;
        }
        state := Read;
        readptr := 0;
        readlen := |e.data|;
      }
      ready := true;
    }

    /** One round of the loop of psock_readto. */
    method ReadRound(resumed: bool, c: byte, e: Event) returns (ready: bool, found: bool)
      requires Valid() && ToTheEnd(e) && (resumed ==> readlen == 0) && !waiting
      modifies `state, `readptr, `readlen, buf, buf.mem
      ensures buf.Valid()
      ensures !ready ==> old(Pending(e)) == [] && buf.line == old(buf.line) && readlen == 0 && state != Read
      ensures ready ==> Scanned(old(buf.line), old(Pending(e)), c, found, buf.line, readlen)
      ensures ready ==> state == Read && readptr + readlen == |e.data| && (old(readlen) > 0 || old(state) != Read)
    {
      ghost var d := Pending(e);
      ready := Await(resumed, e);
      found := false;
      if ready {
        var unread := e.data[readptr..];
        assert unread == d && |unread| == readlen;
        var full, n;
        found, full, n := buf.BufTo(c, unread);
        readptr := readptr + n;
        readlen := readlen - n;
      }
    }

    /** psock_readto: true when a record has been read, false when the protothread waits. */
    method ReadTo(c: byte, e: Event) returns (ended: bool)
      requires Valid() && ToTheEnd(e)
      modifies this, buf, buf.mem
      ensures Valid() && waiting == !ended
      ensures Scanned(old(Begun()), old(Pending(e)), c, ended, buf.line, readlen)
      ensures ended ==> state == Read && readptr + readlen == |e.data|
    {
      ghost var d, l0 := Pending(e), Begun();
      var resumed := waiting;
      if !resumed {
        buf.Setup();
      }
      waiting := false;
      var found := false;
      ghost var first := true;
      while !found
        invariant buf.Valid() && ToTheEnd(e) && !waiting && (resumed ==> readlen == 0)
        invariant if first then !found && buf.line == l0 && Pending(e) == d && (readlen > 0 ==> state == Read)
                  else state == Read && readptr + readlen == |e.data| && Scanned(l0, d, c, found, buf.line, readlen)
        decreases first, !found
      {
        var ready;
        ready, found := ReadRound(resumed, c, e);
        resumed := false;
        if !ready {
          waiting := true;
          if first {
            assert l0 + d == l0;
          }
          return false;
        }
        first := false;
      }
      return true;
    }

    /** One round of the loop of psock_readbuf. */
    method FillRound(resumed: bool, e: Event) returns (ready: bool, full: bool)
      requires Valid() && ToTheEnd(e) && (resumed ==> readlen == 0) && !waiting
      requires |buf.line| == buf.ptr < buf.mem.Length
      modifies `state, `readptr, `readlen, buf, buf.mem
      ensures buf.Valid() && |buf.line| == buf.ptr
      ensures !ready ==> old(Pending(e)) == [] && buf.line == old(buf.line) && readlen == 0 && state != Read
      ensures ready ==> Filled(old(buf.line), old(Pending(e)), buf.mem.Length, full, buf.line, readlen)
      ensures ready ==> state == Read && readptr + readlen == |e.data| && (old(readlen) > 0 || old(state) != Read)
    {
      ghost var d := Pending(e);
      ready := Await(resumed, e);
      full := false;
      if ready {
        var unread := e.data[readptr..];
        assert unread == d && |unread| == readlen;
        ghost var left := buf.left;
        var n;
        full, n := buf.BufData(unread);
        FilledBy(old(buf.line), d, left, buf.mem.Length, full, n);
        readptr := readptr + n;
        readlen := readlen - n;
      }
    }

    /** psock_readbuf: true when the buffer has been filled, false when the protothread waits. */
    method ReadBuf(e: Event) returns (ended: bool)
      requires Valid() && ToTheEnd(e)
      requires waiting ==> |buf.line| == buf.ptr < buf.mem.Length
      modifies this, buf, buf.mem
      ensures Valid() && waiting == !ended && |buf.line| == buf.ptr
      ensures Filled(old(Begun()), old(Pending(e)), buf.mem.Length, ended, buf.line, readlen)
      ensures ended ==> state == Read && readptr + readlen == |e.data|
    {
      ghost var d, l0 := Pending(e), Begun();
      var resumed := waiting;
      if !resumed {
        buf.Setup();
      }
      waiting := false;
      var full := false;
      ghost var first := true;
      while !full
        invariant buf.Valid() && |buf.line| == buf.ptr && ToTheEnd(e) && !waiting && (resumed ==> readlen == 0)
        invariant if first then !full && buf.line == l0 && Pending(e) == d && (readlen > 0 ==> state == Read)
                  else state == Read && readptr + readlen == |e.data| && Filled(l0, d, buf.mem.Length, full, buf.line, readlen)
        invariant |l0| < buf.mem.Length
        decreases first, !full
      {
        var ready;
        ready, full := FillRound(resumed, e);
        resumed := false;
        if !ready {
          waiting := true;
          if first {
            assert l0 + d == l0;
          }
          return false;
        }
        first := false;
      }
      return true;
    }

    /** What a reader hands on is the part of the line that fits the buffer. */
    lemma RecordIsLine()
      requires buf.Valid()
      ensures buf.mem[..buf.ptr] == Cap(buf.line, buf.mem.Length)
    {
    }

    /** After a read that has ended the next one in the event gets exactly what was not consumed. */
    lemma PendingIsRest(e: Event, d: seq<byte>)
      requires state == Read && readptr + readlen == |e.data| && readlen <= |d| <= |e.data|
      requires d == e.data[|e.data| - |d|..]
      ensures Pending(e) == d[|d| - readlen..]
    {
    }

    /** After a read that waits the next event's read gets exactly that event's input. */
    lemma WaitingTakesAll(e: Event)
      requires Valid() && waiting
      ensures Pending(e) == Input(e) && Begun() == buf.line
    {
    }

    /** data_acked */
    method DataAcked(e: Event) returns (b: bool)
      modifies `sendptr, `sendlen, `state
      ensures b <==> old(state) == DataSent && e.acked
      ensures b ==> state == Acked && sendlen == (if old(sendlen) > e.mss then old(sendlen) - e.mss else 0)
      ensures sendptr + sendlen == old(sendptr + sendlen)
      ensures !b ==> sendlen == old(sendlen) && state == old(state)
    {
      if state == DataSent && e.acked {
        if sendlen > e.mss {
          sendlen := sendlen - e.mss;
          sendptr := sendptr + e.mss;
        } else {
          sendptr := sendptr + sendlen;
          sendlen := 0;
        }
        state := Acked;
        return true;
      }
      return false;
    }

    /** send_data; `sent` is what is passed to uip_send. */
    method SendData(data: seq<byte>, e: Event) returns (b: bool, sent: seq<byte>)
      requires sendptr + sendlen == |data|
      modifies `state
      ensures b <==> old(state) != DataSent || e.rexmit
      ensures sent == if b then Cap(data[sendptr..], e.mss) else []
      ensures state == if b then DataSent else old(state)
    {
      if state != DataSent || e.rexmit {
        if sendlen > e.mss {
          sent := data[sendptr..sendptr + e.mss];
        } else {
          sent := data[sendptr..sendptr + sendlen];
        }
        state := DataSent;
        return true, sent;
      }
      return false, [];
    }

    /**
     * psock_send: `handed` is what uip_send was last called with in this event, [] if nothing.
     * data_acked is evaluated before send_data.
     */
    method Send(data: seq<byte>, e: Event) returns (ended: bool, handed: seq<byte>)
      requires waiting && e.acked ==> e.mss > 0
      requires waiting ==> state == DataSent && 0 < sendlen && sendptr + sendlen == |data|
      modifies `sendptr, `sendlen, `state, `waiting
      ensures waiting ==> state == DataSent && 0 < sendlen && sendptr + sendlen == |data|
      ensures waiting == !ended
      ensures old(waiting) && !e.acked ==> sendptr == old(sendptr)
      ensures !old(waiting) && data != [] ==> sendptr == 0
      ensures SendContract(data, if old(waiting) then old(sendptr) else 0, old(waiting), e, ended, handed)
    {
      handed := [];
      var resumed := waiting;
      waiting := false;
      if !resumed {
        if |data| == 0 {
          return true, [];
        }
        sendptr := 0;
        sendlen := |data|;
        state := NoState;
      }
      ghost var p := sendptr;
      ghost var first := true;
      while resumed || sendlen > 0
        invariant sendptr + sendlen == |data| && !waiting
        invariant resumed ==> first
        invariant first ==> resumed == old(waiting)
        invariant first ==> sendptr == p && handed == [] && sendlen > 0 && state == (if resumed then DataSent else NoState)
        invariant !first ==> old(waiting) && e.acked && state == DataSent
        invariant !first ==> e.mss > 0 && AckedOnwards(data, p, e.mss, sendptr, handed)
        decreases sendlen, resumed
      {
        resumed := false;
        var a := DataAcked(e);
        var b, sent := SendData(data, e);
        if sent != [] {
          handed := sent;
        }
        if !(a && b) {
          waiting := true;
          return false, handed;
        }
        if first {
          assert AckedOnwards(data, p, e.mss, sendptr, handed);
        }
        first := false;
      }
      state := NoState;
      return true, handed;
    }
  }

  /** The outcome of a call of psock_send that stands at offset `p` of its data. */
  ghost predicate SendContract(data: seq<byte>, p: nat, waiting: bool, e: Event, ended: bool, handed: seq<byte>)
    requires p <= |data| && (waiting && e.acked ==> e.mss > 0)
  {
    if !waiting then
      if data == [] then ended && handed == [] else !ended && handed == Cap(data, e.mss)
    else if e.acked then
      ended && handed == if |data| - p <= e.mss then [] else LastPiece(data[p + e.mss..], e.mss)
    else
      !ended && handed == if e.rexmit then Cap(data[p..], e.mss) else []
  }

  /**
   * Inside the event of an acknowledgement: the flag stays set, so each piece that is handed
   * over next is taken for acknowledged at once.
   */
  ghost predicate AckedOnwards(data: seq<byte>, p: nat, mss: nat, q: nat, handed: seq<byte>)
    requires mss > 0
  {
    && p <= q <= |data|
    && (if |data| - p <= mss then q == |data| && handed == []
        else
          && p + mss <= q
          && (if q == |data| then handed == LastPiece(data[p + mss..], mss)
              else handed == Cap(data[q..], mss) && LastPiece(data[p + mss..], mss) == LastPiece(data[q..], mss)))
  }

  /** Reading `d` until the line `l0` has `n` bytes turns it into `l1` and leaves `rest` bytes. */
  ghost predicate Filled(l0: seq<byte>, d: seq<byte>, n: nat, full: bool, l1: seq<byte>, rest: nat)
  {
    && (full <==> |l0| + |d| >= n)
    && l1 == (if full && n <= |l0 + d| then (l0 + d)[..n] else l0 + d)
    && rest == (if full then |l0| + |d| - n else 0)
  }

  /** What buf_bufdata does, in these terms. */
  lemma FilledBy(l0: seq<byte>, d: seq<byte>, left: nat, n: nat, full: bool, taken: nat)
    requires |l0| + left == n && (full <==> |d| >= left) && taken == if full then left else |d|
    ensures Filled(l0, d, n, full, l0 + d[..taken], |d| - taken)
  {
    if full {
      assert (l0 + d)[..n] == l0 + d[..left];
    } else {
      assert d[..taken] == d;
    }
  }

  /** The data an event brings. */
  function Input(e: Event): seq<byte> { if e.newdata then e.data else [] }

  /** The byte stream that a list of events brings. */
  function Stream(es: seq<Event>): seq<byte>
  {
    if es == [] then [] else Stream(es[..|es| - 1]) + Input(es[|es| - 1])
  }

  lemma IndexOfIs(s: seq<byte>, c: byte, k: nat)
    requires k <= |s| && (k < |s| ==> s[k] == c) && forall j :: 0 <= j < k ==> s[j] != c
    ensures IndexOf(s, c) == k
  {
    var m := IndexOf(s, c);
    assert m < |s| ==> s[m] == c;
  }
}
