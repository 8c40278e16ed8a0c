/**
 * Runs of the protosocket readers (uip/psock.c:272-325): what a thread makes of any list of
 * application events.
 */
module PsockRuns {
  import opened P = Psock
  import opened Words

  // ---- Cutting a stream into records ----

  /** psock_readto reads up to a marker, psock_readbuf until the buffer is full. */
  datatype Mode = ToMarker(c: byte) | ToFull(n: nat)

  /** What a thread asks for, call by call: the modes of a list, and another one for ever after. */
  datatype Script = Script(modes: seq<Mode>, after: Mode)

  function ModeOf(ms: Script, i: nat): Mode { if i < |ms.modes| then ms.modes[i] else ms.after }

  /** The length of the first record of `s`; greater than |s| when `s` holds no whole record. */
  function RecordLength(m: Mode, s: seq<byte>): (k: nat)
    ensures k > 0
  {
    match m
    case ToMarker(c) => IndexOf(s, c) + 1
    case ToFull(n) => if n == 0 then 1 else n
  }

  /** The records of a stream, from the call of number `i` on. */
  function Records(ms: Script, i: nat, s: seq<byte>): seq<seq<byte>>
    decreases |s|
  {
    var k := RecordLength(ModeOf(ms, i), s);
    if k > |s| then [] else [s[..k]] + Records(ms, i + 1, s[k..])
  }

  /** What follows the last whole record. */
  function Remainder(ms: Script, i: nat, s: seq<byte>): seq<byte>
    decreases |s|
  {
    var k := RecordLength(ModeOf(ms, i), s);
    if k > |s| then s else Remainder(ms, i + 1, s[k..])
  }

  function Flatten(rs: seq<seq<byte>>): seq<byte>
  {
    if rs == [] then [] else rs[0] + Flatten(rs[1..])
  }

  lemma FlattenCons(r: seq<byte>, rs: seq<seq<byte>>, t: seq<byte>)
    ensures Flatten([r] + rs) + t == r + (Flatten(rs) + t)
  {
    assert ([r] + rs)[1..] == rs;
  }

  /** The definitions of Records and Remainder, unfolded once. */
  lemma CutAt(ms: Script, i: nat, s: seq<byte>, r: seq<byte>, t: seq<byte>)
    requires s == r + t && |r| == RecordLength(ModeOf(ms, i), s)
    ensures Records(ms, i, s) == [r] + Records(ms, i + 1, t) && Remainder(ms, i, s) == Remainder(ms, i + 1, t)
  {
    assert s[..|r|] == r && s[|r|..] == t;
  }

  /** Nothing of the stream is lost or repeated. */
  lemma {:induction false} RecordsPartition(ms: Script, i: nat, s: seq<byte>)
    ensures Flatten(Records(ms, i, s)) + Remainder(ms, i, s) == s
    decreases |s|
  {
    var k := RecordLength(ModeOf(ms, i), s);
    if k > |s| {
      assert [] + s == s;
    } else {
      var r, t := s[..k], s[k..];
      assert s == r + t;
      RecordsPartition(ms, i + 1, t);
      CutAt(ms, i, s, r, t);
      FlattenCons(r, Records(ms, i + 1, t), Remainder(ms, i + 1, t));
    }
  }

  /** Every record is what its call asks for, to the byte: up to its only marker, or a buffer full. */
  lemma {:induction false} RecordsAreWhole(ms: Script, i: nat, s: seq<byte>)
    ensures forall j :: 0 <= j < |Records(ms, i, s)| ==>
              RecordLength(ModeOf(ms, i + j), Records(ms, i, s)[j]) == |Records(ms, i, s)[j]|
    ensures RecordLength(ModeOf(ms, i + |Records(ms, i, s)|), Remainder(ms, i, s)) > |Remainder(ms, i, s)|
    decreases |s|
  {
    var k := RecordLength(ModeOf(ms, i), s);
    if k <= |s| {
      var r, t := s[..k], s[k..];
      assert s == r + t;
      RecordsAreWhole(ms, i + 1, t);
      PrefixRecord(ModeOf(ms, i), r, t);
      CutAt(ms, i, s, r, t);
      var rest := Records(ms, i + 1, t);
      var all: seq<seq<byte>> := [r] + rest;
      forall j | 0 <= j < |all| ensures RecordLength(ModeOf(ms, i + j), all[j]) == |all[j]| {
        if j > 0 {
          assert all[j] == rest[j - 1] && i + 1 + (j - 1) == i + j;
        }
      }
    }
  }

  /** Later input does not change a record that is complete, nor complete one in what came before. */
  lemma PrefixRecord(m: Mode, a: seq<byte>, b: seq<byte>)
    ensures RecordLength(m, a) <= |a| ==> RecordLength(m, a + b) == RecordLength(m, a)
    ensures RecordLength(m, a) > |a| ==> RecordLength(m, a + b) > |a|
    ensures RecordLength(m, a + b) <= |a| ==> RecordLength(m, a) == RecordLength(m, a + b)
  {
    if m.ToMarker? {
      var k, j := IndexOf(a + b, m.c), IndexOf(a, m.c);
      if j < |a| {
        IndexOfIs(a + b, m.c, j);
      } else {
        forall i | 0 <= i < |a| ensures (a + b)[i] != m.c {
          assert a[i] != m.c;
        }
      }
    }
  }

  /** Cutting is independent of where the stream is interrupted. */
  lemma {:induction false} RecordsAppend(ms: Script, i: nat, a: seq<byte>, b: seq<byte>)
    ensures Appends(ms, i, a, b, Records(ms, i, a), Remainder(ms, i, a))
    decreases |a|
  {
    var k := RecordLength(ModeOf(ms, i), a);
    if k <= |a| {
      var r, t := a[..k], a[k..];
      PrefixRecord(ModeOf(ms, i), a, b);
      assert a == r + t;
      CutAt(ms, i, a, r, t);
      RecordsAppend(ms, i + 1, t, b);
      AppendsCons(ms, i, r, t, b, Records(ms, i + 1, t), Remainder(ms, i + 1, t));
    } else {
      assert [] + Records(ms, i, a + b) == Records(ms, i, a + b);
    }
  }

  /** `b` behind `a` continues with the records `rs` made and the line `l` under way. */
  ghost predicate Appends(ms: Script, i: nat, a: seq<byte>, b: seq<byte>, rs: seq<seq<byte>>, l: seq<byte>)
  {
    && Records(ms, i, a + b) == rs + Records(ms, i + |rs|, l + b)
    && Remainder(ms, i, a + b) == Remainder(ms, i + |rs|, l + b)
  }

  lemma AppendsCons(ms: Script, i: nat, r: seq<byte>, t: seq<byte>, b: seq<byte>, rs: seq<seq<byte>>, l: seq<byte>)
    requires RecordLength(ModeOf(ms, i), r + t + b) == |r| && Appends(ms, i + 1, t, b, rs, l)
    ensures Appends(ms, i, r + t, b, [r] + rs, l)
  {
    assert r + t + b == r + (t + b);
    CutAt(ms, i, r + t + b, r, t + b);
    ConsConcat(r, rs, Records(ms, i + 1 + |rs|, l + b));
    assert i + |[r] + rs| == i + 1 + |rs|;
  }

  lemma ConsConcat(r: seq<byte>, rs: seq<seq<byte>>, ts: seq<seq<byte>>)
    ensures [r] + (rs + ts) == ([r] + rs) + ts
  {
  }

  // ---- Runs of a reader ----

  /** A read call: with `l0` begun and `d` to read it ends or waits with line `l1`, leaving `rest` bytes. */
  ghost predicate Took(m: Mode, l0: seq<byte>, d: seq<byte>, ended: bool, l1: seq<byte>, rest: nat)
  {
    var s := l0 + d;
    var k := RecordLength(m, s);
    && (ended <==> k <= |s|)
    && l1 == (if ended then s[..k] else s)
    && rest == (if ended then |s| - k else 0)
  }

  /** The contract of ReadTo in these terms. */
  lemma ScannedIsTook(l0: seq<byte>, d: seq<byte>, c: byte, ended: bool, l1: seq<byte>, rest: nat)
    requires c !in l0 && Scanned(l0, d, c, ended, l1, rest)
    ensures Took(ToMarker(c), l0, d, ended, l1, rest) && rest <= |d|
    ensures !ended ==> c !in l1
  {
    var k := IndexOf(d, c);
    IndexOfIs(l0 + d, c, |l0| + k);
    if ended {
      assert (l0 + d)[..|l0| + k + 1] == l0 + d[..k + 1];
    }
  }

  /** The contract of ReadBuf in these terms. */
  lemma FilledIsTook(l0: seq<byte>, d: seq<byte>, n: nat, full: bool, l1: seq<byte>, rest: nat)
    requires |l0| < n && Filled(l0, d, n, full, l1, rest)
    ensures Took(ToFull(n), l0, d, full, l1, rest) && rest <= |d|
    ensures !full ==> |l1| < n
  {
  }

  datatype ReadCall = ReadCall(ended: bool, line: seq<byte>, rest: nat)

  ghost predicate Makes(m: Mode, l0: seq<byte>, d: seq<byte>, call: ReadCall)
  {
    Took(m, l0, d, call.ended, call.line, call.rest)
  }

  /**
   * The calls made in one event from the call of number `i` on: one that ends is followed by the
   * next, which reads what is left, and the call that waits is the last.
   */
  ghost predicate EventCalls(ms: Script, i: nat, l0: seq<byte>, d: seq<byte>, calls: seq<ReadCall>, l1: seq<byte>)
    decreases |calls|
  {
    && calls != []
    && Makes(ModeOf(ms, i), l0, d, calls[0])
    && (if calls[0].ended then
          calls[0].rest <= |d| && EventCalls(ms, i + 1, [], d[|d| - calls[0].rest..], calls[1..], l1)
        else |calls| == 1 && l1 == calls[0].line)
  }

  function Ended(calls: seq<ReadCall>): seq<seq<byte>>
  {
    if calls == [] then []
    else (if calls[0].ended then [calls[0].line] else []) + Ended(calls[1..])
  }

  /** In one event the reader returns the records of what was begun and what arrived. */
  lemma {:induction false} EventRecords(ms: Script, i: nat, l0: seq<byte>, d: seq<byte>, calls: seq<ReadCall>, l1: seq<byte>)
    requires RecordLength(ModeOf(ms, i), l0) > |l0| && EventCalls(ms, i, l0, d, calls, l1)
    ensures Ended(calls) == Records(ms, i, l0 + d) && l1 == Remainder(ms, i, l0 + d)
    decreases |calls|
  {
    var call, more := calls[0], calls[1..];
    TookOne(ms, i, l0, d, call);
    if call.ended {
      var t := d[|d| - call.rest..];
      EventRecords(ms, i + 1, [], t, more, l1);
      assert [] + t == t;
      assert Ended(calls) == [call.line] + Ended(more);
    } else {
      assert more == [];
      assert Ended(calls) == [] + Ended(more);
    }
  }

  lemma TookOne(ms: Script, i: nat, l0: seq<byte>, d: seq<byte>, call: ReadCall)
    requires RecordLength(ModeOf(ms, i), l0) > |l0| && Makes(ModeOf(ms, i), l0, d, call)
    ensures call.rest <= |d|
    ensures call.ended ==> Records(ms, i, l0 + d) == [call.line] + Records(ms, i + 1, d[|d| - call.rest..])
    ensures call.ended ==> Remainder(ms, i, l0 + d) == Remainder(ms, i + 1, d[|d| - call.rest..])
    ensures !call.ended ==> Records(ms, i, l0 + d) == [] && Remainder(ms, i, l0 + d) == call.line
  {
    PrefixRecord(ModeOf(ms, i), l0, d);
    var k := RecordLength(ModeOf(ms, i), l0 + d);
    if call.ended {
      DropFromSum(l0, d, k);
      assert k - |l0| == |d| - call.rest;
      CutHere(ms, i, l0 + d);
    }
  }

  /** A call that ends has taken something of what it was given. */
  lemma RestShrinks(m: Mode, l0: seq<byte>, d: seq<byte>, call: ReadCall)
    requires RecordLength(m, l0) > |l0| && Makes(m, l0, d, call)
    ensures call.rest <= |d| && (call.ended ==> call.rest < |d|)
  {
    PrefixRecord(m, l0, d);
  }

  lemma CutHere(ms: Script, i: nat, s: seq<byte>)
    requires RecordLength(ModeOf(ms, i), s) <= |s|
    ensures var k := RecordLength(ModeOf(ms, i), s);
            && Records(ms, i, s) == [s[..k]] + Records(ms, i + 1, s[k..])
            && Remainder(ms, i, s) == Remainder(ms, i + 1, s[k..])
  {
  }

  lemma DropFromSum(a: seq<byte>, b: seq<byte>, k: nat)
    requires |a| <= k <= |a + b|
    ensures (a + b)[k..] == b[k - |a|..]
  {
  }

  /** Where a thread stands between two events: the number of its call and the line under way. */
  datatype Mark = Mark(i: nat, held: seq<byte>)

  ghost predicate RunStep(ms: Script, p: Mark, e: Event, calls: seq<ReadCall>, q: Mark)
  {
    EventCalls(ms, p.i, p.held, Input(e), calls, q.held) && q.i == p.i + |Ended(calls)|
  }

  ghost predicate IsRun(ms: Script, es: seq<Event>, callss: seq<seq<ReadCall>>, marks: seq<Mark>)
  {
    && |callss| == |es| && |marks| == |es| + 1 && marks[0] == Mark(0, [])
    && forall t :: 0 <= t < |es| ==> RunStep(ms, marks[t], es[t], callss[t], marks[t + 1])
  }

  function AllEnded(callss: seq<seq<ReadCall>>): seq<seq<byte>>
  {
    if callss == [] then [] else AllEnded(callss[..|callss| - 1]) + Ended(callss[|callss| - 1])
  }

  /** What the thread has made of the stream `s`. */
  ghost predicate StandsAfter(ms: Script, s: seq<byte>, records: seq<seq<byte>>, p: Mark)
  {
    records == Records(ms, 0, s) && p == Mark(|records|, Remainder(ms, 0, s))
  }

  lemma StandsOn(ms: Script, s: seq<byte>, records: seq<seq<byte>>, p: Mark, e: Event, calls: seq<ReadCall>, q: Mark)
    requires StandsAfter(ms, s, records, p) && RunStep(ms, p, e, calls, q)
    ensures StandsAfter(ms, s + Input(e), records + Ended(calls), q)
  {
    RemainderIsOpen(ms, 0, s);
    EventRecords(ms, p.i, p.held, Input(e), calls, q.held);
    RecordsAppend(ms, 0, s, Input(e));
    assert Appends(ms, 0, s, Input(e), records, p.held);
    assert |records + Ended(calls)| == p.i + |Ended(calls)|;
  }

  lemma RemainderIsOpen(ms: Script, i: nat, s: seq<byte>)
    ensures RecordLength(ModeOf(ms, i + |Records(ms, i, s)|), Remainder(ms, i, s)) > |Remainder(ms, i, s)|
  {
    RecordsAreWhole(ms, i, s);
  }

  lemma RunPrefix(ms: Script, es: seq<Event>, callss: seq<seq<ReadCall>>, marks: seq<Mark>)
    requires IsRun(ms, es, callss, marks) && es != []
    ensures var n := |es| - 1;
            && IsRun(ms, es[..n], callss[..n], marks[..n + 1])
            && RunStep(ms, marks[n], es[n], callss[n], marks[n + 1])
  {
    var n := |es| - 1;
    forall t | 0 <= t < n ensures RunStep(ms, marks[..n + 1][t], es[..n][t], callss[..n][t], marks[..n + 1][t + 1]) {
      assert RunStep(ms, marks[t], es[t], callss[t], marks[t + 1]);
    }
  }

  /** Whatever events bring a stream, the reader returns the records of the stream. */
  lemma {:induction false} RunRecords(ms: Script, es: seq<Event>, callss: seq<seq<ReadCall>>, marks: seq<Mark>)
    requires IsRun(ms, es, callss, marks)
    ensures AllEnded(callss) == Records(ms, 0, Stream(es))
    ensures marks[|es|] == Mark(|AllEnded(callss)|, Remainder(ms, 0, Stream(es)))
    decreases |es|
  {
    if es != [] {
      var n := |es| - 1;
      RunPrefix(ms, es, callss, marks);
      RunRecords(ms, es[..n], callss[..n], marks[..n + 1]);
      StandsOn(ms, Stream(es[..n]), AllEnded(callss[..n]), marks[n], es[n], callss[n], marks[n + 1]);
    }
  }

  /** Two ways of cutting one stream into events lead to the same records. */
  lemma SegmentationIndependent(ms: Script, es: seq<Event>, callss: seq<seq<ReadCall>>, marks: seq<Mark>,
                                fs: seq<Event>, fcallss: seq<seq<ReadCall>>, fmarks: seq<Mark>)
    requires IsRun(ms, es, callss, marks) && IsRun(ms, fs, fcallss, fmarks) && Stream(es) == Stream(fs)
    ensures AllEnded(callss) == AllEnded(fcallss) && marks[|es|] == fmarks[|fs|]
  {
    RunRecords(ms, es, callss, marks);
    RunRecords(ms, fs, fcallss, fmarks);
  }

  // ---- The readers at work ----

  /** Each record cut to the buffer. */
  function CutTo(rs: seq<seq<byte>>, n: nat): seq<seq<byte>>
  {
    seq(|rs|, i requires 0 <= i < |rs| => Cap(rs[i], n))
  }

  /** Every call of psock_readbuf fills the one buffer there is. */
  ghost predicate Suits(ms: Script, n: nat) { forall i: nat :: FillsTo(ModeOf(ms, i), n) }

  predicate FillsTo(m: Mode, n: nat) { m.ToFull? ==> m.n == n }

  /** The reader can stand where it does: what it has begun is no whole record. */
  ghost predicate Reading(s: Psock, m: Mode)
    reads s, s.buf, s.buf.mem
  {
    && s.Valid() && FillsTo(m, s.buf.mem.Length)
    && RecordLength(m, s.Begun()) > |s.Begun()|
  }

  /** What is left to read of the event is the end of its data. */
  ghost predicate AtEvent(s: Psock, e: Event)
    reads s
  {
    && s.ToTheEnd(e) && |s.Pending(e)| <= |e.data|
    && s.Pending(e) == e.data[|e.data| - |s.Pending(e)|..]
  }

  /** In event `e` the line `l0` is begun and `d` is left to read. */
  ghost predicate At(s: Psock, m: Mode, e: Event, l0: seq<byte>, d: seq<byte>)
    reads s, s.buf, s.buf.mem
  {
    Reading(s, m) && AtEvent(s, e) && s.Begun() == l0 && s.Pending(e) == d
  }

  /** A call has ended, and `d` is left for the next one. */
  ghost predicate Ready(s: Psock, e: Event, d: seq<byte>)
    reads s, s.buf, s.buf.mem
  {
    s.Valid() && AtEvent(s, e) && s.Begun() == [] && s.Pending(e) == d
  }

  /** The reader waits for the next event with the line `l` under way. */
  ghost predicate Waits(s: Psock, m: Mode, l: seq<byte>)
    reads s, s.buf, s.buf.mem
  {
    Reading(s, m) && s.waiting && s.buf.line == l
  }

  lemma ReadyForAny(s: Psock, m: Mode, e: Event, d: seq<byte>)
    requires Ready(s, e, d) && FillsTo(m, s.buf.mem.Length)
    ensures At(s, m, e, [], d)
  {
  }

  /** One call of psock_readto or psock_readbuf. */
  method ReadOne(s: Psock, m: Mode, e: Event, ghost l0: seq<byte>, ghost d: seq<byte>) returns (ended: bool)
    requires At(s, m, e, l0, d)
    modifies s, s.buf, s.buf.mem
    ensures s.Valid() && s.waiting == !ended
    ensures Took(m, l0, d, ended, s.buf.line, s.readlen) && s.readlen <= |d|
    ensures ended ==> s.state == Read && s.readptr + s.readlen == |e.data|
    ensures !ended ==> RecordLength(m, s.buf.line) > |s.buf.line|
  {
    match m {
      case ToMarker(c) =>
        NoMarkerIn(l0, c);
        ended := s.ReadTo(c, e);
        ScannedIsTook(l0, d, c, ended, s.buf.line, s.readlen);
      case ToFull(n) =>
        ended := s.ReadBuf(e);
        FilledIsTook(l0, d, n, ended, s.buf.line, s.readlen);
    }
  }

  /** The next call, in whatever mode, reads what this one has left. */
  method ReadStep(s: Psock, m: Mode, e: Event, ghost l0: seq<byte>, ghost d: seq<byte>)
      returns (ended: bool, record: seq<byte>, ghost call: ReadCall)
    requires At(s, m, e, l0, d)
    modifies s, s.buf, s.buf.mem
    ensures call.ended == ended && Makes(m, l0, d, call) && call.rest <= |d|
    ensures !ended ==> Waits(s, m, call.line)
    ensures ended ==> call.rest < |d| && Ready(s, e, d[|d| - call.rest..])
    ensures ended ==> record == Cap(call.line, s.buf.mem.Length)
  {
    assert d == e.data[|e.data| - |d|..] && FillsTo(m, s.buf.mem.Length) && RecordLength(m, l0) > |l0|;
    ended := ReadOne(s, m, e, l0, d);
    call := ReadCall(ended, s.buf.line, s.readlen);
    RestShrinks(m, l0, d, call);
    record := s.buf.mem[..s.buf.ptr];
    s.RecordIsLine();
    if ended {
      LeftForNext(s, e, d);
    }
  }

  lemma LeftForNext(s: Psock, e: Event, d: seq<byte>)
    requires s.Valid() && !s.waiting && s.state == Read && s.readptr + s.readlen == |e.data|
    requires s.readlen <= |d| <= |e.data| && d == e.data[|e.data| - |d|..]
    ensures Ready(s, e, d[|d| - s.readlen..])
  {
    s.PendingIsRest(e, d);
    EndOfEnd(e.data, |d|, s.readlen);
  }

  lemma NoMarkerIn(l: seq<byte>, c: byte)
    requires IndexOf(l, c) == |l|
    ensures c !in l
  {
  }

  /** The calls of one event: until one waits, each that has ended is followed by the next. */
  method ReadEvent(s: Psock, ms: Script, i: nat, e: Event, ghost l0: seq<byte>, ghost d: seq<byte>)
      returns (records: seq<seq<byte>>, j: nat, ghost calls: seq<ReadCall>, ghost l1: seq<byte>)
    requires Suits(ms, s.buf.mem.Length) && At(s, ModeOf(ms, i), e, l0, d)
    modifies s, s.buf, s.buf.mem
    ensures Waits(s, ModeOf(ms, j), l1) && EventCalls(ms, i, l0, d, calls, l1)
    ensures j == i + |records| && AreCut(records, calls, s.buf.mem.Length)
    decreases |d|
  {
    var ended, record;
    ghost var call;
    ended, record, call := ReadStep(s, ModeOf(ms, i), e, l0, d);
    if !ended {
      LastCall(ms, i, l0, d, call);
      return [], i, [call], call.line;
    }
    ghost var d1 := d[|d| - call.rest..];
    ReadyForAny(s, ModeOf(ms, i + 1), e, d1);
    records, j, calls, l1 := ReadEvent(s, ms, i + 1, e, [], d1);
    MoreCalls(ms, i, l0, d, call, calls, l1);
    NextCut(record, call, records, calls, s.buf.mem.Length);
    records, calls := [record] + records, [call] + calls;
  }

  /** The records of the calls that have ended, each cut to the buffer. */
  ghost predicate AreCut(records: seq<seq<byte>>, calls: seq<ReadCall>, n: nat)
  {
    records == CutTo(Ended(calls), n)
  }

  lemma NextCut(record: seq<byte>, call: ReadCall, records: seq<seq<byte>>, calls: seq<ReadCall>, n: nat)
    requires call.ended && record == Cap(call.line, n) && AreCut(records, calls, n)
    ensures AreCut([record] + records, [call] + calls, n)
  {
    EndedCons(call, calls);
    CutToCons(call.line, Ended(calls), n);
  }

  lemma EndOfEnd(s: seq<byte>, n: nat, k: nat)
    requires k <= n <= |s|
    ensures s[|s| - n..][n - k..] == s[|s| - k..]
  {
  }

  lemma LastCall(ms: Script, i: nat, l0: seq<byte>, d: seq<byte>, call: ReadCall)
    requires Makes(ModeOf(ms, i), l0, d, call) && !call.ended
    ensures EventCalls(ms, i, l0, d, [call], call.line) && Ended([call]) == []
    ensures forall n :: AreCut([], [call], n)
  {
    assert Ended([call]) == [];
  }

  lemma MoreCalls(ms: Script, i: nat, l0: seq<byte>, d: seq<byte>, call: ReadCall, more: seq<ReadCall>, l1: seq<byte>)
    requires Makes(ModeOf(ms, i), l0, d, call) && call.ended && call.rest <= |d|
    requires EventCalls(ms, i + 1, [], d[|d| - call.rest..], more, l1)
    ensures EventCalls(ms, i, l0, d, [call] + more, l1)
  {
    var calls := [call] + more;
    assert calls[0] == call && calls[1..] == more;
  }

  lemma EndedCons(call: ReadCall, more: seq<ReadCall>)
    requires call.ended
    ensures Ended([call] + more) == [call.line] + Ended(more)
  {
    assert ([call] + more)[1..] == more;
  }

  lemma CutToCons(r: seq<byte>, rs: seq<seq<byte>>, n: nat)
    ensures CutTo([r] + rs, n) == [Cap(r, n)] + CutTo(rs, n)
  {
  }

  lemma CutToConcat(rs: seq<seq<byte>>, ts: seq<seq<byte>>, n: nat)
    ensures CutTo(rs + ts, n) == CutTo(rs, n) + CutTo(ts, n)
  {
  }

  /** Between two events the reader waits, or has not begun, and stands at `p`. */
  ghost predicate Between(s: Psock, ms: Script, p: Mark)
    reads s, s.buf, s.buf.mem
  {
    Reading(s, ModeOf(ms, p.i)) && s.readlen == 0 && s.state != Read && s.Begun() == p.held
  }

  /** A whole event. */
  method ReadNext(s: Psock, ms: Script, i: nat, e: Event, ghost p: Mark)
      returns (records: seq<seq<byte>>, ghost calls: seq<ReadCall>, ghost q: Mark)
    requires Suits(ms, s.buf.mem.Length) && Between(s, ms, p) && p.i == i
    modifies s, s.buf, s.buf.mem
    ensures Between(s, ms, q) && RunStep(ms, p, e, calls, q) && q.i == i + |records|
    ensures records == CutTo(Ended(calls), s.buf.mem.Length)
  {
    AtNext(s, ms, e, p);
    var j;
    ghost var l;
    records, j, calls, l := ReadEvent(s, ms, i, e, p.held, Input(e));
    q := Mark(j, l);
  }

  lemma AtNext(s: Psock, ms: Script, e: Event, p: Mark)
    requires Between(s, ms, p)
    ensures At(s, ModeOf(ms, p.i), e, p.held, Input(e))
  {
    if s.waiting {
      s.WaitingTakesAll(e);
    }
  }

  /**
   * A thread that reads for ever, from psock_init on, over any events: what it hands on are the
   * records of the stream that the events bring, each cut to the buffer.
   */
  method ReadAll(s: Psock, ms: Script, es: seq<Event>)
      returns (records: seq<seq<byte>>, ghost callss: seq<seq<ReadCall>>, ghost marks: seq<Mark>)
    requires s.Valid() && s.state == NoState && s.readlen == 0 && !s.waiting
    requires Suits(ms, s.buf.mem.Length)
    modifies s, s.buf, s.buf.mem
    ensures IsRun(ms, es, callss, marks)
    ensures records == CutTo(Records(ms, 0, Stream(es)), s.buf.mem.Length)
    ensures s.Valid() && s.Begun() == Remainder(ms, 0, Stream(es))
  {
    records, callss, marks := [], [], [Mark(0, [])];
    ghost var all, p := [], Mark(0, []);
    var t := 0;
    while t < |es|
      invariant 0 <= t <= |es|
      invariant IsRun(ms, es[..t], callss, marks) && p == marks[t]
      invariant Between(s, ms, p) && p.i == |records|
      invariant all == AllEnded(callss) && records == CutTo(all, s.buf.mem.Length)
    {
      var more;
      ghost var calls, q;
      more, calls, q := ReadNext(s, ms, |records|, es[t], p);
      CutToConcat(all, Ended(calls), s.buf.mem.Length);
      NextEvent(ms, es, t, callss, marks, calls, q);
      records, all := records + more, all + Ended(calls);
      callss, marks, p := callss + [calls], marks + [q], q;
      t := t + 1;
    }
    assert es[..|es|] == es;
    RunRecords(ms, es, callss, marks);
  }

  lemma NextEvent(ms: Script, es: seq<Event>, t: nat, callss: seq<seq<ReadCall>>, marks: seq<Mark>,
                  calls: seq<ReadCall>, q: Mark)
    requires t < |es| && IsRun(ms, es[..t], callss, marks) && RunStep(ms, marks[t], es[t], calls, q)
    ensures IsRun(ms, es[..t + 1], callss + [calls], marks + [q])
    ensures AllEnded(callss + [calls]) == AllEnded(callss) + Ended(calls)
  {
    assert (callss + [calls])[..t] == callss;
    forall k | 0 <= k < t + 1
      ensures RunStep(ms, (marks + [q])[k], es[..t + 1][k], (callss + [calls])[k], (marks + [q])[k + 1])
    {
      if k < t {
        assert RunStep(ms, marks[k], es[..t][k], callss[k], marks[k + 1]);
      }
    }
  }
}
