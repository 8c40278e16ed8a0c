/**
 * Packet forwarding (uip/uip-fw.c:137-175, 220-316, 405-485, 522-531): the cache of forwarded
 * packets, ICMP time exceeded and the TTL.
 */
module Forward {
  import opened Bytes
  import opened Checksum
  import opened Icmp
  import opened Packet
  import opened Words

  const FW_TIME: u16 := 20
  const UIP_TTL: byte := 64
  const ICMP_TE: byte := 11

  /** The fields by which duplicates are told. */
  datatype Key = Key(id: u16, src: Ip, dst: Ip, proto: byte)

  function KeyOf(p: seq<byte>): Key
    requires |p| >= 54
  {
    Key(Le16(p, 18), IpAt(p, 26), IpAt(p, 30), p[23])
  }

  datatype Entry = Entry(timer: u16, key: Key)

  // ---- The cache over its runs ----

  predicate CacheOk(c: seq<Entry>) { |c| > 0 && forall i :: 0 <= i < |c| ==> c[i].timer <= FW_TIME }

  /** The packet was forwarded a short while ago. */
  predicate Seen(c: seq<Entry>, key: Key) { exists i :: 0 <= i < |c| && c[i].timer != 0 && c[i].key == key }

  /** The entry fwcache_register takes: the first free one, or else the last of the oldest. */
  predicate IsVictim(c: seq<Entry>, v: nat)
  {
    && v < |c|
    && (c[v].timer == 0 ==> forall i :: 0 <= i < v ==> c[i].timer != 0)
    && (c[v].timer != 0 ==>
          && (forall i :: 0 <= i < |c| ==> c[v].timer <= c[i].timer)
          && (forall i :: v < i < |c| ==> c[v].timer < c[i].timer))
  }

  datatype CacheEvent = Tick | Register(key: Key)

  ghost predicate CacheStep(c: seq<Entry>, e: CacheEvent, d: seq<Entry>)
  {
    match e
    case Tick =>
      |d| == |c| && forall i :: 0 <= i < |c| ==>
        d[i] == Entry(if c[i].timer > 0 then c[i].timer - 1 else 0, c[i].key)
    case Register(key) => exists v: nat :: IsVictim(c, v) && d == c[v := Entry(FW_TIME, key)]
  }

  /** `cs` are the contents of the cache along the events `es`. */
  ghost predicate CacheRun(cs: seq<seq<Entry>>, es: seq<CacheEvent>)
  {
    |cs| == |es| + 1 && forall i :: 0 <= i < |es| ==> CacheStep(cs[i], es[i], cs[i + 1])
  }

  /** The entries that are displaced before entry `k`: the older ones and, of its age, the later ones. */
  ghost function Ahead(c: seq<Entry>, k: nat): set<nat>
    requires k < |c|
  {
    set i: nat | i < |c| && (c[i].timer < c[k].timer || (c[i].timer == c[k].timer && i > k))
  }

  /** No other live entry has the key of entry `k`. */
  predicate Alone(c: seq<Entry>, k: nat)
    requires k < |c|
  {
    forall i :: 0 <= i < |c| && i != k && c[i].timer != 0 ==> c[i].key != c[k].key
  }

  function Ticks(es: seq<CacheEvent>): nat
  {
    if es == [] then 0 else (if es[0].Tick? then 1 else 0) + Ticks(es[1..])
  }

  lemma {:induction false} TicksBound(es: seq<CacheEvent>)
    ensures Ticks(es) <= |es|
  {
    if es != [] {
      TicksBound(es[1..]);
    }
  }

  lemma {:induction false} TicksConcat(es: seq<CacheEvent>, fs: seq<CacheEvent>)
    ensures Ticks(es + fs) == Ticks(es) + Ticks(fs)
  {
    if es == [] {
      assert es + fs == fs;
    } else {
      assert (es + fs)[1..] == es[1..] + fs;
      TicksConcat(es[1..], fs);
    }
  }

  /** A register displaces a live entry exactly when none is ahead of it. */
  lemma DisplacedIff(c: seq<Entry>, k: nat, v: nat)
    requires k < |c| && c[k].timer > 0 && IsVictim(c, v)
    ensures v == k <==> Ahead(c, k) == {}
    ensures v != k ==> v in Ahead(c, k)
  {
    if v == k {
      assert forall i :: i in Ahead(c, k) ==> false;
    } else {
      assert v in Ahead(c, k);
    }
  }

  /** A tick leaves a live entry's place in the order as it is. */
  lemma TickKeepsOrder(c: seq<Entry>, d: seq<Entry>, k: nat)
    requires CacheOk(c) && CacheStep(c, Tick, d) && k < |c| && c[k].timer > 1
    ensures CacheOk(d) && |d| == |c| && d[k] == Entry(c[k].timer - 1, c[k].key)
    ensures Ahead(d, k) == Ahead(c, k)
    ensures Alone(c, k) ==> Alone(d, k)
  {
  }

  /** A register takes one entry from those ahead; it goes to the end, or right behind if `k` is as new and earlier. */
  lemma RegisterAhead(c: seq<Entry>, key: Key, d: seq<Entry>, k: nat)
    requires CacheOk(c) && CacheStep(c, Register(key), d) && k < |c| && c[k].timer > 0 && Ahead(c, k) != {}
    ensures CacheOk(d) && |d| == |c| && d[k] == c[k]
    ensures |Ahead(d, k)| >= |Ahead(c, k)| - 1
    ensures c[k].timer < FW_TIME || k + 1 == |c| ==> |Ahead(d, k)| == |Ahead(c, k)| - 1
    ensures Alone(c, k) && key != c[k].key ==> Alone(d, k)
  {
    var v: nat :| IsVictim(c, v) && d == c[v := Entry(FW_TIME, key)];
    DisplacedIff(c, k, v);
    assert Ahead(c, k) - {v} <= Ahead(d, k);
    SubsetSize(Ahead(c, k) - {v}, Ahead(d, k));
    if c[k].timer < FW_TIME || k + 1 == |c| {
      assert Ahead(d, k) == Ahead(c, k) - {v};
    }
  }

  /** What is not in the cache comes back only when it is registered. */
  lemma GoneStays(c: seq<Entry>, e: CacheEvent, d: seq<Entry>, key: Key)
    requires CacheStep(c, e, d) && !Seen(c, key) && e != Register(key)
    ensures !Seen(d, key)
  {
  }

  lemma {:induction false} GoneForGood(cs: seq<seq<Entry>>, es: seq<CacheEvent>, key: Key, i: nat)
    requires CacheRun(cs, es) && i <= |es| && !Seen(cs[i], key) && Register(key) !in es
    ensures !Seen(cs[|es|], key)
    decreases |es| - i
  {
    if i < |es| {
      assert CacheStep(cs[i], es[i], cs[i + 1]);
      GoneStays(cs[i], es[i], cs[i + 1], key);
      GoneForGood(cs, es, key, i + 1);
    }
  }

  /** An entry that none is ahead of is forgotten at the next register. */
  lemma Displaced(c: seq<Entry>, key: Key, d: seq<Entry>, k: nat)
    requires CacheStep(c, Register(key), d) && k < |c| && c[k].timer > 0 && Ahead(c, k) == {}
    requires Alone(c, k) && key != c[k].key
    ensures !Seen(d, c[k].key)
  {
    var v: nat :| IsVictim(c, v) && d == c[v := Entry(FW_TIME, key)];
    DisplacedIff(c, k, v);
  }

  lemma RunTail(cs: seq<seq<Entry>>, es: seq<CacheEvent>, r: nat)
    requires CacheRun(cs, es) && r <= |es|
    ensures CacheRun(cs[r..], es[r..]) && CacheRun(cs[..r + 1], es[..r])
  {
    forall i | 0 <= i < |es| - r ensures CacheStep(cs[r..][i], es[r..][i], cs[r..][i + 1]) {
      assert CacheStep(cs[r + i], es[r + i], cs[r + i + 1]);
    }
    forall i | 0 <= i < r ensures CacheStep(cs[..r + 1][i], es[..r][i], cs[..r + 1][i + 1]) {
      assert CacheStep(cs[i], es[i], cs[i + 1]);
    }
  }

  /**
   * From the period after its registration on, a forwarded packet is suppressed for exactly as
   * long as its entry has ticks left and no more packets have been registered than there were
   * entries ahead of it.
   */
  lemma {:induction false} SuppressedIff(cs: seq<seq<Entry>>, es: seq<CacheEvent>, k: nat)
    requires CacheRun(cs, es) && CacheOk(cs[0]) && k < |cs[0]| && 0 < cs[0][k].timer < FW_TIME
    requires Alone(cs[0], k) && Register(cs[0][k].key) !in es
    ensures Seen(cs[|es|], cs[0][k].key) <==>
            Ticks(es) < cs[0][k].timer && |es| - Ticks(es) <= |Ahead(cs[0], k)|
    decreases |es|
  {
    var c := cs[0];
    if es == [] {
      assert c[k].timer != 0;
    } else {
      TicksBound(es[1..]);
      assert CacheStep(c, es[0], cs[1]);
      RunTail(cs, es, 1);
      if es[0].Tick? && c[k].timer > 1 {
        TickKeepsOrder(c, cs[1], k);
        SuppressedIff(cs[1..], es[1..], k);
      } else if es[0].Tick? {
        assert !Seen(cs[1], c[k].key);
        GoneForGood(cs, es, c[k].key, 1);
      } else if Ahead(c, k) != {} {
        RegisterAhead(c, es[0].key, cs[1], k);
        SuppressedIff(cs[1..], es[1..], k);
      } else {
        Displaced(c, es[0].key, cs[1], k);
        GoneForGood(cs, es, c[k].key, 1);
      }
    }
  }

  /**
   * Within the period of its registration a packet is displaced only from the last entry of the
   * cache, and there as soon as no older entry is left.
   */
  lemma {:induction false} FreshIff(cs: seq<seq<Entry>>, es: seq<CacheEvent>, k: nat)
    requires CacheRun(cs, es) && CacheOk(cs[0]) && k < |cs[0]| && cs[0][k].timer == FW_TIME
    requires Alone(cs[0], k) && Register(cs[0][k].key) !in es && forall e :: e in es ==> e.Register?
    ensures Seen(cs[|es|], cs[0][k].key) <==> k + 1 < |cs[0]| || |es| <= |Ahead(cs[0], k)|
    ensures Seen(cs[|es|], cs[0][k].key) ==>
              && CacheOk(cs[|es|]) && |cs[|es|]| == |cs[0]| && cs[|es|][k] == cs[0][k] && Alone(cs[|es|], k)
    decreases |es|
  {
    var c := cs[0];
    if es == [] {
      assert c[k].timer != 0;
    } else {
      assert es[0] in es;
      assert CacheStep(c, es[0], cs[1]);
      RunTail(cs, es, 1);
      if k + 1 < |c| {
        assert |c| - 1 in Ahead(c, k);
      }
      if Ahead(c, k) != {} {
        RegisterAhead(c, es[0].key, cs[1], k);
        FreshIff(cs[1..], es[1..], k);
      } else {
        Displaced(c, es[0].key, cs[1], k);
        GoneForGood(cs, es, c[k].key, 1);
      }
    }
  }

  /** The entry that a register takes. */
  function Victim(c: seq<Entry>, n: nat): (v: nat)
    requires 0 < n <= |c|
    ensures v < n
    ensures c[v].timer == 0 ==> forall i :: 0 <= i < v ==> c[i].timer != 0
    ensures c[v].timer != 0 ==>
              && (forall i :: 0 <= i < n ==> c[v].timer <= c[i].timer)
              && (forall i :: v < i < n ==> c[v].timer < c[i].timer)
  {
    if n == 1 then 0
    else
      var v := Victim(c, n - 1);
      if c[v].timer != 0 && c[n - 1].timer <= c[v].timer then n - 1 else v
  }

  /** The ages in the cache after `r` packets have been registered; the keys do not matter. */
  function AfterRegisters(c: seq<Entry>, r: nat): (d: seq<Entry>)
    requires |c| > 0
    ensures |d| == |c|
  {
    if r == 0 then c
    else
      var d := AfterRegisters(c, r - 1);
      var v := Victim(d, |d|);
      d[v := d[v].(timer := FW_TIME)]
  }

  predicate SameAges(c: seq<Entry>, d: seq<Entry>)
  {
    |c| == |d| && forall i :: 0 <= i < |c| ==> c[i].timer == d[i].timer
  }

  lemma OneVictim(c: seq<Entry>, d: seq<Entry>, v: nat, w: nat)
    requires SameAges(c, d) && IsVictim(c, v) && IsVictim(d, w)
    ensures v == w
  {
  }

  lemma SameAhead(c: seq<Entry>, d: seq<Entry>, k: nat)
    requires SameAges(c, d) && k < |c|
    ensures Ahead(c, k) == Ahead(d, k)
  {
  }

  lemma RegisterAges(c: seq<Entry>, key: Key, c1: seq<Entry>, d: seq<Entry>)
    requires SameAges(c, d) && CacheStep(c, Register(key), c1) && |d| > 0
    ensures var v := Victim(d, |d|); SameAges(c1, d[v := d[v].(timer := FW_TIME)])
  {
    var v: nat :| IsVictim(c, v) && c1 == c[v := Entry(FW_TIME, key)];
    OneVictim(c, d, v, Victim(d, |d|));
  }

  lemma {:induction false} AgesAfter(cs: seq<seq<Entry>>, es: seq<CacheEvent>, r: nat)
    requires CacheRun(cs, es) && |cs[0]| > 0
    requires r <= |es| && forall i :: 0 <= i < r ==> es[i].Register?
    ensures SameAges(cs[r], AfterRegisters(cs[0], r))
  {
    if r > 0 {
      AgesAfter(cs, es, r - 1);
      assert CacheStep(cs[r - 1], es[r - 1], cs[r]);
      RegisterAges(cs[r - 1], es[r - 1].key, cs[r], AfterRegisters(cs[0], r - 1));
    }
  }

  /** Which entries are ahead of one after `r` registers follows from the cache before them. */
  lemma AheadAfter(cs: seq<seq<Entry>>, es: seq<CacheEvent>, k: nat, r: nat)
    requires CacheRun(cs, es) && k < |cs[0]|
    requires r <= |es| && forall i :: 0 <= i < r ==> es[i].Register?
    ensures |cs[r]| == |cs[0]| && Ahead(cs[r], k) == Ahead(AfterRegisters(cs[0], r), k)
  {
    AgesAfter(cs, es, r);
    SameAhead(cs[r], AfterRegisters(cs[0], r), k);
  }

  /** The two together: `r` packets are registered before the first tick. */
  lemma FreshSuppressedIff(cs: seq<seq<Entry>>, es: seq<CacheEvent>, k: nat, r: nat)
    requires CacheRun(cs, es) && CacheOk(cs[0]) && k < |cs[0]| && cs[0][k].timer == FW_TIME
    requires Alone(cs[0], k) && Register(cs[0][k].key) !in es
    requires r < |es| && es[r].Tick? && forall i :: 0 <= i < r ==> es[i].Register?
    ensures Seen(cs[|es|], cs[0][k].key) <==>
            && (k + 1 < |cs[0]| || r <= |Ahead(cs[0], k)|)
            && Ticks(es) < FW_TIME
            && |es| - r - Ticks(es) <= |Ahead(AfterRegisters(cs[0], r), k)|
  {
    var key := cs[0][k].key;
    RunTail(cs, es, r);
    FreshIff(cs[..r + 1], es[..r], k);
    assert es == es[..r] + es[r..];
    TicksConcat(es[..r], es[r..]);
    NoTicks(es[..r]);
    AheadAfter(cs, es, k, r);
    if Seen(cs[r], key) {
      AfterFirstTick(cs[r..], es[r..], k);
    } else {
      GoneForGood(cs, es, key, r);
    }
  }

  lemma AfterFirstTick(cs: seq<seq<Entry>>, es: seq<CacheEvent>, k: nat)
    requires CacheRun(cs, es) && CacheOk(cs[0]) && k < |cs[0]| && cs[0][k].timer == FW_TIME
    requires Alone(cs[0], k) && Register(cs[0][k].key) !in es && es != [] && es[0].Tick?
    ensures Seen(cs[|es|], cs[0][k].key) <==>
            Ticks(es) < FW_TIME && |es| - Ticks(es) <= |Ahead(cs[0], k)|
  {
    assert CacheStep(cs[0], es[0], cs[1]);
    TickKeepsOrder(cs[0], cs[1], k);
    RunTail(cs, es, 1);
    SuppressedIff(cs[1..], es[1..], k);
  }

  lemma {:induction false} NoTicks(es: seq<CacheEvent>)
    requires forall i :: 0 <= i < |es| ==> es[i].Register?
    ensures Ticks(es) == 0
  {
    if es != [] {
      NoTicks(es[1..]);
    }
  }

  /** In every run, whatever is registered, an entry stays that long at least. */
  lemma {:induction false} StaysSuppressed(cs: seq<seq<Entry>>, es: seq<CacheEvent>, k: nat)
    requires CacheRun(cs, es) && CacheOk(cs[0]) && k < |cs[0]|
    requires Ticks(es) < cs[0][k].timer && |es| - Ticks(es) <= |Ahead(cs[0], k)|
    ensures Seen(cs[|es|], cs[0][k].key)
    decreases |es|
  {
    if es == [] {
      assert cs[0][k].timer != 0;
    } else {
      TicksBound(es[1..]);
      assert CacheStep(cs[0], es[0], cs[1]);
      RunTail(cs, es, 1);
      if es[0].Tick? {
        TickKeepsOrder(cs[0], cs[1], k);
      } else {
        RegisterAhead(cs[0], es[0].key, cs[1], k);
      }
      StaysSuppressed(cs[1..], es[1..], k);
    }
  }

  /** Of three packets registered in one period in a cache of two, the second is the one forgotten. */
  lemma MostRecentForgotten(x: Entry, y: Entry, a: Key, b: Key, c: Key) returns (cs: seq<seq<Entry>>)
    requires x.timer == y.timer == 0 && a != b && b != c && a != c
    ensures CacheRun(cs, [Register(a), Register(b), Register(c)]) && cs[0] == [x, y]
    ensures Seen(cs[2], b) && Seen(cs[3], a) && !Seen(cs[3], b) && Seen(cs[3], c)
  {
    var es := [Register(a), Register(b), Register(c)];
    var ea, eb, ec := Entry(FW_TIME, a), Entry(FW_TIME, b), Entry(FW_TIME, c);
    cs := [[x, y], [ea, y], [ea, eb], [ea, ec]];
    assert IsVictim(cs[0], 0) && cs[1] == cs[0][0 := ea];
    assert IsVictim(cs[1], 1) && cs[2] == cs[1][1 := eb];
    assert IsVictim(cs[2], 1) && cs[3] == cs[2][1 := ec];
    assert cs[2][1].key == b && cs[3][0].key == a && cs[3][1].key == c;
    assert CacheStep(cs[0], es[0], cs[1]) && CacheStep(cs[1], es[1], cs[2]) && CacheStep(cs[2], es[2], cs[3]);
  }

  lemma RegisteredIsSeen(c: seq<Entry>, key: Key, d: seq<Entry>)
    requires CacheStep(c, Register(key), d)
    ensures Seen(d, key)
  {
    var v: nat :| IsVictim(c, v) && d == c[v := Entry(FW_TIME, key)];
    assert d[v].timer != 0 && d[v].key == key;
  }

  // ---- Rewriting a packet ----

  /** The packet with one hop less to live and its checksum adjusted. */
  ghost predicate TtlDown(p: seq<byte>, q: seq<byte>)
  {
    && |p| >= 54 && |q| == |p|
    && q[22] == Plus8(p[22], -1) && Le16(q, 24) == AddSwapped(Le16(p, 24), 1)
    && forall i :: 0 <= i < |p| && i != 22 && i != 24 && i != 25 ==> q[i] == p[i]
  }

  /** The decrement keeps the header's residue when there is a hop to give, and adds one to it otherwise. */
  lemma TtlDownVerifies(p: seq<byte>, q: seq<byte>)
    requires TtlDown(p, q)
    ensures IpSum(q) % 65535 == (IpSum(p) + if p[22] >= 1 then 0 else 1) % 65535
    ensures IpSum(p) % 65535 == 0 ==> (IpSum(q) % 65535 == 0 <==> p[22] >= 1)
    ensures KeyOf(q) == KeyOf(p)
  {
    var d, e := p[LLH..LLH + IPH], q[LLH..LLH + IPH];
    assert Le16(e, 10) == Le16(q, 24) && Le16(d, 10) == Le16(p, 24);
    AdjustedSum(d, e, 8, 10, 1);
    HopResidue(IpSum(p), IpSum(q), p[22], q[22]);
  }

  lemma HopResidue(s: nat, t: nat, ttl: byte, less: byte)
    requires less == Plus8(ttl, -1) && t % 65535 == (s + (256 * less - 256 * ttl) + 256) % 65535
    ensures t % 65535 == (s + if ttl >= 1 then 0 else 1) % 65535
    ensures s % 65535 == 0 ==> (t % 65535 == 0 <==> ttl >= 1)
  {
    if ttl == 0 {
      assert s + (256 * less - 256 * ttl) + 256 == s + 65536;
      Residue(s + 65536, (s + 1) / 65535 + 1, (s + 1) % 65535);
    }
  }

  /** The header of a time exceeded message for `p`, and the quoted packet in it. */
  ghost predicate ReportsExpiry(p: seq<byte>, q: seq<byte>, host: Ip)
  {
    && |p| >= 70 && |q| == |p| && Holds(q) && IpLen(q) == 56
    && Has(q, 14, [0x45, 0]) && q[20] == 0 && q[21] == 0 && q[23] == UIP_PROTO_ICMP
    && Has(q, 26, IpBytes(host)) && Has(q, 30, p[26..30])
    && q[34] == ICMP_TE && q[35] == 0 && Has(q, 42, p[14..42])
  }

  /** Both checksums of the ICMP packet in the buffer verify. */
  ghost predicate Sealed(q: seq<byte>)
  {
    Holds(q) && IpSum(q) % 65535 == 0 && IcmpVerifies(q)
  }

  lemma TtlDownKeepsReport(p: seq<byte>, q: seq<byte>, r: seq<byte>, host: Ip)
    requires ReportsExpiry(p, q, host) && Sealed(q) && q[22] >= 1 && TtlDown(q, r)
    ensures ReportsExpiry(p, r, host) && Sealed(r)
  {
    TtlDownVerifies(q, r);
    assert r[34..LLH + IpLen(r)] == q[34..LLH + IpLen(q)];
  }

  /** The ICMP checksum over the 36 bytes of the message, computed over a zeroed field. */
  method SealIcmp(b: PacketBuffer)
    requires b.buf.Length >= 70 && b.buf[34] != 0
    modifies b.buf
    ensures Fold(WordSum(b.buf[34..70])) == 0xffff
    ensures forall i :: 0 <= i < b.buf.Length && i != 36 && i != 37 ==> b.buf[i] == old(b.buf[i])
  {
    b.buf[36], b.buf[37] := 0, 0;
    ghost var d := b.buf[34..70];
    var sum := Chksum(0, b.buf, 34, 36);
    assert sum == Fold(WordSum(d));
    var v := Complement(Htons(sum));
    b.buf[36], b.buf[37] := v % 256, v / 256;
    ghost var e := b.buf[34..70];
    IcmpSealed(d, e, v);
  }

  /** The ICMP type is not zero, so that uip_chksum's missing case for a zero sum does not matter. */
  lemma IcmpSealed(d: seq<byte>, e: seq<byte>, v: u16)
    requires |d| == |e| == 36 && d[0] != 0 && d[2] == d[3] == 0
    requires e[2] == v % 256 && e[3] == v / 256 && forall k :: 0 <= k < |d| && k != 2 && k != 3 ==> e[k] == d[k]
    requires v == Complement(Htons(Fold(WordSum(d))))
    ensures Fold(WordSum(e)) == 0xffff
  {
    NonZeroSum(d);
    SealedBlock(d, e, 2, 0, v);
    NonZeroSum(e);
  }

  lemma NonZeroSum(d: seq<byte>)
    requires d != [] && d[0] != 0
    ensures Fold(WordSum(d)) != 0
    ensures WordSum(d) % 65535 == 0 ==> Fold(WordSum(d)) == 0xffff
  {
    WordSumZero(d);
    FoldResidue(WordSum(d));
  }

  /** The ICMP message: the packet's first 28 bytes behind a time exceeded header. */
  method Quote(b: PacketBuffer)
    requires b.buf.Length >= 70
    modifies b.buf
    ensures b.buf[34] == ICMP_TE && b.buf[35] == 0 && Has(b.buf[..], 42, old(b.buf[14..42]))
    ensures Fold(WordSum(b.buf[34..70])) == 0xffff
    ensures forall i :: 0 <= i < b.buf.Length && !(34 <= i < 70) ==> b.buf[i] == old(b.buf[i])
  {
    MemCpy(b.buf, 42, b.buf[14..42]);
    b.buf[34] := ICMP_TE;
    b.buf[35] := 0;
    SealIcmp(b);
  }

  /** The IP header of the message, its checksum excepted. */
  method ReportHeader(b: PacketBuffer, src: seq<byte>)
    requires b.buf.Length >= 70 && |src| == 4
    modifies b.buf
    ensures HeaderOf(b.buf[..], b.host, src)
    ensures forall i :: 0 <= i < b.buf.Length && !(14 <= i < 18 || 20 <= i < 24 || 26 <= i < 34) ==> b.buf[i] == old(b.buf[i])
  {
    MemCpy(b.buf, 26, IpBytes(b.host) + src);
    b.buf[16], b.buf[17] := 0, 56;
    b.buf[14], b.buf[15] := 0x45, 0;
    b.buf[20], b.buf[21] := 0, 0;
    b.buf[22] := UIP_TTL;
    b.buf[23] := UIP_PROTO_ICMP;
  }

  ghost predicate HeaderOf(q: seq<byte>, host: Ip, dst: seq<byte>)
  {
    && |q| >= 70 && Has(q, 14, [0x45, 0, 0, 56]) && q[20] == 0 && q[21] == 0 && q[22] == UIP_TTL && q[23] == UIP_PROTO_ICMP
    && Has(q, 26, IpBytes(host)) && Has(q, 30, dst)
  }

  /** The message is complete after the quotation (q), the header (r) and its checksum (s). */
  lemma Reported(p: seq<byte>, q: seq<byte>, r: seq<byte>, s: seq<byte>, host: Ip)
    requires 70 <= |p| == |q| == |r| == |s|
    requires q[34] == ICMP_TE && q[35] == 0 && Has(q, 42, p[14..42]) && Fold(WordSum(q[34..70])) == 0xffff
    requires HeaderOf(r, host, p[26..30]) && forall i :: 34 <= i < 70 ==> r[i] == q[i]
    requires IpSum(s) % 65535 == 0 && forall i :: 0 <= i < |s| && i != 24 && i != 25 ==> s[i] == r[i]
    ensures ReportsExpiry(p, s, host) && Sealed(s) && s[22] == UIP_TTL
  {
    assert s[16] == r[16] == 0 && s[17] == r[17] == 56;
    assert s[34..70] == q[34..70];
  }

  /** time_exceeded */
  method TimeExceeded(b: PacketBuffer)
    requires b.Valid() && b.buf.Length >= 70
    modifies b.buf, b`len
    ensures old(b.buf[23]) == UIP_PROTO_ICMP ==> b.len == 0 && b.buf[..] == old(b.buf[..])
    ensures old(b.buf[23]) != UIP_PROTO_ICMP ==>
              b.len == 56 && ReportsExpiry(old(b.buf[..]), b.buf[..], b.host) && Sealed(b.buf[..]) && b.buf[22] == UIP_TTL
  {
    if b.buf[23] == UIP_PROTO_ICMP {
      b.len := 0;
      return;
    }
    ghost var p := b.buf[..];
    var src := b.buf[26..30];
    Quote(b);
    ghost var q := b.buf[..];
    ReportHeader(b, src);
    ghost var r := b.buf[..];
    b.len := 56;
    b.SealIp();
    Reported(p, q, r, b.buf[..], b.host);
  }

  // ---- Forwarding ----

  datatype Fate =
    | Local        // for this host
    | Suppressed   // a duplicate
    | Unreported   // expired, but no error is sent about an ICMP message
    | Expired      // answered with time exceeded
    | Passed

  function FateOf(p: seq<byte>, host: Ip, cache: seq<Entry>): Fate
    requires |p| >= 54
  {
    if IpAt(p, 30) == host then Local
    else if Seen(cache, KeyOf(p)) then Suppressed
    else if p[22] > 1 then Passed
    else if IpAt(p, 30) == Ip(0xffff, 0xffff) then Local
    else if p[23] == UIP_PROTO_ICMP then Unreported
    else Expired
  }

  // ---- Which packets are taken for duplicates, and how far one gets ----

  /** The bytes by which packets are told apart: identification, protocol and the two addresses. */
  predicate SameIdentity(p: seq<byte>, q: seq<byte>)
    requires |p| >= 54 && |q| >= 54
  {
    p[18] == q[18] && p[19] == q[19] && p[23] == q[23] && forall i :: 26 <= i < 34 ==> p[i] == q[i]
  }

  lemma KeyIsIdentity(p: seq<byte>, q: seq<byte>)
    requires |p| >= 54 && |q| >= 54
    ensures KeyOf(p) == KeyOf(q) <==> SameIdentity(p, q)
  {
    if KeyOf(p) == KeyOf(q) {
      SameWord(p, q, 18);
      SameWord(p, q, 26);
      SameWord(p, q, 28);
      SameWord(p, q, 30);
      SameWord(p, q, 32);
    }
  }

  lemma SameWord(p: seq<byte>, q: seq<byte>, at: nat)
    requires at + 2 <= |p| && at + 2 <= |q| && Le16(p, at) == Le16(q, at)
    ensures p[at] == q[at] && p[at + 1] == q[at + 1]
  {
    LittleEndian(p[at], p[at + 1], Le16(p, at));
    LittleEndian(q[at], q[at + 1], Le16(q, at));
  }

  /** When nothing is remembered but the packet just registered, exactly the packets of its identity are duplicates. */
  lemma SuppressesItsOwn(c: seq<Entry>, p: seq<byte>, d: seq<Entry>, q: seq<byte>, host: Ip)
    requires |p| >= 54 && |q| >= 54 && (forall key :: !Seen(c, key)) && CacheStep(c, Register(KeyOf(p)), d)
    requires IpAt(q, 30) != host
    ensures FateOf(q, host, d) == Suppressed <==> SameIdentity(p, q)
  {
    KeyIsIdentity(p, q);
    RegisteredIsSeen(c, KeyOf(p), d);
    OnlyItsOwn(c, KeyOf(p), d, KeyOf(q));
  }

  lemma OnlyItsOwn(c: seq<Entry>, key: Key, d: seq<Entry>, other: Key)
    requires CacheStep(c, Register(key), d) && !Seen(c, other)
    ensures Seen(d, other) ==> other == key
  {
    var v: nat :| IsVictim(c, v) && d == c[v := Entry(FW_TIME, key)];
    if other != key {
      forall i | 0 <= i < |d| ensures d[i].timer == 0 || d[i].key != other {
        assert i == v || d[i] == c[i];
      }
    }
  }

  /** A router on the way: not the destination, and the packet is new to it. */
  datatype Router = Router(host: Ip, cache: seq<Entry>)

  /** The packet as it arrives at each router of a path; those that pass it on take one hop off. */
  ghost predicate IsPath(ps: seq<seq<byte>>, rs: seq<Router>)
  {
    && |ps| == |rs| > 0 && (forall k :: 0 <= k < |ps| ==> |ps[k]| >= 54)
    && (forall k :: 0 <= k < |rs| ==> IpAt(ps[k], 30) != rs[k].host && !Seen(rs[k].cache, KeyOf(ps[k])))
    && (forall k :: 0 <= k < |ps| - 1 ==> FateOf(ps[k], rs[k].host, rs[k].cache) == Passed && TtlDown(ps[k], ps[k + 1]))
  }

  lemma {:induction false} HopsTaken(ps: seq<seq<byte>>, rs: seq<Router>, k: nat)
    requires IsPath(ps, rs) && k < |ps|
    ensures ps[k][22] == ps[0][22] - k && KeyOf(ps[k]) == KeyOf(ps[0])
  {
    if k > 0 {
      HopsTaken(ps, rs, k - 1);
      assert FateOf(ps[k - 1], rs[k - 1].host, rs[k - 1].cache) == Passed && TtlDown(ps[k - 1], ps[k]);
      TtlDownVerifies(ps[k - 1], ps[k]);
    }
  }

  /** The router at which a packet that has some hops to live expires is the one of that number, and none before it. */
  lemma ExpiresAtItsHop(ps: seq<seq<byte>>, rs: seq<Router>)
    requires IsPath(ps, rs) && ps[0][22] >= 1 && ps[0][23] != UIP_PROTO_ICMP && IpAt(ps[0], 30) != Ip(0xffff, 0xffff)
    ensures |ps| <= ps[0][22]
    ensures var last := |ps| - 1;
            && (FateOf(ps[last], rs[last].host, rs[last].cache) == Expired <==> |ps| == ps[0][22])
            && (FateOf(ps[last], rs[last].host, rs[last].cache) == Passed <==> |ps| < ps[0][22])
  {
    HopsTaken(ps, rs, |ps| - 1);
    if |ps| > 1 {
      HopsTaken(ps, rs, |ps| - 2);
      assert FateOf(ps[|ps| - 2], rs[|ps| - 2].host, rs[|ps| - 2].cache) == Passed;
    }
  }

  /** The report of an expired packet is accepted by the host that sent it. */
  lemma ReportIsAccepted(p: seq<byte>, q: seq<byte>, host: Ip)
    requires ReportsExpiry(p, q, host) && Sealed(q)
    ensures IpAcceptable(q, 56, IpAt(p, 26)) && IpAt(q, 26) == host && IcmpVerifies(q)
  {
    IpRoundTrip(q, 26, host);
    assert q[30] == p[26] && q[31] == p[27] && q[32] == p[28] && q[33] == p[29];
    assert q[14] == 0x45;
  }

  /** Reports are never answered with reports: one that expires on the way is given up without a word. */
  lemma NoReportOfReport(p: seq<byte>, q: seq<byte>, host: Ip, r: Router)
    requires ReportsExpiry(p, q, host)
    ensures FateOf(q, r.host, r.cache) != Expired
    ensures q[22] <= 1 && IpAt(q, 30) != r.host && IpAt(q, 30) != Ip(0xffff, 0xffff) && !Seen(r.cache, KeyOf(q)) ==>
              FateOf(q, r.host, r.cache) == Unreported
  {
  }

  /** struct uip_fw_netif without its output function. */
  datatype Netif = Netif(addr: Ip, mask: Ip)

  predicate Serves(n: Netif, dest: Ip) { MaskCmp(dest, n.addr, n.mask) }

  /** The first interface whose network holds the address, else the default one, if there is any. */
  ghost predicate IsRoute(netifs: seq<Netif>, defaultNetif: Option<Netif>, dest: Ip, r: Option<Netif>)
  {
    || (exists i :: 0 <= i < |netifs| && Serves(netifs[i], dest) && r == Some(netifs[i]) &&
          forall j :: 0 <= j < i ==> !Serves(netifs[j], dest))
    || (r == defaultNetif && forall j :: 0 <= j < |netifs| ==> !Serves(netifs[j], dest))
  }

  /** What uip_fw_output made of the packet. */
  datatype Output = UIP_FW_ZEROLEN | UIP_FW_NOROUTE | Sent(netif: Netif)

  datatype Verdict = UIP_FW_LOCAL | UIP_FW_FORWARDED

  class Forwarder {
    const cache: array<Entry>
    var netifs: seq<Netif>
    var defaultNetif: Option<Netif>

    ghost predicate Valid()
      reads cache
    {
      CacheOk(cache[..])
    }

    /** The zeroed cache of FWCACHE_SIZE entries the module starts with. */
    constructor (size: nat)
      requires size > 0
      ensures Valid() && fresh(cache) && cache.Length == size
      ensures forall key :: !Seen(cache[..], key)
    {
      cache := new Entry[size](i => Entry(0, Key(0, Ip(0, 0), Ip(0, 0), 0)));
      netifs, defaultNetif := [], None;
    }

    /** find_netif */
    method FindNetif(dest: Ip) returns (r: Option<Netif>)
      ensures IsRoute(netifs, defaultNetif, dest, r)
    {
      var i := 0;
      while i < |netifs|
        invariant 0 <= i <= |netifs| && forall j :: 0 <= j < i ==> !Serves(netifs[j], dest)
      {
        if Serves(netifs[i], dest) {
          return Some(netifs[i]);
        }
        i := i + 1;
      }
      return defaultNetif;
    }

    /** uip_fw_output: the packet is registered whether there is a route or not. */
    method FwOutput(b: PacketBuffer) returns (o: Output)
      requires Valid() && b.Valid()
      modifies cache
      ensures Valid()
      ensures o == UIP_FW_ZEROLEN <==> b.len == 0
      ensures o == UIP_FW_ZEROLEN ==> cache[..] == old(cache[..])
      ensures o != UIP_FW_ZEROLEN ==>
                && CacheStep(old(cache[..]), CacheEvent.Register(KeyOf(b.buf[..])), cache[..])
                && IsRoute(netifs, defaultNetif, IpAt(b.buf[..], 30), if o.Sent? then Some(o.netif) else None)
    {
      if b.len == 0 {
        return UIP_FW_ZEROLEN;
      }
      Register(KeyOf(b.buf[..]));
      var netif := FindNetif(IpAt(b.buf[..], 30));
      if netif == None {
        return UIP_FW_NOROUTE;
      }
      return Sent(netif.value);
    }

    /** The loop that looks for the packet in the cache. */
    method Lookup(key: Key) returns (seen: bool)
      ensures seen == Seen(cache[..], key)
    {
      var i := 0;
      while i < cache.Length
        invariant 0 <= i <= cache.Length
        invariant forall k :: 0 <= k < i ==> cache[k].timer == 0 || cache[k].key != key
      {
        if cache[i].timer != 0 && cache[i].key == key {
          assert cache[..][i] == cache[i];
          return true;
        }
        i := i + 1;
      }
      return false;
    }

    /** fwcache_register */
    method Register(key: Key)
      requires Valid()
      modifies cache
      ensures Valid() && CacheStep(old(cache[..]), CacheEvent.Register(key), cache[..])
    {
      ghost var c := cache[..];
      var oldest := FW_TIME;
      var fw := 0;
      var i := 0;
      while i < cache.Length
        invariant 0 <= i <= cache.Length && 0 <= fw < cache.Length
        invariant i == 0 ==> oldest == FW_TIME
        invariant i > 0 ==> fw < i && cache[fw].timer == oldest
        invariant forall k :: 0 <= k < i ==> cache[k].timer != 0 && oldest <= cache[k].timer
        invariant forall k :: fw < k < i ==> oldest < cache[k].timer
      {
        if cache[i].timer == 0 {
          fw := i;
          break;
        } else if cache[i].timer <= oldest {
          fw := i;
          oldest := cache[i].timer;
        }
        i := i + 1;
      }
      assert IsVictim(c, fw);
      cache[fw] := Entry(FW_TIME, key);
      assert cache[..] == c[fw := Entry(FW_TIME, key)];
    }

    /** uip_fw_periodic */
    method Periodic()
      requires Valid()
      modifies cache
      ensures Valid() && CacheStep(old(cache[..]), Tick, cache[..])
    {
      var i := 0;
      while i < cache.Length
        invariant 0 <= i <= cache.Length
        invariant forall k :: 0 <= k < i ==>
          cache[k] == old(Entry(if cache[k].timer > 0 then cache[k].timer - 1 else 0, cache[k].key))
        invariant forall k :: i <= k < cache.Length ==> cache[k] == old(cache[k])
      {
        if cache[i].timer > 0 {
          cache[i] := cache[i].(timer := cache[i].timer - 1);
        }
        i := i + 1;
      }
    }

    /** The decrement of the TTL and the adjustment of the checksum. */
    method DecrementTtl(b: PacketBuffer)
      requires b.Valid()
      modifies b.buf
      ensures TtlDown(old(b.buf[..]), b.buf[..])
    {
      b.buf[22] := Plus8(b.buf[22], -1);
      var f := AddSwapped(Le16(b.buf[..], 24), 1);
      b.buf[24], b.buf[25] := f % 256, f / 256;
      LittleEndian(b.buf[24], b.buf[25], f);
    }

    /** uip_fw_forward; `o` is what uip_fw_output made of the packet left in the buffer. */
    method Forward(b: PacketBuffer) returns (v: Verdict, o: Output)
      requires Valid() && b.Valid() && b.buf.Length >= 70
      modifies b.buf, b`len, cache
      ensures Valid()
      ensures v == UIP_FW_LOCAL <==> old(FateOf(b.buf[..], b.host, cache[..])) == Local
      ensures old(FateOf(b.buf[..], b.host, cache[..])) in {Local, Suppressed} ==>
                o == UIP_FW_ZEROLEN && b.buf[..] == old(b.buf[..]) && b.len == old(b.len)
      ensures old(FateOf(b.buf[..], b.host, cache[..])) == Unreported ==> o == UIP_FW_ZEROLEN && b.len == 0
      ensures old(FateOf(b.buf[..], b.host, cache[..])) == Expired ==>
                o != UIP_FW_ZEROLEN && b.len == 56 && ReportsExpiry(old(b.buf[..]), b.buf[..], b.host) && Sealed(b.buf[..])
      ensures old(FateOf(b.buf[..], b.host, cache[..])) == Passed ==>
                (o == UIP_FW_ZEROLEN <==> b.len == 0) && b.len == old(b.len) && TtlDown(old(b.buf[..]), b.buf[..])
      ensures if o == UIP_FW_ZEROLEN then cache[..] == old(cache[..])
              else
                && CacheStep(old(cache[..]), CacheEvent.Register(KeyOf(b.buf[..])), cache[..])
                && IsRoute(netifs, defaultNetif, IpAt(b.buf[..], 30), if o.Sent? then Some(o.netif) else None)
    {
      ghost var p := b.buf[..];
      if IpAt(b.buf[..], 30) == b.host {
        return UIP_FW_LOCAL, UIP_FW_ZEROLEN;
      }
      var seen := Lookup(KeyOf(b.buf[..]));
      if seen {
        return UIP_FW_FORWARDED, UIP_FW_ZEROLEN;
      }
      if b.buf[22] <= 1 {
        if IpAt(b.buf[..], 30) == Ip(0xffff, 0xffff) {
          return UIP_FW_LOCAL, UIP_FW_ZEROLEN;
        }
        TimeExceeded(b);
      }
      ghost var q := b.buf[..];
      DecrementTtl(b);
      if p[22] <= 1 && p[23] != UIP_PROTO_ICMP {
        TtlDownKeepsReport(p, q, b.buf[..], b.host);
      }
      v, o := UIP_FW_FORWARDED, UIP_FW_ZEROLEN;
      if b.len > 0 {
        o := FwOutput(b);
      }
    }
  }
}
