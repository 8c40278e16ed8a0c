/** The ARP table and the resolution exchange (uip/uip_arp.c). */
module Arp {
  import opened Bytes
  import opened Words

  const UIP_ARP_MAXAGE: int := 120

  type Mac = s: seq<byte> | |s| == 6 witness [0, 0, 0, 0, 0, 0]

  /** struct arp_entry */
  datatype Entry = Entry(ip: Ip, mac: Mac, time: byte)

  const NO_IP := Ip(0, 0)

  /** Both 16-bit halves of the address are non-zero. */
  predicate BothHalves(ip: Ip) { ip.w0 != 0 && ip.w1 != 0 }

  /** No address stands in two entries. */
  predicate Distinct(t: seq<Entry>)
  {
    forall i, j :: 0 <= i < j < |t| && t[i].ip != NO_IP ==> t[i].ip != t[j].ip
  }

  /** The first entry from `k` on that holds `ip`. */
  function IndexOf(t: seq<Entry>, ip: Ip, k: nat): (i: nat)
    requires k <= |t|
    ensures k <= i <= |t|
    ensures i < |t| ==> t[i].ip == ip
    ensures forall j :: k <= j < i ==> t[j].ip != ip
    decreases |t| - k
  {
    if k == |t| || t[k].ip == ip then k else IndexOf(t, ip, k + 1)
  }

  /** The mapping a table stands for. */
  ghost function View(t: seq<Entry>): map<Ip, Mac>
  {
    map ip | ip in Ips(t) :: t[IndexOf(t, ip, 0)].mac
  }

  ghost function Ips(t: seq<Entry>): (s: set<Ip>)
    ensures forall ip :: ip in s ==> IndexOf(t, ip, 0) < |t|
  {
    set i | 0 <= i < |t| && t[i].ip != NO_IP :: t[i].ip
  }

  /** `m` maps the addresses of the used entries to their MACs and nothing else. */
  ghost predicate Represents(t: seq<Entry>, m: map<Ip, Mac>)
  {
    && (forall i :: 0 <= i < |t| && t[i].ip != NO_IP ==> t[i].ip in m && m[t[i].ip] == t[i].mac)
    && (forall ip :: ip in m ==> ip != NO_IP && IndexOf(t, ip, 0) < |t|)
  }

  lemma ViewRepresents(t: seq<Entry>)
    requires Distinct(t)
    ensures Represents(t, View(t))
  {
    forall i | 0 <= i < |t| && t[i].ip != NO_IP ensures t[i].ip in View(t) && View(t)[t[i].ip] == t[i].mac {
      assert t[i].ip in Ips(t);
      assert IndexOf(t, t[i].ip, 0) == i;
    }
  }

  lemma ViewUnique(t: seq<Entry>, m: map<Ip, Mac>)
    requires Distinct(t) && Represents(t, m)
    ensures View(t) == m
  {
    ViewRepresents(t);
    assert forall ip :: ip in m <==> ip in View(t);
  }

  function Age(e: Entry, now: byte): int { now - e.time }

  /** The index the search for a victim ends with: the greatest positive age, the first such. */
  predicate IsVictim(t: seq<Entry>, now: byte, c: nat)
  {
    && c < |t|
    && (forall j :: 0 <= j < |t| ==> Age(t[j], now) <= 0 || Age(t[j], now) <= Age(t[c], now))
    && (forall j :: 0 <= j < c ==> Age(t[j], now) < Age(t[c], now))
    && (c > 0 ==> Age(t[c], now) > 0)
  }

  class ArpTable {
    const table: array<Entry>
    var arptime: byte

    ghost predicate Valid() { 0 < table.Length }

    /** The static table as uip_arp_init leaves it. */
    constructor (size: nat)
      requires 0 < size
      ensures Valid() && fresh(table) && table.Length == size
      ensures forall i :: 0 <= i < size ==> table[i].ip == NO_IP
    {
      table := new Entry[size](i => Entry(NO_IP, [0, 0, 0, 0, 0, 0], 0));
      arptime := 0;
    }

    /** uip_arp_update */
    method Update(ip: Ip, mac: Mac)
      requires Valid()
      modifies table
      ensures Updated(old(table[..]), arptime, ip, mac, table[..])
    {
      ghost var t := table[..];
      var i := 0;
      while i < table.Length
        invariant 0 <= i <= table.Length && table[..] == t
        invariant BothHalves(ip) ==> forall j :: 0 <= j < i ==> t[j].ip != ip
      {
        if table[i].ip.w0 != 0 && table[i].ip.w1 != 0 {
          if ip == table[i].ip {
            table[i] := table[i].(mac := mac, time := arptime);
            assert table[..] == t[i := Entry(ip, mac, arptime)];
            assert Slot(t, arptime, ip, i);
            return;
          }
        }
        i := i + 1;
      }
      i := 0;
      while i < table.Length
        invariant 0 <= i <= table.Length && table[..] == t
        invariant forall j :: 0 <= j < i ==> t[j].ip != NO_IP
      {
        if table[i].ip.w0 == 0 && table[i].ip.w1 == 0 {
          break;
        }
        i := i + 1;
      }
      if i == table.Length {
        i := Oldest();
      }
      assert Slot(t, arptime, ip, i);
      table[i] := Entry(ip, mac, arptime);
      assert table[..] == t[i := Entry(ip, mac, arptime)];
    }

    /** The search for the entry to throw away. */
    method Oldest() returns (c: nat)
      requires 0 < table.Length
      ensures IsVictim(table[..], arptime, c)
    {
      var tmpage := 0;
      c := 0;
      var i := 0;
      while i < table.Length
        invariant 0 <= i <= table.Length && c < table.Length && tmpage >= 0
        invariant c < i || (c == 0 && tmpage == 0)
        invariant tmpage == 0 ==> c == 0
        invariant tmpage > 0 ==> tmpage == Age(table[c], arptime)
        invariant forall j :: 0 <= j < i ==> Age(table[j], arptime) <= tmpage
        invariant forall j :: 0 <= j < c ==> Age(table[j], arptime) < tmpage
      {
        if arptime - table[i].time > tmpage {
          tmpage := arptime - table[i].time;
          c := i;
        }
        i := i + 1;
      }
    }

    /** uip_arp_timer */
    method Timer()
      modifies this, table
      ensures arptime == Plus8(old(arptime), 1)
      ensures TimedOut(old(table[..]), arptime, table[..])
    {
      ghost var t := table[..];
      arptime := Plus8(arptime, 1);
      var i := 0;
      while i < table.Length
        modifies table
        invariant 0 <= i <= table.Length
        invariant forall j :: 0 <= j < i ==> table[j] == Expire(t[j], arptime)
        invariant forall j :: i <= j < table.Length ==> table[j] == t[j]
      {
        if table[i].ip != NO_IP && arptime - table[i].time >= UIP_ARP_MAXAGE {
          table[i] := table[i].(ip := NO_IP);
        }
        i := i + 1;
      }
    }
  }

  /**
   * What an update does to the entries: the entry of this address is refreshed, else the first
   * unused entry is filled, else the victim is replaced.  An address with a zero half is never
   * recognised.
   */
  ghost predicate Updated(t: seq<Entry>, now: byte, ip: Ip, mac: Mac, u: seq<Entry>)
  {
    exists i :: 0 <= i < |t| && u == t[i := Entry(ip, mac, now)] && Slot(t, now, ip, i)
  }

  ghost predicate Slot(t: seq<Entry>, now: byte, ip: Ip, i: nat)
    requires i < |t|
  {
    if BothHalves(ip) && IndexOf(t, ip, 0) < |t| then i == IndexOf(t, ip, 0)
    else if IndexOf(t, NO_IP, 0) < |t| then i == IndexOf(t, NO_IP, 0)
    else IsVictim(t, now, i)
  }

  function Expire(e: Entry, now: byte): Entry
  {
    if e.ip != NO_IP && Age(e, now) >= UIP_ARP_MAXAGE then e.(ip := NO_IP) else e
  }

  ghost predicate TimedOut(t: seq<Entry>, now: byte, u: seq<Entry>)
  {
    |u| == |t| && forall j :: 0 <= j < |t| ==> u[j] == Expire(t[j], now)
  }

  /** Overwriting the slot replaces the slot's mapping by the new one. */
  lemma OverwriteRepresents(t: seq<Entry>, m: map<Ip, Mac>, i: nat, e: Entry)
    requires Distinct(t) && Represents(t, m) && i < |t| && e.ip != NO_IP
    requires forall j :: 0 <= j < |t| && j != i ==> t[j].ip != e.ip
    ensures Distinct(t[i := e]) && Represents(t[i := e], (m - {t[i].ip})[e.ip := e.mac])
  {
    var u := t[i := e];
    var n := (m - {t[i].ip})[e.ip := e.mac];
    forall ip | ip in n ensures ip != NO_IP && IndexOf(u, ip, 0) < |u| {
      assert u[if ip == e.ip then i else IndexOf(t, ip, 0)].ip == ip;
    }
  }

  /**
   * The table refines a bounded map: the address maps to the new MAC, and every other mapping is
   * kept, except that one is lost exactly when the address is new and no entry is unused.
   * `i` is the entry that `Updated` says was written.
   */
  lemma UpdateRefines(t: seq<Entry>, now: byte, ip: Ip, mac: Mac, i: nat)
    requires Distinct(t) && BothHalves(ip) && i < |t| && Slot(t, now, ip, i)
    ensures var evicts := ip !in View(t) && IndexOf(t, NO_IP, 0) == |t|;
            && Distinct(t[i := Entry(ip, mac, now)])
            && View(t[i := Entry(ip, mac, now)]) == (if evicts then View(t) - {t[i].ip} else View(t))[ip := mac]
  {
    var m := View(t);
    ViewRepresents(t);
    SlotIsFree(t, now, ip, i);
    OverwriteRepresents(t, m, i, Entry(ip, mac, now));
    ViewUnique(t[i := Entry(ip, mac, now)], (m - {t[i].ip})[ip := mac]);
    MapOverwrite(m, t[i].ip, ip, mac);
  }

  lemma MapOverwrite(m: map<Ip, Mac>, was: Ip, ip: Ip, mac: Mac)
    ensures was == ip || was !in m ==> (m - {was})[ip := mac] == m[ip := mac]
  {
  }

  /** No other entry holds the address, and what the slot held is this address, nothing, or the victim. */
  lemma SlotIsFree(t: seq<Entry>, now: byte, ip: Ip, i: nat)
    requires Distinct(t) && BothHalves(ip) && i < |t| && Slot(t, now, ip, i)
    ensures forall j :: 0 <= j < |t| && j != i ==> t[j].ip != ip
    ensures t[i].ip == ip || t[i].ip == NO_IP || (ip !in View(t) && IndexOf(t, NO_IP, 0) == |t|)
    ensures t[i].ip == NO_IP ==> t[i].ip !in View(t)
    ensures ip !in View(t) && IndexOf(t, NO_IP, 0) == |t| ==> t[i].ip in View(t)
  {
    ViewRepresents(t);
  }

  lemma TimerRepresents(t: seq<Entry>, m: map<Ip, Mac>, now: byte, u: seq<Entry>, n: map<Ip, Mac>)
    requires Distinct(t) && Represents(t, m) && Distinct(u) && Represents(u, n) && TimedOut(t, now, u)
    ensures forall ip :: ip in n ==> ip in m && n[ip] == m[ip]
    ensures forall i :: 0 <= i < |t| && t[i].ip != NO_IP ==> (t[i].ip in n <==> Age(t[i], now) < UIP_ARP_MAXAGE)
  {
    forall ip | ip in n ensures ip in m && n[ip] == m[ip] {
      var j := IndexOf(u, ip, 0);
      assert u[j].ip == ip && t[j].ip == ip;
    }
    forall i | 0 <= i < |t| && t[i].ip != NO_IP ensures t[i].ip in n <==> Age(t[i], now) < UIP_ARP_MAXAGE {
      if t[i].ip in n {
        var j := IndexOf(u, t[i].ip, 0);
        assert u[j].ip == t[i].ip && t[j].ip == t[i].ip;
        assert j == i;
      } else {
        assert u[i].ip == NO_IP;
      }
    }
  }

  /**
   * Refreshing an address that is in the table duplicates it exactly when a half of it is zero,
   * unless no entry is unused and its own is the victim.
   */
  lemma DuplicatesIff(t: seq<Entry>, now: byte, ip: Ip, mac: Mac, u: seq<Entry>)
    requires Distinct(t) && ip != NO_IP && IndexOf(t, ip, 0) < |t| && Updated(t, now, ip, mac, u)
    ensures Distinct(u) <==>
            BothHalves(ip) || (IndexOf(t, NO_IP, 0) == |t| && IsVictim(t, now, IndexOf(t, ip, 0)))
  {
    var i :| 0 <= i < |t| && u == t[i := Entry(ip, mac, now)] && Slot(t, now, ip, i);
    var j := IndexOf(t, ip, 0);
    assert u[i].ip == ip;
    if j != i {
      assert u[j].ip == ip;
    }
    if IsVictim(t, now, i) && IsVictim(t, now, j) {
      OneVictim(t, now, i, j);
    }
  }

  lemma OneVictim(t: seq<Entry>, now: byte, c: nat, d: nat)
    requires IsVictim(t, now, c) && IsVictim(t, now, d)
    ensures c == d
  {
  }

  /** As long as no time stamp lies ahead of the clock the entry thrown away is the oldest. */
  lemma VictimIsOldest(t: seq<Entry>, now: byte, c: nat)
    requires IsVictim(t, now, c) && forall j :: 0 <= j < |t| ==> t[j].time <= now
    ensures forall j :: 0 <= j < |t| ==> t[c].time <= t[j].time
  {
    assert Age(t[c], now) >= 0;
    assert forall j :: 0 <= j < |t| ==> Age(t[j], now) >= 0;
  }

  /** The timer only removes mappings, and exactly those of age UIP_ARP_MAXAGE or more. */
  lemma TimerRemoves(t: seq<Entry>, now: byte, u: seq<Entry>)
    requires Distinct(t) && TimedOut(t, now, u)
    ensures Distinct(u)
    ensures forall ip :: ip in View(u) ==> ip in View(t) && View(u)[ip] == View(t)[ip]
    ensures forall i :: 0 <= i < |t| && t[i].ip != NO_IP ==>
              (t[i].ip in View(u) <==> Age(t[i], now) < UIP_ARP_MAXAGE)
  {
    ViewRepresents(t);
    ViewRepresents(u);
    TimerRepresents(t, View(t), now, u, View(u));
  }
}
