/**
 * Address resolution on the packet buffer (uip/uip_arp.c:278-418) and the exchange between two
 * hosts.  Offsets are those of struct arp_hdr and struct ethip_hdr.
 */
module ArpExchange {
  import opened Arp
  import opened Bytes
  import opened Words

  const ARP_LEN: nat := 42  // sizeof(struct arp_hdr)
  const ETH_LEN: nat := 14  // sizeof(struct uip_eth_hdr)
  const BROADCAST_IP := Ip(0xffff, 0xffff)
  const BROADCAST_MAC: Mac := [0xff, 0xff, 0xff, 0xff, 0xff, 0xff]
  const NO_MAC: Mac := [0, 0, 0, 0, 0, 0]
  const TYPE_IP: seq<byte> := [8, 0]
  const TYPE_ARP: seq<byte> := [8, 6]
  const REQUEST: seq<byte> := [0, 1]
  const REPLY: seq<byte> := [0, 2]

  /** uip_hostaddr, uip_netmask, uip_draddr and uip_ethaddr. */
  datatype Config = Config(addr: Ip, mask: Ip, router: Ip, mac: Mac)

  /** The address whose MAC a packet needs. */
  function NextHop(cfg: Config, dest: Ip): Ip
  {
    if MaskCmp(dest, cfg.addr, cfg.mask) then dest else cfg.router
  }

  // ---- What the two functions do to the buffer ----

  /** `q` is the IP packet `p` behind an Ethernet header. */
  ghost predicate IsFramed(p: seq<byte>, dest: Mac, src: Mac, q: seq<byte>)
  {
    Has(q, 0, dest) && Has(q, 6, src) && Has(q, 12, TYPE_IP) && SameFrom(p, q, ETH_LEN)
  }

  ghost predicate IsRequest(cfg: Config, target: Ip, q: seq<byte>)
  {
    && Has(q, 0, BROADCAST_MAC) && Has(q, 6, cfg.mac) && Has(q, 12, TYPE_ARP)
    && Has(q, 14, [0, 1]) && Has(q, 16, TYPE_IP) && Has(q, 18, [6, 4]) && Has(q, 20, REQUEST)
    && Has(q, 22, cfg.mac) && Has(q, 28, IpBytes(cfg.addr))
    && Has(q, 32, NO_MAC) && Has(q, 38, IpBytes(target))
  }

  function MacAt(p: seq<byte>, at: nat): Mac
    requires at + 6 <= |p|
  {
    p[at..at + 6]
  }

  /** `q` answers the request `p`. */
  ghost predicate IsReply(cfg: Config, p: seq<byte>, q: seq<byte>)
    requires |p| >= ARP_LEN
  {
    && Has(q, 0, MacAt(p, 22)) && Has(q, 6, cfg.mac) && Has(q, 12, TYPE_ARP)
    && Has(q, 14, p[14..20]) && Has(q, 20, REPLY)
    && Has(q, 22, cfg.mac) && Has(q, 28, IpBytes(cfg.addr))
    && Has(q, 32, MacAt(p, 22)) && Has(q, 38, p[28..32])
  }

  /** uip_arp_out on the packet `p` of length `n`: the frame `q` of length `m`. */
  ghost predicate OutStep(cfg: Config, t: seq<Entry>, p: seq<byte>, n: u16, q: seq<byte>, m: u16)
    requires |p| == |q| >= ARP_LEN
  {
    var dest := IpAt(p, 30);
    var i := IndexOf(t, NextHop(cfg, dest), 0);
    if dest == BROADCAST_IP then IsFramed(p, BROADCAST_MAC, cfg.mac, q) && m == Plus16(n, ETH_LEN)
    else if i < |t| then IsFramed(p, t[i].mac, cfg.mac, q) && m == Plus16(n, ETH_LEN)
    else IsRequest(cfg, NextHop(cfg, dest), q) && SameFrom(p, q, ARP_LEN) && m == ARP_LEN
  }

  /** uip_arp_arpin on the frame `p` of length `n`. */
  ghost predicate ArpInStep(cfg: Config, now: byte, t: seq<Entry>, p: seq<byte>, n: u16, u: seq<Entry>, q: seq<byte>, m: u16)
    requires |p| == |q| >= ARP_LEN
  {
    var forUs := n >= ARP_LEN && IpAt(p, 38) == cfg.addr && (Has(p, 20, REQUEST) || Has(p, 20, REPLY));
    && (if forUs then Updated(t, now, IpAt(p, 28), MacAt(p, 22), u) else u == t)
    && (if forUs && Has(p, 20, REQUEST) then IsReply(cfg, p, q) && SameFrom(p, q, ARP_LEN) && m == ARP_LEN
        else q == p && m == 0)
  }

  class Host {
    const arp: ArpTable
    const buf: array<byte>
    const cfg: Config
    var uipLen: u16

    ghost predicate Valid()
    {
      buf.Length >= ARP_LEN && arp.Valid() && buf as object != arp.table
    }

    constructor (table: ArpTable, buffer: array<byte>, config: Config)
      requires table.Valid() && buffer.Length >= ARP_LEN && buffer as object != table.table
      ensures Valid() && arp == table && buf == buffer && cfg == config && uipLen == 0
    {
      arp, buf, cfg, uipLen := table, buffer, config, 0;
    }

    /** The four hardware addresses of a request. */
    method WriteRequestMacs()
      requires Valid()
      modifies buf
      ensures Has(buf[..], 0, BROADCAST_MAC) && Has(buf[..], 6, cfg.mac)
      ensures Has(buf[..], 22, cfg.mac) && Has(buf[..], 32, NO_MAC)
      ensures forall i :: ARP_LEN <= i < buf.Length ==> buf[i] == old(buf[i])
    {
      MemCpy(buf, 0, BROADCAST_MAC);
      MemCpy(buf, 32, NO_MAC);
      MemCpy(buf, 6, cfg.mac);
      MemCpy(buf, 22, cfg.mac);
    }

    /** The other fields of a request. */
    method WriteRequestFields(target: Ip)
      requires Valid()
      modifies buf
      ensures Has(buf[..], 12, TYPE_ARP) && Has(buf[..], 14, [0, 1]) && Has(buf[..], 16, TYPE_IP)
      ensures Has(buf[..], 18, [6, 4]) && Has(buf[..], 20, REQUEST)
      ensures Has(buf[..], 28, IpBytes(cfg.addr)) && Has(buf[..], 38, IpBytes(target))
      ensures forall i :: 0 <= i < buf.Length && (i < 12 || 22 <= i < 28 || 32 <= i < 38 || ARP_LEN <= i) ==>
                buf[i] == old(buf[i])
    {
      MemCpy(buf, 38, IpBytes(target));
      MemCpy(buf, 28, IpBytes(cfg.addr));
      MemCpy(buf, 20, REQUEST);
      MemCpy(buf, 14, [0, 1]);
      MemCpy(buf, 16, TYPE_IP);
      MemCpy(buf, 18, [6, 4]);
      MemCpy(buf, 12, TYPE_ARP);
    }

    /** The packet is overwritten with a request. */
    method WriteRequest(target: Ip)
      requires Valid()
      modifies buf
      ensures IsRequest(cfg, target, buf[..]) && SameFrom(old(buf[..]), buf[..], ARP_LEN)
    {
      WriteRequestMacs();
      WriteRequestFields(target);
    }

    /** The opcode and the hardware addresses of the reply. */
    method WriteReplyMacs()
      requires Valid()
      modifies buf
      ensures Has(buf[..], 20, REPLY) && Has(buf[..], 6, cfg.mac) && Has(buf[..], 22, cfg.mac)
      ensures Has(buf[..], 32, old(MacAt(buf[..], 22))) && Has(buf[..], 0, old(MacAt(buf[..], 22)))
      ensures forall i :: 0 <= i < buf.Length && (12 <= i < 20 || 28 <= i < 32 || 38 <= i) ==> buf[i] == old(buf[i])
    {
      var requester := buf[22..28];
      MemCpy(buf, 20, REPLY);
      MemCpy(buf, 32, requester);
      assert Has(buf[..], 32, requester);
      MemCpy(buf, 22, cfg.mac);
      MemCpy(buf, 6, cfg.mac);
      assert Has(buf[..], 32, requester);
      MemCpy(buf, 0, buf[32..38]);
    }

    /** The protocol addresses of the reply and the frame type. */
    method WriteReplyFields()
      requires Valid()
      modifies buf
      ensures Has(buf[..], 12, TYPE_ARP) && Has(buf[..], 28, IpBytes(cfg.addr))
      ensures Has(buf[..], 38, old(buf[28..32]))
      ensures forall i :: 0 <= i < buf.Length && !(12 <= i < 14 || 28 <= i < 32 || 38 <= i < 42) ==>
                buf[i] == old(buf[i])
    {
      MemCpy(buf, 38, buf[28..32]);
      MemCpy(buf, 28, IpBytes(cfg.addr));
      MemCpy(buf, 12, TYPE_ARP);
    }

    /** A request becomes the reply to it. */
    method WriteReply()
      requires Valid()
      modifies buf
      ensures IsReply(cfg, old(buf[..]), buf[..]) && SameFrom(old(buf[..]), buf[..], ARP_LEN)
    {
      WriteReplyMacs();
      WriteReplyFields();
    }

    /** The loop of uip_arp_out that looks for the address. */
    method Find(target: Ip) returns (i: nat)
      requires Valid()
      ensures i == IndexOf(arp.table[..], target, 0) <= arp.table.Length
    {
      i := 0;
      while i < arp.table.Length
        invariant 0 <= i <= arp.table.Length
        invariant forall j :: 0 <= j < i ==> arp.table[j].ip != target
      {
        if target == arp.table[i].ip {
          break;
        }
        i := i + 1;
      }
    }

    /** The Ethernet header is built in front of the packet. */
    method Frame(dest: Mac)
      requires Valid()
      modifies `uipLen, buf
      ensures IsFramed(old(buf[..]), dest, cfg.mac, buf[..]) && uipLen == Plus16(old(uipLen), ETH_LEN)
    {
      MemCpy(buf, 0, dest);
      MemCpy(buf, 6, cfg.mac);
      MemCpy(buf, 12, TYPE_IP);
      uipLen := Plus16(uipLen, ETH_LEN);
    }

    /** uip_arp_out */
    method Out()
      requires Valid()
      modifies this, buf
      ensures OutStep(cfg, arp.table[..], old(buf[..]), old(uipLen), buf[..], uipLen)
    {
      var dest := IpAt(buf[..], 30);
      if dest == BROADCAST_IP {
        Frame(BROADCAST_MAC);
        return;
      }
      var target := if !MaskCmp(dest, cfg.addr, cfg.mask) then cfg.router else dest;
      var i := Find(target);
      if i == arp.table.Length {
        WriteRequest(target);
        uipLen := ARP_LEN;
        return;
      }
      Frame(arp.table[i].mac);
    }

    /** uip_arp_arpin */
    method ArpIn()
      requires Valid()
      modifies this, buf, arp.table
      ensures ArpInStep(cfg, arp.arptime, old(arp.table[..]), old(buf[..]), old(uipLen), arp.table[..], buf[..], uipLen)
    {
      if uipLen < ARP_LEN {
        uipLen := 0;
        return;
      }
      uipLen := 0;
      if buf[20] == 0 && buf[21] == 1 {
        if IpAt(buf[..], 38) == cfg.addr {
          arp.Update(IpAt(buf[..], 28), buf[22..28]);
          WriteReply();
          uipLen := ARP_LEN;
        }
      } else if buf[20] == 0 && buf[21] == 2 {
        if IpAt(buf[..], 38) == cfg.addr {
          arp.Update(IpAt(buf[..], 28), buf[22..28]);
        }
      }
    }
  }

  // ---- The exchange between two hosts ----

  /** A frame put on the wire by one host as it lies in the other's buffer. */
  ghost predicate Carried(sent: seq<byte>, received: seq<byte>)
  {
    |sent| >= ARP_LEN && |received| >= ARP_LEN && forall i :: 0 <= i < ARP_LEN ==> received[i] == sent[i]
  }

  lemma UpdatedMaps(t: seq<Entry>, now: byte, ip: Ip, mac: Mac, u: seq<Entry>)
    requires Distinct(t) && BothHalves(ip) && Updated(t, now, ip, mac, u)
    ensures Distinct(u) && ip in View(u) && View(u)[ip] == mac
    ensures IndexOf(u, ip, 0) < |u| && u[IndexOf(u, ip, 0)].mac == mac
  {
    var i :| 0 <= i < |t| && u == t[i := Entry(ip, mac, now)] && Slot(t, now, ip, i);
    UpdateRefines(t, now, ip, mac, i);
  }

  /** A host that receives a request for its address learns the sender and answers it. */
  lemma RequestIsAnswered(a: Config, b: Config, t: seq<Entry>, now: byte,
                          req: seq<byte>, f: seq<byte>, u: seq<Entry>, q: seq<byte>, m: u16)
    requires BothHalves(a.addr) && Distinct(t)
    requires IsRequest(a, b.addr, req) && Carried(req, f) && |q| == |f|
    requires ArpInStep(b, now, t, f, ARP_LEN, u, q, m)
    ensures a.addr in View(u) && View(u)[a.addr] == a.mac && Distinct(u)
    ensures m == ARP_LEN && Has(q, 0, a.mac) && Has(q, 20, REPLY)
    ensures IpAt(q, 28) == b.addr && MacAt(q, 22) == b.mac && IpAt(q, 38) == a.addr
  {
    RequestIsRead(a, b.addr, req, f);
    UpdatedMaps(t, now, a.addr, a.mac, u);
    ReplyNames(b, f, q);
  }

  lemma RequestIsRead(a: Config, target: Ip, req: seq<byte>, f: seq<byte>)
    requires IsRequest(a, target, req) && Carried(req, f)
    ensures IpAt(f, 28) == a.addr && IpAt(f, 38) == target && MacAt(f, 22) == a.mac && Has(f, 20, REQUEST)
  {
    IpRoundTrip(f, 28, a.addr);
    IpRoundTrip(f, 38, target);
  }

  lemma ReplyNames(b: Config, f: seq<byte>, q: seq<byte>)
    requires |f| == |q| >= ARP_LEN && IsReply(b, f, q)
    ensures Has(q, 0, MacAt(f, 22)) && Has(q, 20, REPLY)
    ensures IpAt(q, 28) == b.addr && MacAt(q, 22) == b.mac && IpAt(q, 38) == IpAt(f, 28)
  {
    IpRoundTrip(q, 28, b.addr);
    assert q[38] == f[28] && q[39] == f[29] && q[40] == f[30] && q[41] == f[31];
  }

  /** A host that receives a reply addressed to it learns the sender. */
  lemma ReplyIsLearnt(a: Config, b: Config, t: seq<Entry>, now: byte,
                      rep: seq<byte>, f: seq<byte>, u: seq<Entry>, q: seq<byte>, m: u16)
    requires BothHalves(b.addr) && Distinct(t)
    requires |rep| >= ARP_LEN && Has(rep, 20, REPLY)
    requires IpAt(rep, 28) == b.addr && MacAt(rep, 22) == b.mac && IpAt(rep, 38) == a.addr
    requires Carried(rep, f) && |q| == |f| && ArpInStep(a, now, t, f, ARP_LEN, u, q, m)
    ensures b.addr in View(u) && View(u)[b.addr] == b.mac
    ensures IndexOf(u, b.addr, 0) < |u| && u[IndexOf(u, b.addr, 0)].mac == b.mac
    ensures m == 0
  {
    ReplyIsRead(rep, f);
    UpdatedMaps(t, now, b.addr, b.mac, u);
  }

  lemma ReplyIsRead(rep: seq<byte>, f: seq<byte>)
    requires |rep| >= ARP_LEN && Has(rep, 20, REPLY) && Carried(rep, f)
    ensures IpAt(f, 28) == IpAt(rep, 28) && IpAt(f, 38) == IpAt(rep, 38) && MacAt(f, 22) == MacAt(rep, 22)
    ensures Has(f, 20, REPLY) && !Has(f, 20, REQUEST)
  {
    assert f[21] == 2 && REQUEST[1] == 1;
  }

  // ---- Where a packet goes ----

  /** A destination outside the network is reached through the router, and asked for nowhere else. */
  lemma OffLinkGoesToRouter(a: Config, t: seq<Entry>, p: seq<byte>, n: u16, q: seq<byte>, m: u16)
    requires |p| == |q| >= ARP_LEN && n <= 0xffff - ETH_LEN && OutStep(a, t, p, n, q, m)
    requires IpAt(p, 30) != BROADCAST_IP && !MaskCmp(IpAt(p, 30), a.addr, a.mask)
    ensures if IndexOf(t, a.router, 0) < |t| then IsFramed(p, t[IndexOf(t, a.router, 0)].mac, a.mac, q) && m == n + ETH_LEN
            else IsRequest(a, a.router, q) && m == ARP_LEN
  {
  }

  /** A destination in the network is reached directly, or asked for itself. */
  lemma OnLinkGoesDirectly(a: Config, t: seq<Entry>, p: seq<byte>, n: u16, q: seq<byte>, m: u16)
    requires |p| == |q| >= ARP_LEN && n <= 0xffff - ETH_LEN && OutStep(a, t, p, n, q, m)
    requires IpAt(p, 30) != BROADCAST_IP && MaskCmp(IpAt(p, 30), a.addr, a.mask)
    ensures var dest := IpAt(p, 30);
            if IndexOf(t, dest, 0) < |t| then IsFramed(p, t[IndexOf(t, dest, 0)].mac, a.mac, q) && m == n + ETH_LEN
            else IsRequest(a, dest, q) && m == ARP_LEN
  {
  }

  /** A broadcast is framed for everybody, whatever is in the table. */
  lemma BroadcastGoesToAll(a: Config, t: seq<Entry>, p: seq<byte>, n: u16, q: seq<byte>, m: u16)
    requires |p| == |q| >= ARP_LEN && n <= 0xffff - ETH_LEN && OutStep(a, t, p, n, q, m)
    requires IpAt(p, 30) == BROADCAST_IP
    ensures IsFramed(p, BROADCAST_MAC, a.mac, q) && m == n + ETH_LEN
  {
  }

  /** A host at 192.168.0.2/24 with an empty table sends a packet for 10.0.0.5 nowhere, and asks for its router. */
  lemma RouterIsAskedFor(a: Config, t: seq<Entry>, p: seq<byte>, n: u16, q: seq<byte>, m: u16)
    requires |p| == |q| >= ARP_LEN && n <= 0xffff - ETH_LEN && OutStep(a, t, p, n, q, m)
    requires a.addr == Ip(0xa8c0, 0x0200) && a.mask == Ip(0xffff, 0x00ff) && a.router == Ip(0xa8c0, 0x0100)
    requires IpAt(p, 30) == Ip(0x000a, 0x0500) && forall i :: 0 <= i < |t| ==> t[i].ip == NO_IP
    ensures IsRequest(a, a.router, q) && m == ARP_LEN
  {
    OtherNetwork();
    OffLinkGoesToRouter(a, t, p, n, q, m);
    assert forall i :: 0 <= i < |t| ==> t[i].ip != a.router;
  }

  /** 10.0.0.5 and 192.168.0.2 differ in the first byte, which 255.255.255.0 selects. */
  lemma OtherNetwork()
    ensures !MaskCmp(Ip(0x000a, 0x0500), Ip(0xa8c0, 0x0200), Ip(0xffff, 0x00ff))
  {
    SecondBit(0xffff);
    SecondBit(0x000a);
    SecondBit(0xa8c0);
    DifferInBit(Ip(0x000a, 0x0500), Ip(0xa8c0, 0x0200), Ip(0xffff, 0x00ff), 1);
  }

  /** What a host does not take for itself changes nothing, and is not answered. */
  lemma NotForUs(b: Config, now: byte, t: seq<Entry>, f: seq<byte>, n: u16, u: seq<Entry>, q: seq<byte>, m: u16)
    requires |f| == |q| >= ARP_LEN && ArpInStep(b, now, t, f, n, u, q, m)
    requires n < ARP_LEN || IpAt(f, 38) != b.addr || f[20] != 0 || (f[21] != 1 && f[21] != 2)
    ensures u == t && q == f && m == 0
  {
  }

  /** An ARP packet for IP over Ethernet, in a frame of the right type. */
  ghost predicate IsArp(q: seq<byte>)
  {
    Has(q, 12, TYPE_ARP) && Has(q, 14, [0, 1]) && Has(q, 16, TYPE_IP) && Has(q, 18, [6, 4])
  }

  /** Requests are such packets, and so are the replies to them. */
  lemma RequestsAndRepliesAreArp(a: Config, b: Config, target: Ip, req: seq<byte>, f: seq<byte>, rep: seq<byte>)
    requires IsRequest(a, target, req) && Carried(req, f) && IsReply(b, f, rep)
    ensures IsArp(req) && IsArp(rep)
  {
    assert forall i :: 14 <= i < 20 ==> rep[i] == f[14..20][i - 14] == f[i] == req[i];
  }

  /** A packet whose next hop is in the table is framed for the MAC found there. */
  lemma KnownIsFramed(a: Config, t: seq<Entry>, hop: Ip, mac: Mac, p: seq<byte>, n: u16, q: seq<byte>, m: u16)
    requires |p| == |q| >= ARP_LEN && n <= 0xffff - ETH_LEN
    requires IpAt(p, 30) != BROADCAST_IP && NextHop(a, IpAt(p, 30)) == hop
    requires IndexOf(t, hop, 0) < |t| && t[IndexOf(t, hop, 0)].mac == mac
    requires OutStep(a, t, p, n, q, m)
    ensures IsFramed(p, mac, a.mac, q) && m == n + ETH_LEN
  {
  }

  /**
   * A's packet for B, or for a host behind the router B, misses; B answers the request and A
   * takes the answer: both tables now map the other host, and the same packet sent again leaves
   * with B's MAC and an Ethernet header.
   */
  lemma ExchangeResolves(a: Config, b: Config, tA: seq<Entry>, tB: seq<Entry>, nowA: byte, nowB: byte,
                         p: seq<byte>, n: u16, req: seq<byte>, m1: u16,
                         f1: seq<byte>, uB: seq<Entry>, rep: seq<byte>, m2: u16,
                         f2: seq<byte>, uA: seq<Entry>, g: seq<byte>, m3: u16,
                         again: seq<byte>, m4: u16)
    requires BothHalves(a.addr) && BothHalves(b.addr) && Distinct(tA) && Distinct(tB)
    requires |p| == |req| == |again| >= ARP_LEN && n <= 0xffff - ETH_LEN
    requires IpAt(p, 30) != BROADCAST_IP
    requires if MaskCmp(IpAt(p, 30), a.addr, a.mask) then IpAt(p, 30) == b.addr else a.router == b.addr
    requires IndexOf(tA, b.addr, 0) == |tA| && OutStep(a, tA, p, n, req, m1)
    requires Carried(req, f1) && |rep| == |f1| && ArpInStep(b, nowB, tB, f1, m1, uB, rep, m2)
    requires Carried(rep, f2) && |g| == |f2| && ArpInStep(a, nowA, tA, f2, m2, uA, g, m3)
    requires OutStep(a, uA, p, n, again, m4)
    ensures a.addr in View(uB) && View(uB)[a.addr] == a.mac
    ensures b.addr in View(uA) && View(uA)[b.addr] == b.mac
    ensures IsFramed(p, b.mac, a.mac, again) && m4 == n + ETH_LEN
  {
    RequestIsAnswered(a, b, tB, nowB, req, f1, uB, rep, m2);
    ReplyIsLearnt(a, b, tA, nowA, rep, f2, uA, g, m3);
    KnownIsFramed(a, uA, b.addr, b.mac, p, n, again, m4);
  }
}
