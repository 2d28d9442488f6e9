/** The Ethernet layer between driver and stack: ethernet.c, the gPTP hook, and the
    driver's dispatch in xemacpsif_input. */
module Ethernet {
  import opened CInt

  const SIZEOF_ETH_HDR := 14
  const SIZEOF_VLAN_HDR := 4
  const ETHTYPE_IP := 0x0800
  const ETHTYPE_ARP := 0x0806
  const ETHTYPE_VLAN := 0x8100
  const ETHTYPE_IPV6 := 0x86DD
  const ETHTYPE_PTP := 0x88F7

  /** The build options that the code depends on, and the VLAN let through if any
        one is chosen. */
  datatype Config = Config(vlan: bool, ipv6: bool, onlyVlan: Option<int>)

  /** What happens to a received buffer: it is freed, or handed to an upper layer,
      which then owns it; a PTP message is looked at without being given away. */
  datatype Event =
    | PbufFree
    | Ip4Input(payload: seq<byte>)
    | EtharpInput(payload: seq<byte>)
    | Ip6Input(payload: seq<byte>)
    | PtpMessage(data: seq<byte>)

  /** How often a run of events gives the buffer away. */
  function Consumptions(events: seq<Event>): nat {
    if events == [] then 0 else Consumptions(events[1..]) + if events[0].PtpMessage? then 0 else 1
  }

  /** A 16-bit field in network order. */
  function Field(frame: seq<byte>, at: nat): int
    requires at + 2 <= |frame|
  {
    var high: int := frame[at];
    high * 256 + frame[at + 1]
  }

  function Bytes16(x: int): (b: seq<byte>)
    requires 0 <= x < 0x1_0000
    ensures |b| == 2
  {
    [x / 256, x % 256]
  }

  // ----- What each layer does with a frame

  predicate Tagged(cfg: Config, frame: seq<byte>)
    requires |frame| >= SIZEOF_ETH_HDR
  {
    cfg.vlan && Field(frame, 12) == ETHTYPE_VLAN
  }

  /** The headers' length, and the type behind them. */
  function HeaderLen(cfg: Config, frame: seq<byte>): nat
    requires |frame| >= SIZEOF_ETH_HDR
  {
    if Tagged(cfg, frame) then SIZEOF_ETH_HDR + SIZEOF_VLAN_HDR else SIZEOF_ETH_HDR
  }

  function TypeOf(cfg: Config, frame: seq<byte>): int
    requires |frame| >= SIZEOF_ETH_HDR && |frame| >= HeaderLen(cfg, frame)
  {
    Field(frame, HeaderLen(cfg, frame) - 2)
  }

  predicate Refused(cfg: Config, frame: seq<byte>)
    requires |frame| >= SIZEOF_ETH_HDR && |frame| >= HeaderLen(cfg, frame)
  {
    Tagged(cfg, frame) && cfg.onlyVlan.Some? && Field(frame, 14) % 0x1000 != cfg.onlyVlan.value
  }

  /** Too short for its headers and some payload, or of another VLAN. */
  predicate Dropped(cfg: Config, frame: seq<byte>) {
    |frame| <= SIZEOF_ETH_HDR || |frame| <= HeaderLen(cfg, frame) || Refused(cfg, frame)
  }

  /** gptp_protocol_hook looks at the outer type and at the bytes behind an untagged
      header, whatever ethernet_input found. */
  function HookFate(frame: seq<byte>): seq<Event>
    requires |frame| >= SIZEOF_ETH_HDR
  {
    if Field(frame, 12) == ETHTYPE_PTP then [PtpMessage(frame[SIZEOF_ETH_HDR..]), PbufFree] else [PbufFree]
  }

  function Fate(cfg: Config, etharp: bool, frame: seq<byte>): seq<Event> {
    if Dropped(cfg, frame) then [PbufFree]
    else
      var t, payload := TypeOf(cfg, frame), frame[HeaderLen(cfg, frame)..];
      if t == ETHTYPE_IP then if etharp then [Ip4Input(payload)] else [PbufFree]
      else if t == ETHTYPE_ARP then if etharp then [EtharpInput(payload)] else [PbufFree]
      else if t == ETHTYPE_IPV6 && cfg.ipv6 then [Ip6Input(payload)]
      else HookFate(frame)
  }

  /** The types that xemacpsif_input passes on. */
  predicate Dispatched(cfg: Config, t: int) {
    t in {ETHTYPE_PTP, ETHTYPE_IP, ETHTYPE_ARP} || (cfg.ipv6 && t == ETHTYPE_IPV6)
  }

  function DriverFate(cfg: Config, etharp: bool, frame: seq<byte>, outer: int): seq<Event> {
    if Dispatched(cfg, outer) then Fate(cfg, etharp, frame) else [PbufFree]
  }

  // ----- Exactly once

  /** On every branch of length, tag and type the buffer is freed or handed to one
      upper layer, exactly once; and it is looked at by the interpreter only before
      it is freed. */
  lemma ConsumedOnce(cfg: Config, etharp: bool, frame: seq<byte>, outer: int)
    ensures Consumptions(Fate(cfg, etharp, frame)) == 1
    ensures Consumptions(DriverFate(cfg, etharp, frame, outer)) == 1
    ensures var f := DriverFate(cfg, etharp, frame, outer); !f[|f| - 1].PtpMessage?
  {
    var f := Fate(cfg, etharp, frame);
    Single(PbufFree);
    if |f| == 1 {
      Single(f[0]);
      assert f == [f[0]];
    } else {
      assert f == [f[0], PbufFree] && f[1..] == [PbufFree];
    }
  }

  lemma Single(e: Event)
    requires !e.PtpMessage?
    ensures Consumptions([e]) == 1
  {
    assert [e][1..] == [];
  }

  // ----- Who gets what

  /** Frames with nothing behind their headers, and those of another VLAN. */
  lemma DroppedIff(cfg: Config, frame: seq<byte>)
    ensures Dropped(cfg, frame) <==>
      || |frame| <= 14
      || (cfg.vlan && frame[12..14] == [0x81, 0x00]
          && (|frame| <= 18
              || (cfg.onlyVlan.Some? && (frame[14] as int) % 16 * 256 + frame[15] != cfg.onlyVlan.value)))
    ensures Dropped(cfg, frame) ==> Fate(cfg, true, frame) == [PbufFree]
    ensures Dropped(cfg, frame) ==> Fate(cfg, false, frame) == [PbufFree]
  {
  }

  /** Each layer gets a frame without a tag if and only if the two bytes behind the
      addresses are its own and it is there, and then all that follows them. */
  lemma UntaggedGoes(cfg: Config, etharp: bool, frame: seq<byte>, x: seq<byte>)
    requires |frame| > 14 && !(cfg.vlan && frame[12..14] == [0x81, 0x00])
    ensures var fate := Fate(cfg, etharp, frame);
      && (Ip4Input(x) in fate <==> etharp && frame[12..14] == [0x08, 0x00] && x == frame[14..])
      && (EtharpInput(x) in fate <==> etharp && frame[12..14] == [0x08, 0x06] && x == frame[14..])
      && (Ip6Input(x) in fate <==> cfg.ipv6 && frame[12..14] == [0x86, 0xDD] && x == frame[14..])
      && (PtpMessage(x) in fate <==> frame[12..14] == [0x88, 0xF7] && x == frame[14..])
      && |fate| == if frame[12..14] == [0x88, 0xF7] then 2 else 1
  {
    assert frame[12..14] == [frame[12], frame[13]];
  }

  /** With a tag of the interface's own VLAN it is the two bytes behind the tag that
      count; and the interpreter sees none of these. */
  lemma TaggedGoes(cfg: Config, etharp: bool, frame: seq<byte>, x: seq<byte>)
    requires cfg.vlan && |frame| > 18 && frame[12..14] == [0x81, 0x00]
    requires cfg.onlyVlan.Some? ==> (frame[14] as int) % 16 * 256 + frame[15] == cfg.onlyVlan.value
    ensures var fate := Fate(cfg, etharp, frame);
      && (Ip4Input(x) in fate <==> etharp && frame[16..18] == [0x08, 0x00] && x == frame[18..])
      && (EtharpInput(x) in fate <==> etharp && frame[16..18] == [0x08, 0x06] && x == frame[18..])
      && (Ip6Input(x) in fate <==> cfg.ipv6 && frame[16..18] == [0x86, 0xDD] && x == frame[18..])
      && PtpMessage(x) !in fate && |fate| == 1
  {
    assert frame[12..14] == [frame[12], frame[13]] && frame[16..18] == [frame[16], frame[17]];
  }

  /** The driver passes four types on, and frees all else. */
  lemma DriverGoes(cfg: Config, etharp: bool, frame: seq<byte>, outer: int)
    ensures DriverFate(cfg, etharp, frame, outer)
         == if outer in {0x88F7, 0x0800, 0x0806} || (cfg.ipv6 && outer == 0x86DD) then Fate(cfg, etharp, frame)
            else [PbufFree]
  {
  }

  /** The interpreter sees a frame that comes through the driver if and only if its
      outer type is PTP and it is longer than a header; it sees all that follows. */
  lemma PtpReachesInterpreter(cfg: Config, etharp: bool, frame: seq<byte>, data: seq<byte>)
    requires |frame| >= 14
    ensures PtpMessage(data) in DriverFate(cfg, etharp, frame, (frame[12] as int) * 256 + frame[13])
       <==> frame[12..14] == [0x88, 0xF7] && |frame| > 14 && data == frame[14..]
  {
    assert frame[12..14] == [frame[12], frame[13]];
  }

  /** Some layer above sees a frame that comes through the driver if and only if its
      outer type is PTP, IPv4, ARP, or IPv6 where that is built in, something follows
      the header, and an interface without ARP is not asked to take IPv4 or ARP. */
  lemma SeenIff(cfg: Config, etharp: bool, frame: seq<byte>)
    requires |frame| >= 14
    ensures var outer := (frame[12] as int) * 256 + frame[13];
      (exists e :: e in DriverFate(cfg, etharp, frame, outer) && e != PbufFree)
      <==> && |frame| > 14
           && (outer in {0x88F7, 0x0800, 0x0806} || (cfg.ipv6 && outer == 0x86DD))
           && (outer in {0x0800, 0x0806} ==> etharp)
  {
    var f := DriverFate(cfg, etharp, frame, Field(frame, 12));
    if |f| == 0 || f[0] == PbufFree {
      assert forall e :: e in f ==> e == PbufFree;
    } else {
      assert f[0] in f;
    }
  }

  /** So a tagged frame never gets past the driver, whatever is inside and whatever
      the build: ethernet_input's VLAN branch serves other callers only. */
  lemma TaggedIsDropped(cfg: Config, etharp: bool, frame: seq<byte>)
    requires |frame| >= 14 && frame[12..14] == [0x81, 0x00]
    ensures DriverFate(cfg, etharp, frame, (frame[12] as int) * 256 + frame[13]) == [PbufFree]
  {
    assert frame[12..14] == [frame[12], frame[13]];
  }

  // ----- Print and parse

  /** What ethernet_output puts in front of a payload. */
  function Header(dst: seq<byte>, src: seq<byte>, t: int, tag: Option<int>): (h: seq<byte>)
    requires |dst| == |src| == 6 && 0 <= t < 0x1_0000 && (tag.Some? ==> 0 <= tag.value < 0x1_0000)
    ensures |h| == if tag.Some? then 18 else 14
  {
    match tag
    case Some(v) => dst + src + Bytes16(ETHTYPE_VLAN) + Bytes16(v) + Bytes16(t)
    case None => dst + src + Bytes16(t)
  }

  /** A printed frame parses back to its addresses, its tag and its payload; its
      type and payload offset are recovered if and only if the receiver knows tags
      when there is one, and an untagged frame does not claim the tag's type. */
  lemma ParseInvertsPrint(cfg: Config, dst: seq<byte>, src: seq<byte>, t: int, tag: Option<int>, payload: seq<byte>)
    requires |dst| == |src| == 6 && 0 <= t < 0x1_0000 && (tag.Some? ==> 0 <= tag.value < 0x1_0000)
    ensures var h := Header(dst, src, t, tag); var frame := h + payload;
      && frame[..6] == dst && frame[6..12] == src && frame[|h|..] == payload
      && frame[12..|h|] == (if tag.Some? then [0x81, 0x00, tag.value / 256, tag.value % 256] else [])
                           + [t / 256, t % 256]
      && (HeaderLen(cfg, frame) == |h| <==> (if tag.Some? then cfg.vlan else !cfg.vlan || t != ETHTYPE_VLAN))
      && (HeaderLen(cfg, frame) == |h| ==> TypeOf(cfg, frame) == t)
  {
    var h := Header(dst, src, t, tag);
    var frame := h + payload;
    assert frame[..12] == dst + src;
    assert frame[..6] == frame[..12][..6] && frame[6..12] == frame[..12][6..];
    assert tag.Some? ==> frame[12..18] == Bytes16(ETHTYPE_VLAN) + Bytes16(tag.value) + Bytes16(t);
    assert tag.Some? ==> frame[16] == frame[12..18][4] && frame[17] == frame[12..18][5];
    assert tag.None? ==> frame[12..14] == Bytes16(t);
    assert frame[12] == frame[12..14][0] && frame[13] == frame[12..14][1];
  }

  /** So what one station sends as IPv4, tagged or not, the other's ethernet_input
      hands to its IP layer byte for byte. */
  lemma Ip4GetsThrough(cfg: Config, dst: seq<byte>, src: seq<byte>, tag: Option<int>, payload: seq<byte>)
    requires |dst| == |src| == 6 && payload != [] && (tag.Some? ==> cfg.vlan && 0 <= tag.value < 0x1_0000)
    requires tag.Some? && cfg.onlyVlan.Some? ==> tag.value % 0x1000 == cfg.onlyVlan.value
    ensures Fate(cfg, true, Header(dst, src, ETHTYPE_IP, tag) + payload) == [Ip4Input(payload)]
  {
    ParseInvertsPrint(cfg, dst, src, ETHTYPE_IP, tag, payload);
  }

  // ----- The code

  /** A buffer whose payload is a window of its memory: headers are added in front of
      it and removed from it by moving the window. */
  class Packet {
    const buf: array<byte>
    var off: nat
    var len: nat
    var llMulticast: bool
    var llBroadcast: bool

    ghost predicate Valid()
      reads this`off, this`len
    {
      off + len <= buf.Length
    }

    function Payload(): seq<byte>
      requires Valid()
      reads this`off, this`len, buf
    {
      buf[off..off + len]
    }

    lemma Length()
      requires Valid()
      ensures |Payload()| == len
    {
    }

    constructor (size: nat, off: nat, len: nat)
      requires off + len <= size
      ensures Valid() && fresh(buf) && this.off == off && this.len == len && !llMulticast && !llBroadcast
    {
      buf := new byte[size](_ => 0);
      this.off, this.len, llMulticast, llBroadcast := off, len, false, false;
    }

    /** pbuf_remove_header fails if there is less than that to remove. */
    method RemoveHeader(size: nat) returns (failed: bool)
      requires Valid()
      modifies this`off, this`len
      ensures Valid() && (failed <==> size > old(len))
      ensures !failed ==> Payload() == old(Payload()[size..])
      ensures failed ==> off == old(off) && len == old(len)
    {
      if size > len {
        return true;
      }
      off, len := off + size, len - size;
      return false;
    }

    /** pbuf_add_header fails if there is no room in front. */
    method AddHeader(size: nat) returns (failed: bool)
      requires Valid()
      modifies this`off, this`len
      ensures Valid() && (failed <==> size > old(off))
      ensures !failed ==> off == old(off) - size && len == old(len) + size
      ensures failed ==> off == old(off) && len == old(len)
    {
      if size > off {
        return true;
      }
      off, len := off - size, len + size;
      return false;
    }

    method PutField(at: nat, x: int)
      requires Valid() && at + 2 <= len && 0 <= x < 0x1_0000
      modifies buf
      ensures Payload() == Put(old(Payload()), at, Bytes16(x))
    {
      buf[off + at], buf[off + at + 1] := x / 256, x % 256;
      assert Bytes16(x) == [buf[off + at], buf[off + at + 1]];
      IsPut(Payload(), old(Payload()), at, Bytes16(x));
    }

    method PutAddress(at: nat, address: seq<byte>)
      requires Valid() && at + 6 <= len && |address| == 6
      modifies buf
      ensures Payload() == Put(old(Payload()), at, address)
    {
      var i := 0;
      while i < 6
        invariant 0 <= i <= 6
        invariant forall j :: 0 <= j < i ==> buf[off + at + j] == address[j]
        invariant forall j :: 0 <= j < buf.Length && !(off + at <= j < off + at + i) ==> buf[j] == old(buf[j])
      {
        buf[off + at + i] := address[i];
        i := i + 1;
      }
      forall j | 0 <= j < len ensures Payload()[j] == if at <= j < at + 6 then address[j - at] else old(Payload())[j] {
        assert Payload()[j] == buf[off + j];
        if at <= j < at + 6 {
          assert buf[off + at + (j - at)] == address[j - at];
        }
      }
      IsPut(Payload(), old(Payload()), at, address);
    }
  }

  /** Bytes written over part of a string. */
  function Put(s: seq<byte>, at: nat, bytes: seq<byte>): (r: seq<byte>)
    requires at + |bytes| <= |s|
    ensures |r| == |s|
  {
    s[..at] + bytes + s[at + |bytes|..]
  }

  lemma IsPut(r: seq<byte>, s: seq<byte>, at: nat, bytes: seq<byte>)
    requires |r| == |s| && at + |bytes| <= |s|
    requires forall j :: 0 <= j < |s| ==> r[j] == if at <= j < at + |bytes| then bytes[j - at] else s[j]
    ensures r == Put(s, at, bytes)
  {
    assert r[..at] == s[..at] && r[at..at + |bytes|] == bytes && r[at + |bytes|..] == s[at + |bytes|..];
    assert r == r[..at] + r[at..at + |bytes|] + r[at + |bytes|..];
  }

  lemma TagWritten(s: seq<byte>, t: int, v: int)
    requires |s| >= 18 && 0 <= t < 0x1_0000 && 0 <= v < 0x1_0000
    ensures Put(Put(s, 16, Bytes16(t)), 14, Bytes16(v))[14..] == Bytes16(v) + Bytes16(t) + s[18..]
  {
    hide Bytes16;
    var r := Put(s, 16, Bytes16(t));
    assert r[16..] == Bytes16(t) + s[18..];
    assert Put(r, 14, Bytes16(v))[14..] == Bytes16(v) + r[16..];
  }

  /** Type, destination and source, in the order in which they are written. */
  lemma HeaderWritten(s: seq<byte>, dst: seq<byte>, src: seq<byte>, t: seq<byte>)
    requires |s| >= 14 && |dst| == |src| == 6 && |t| == 2
    ensures Put(Put(Put(s, 12, t), 0, dst), 6, src) == dst + src + t + s[14..]
  {
    var a := Put(s, 12, t);
    var b := Put(a, 0, dst);
    assert a[12..] == t + s[14..];
    assert b[6..] == a[6..] && b[..6] == dst;
    assert b[12..] == a[6..][6..] == a[12..];
    assert Put(b, 6, src) == dst + src + b[12..];
  }

  /** ethernet_output: make room, write the tag if there is one, type and addresses.
      Without room nothing changes. */
  method EthernetOutput(p: Packet, src: seq<byte>, dst: seq<byte>, t: int, tag: Option<int>) returns (failed: bool)
    requires p.Valid() && |dst| == |src| == 6 && 0 <= t < 0x1_0000 && (tag.Some? ==> 0 <= tag.value < 0x1_0000)
    modifies p`off, p`len, p.buf
    ensures p.Valid() && (failed <==> old(p.off) < if tag.Some? then 18 else 14)
    ensures failed ==> p.Payload() == old(p.Payload())
    ensures !failed ==> p.Payload() == Header(dst, src, t, tag) + old(p.Payload())
  {
    hide Put;
    var outer := t;
    ghost var payload := p.Payload();
    if tag.Some? {
      failed := p.AddHeader(SIZEOF_ETH_HDR + SIZEOF_VLAN_HDR);
      if failed {
        return;
      }
      TagWritten(p.Payload(), t, tag.value);
      assert p.Payload()[18..] == payload;
      p.PutField(SIZEOF_ETH_HDR + 2, outer);
      p.PutField(SIZEOF_ETH_HDR, tag.value);
      outer := ETHTYPE_VLAN;
    } else {
      failed := p.AddHeader(SIZEOF_ETH_HDR);
      if failed {
        return;
      }
      assert p.Payload()[14..] == payload;
    }
    ghost var room := p.Payload();
    HeaderWritten(room, dst, src, Bytes16(outer));
    assert room[14..] == (if tag.Some? then Bytes16(tag.value) + Bytes16(t) + payload else payload);
    p.PutField(12, outer);
    p.PutAddress(0, dst);
    p.PutAddress(6, src);
    HeaderPrinted(dst, src, t, tag, payload);
  }

  lemma HeaderPrinted(dst: seq<byte>, src: seq<byte>, t: int, tag: Option<int>, payload: seq<byte>)
    requires |dst| == |src| == 6 && 0 <= t < 0x1_0000 && (tag.Some? ==> 0 <= tag.value < 0x1_0000)
    ensures Header(dst, src, t, tag) + payload
         == dst + src + Bytes16(if tag.Some? then ETHTYPE_VLAN else t)
            + (if tag.Some? then Bytes16(tag.value) + Bytes16(t) + payload else payload)
  {
    hide Bytes16;
  }

  // ----- The receive side

  /** The interface: its build options, whether it does ARP, and what has happened
      to the buffers it received. */
  class NetIf {
    const cfg: Config
    const etharp: bool
    var events: seq<Event>

    constructor (cfg: Config, etharp: bool)
      ensures this.cfg == cfg && this.etharp == etharp && events == []
    {
      this.cfg, this.etharp, events := cfg, etharp, [];
    }

    /** A received field in network order. */
    function FieldOf(p: Packet, at: nat): int
      requires p.Valid() && at + 2 <= p.len
      reads p, p.buf
    {
      Field(p.Payload(), at)
    }

    method Free()
      modifies this`events
      ensures events == old(events) + [PbufFree]
    {
      events := events + [PbufFree];
    }

    method GptpProtocolHook(p: Packet)
      requires p.Valid() && p.len >= SIZEOF_ETH_HDR
      modifies this`events
      ensures events == old(events) + HookFate(p.Payload())
    {
      if FieldOf(p, 12) == ETHTYPE_PTP {
        events := events + [PtpMessage(p.Payload()[SIZEOF_ETH_HDR..])];
      }
      Free();
    }

    /** Link-layer multicast and broadcast, by destination address. */
    method MarkDestination(p: Packet)
      requires p.Valid() && p.len >= SIZEOF_ETH_HDR
      modifies p`llMulticast, p`llBroadcast
      ensures p.llMulticast == (old(p.llMulticast) || p.Payload()[..3] == [0x01, 0x00, 0x5E]
                                || (cfg.ipv6 && p.Payload()[..2] == [0x33, 0x33]))
      ensures p.llBroadcast == (old(p.llBroadcast) || p.Payload()[..6] == [0xFF, 0xFF, 0xFF, 0xFF, 0xFF, 0xFF])
    {
      var dst := p.Payload()[..6];
      if dst[0] % 2 == 1 {
        if dst[0] == 0x01 {
          if dst[1] == 0x00 && dst[2] == 0x5E {
            p.llMulticast := true;
          }
        } else if cfg.ipv6 && dst[0] == 0x33 && dst[1] == 0x33 {
          p.llMulticast := true;
        } else if dst == BROADCAST {
          p.llBroadcast := true;
        }
      }
    }

    /** The length checks and the tag: the type and the headers' length, unless the
        frame is to be dropped. */
    method Classify(p: Packet) returns (r: Option<(int, nat)>)
      requires p.Valid()
      ensures r.None? <==> Dropped(cfg, p.Payload())
      ensures r.Some? ==> r.value == (TypeOf(cfg, p.Payload()), HeaderLen(cfg, p.Payload()))
    {
      if p.len <= SIZEOF_ETH_HDR {
        return None;
      }
      var t, nextHdrOffset := FieldOf(p, 12), SIZEOF_ETH_HDR;
      if cfg.vlan && t == ETHTYPE_VLAN {
        nextHdrOffset := SIZEOF_ETH_HDR + SIZEOF_VLAN_HDR;
        if p.len <= nextHdrOffset {
          return None;
        }
        if cfg.onlyVlan.Some? && FieldOf(p, 14) % 0x1000 != cfg.onlyVlan.value {
          return None;
        }
        t := FieldOf(p, 16);
      }
      return Some((t, nextHdrOffset));
    }

    method EthernetInput(p: Packet)
      requires p.Valid()
      modifies this`events, p`off, p`len, p`llMulticast, p`llBroadcast
      ensures p.Valid()
      ensures events == old(events) + Fate(cfg, etharp, old(p.Payload()))
      ensures var frame := old(p.Payload());
        if Dropped(cfg, frame) then p.llMulticast == old(p.llMulticast) && p.llBroadcast == old(p.llBroadcast)
        else
          && |frame| >= 6
          && p.llMulticast == (old(p.llMulticast) || frame[..3] == [0x01, 0x00, 0x5E]
                               || (cfg.ipv6 && frame[..2] == [0x33, 0x33]))
          && p.llBroadcast == (old(p.llBroadcast) || frame[..6] == [0xFF, 0xFF, 0xFF, 0xFF, 0xFF, 0xFF])
    {
      hide TypeOf, Field, HookFate, Packet.Payload;
      var classified := Classify(p);
      if classified == None {
        Free();
        return;
      }
      var (t, nextHdrOffset) := classified.value;
      assert |p.Payload()| == p.len by { p.Length(); }
      MarkDestination(p);
      if t == ETHTYPE_IP || t == ETHTYPE_ARP || (cfg.ipv6 && t == ETHTYPE_IPV6) {
        if (t == ETHTYPE_IP || t == ETHTYPE_ARP) && !etharp {
          Free();
          return;
        }
        var failed := p.RemoveHeader(nextHdrOffset);
        if failed {
          assert false;
        }
        events := events + [if t == ETHTYPE_IP then Ip4Input(p.Payload())
                            else if t == ETHTYPE_ARP then EtharpInput(p.Payload())
                            else Ip6Input(p.Payload())];
      } else {
        GptpProtocolHook(p);
      }
    }

    /** One received buffer: read its type, pass on what some layer knows, free the
        rest. The type is read before any length is checked. */
    method XemacpsifInput(p: Option<Packet>) returns (count: int)
      requires p.Some? ==> p.value.Valid() && p.value.off + SIZEOF_ETH_HDR <= p.value.buf.Length
      modifies this`events
      modifies if p.Some? then {p.value} else {}
      ensures p.None? ==> count == 0 && events == old(events)
      ensures p.Some? ==> count == 1 && events == old(events) + DriverFate(cfg, etharp, old(p.value.Payload()),
        old((p.value.buf[p.value.off + 12] as int) * 256 + p.value.buf[p.value.off + 13]))
    {
      if p.None? {
        return 0;
      }
      var outer := Field(p.value.buf[p.value.off..p.value.off + SIZEOF_ETH_HDR], 12);
      if Dispatched(cfg, outer) {
        EthernetInput(p.value);
      } else {
        Free();
      }
      return 1;
    }
  }

  const BROADCAST: seq<byte> := [0xFF, 0xFF, 0xFF, 0xFF, 0xFF, 0xFF]

  /** A dequeued buffer: its payload, and what stands where its type would be, in or
      behind the payload. */
  datatype Received = Received(payload: seq<byte>, outer: int)

  function RunEvents(cfg: Config, etharp: bool, rs: seq<Received>): seq<Event> {
    if rs == [] then []
    else DriverFate(cfg, etharp, rs[0].payload, rs[0].outer) + RunEvents(cfg, etharp, rs[1..])
  }

  /** In every run every buffer dequeued is consumed exactly once, however short. */
  lemma {:induction false} RunConsumesOnce(cfg: Config, etharp: bool, rs: seq<Received>)
    ensures Consumptions(RunEvents(cfg, etharp, rs)) == |rs|
  {
    if rs != [] {
      ConsumedOnce(cfg, etharp, rs[0].payload, rs[0].outer);
      RunConsumesOnce(cfg, etharp, rs[1..]);
      ConsumptionsAdd(DriverFate(cfg, etharp, rs[0].payload, rs[0].outer), RunEvents(cfg, etharp, rs[1..]));
    }
  }

  lemma {:induction false} ConsumptionsAdd(a: seq<Event>, b: seq<Event>)
    ensures Consumptions(a + b) == Consumptions(a) + Consumptions(b)
  {
    if a == [] {
      assert a + b == b;
    } else {
      assert (a + b)[1..] == a[1..] + b;
      ConsumptionsAdd(a[1..], b);
    }
  }
}
