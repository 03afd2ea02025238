/** Frames built from their fields: what the port filter looks into, and what it reads there. */
module Frames {
  import opened Receive
  import opened Steering
  import opened Words

  /** Everything in front of the transport layer: Ethernet addresses and type, and the IPv4
      header in wire order. */
  datatype Header = Header(macs: seq<byte>, etherType: u16, version: nat, service: seq<byte>, protocol: byte,
                           checksum: seq<byte>, src: Ip, dst: Ip, options: seq<byte>) {
    /** The options are at most ten words. */
    predicate Valid() {
      |macs| == 12 && version < 16 && |service| == 8 && |checksum| == 2
      && |options| % 4 == 0 && |options| <= 40
    }

    /** The header length in words. */
    function Length(): nat {
      5 + |options| / 4
    }

    function Front(): seq<byte>
      requires Valid()
    {
      macs + Be16(etherType) + [16 * version + Length()]
    }

    function Middle(): seq<byte> {
      service + [protocol] + checksum + src + dst
    }
  }

  function Build(h: Header, payload: seq<byte>): seq<byte>
    requires h.Valid()
  {
    h.Front() + h.Middle() + h.options + payload
  }

  function Segment(srcPort: u16, dstPort: u16, rest: seq<byte>): seq<byte> {
    Be16(srcPort) + Be16(dstPort) + rest
  }

  lemma LengthNibble(version: nat, words: nat)
    requires words < 16
    ensures And(16 * version + words, 0x0f) == words
  {
    assert Pow2(4) == 16;
    MaskIsModulo(16 * version + words, 4);
    DivUnique(16 * version + words, 16, version, words);
  }

  lemma BuiltAt(h: Header, payload: seq<byte>)
    requires h.Valid()
    ensures var d := Build(h, payload);
      |d| == 34 + |h.options| + |payload|
      && d[12..14] == Be16(h.etherType) && d[14] == 16 * h.version + h.Length() && d[23] == h.protocol
      && d[26..30] == h.src && d[30..34] == h.dst && d[34 + |h.options|..] == payload
  {
    hide Be16;
    var f, m := h.Front(), h.Middle();
    assert |f| == 15 && f[12..14] == Be16(h.etherType) && f[14] == 16 * h.version + h.Length();
    assert |m| == 19 && m[8] == h.protocol && m[11..15] == h.src && m[15..19] == h.dst;
    var d := Build(h, payload);
    assert d[..15] == f && d[15..34] == m && d[34..34 + |h.options|] == h.options;
    assert d[12..14] == d[..15][12..14] && d[14] == d[..15][14] && d[23] == d[15..34][8];
    assert d[26..30] == d[15..34][11..15] && d[30..34] == d[15..34][15..19];
  }

  /** The filter looks into a built frame exactly when it is IPv4 and TCP, is at least 54
      bytes long, and goes on past its two ports. */
  lemma BuiltFilterable(h: Header, payload: seq<byte>)
    requires h.Valid()
    ensures Filterable(Build(h, payload)) <==>
      h.etherType == 0x0800 && h.protocol == 6 && |Build(h, payload)| >= 54 && |payload| >= 4
  {
    hide And, Build;
    BuiltAt(h, payload);
    LengthNibble(h.version, h.Length());
    var d := Build(h, payload);
    assert d[12] == d[12..14][0] && d[13] == d[12..14][1];
  }

  /** What the filter reads of it are the port and the hashed tuple it was built with. */
  lemma BuiltPorts(h: Header, srcPort: u16, dstPort: u16, rest: seq<byte>)
    requires h.Valid() && Filterable(Build(h, Segment(srcPort, dstPort, rest)))
    ensures var d := Build(h, Segment(srcPort, dstPort, rest));
      DstPort(d) == dstPort && FrameTuple(d) == h.src + h.dst + Be16(srcPort) + Be16(dstPort)
  {
    hide And, Build;
    var p := Segment(srcPort, dstPort, rest);
    var d, at := Build(h, p), 34 + |h.options|;
    BuiltAt(h, p);
    LengthNibble(h.version, h.Length());
    assert L4Offset(d) == at;
    assert d[at + 2] == d[at..][2] && d[at + 3] == d[at..][3];
    assert d[26..34] == d[26..30] + d[30..34];
    assert d[at..at + 4] == d[at..][..4] == p[..4] == Be16(srcPort) + Be16(dstPort);
  }

  /** A TCP segment over IPv4, with a header of whole words, five at least. */
  ghost predicate IsTcp(data: seq<byte>) {
    exists h: Header, srcPort: u16, dstPort: u16, rest: seq<byte> ::
      BuiltAsTcp(data, h, srcPort, dstPort, rest)
  }

  ghost predicate BuiltAsTcp(data: seq<byte>, h: Header, srcPort: u16, dstPort: u16, rest: seq<byte>) {
    h.Valid() && h.etherType == 0x0800 && h.protocol == 6 && data == Build(h, Segment(srcPort, dstPort, rest))
  }

  function FromBe(hi: byte, lo: byte): u16 {
    256 * (hi as nat) + lo
  }

  function NibbleOf(b: byte): (w: nat)
    ensures w < 16
  {
    b % 16
  }

  lemma OffsetOf(data: seq<byte>)
    requires |data| >= 54
    ensures L4Offset(data) == 14 + 4 * NibbleOf(data[14])
  {
    assert Pow2(4) == 16;
    MaskIsModulo(data[14], 4);
  }

  /** The fields of a frame the filter looks into. */
  function HeaderOf(data: seq<byte>): (h: Header)
    requires |data| >= 54 && NibbleOf(data[14]) >= 5 && 14 + 4 * NibbleOf(data[14]) <= |data|
    ensures h.Valid() && h.Length() == NibbleOf(data[14])
  {
    Header(data[..12], FromBe(data[12], data[13]), data[14] / 16, data[15..23], data[23], data[24..26],
           data[26..30], data[30..34], data[34..14 + 4 * NibbleOf(data[14])])
  }

  lemma Rebuilt(data: seq<byte>)
    requires |data| >= 54 && NibbleOf(data[14]) >= 5 && 14 + 4 * NibbleOf(data[14]) <= |data|
    ensures Build(HeaderOf(data), data[14 + 4 * NibbleOf(data[14])..]) == data
  {
    var h := HeaderOf(data);
    assert h.Front() == data[..15];
    assert h.Middle() == data[15..34];
  }

  lemma SegmentOf(payload: seq<byte>)
    requires |payload| >= 4
    ensures payload == Segment(FromBe(payload[0], payload[1]), FromBe(payload[2], payload[3]), payload[4..])
  {}

  /** The frames the filter looks into, but for those that claim an IPv4 header of less than
      five words, are exactly the TCP segments over IPv4 of at least 54 bytes. */
  lemma FilterableExactly(data: seq<byte>)
    ensures Filterable(data) && NibbleOf(data[14]) >= 5 <==> IsTcp(data) && |data| >= 54
  {
    hide And, Build, Segment;
    if IsTcp(data) && |data| >= 54 {
      var h, srcPort, dstPort, rest :| BuiltAsTcp(data, h, srcPort, dstPort, rest);
      SegmentLong(srcPort, dstPort, rest);
      BuiltAt(h, Segment(srcPort, dstPort, rest));
      BuiltFilterable(h, Segment(srcPort, dstPort, rest));
    }
    if Filterable(data) && NibbleOf(data[14]) >= 5 {
      OffsetOf(data);
      Rebuilt(data);
      var p := data[14 + 4 * NibbleOf(data[14])..];
      SegmentOf(p);
      assert BuiltAsTcp(data, HeaderOf(data), FromBe(p[0], p[1]), FromBe(p[2], p[3]), p[4..]);
    }
  }

  lemma SegmentLong(srcPort: u16, dstPort: u16, rest: seq<byte>)
    ensures |Segment(srcPort, dstPort, rest)| >= 4
  {}

  /** A frame that claims a shorter IPv4 header is looked into as well, and its port read out
      of the header itself. */
  lemma ShortHeader(data: seq<byte>)
    requires |data| >= 54 && NibbleOf(data[14]) < 5
    ensures Filterable(data) <==> data[12] == 0x08 && data[13] == 0x00 && data[23] == 6
    ensures Filterable(data) ==>
      var at := 16 + 4 * NibbleOf(data[14]);
      at + 1 < 34 && DstPort(data) == FromBe(data[at], data[at + 1])
  {
    hide And;
    OffsetOf(data);
  }

  /** The filter stops exactly the TCP segments for an ephemeral port that is not marked. */
  lemma PassesExactly(bitmap: Bitmap, m: Mbuf, h: Header, srcPort: u16, dstPort: u16, rest: seq<byte>)
    requires h.Valid() && m.data == Build(h, Segment(srcPort, dstPort, rest)) && |m.data| >= 54
    ensures Passes(Some(bitmap), m) <==>
      h.etherType != 0x0800 || h.protocol != 6 || dstPort < 49152 || Marked(bitmap, dstPort - 49152)
    ensures Passes(None, m)
  {
    hide And, Build, Segment, Marked, OwnsPort, Filterable, DstPort, FrameTuple;
    SegmentLong(srcPort, dstPort, rest);
    BuiltFilterable(h, Segment(srcPort, dstPort, rest));
    if Filterable(m.data) {
      BuiltPorts(h, srcPort, dstPort, rest);
      if dstPort >= EPH_BASE { OwnsMarked(bitmap, dstPort - EPH_BASE); } else { LowPortOwned(bitmap, dstPort); }
    }
  }

  /** Frames too short for a TCP segment, of another type or protocol, or without ports pass. */
  lemma OthersPass(owned: Option<Bitmap>, m: Mbuf, h: Header, payload: seq<byte>)
    requires h.Valid() && m.data == Build(h, payload)
    requires |m.data| < 54 || h.etherType != 0x0800 || h.protocol != 6 || |payload| < 4
    ensures Passes(owned, m)
  {
    hide Build, Filterable;
    BuiltFilterable(h, payload);
  }
}
