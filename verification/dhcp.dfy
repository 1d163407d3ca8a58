/**
 * lib/dhcp/dhcp.h: the protocol constants, the enumerations (option tags,
 * message types, operation codes), the packed layout of struct dhcp_message,
 * and the fixed-width big-endian codec get_opt_val / put_opt_val.
 */
module Dhcp {

  const ServerPort: nat := 67
  const ClientPort: nat := 68

  /** DHCP_MESSAGE_LEN: size of the receive buffer. */
  const MessageLen: nat := 576
  /** DHCP_MESSAGE_MIN_LEN: the fixed header plus one 3-byte message-type option. */
  const MessageMinLen: nat := 243

  /** DHCP_OPTION_COOKIE, as the host (little-endian) reads the 4 cookie bytes. */
  const OptionCookie: bv32 := 0x6353_8263
  /** The magic cookie 99.130.83.99 in wire order (section 3 of RFC 2131). */
  const CookieBytes: seq<bv8> := [99, 130, 83, 99]

  // The enumerations are `enum class : u8`. A static_cast keeps every u8
  // value, named or not, so each is modelled as a wrapper around its raw
  // byte: from_raw is the constructor and into_raw the `raw` field.

  datatype Operation = Operation(raw: bv8)
  const BootRequest := Operation(1)
  const BootReply := Operation(2)

  datatype OptionTag = OptionTag(raw: bv8)
  const Pad := OptionTag(0)
  const End := OptionTag(255)
  const SubnetMask := OptionTag(1)
  const Router := OptionTag(3)
  const Dns := OptionTag(6)
  const BroadcastAddr := OptionTag(28)
  const RequestedIp := OptionTag(50)
  const IpAddressLeaseTime := OptionTag(51)
  const OptionOverload := OptionTag(52)
  const DhcpMessageType := OptionTag(53)
  const ServerIdentifier := OptionTag(54)
  const ParameterRequestList := OptionTag(55)
  const Message := OptionTag(56)
  const MaxDhcpMessageSize := OptionTag(57)
  const RenewalTimeT1 := OptionTag(58)
  const RebindingTimeT2 := OptionTag(59)
  const ClassId := OptionTag(60)
  const ClientId := OptionTag(61)

  datatype MsgType = MsgType(raw: bv8)
  const Discover := MsgType(1)
  const Offer := MsgType(2)
  const Request := MsgType(3)
  const Decline := MsgType(4)
  const Ack := MsgType(5)
  const Nak := MsgType(6)
  const Release := MsgType(7)

  /** from_raw and into_raw are mutually inverse, for every raw byte and every enumerator. */
  lemma RawCastsRoundTrip(u: bv8, op: Operation, tag: OptionTag, mt: MsgType)
    ensures Operation(u).raw == u && Operation(op.raw) == op
    ensures OptionTag(u).raw == u && OptionTag(tag.raw) == tag
    ensures MsgType(u).raw == u && MsgType(mt.raw) == mt
  {
  }

  // -- Layout of the packed struct dhcp_message: byte offsets of its fields.

  const OpOffset: nat := 0
  const HtypeOffset: nat := 1
  const HlenOffset: nat := 2
  const HopsOffset: nat := 3
  const XidOffset: nat := 4
  const SecsOffset: nat := 8
  const FlagsOffset: nat := 10
  const CiaddrOffset: nat := 12
  const YiaddrOffset: nat := 16
  const SiaddrOffset: nat := 20
  const GiaddrOffset: nat := 24
  const ChaddrOffset: nat := 28
  const SnameOffset: nat := 44
  const FileOffset: nat := 108
  const CookieOffset: nat := 236
  const OptionsOffset: nat := 240
  /** Size of the `options` array: 312 minus the 4 cookie bytes. */
  const OptionsCapacity: nat := 308
  /** sizeof(dhcp_message). */
  const MessageSize: nat := 548
  /** Size of the `chaddr` array. */
  const ChaddrLen: nat := 16

  /** The fixed header of a message, field by field; multi-byte fields hold their wire bytes. */
  datatype Header = Header(
    op: Operation, htype: bv8, hlen: bv8, hops: bv8,
    xid: seq<bv8>, secs: seq<bv8>, flags: seq<bv8>,
    ciaddr: seq<bv8>, yiaddr: seq<bv8>, siaddr: seq<bv8>, giaddr: seq<bv8>,
    chaddr: seq<bv8>, sname: seq<bv8>, file: seq<bv8>, cookie: seq<bv8>)

  /** Every field has the width the struct declares. */
  predicate WellSized(h: Header)
  {
    && |h.xid| == 4 && |h.secs| == 2 && |h.flags| == 2
    && |h.ciaddr| == 4 && |h.yiaddr| == 4 && |h.siaddr| == 4 && |h.giaddr| == 4
    && |h.chaddr| == ChaddrLen && |h.sname| == 64 && |h.file| == 128 && |h.cookie| == 4
  }

  /** The packed bytes of a header: the fields back to back, in declaration order. */
  function EncodeHeader(h: Header): (b: seq<bv8>)
    ensures WellSized(h) ==> |b| == OptionsOffset
  {
    [h.op.raw, h.htype, h.hlen, h.hops] + h.xid + h.secs + h.flags
    + h.ciaddr + h.yiaddr + h.siaddr + h.giaddr
    + h.chaddr + h.sname + h.file + h.cookie
  }

  /** The header seen through the field offsets of the struct. */
  function DecodeHeader(b: seq<bv8>): (h: Header)
    requires OptionsOffset <= |b|
    ensures WellSized(h)
  {
    Header(Operation(b[OpOffset]), b[HtypeOffset], b[HlenOffset], b[HopsOffset],
           b[XidOffset..SecsOffset], b[SecsOffset..FlagsOffset], b[FlagsOffset..CiaddrOffset],
           b[CiaddrOffset..YiaddrOffset], b[YiaddrOffset..SiaddrOffset],
           b[SiaddrOffset..GiaddrOffset], b[GiaddrOffset..ChaddrOffset],
           b[ChaddrOffset..SnameOffset], b[SnameOffset..FileOffset],
           b[FileOffset..CookieOffset], b[CookieOffset..OptionsOffset])
  }

  /** The field widths add up to the options offset, and the offsets read back what was packed. */
  lemma HeaderRoundTrip(h: Header)
    requires WellSized(h)
    ensures |EncodeHeader(h)| == OptionsOffset
    ensures DecodeHeader(EncodeHeader(h)) == h
  {
    var b := EncodeHeader(h);
    // The packing, one field at a time.
    var p0 := [h.op.raw, h.htype, h.hlen, h.hops];
    var p1 := p0 + h.xid;
    var p2 := p1 + h.secs;
    var p3 := p2 + h.flags;
    var p4 := p3 + h.ciaddr;
    var p5 := p4 + h.yiaddr;
    var p6 := p5 + h.siaddr;
    var p7 := p6 + h.giaddr;
    var p8 := p7 + h.chaddr;
    var p9 := p8 + h.sname;
    var p10 := p9 + h.file;
    assert b == p10 + h.cookie;
    assert b[..|b|] == b;
    // From the last field back to the first, each prefix of b is the packing so far.
    FieldAt(b, p10, h.cookie);
    FieldAt(b, p9, h.file);
    FieldAt(b, p8, h.sname);
    FieldAt(b, p7, h.chaddr);
    FieldAt(b, p6, h.giaddr);
    FieldAt(b, p5, h.siaddr);
    FieldAt(b, p4, h.yiaddr);
    FieldAt(b, p3, h.ciaddr);
    FieldAt(b, p2, h.flags);
    FieldAt(b, p1, h.secs);
    FieldAt(b, p0, h.xid);
    assert b[0] == p0[0] && b[1] == p0[1] && b[2] == p0[2] && b[3] == p0[3];
  }

  /** A field packed after the prefix p is read back at offset |p|. */
  lemma FieldAt(b: seq<bv8>, p: seq<bv8>, x: seq<bv8>)
    requires |p| + |x| <= |b| && b[..|p| + |x|] == p + x
    ensures b[..|p|] == p
    ensures b[|p|..|p| + |x|] == x
  {
    assert b[..|p|] == (p + x)[..|p|];
    assert b[|p|..|p| + |x|] == (p + x)[|p|..];
  }

  /** Every 240-byte prefix is the packing of the header read from it. */
  lemma HeaderBytesRoundTrip(b: seq<bv8>)
    requires OptionsOffset <= |b|
    ensures EncodeHeader(DecodeHeader(b)) == b[..OptionsOffset]
  {
    assert b[..XidOffset] == [b[0], b[1], b[2], b[3]];
    assert b[..SecsOffset] == b[..XidOffset] + b[XidOffset..SecsOffset];
    assert b[..FlagsOffset] == b[..SecsOffset] + b[SecsOffset..FlagsOffset];
    assert b[..CiaddrOffset] == b[..FlagsOffset] + b[FlagsOffset..CiaddrOffset];
    assert b[..YiaddrOffset] == b[..CiaddrOffset] + b[CiaddrOffset..YiaddrOffset];
    assert b[..SiaddrOffset] == b[..YiaddrOffset] + b[YiaddrOffset..SiaddrOffset];
    assert b[..GiaddrOffset] == b[..SiaddrOffset] + b[SiaddrOffset..GiaddrOffset];
    assert b[..ChaddrOffset] == b[..GiaddrOffset] + b[GiaddrOffset..ChaddrOffset];
    assert b[..SnameOffset] == b[..ChaddrOffset] + b[ChaddrOffset..SnameOffset];
    assert b[..FileOffset] == b[..SnameOffset] + b[SnameOffset..FileOffset];
    assert b[..CookieOffset] == b[..FileOffset] + b[FileOffset..CookieOffset];
    assert b[..OptionsOffset] == b[..CookieOffset] + b[CookieOffset..OptionsOffset];
  }

  /** The sizes the source fixes with static_assert. */
  lemma LayoutSizes()
    ensures MessageMinLen == OptionsOffset + 3
    ensures MessageSize == OptionsOffset + OptionsCapacity
    ensures MessageSize <= MessageLen
  {
  }

  /** The little-endian u32 of four bytes, as the host reads the `cookie` field. */
  function HostU32(b: seq<bv8>): (v: bv32)
    requires |b| == 4
    ensures (v & 0xff) as bv8 == b[0] && ((v >> 8) & 0xff) as bv8 == b[1]
    ensures ((v >> 16) & 0xff) as bv8 == b[2] && (v >> 24) as bv8 == b[3]
  {
    (b[3] as bv32 << 24) | (b[2] as bv32 << 16) | (b[1] as bv32 << 8) | (b[0] as bv32)
  }

  /** Comparing msg.cookie with DHCP_OPTION_COOKIE compares the wire bytes with 99.130.83.99. */
  lemma CookieOnTheWire(b: seq<bv8>)
    requires |b| == 4
    ensures HostU32(b) == OptionCookie <==> b == CookieBytes
  {
    if HostU32(b) == OptionCookie {
      assert b[0] == 99 && b[1] == 130 && b[2] == 83 && b[3] == 99;
    }
  }

  // -- get_opt_val / put_opt_val, for T of sizeof(T) = w bytes.

  /** The widths of u8, u16 and u32. */
  predicate IsWidth(w: nat)
  {
    w == 1 || w == 2 || w == 4
  }

  /** v is a value of the w-byte unsigned type. */
  predicate Fits(v: bv32, w: nat)
    requires w <= 4
  {
    if w == 1 then v >> 8 == 0 else if w == 2 then v >> 16 == 0 else if w == 3 then v >> 24 == 0
    else w == 4 || v == 0
  }

  /** get_opt_val: ret = (ret << 8) | byte, first byte first. */
  function BigEndian(bs: seq<bv8>): (v: bv32)
    requires |bs| <= 4
    ensures bs == [] ==> v == 0
    ensures bs != [] ==> (v & 0xff) as bv8 == bs[|bs| - 1]
  {
    if bs == [] then 0 else (BigEndian(bs[..|bs| - 1]) << 8) | (bs[|bs| - 1] as bv32)
  }

  /** The byte (v >> (k * 8)) & 0xff, with the shift amount spelled out for each k. */
  function ByteOf(v: bv32, k: nat): bv8
    requires k < 4
  {
    if k == 0 then (v & 0xff) as bv8
    else if k == 1 then ((v >> 8) & 0xff) as bv8
    else if k == 2 then ((v >> 16) & 0xff) as bv8
    else ((v >> 24) & 0xff) as bv8
  }

  /** put_opt_val: the i-th byte written is (v >> ((w - 1 - i) * 8)) & 0xff. */
  function ToBigEndian(v: bv32, w: nat): (bs: seq<bv8>)
    requires w <= 4
    ensures |bs| == w
  {
    seq(w, i requires 0 <= i < w => ByteOf(v, w - 1 - i))
  }

  /** The accumulator of get_opt_val never loses bits: its result fits the w-byte type. */
  lemma BigEndianFits(bs: seq<bv8>)
    requires |bs| <= 4
    ensures Fits(BigEndian(bs), |bs|)
  {
    var n := |bs|;
    if n >= 1 { assert bs[..n - 1][..0] == []; }
    if n >= 2 { assert bs[..n - 1][..n - 2] == bs[..n - 2]; }
    if n >= 3 { assert bs[..n - 2][..n - 3] == bs[..n - 3]; }
    if n == 4 { assert bs[..n - 3][..n - 4] == bs[..n - 4]; }
  }

  /** Round trip: decoding the bytes put_opt_val writes for v gives v back. */
  lemma DecodeEncode(v: bv32, w: nat)
    requires IsWidth(w) && Fits(v, w)
    ensures BigEndian(ToBigEndian(v, w)) == v
  {
    if w == 1 {
      DecodeEncodeU8(v);
    } else if w == 2 {
      DecodeEncodeU16(v);
    } else {
      DecodeEncodeU32(v);
    }
  }

  lemma DecodeEncodeU8(v: bv32)
    requires v >> 8 == 0
    ensures BigEndian(ToBigEndian(v, 1)) == v
  {
    var bs := ToBigEndian(v, 1);
    BigEndianUnrolled(bs);
    assert bs[0] == ByteOf(v, 0);
    RecomposeOne(v);
  }

  lemma DecodeEncodeU16(v: bv32)
    requires v >> 16 == 0
    ensures BigEndian(ToBigEndian(v, 2)) == v
  {
    var bs := ToBigEndian(v, 2);
    BigEndianUnrolled(bs);
    assert bs[0] == ByteOf(v, 1) && bs[1] == ByteOf(v, 0);
    RecomposeTwo(v);
  }

  lemma DecodeEncodeU32(v: bv32)
    ensures BigEndian(ToBigEndian(v, 4)) == v
  {
    var bs := ToBigEndian(v, 4);
    BigEndianUnrolled(bs);
    assert bs[0] == ByteOf(v, 3) && bs[1] == ByteOf(v, 2);
    assert bs[2] == ByteOf(v, 1) && bs[3] == ByteOf(v, 0);
    RecomposeFour(v);
  }

  /** Round trip: encoding the value get_opt_val reads gives the same bytes back. */
  lemma EncodeDecode(bs: seq<bv8>)
    requires IsWidth(|bs|)
    ensures ToBigEndian(BigEndian(bs), |bs|) == bs
  {
    if |bs| == 1 {
      EncodeDecodeU8(bs);
    } else if |bs| == 2 {
      EncodeDecodeU16(bs);
    } else {
      EncodeDecodeU32(bs);
    }
  }

  lemma EncodeDecodeU8(bs: seq<bv8>)
    requires |bs| == 1
    ensures ToBigEndian(BigEndian(bs), 1) == bs
  {
    BigEndianUnrolled(bs);
    SplitOne(bs[0]);
  }

  lemma EncodeDecodeU16(bs: seq<bv8>)
    requires |bs| == 2
    ensures ToBigEndian(BigEndian(bs), 2) == bs
  {
    BigEndianUnrolled(bs);
    SplitTwo(bs[0], bs[1]);
  }

  lemma EncodeDecodeU32(bs: seq<bv8>)
    requires |bs| == 4
    ensures ToBigEndian(BigEndian(bs), 4) == bs
  {
    BigEndianUnrolled(bs);
    SplitFour(bs[0], bs[1], bs[2], bs[3]);
    FourBytesOf(BigEndian(bs), bs);
  }

  /** The four bytes put_opt_val writes for a u32 are its bytes from the highest down. */
  lemma FourBytesOf(v: bv32, bs: seq<bv8>)
    requires |bs| == 4
    requires ByteOf(v, 3) == bs[0] && ByteOf(v, 2) == bs[1] && ByteOf(v, 1) == bs[2] && ByteOf(v, 0) == bs[3]
    ensures ToBigEndian(v, 4) == bs
  {
  }

  /** Taking apart one byte widened to u32 gives it back. */
  lemma SplitOne(b0: bv8)
    ensures ByteOf(b0 as bv32, 0) == b0
  {
  }

  /** Taking apart two bytes put together big-endian gives them back. */
  lemma SplitTwo(b0: bv8, b1: bv8)
    ensures ByteOf((b0 as bv32 << 8) | (b1 as bv32), 1) == b0
    ensures ByteOf((b0 as bv32 << 8) | (b1 as bv32), 0) == b1
  {
  }

  /** Taking apart four bytes put together big-endian gives them back. */
  lemma SplitFour(b0: bv8, b1: bv8, b2: bv8, b3: bv8)
    ensures ByteOf((b0 as bv32 << 24) | (b1 as bv32 << 16) | (b2 as bv32 << 8) | (b3 as bv32), 3) == b0
    ensures ByteOf((b0 as bv32 << 24) | (b1 as bv32 << 16) | (b2 as bv32 << 8) | (b3 as bv32), 2) == b1
    ensures ByteOf((b0 as bv32 << 24) | (b1 as bv32 << 16) | (b2 as bv32 << 8) | (b3 as bv32), 1) == b2
    ensures ByteOf((b0 as bv32 << 24) | (b1 as bv32 << 16) | (b2 as bv32 << 8) | (b3 as bv32), 0) == b3
  {
  }

  /** A u8 value is its own low byte. */
  lemma RecomposeOne(v: bv32)
    requires v >> 8 == 0
    ensures ByteOf(v, 0) as bv32 == v
  {
  }

  /** A u16 value is its two low bytes put back in place. */
  lemma RecomposeTwo(v: bv32)
    requires v >> 16 == 0
    ensures (ByteOf(v, 1) as bv32 << 8) | (ByteOf(v, 0) as bv32) == v
  {
  }

  /** A u32 value is its four bytes put back in place. */
  lemma RecomposeFour(v: bv32)
    ensures (ByteOf(v, 3) as bv32 << 24) | (ByteOf(v, 2) as bv32 << 16)
            | (ByteOf(v, 1) as bv32 << 8) | (ByteOf(v, 0) as bv32) == v
  {
  }

  /** BigEndian written out for each width. */
  lemma BigEndianUnrolled(bs: seq<bv8>)
    requires IsWidth(|bs|)
    ensures |bs| == 1 ==> BigEndian(bs) == bs[0] as bv32
    ensures |bs| == 2 ==> BigEndian(bs) == (bs[0] as bv32 << 8) | (bs[1] as bv32)
    ensures |bs| == 4 ==>
      BigEndian(bs) == (bs[0] as bv32 << 24) | (bs[1] as bv32 << 16) | (bs[2] as bv32 << 8) | (bs[3] as bv32)
  {
    var n := |bs|;
    assert bs[..1][..0] == [];
    if n >= 2 { assert bs[..2][..1] == bs[..1]; }
    if n == 4 {
      assert bs[..3][..2] == bs[..2];
      assert bs[..4] == bs;
    }
  }

  /** put_opt_val writes 0xdeadbeef as de ad be ef. */
  lemma PutDeadbeef()
    ensures ToBigEndian(0xdead_beef, 4) == [0xde, 0xad, 0xbe, 0xef]
  {
    var bs := ToBigEndian(0xdead_beef, 4);
    assert bs[0] == ByteOf(0xdead_beef, 3) == 0xde;
    assert bs[1] == ByteOf(0xdead_beef, 2) == 0xad;
    assert bs[2] == ByteOf(0xdead_beef, 1) == 0xbe;
    assert bs[3] == ByteOf(0xdead_beef, 0) == 0xef;
  }

  /** get_opt_val<T>(data + at), with sizeof(T) = w. */
  method GetOptVal(data: array<bv8>, at: nat, w: nat) returns (ret: bv32)
    requires IsWidth(w) && at + w <= data.Length
    ensures ret == BigEndian(data[at..at + w])
    ensures Fits(ret, w)
  {
    ret := 0;
    for i := 0 to w
      invariant ret == BigEndian(data[at..at + i])
    {
      assert data[at..at + i + 1][..i] == data[at..at + i];
      ret := (ret << 8) | (data[at + i] as bv32);
    }
    BigEndianFits(data[at..at + w]);
  }

  /** put_opt_val<T>(data + at, v): writes w bytes most significant first, returns the advanced cursor. */
  method PutOptVal(data: array<bv8>, at: nat, v: bv32, w: nat) returns (next: nat)
    requires IsWidth(w) && at + w <= data.Length
    modifies data
    ensures next == at + w
    ensures data[at..next] == ToBigEndian(v, w)
    ensures forall j :: 0 <= j < data.Length && !(at <= j < next) ==> data[j] == old(data[j])
  {
    next := at;
    var i := w;
    while i > 0
      invariant 0 <= i <= w && next == at + (w - i)
      invariant forall k :: 0 <= k < w - i ==> data[at + k] == ToBigEndian(v, w)[k]
      invariant forall j :: 0 <= j < data.Length && !(at <= j < next) ==> data[j] == old(data[j])
    {
      data[next] := ByteOf(v, i - 1);
      next := next + 1;
      i := i - 1;
    }
    assert data[at..next] == ToBigEndian(v, w);
  }
}
