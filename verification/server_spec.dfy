/**
 * src/main.cc: what handle_dhcp_message does with one received message, as a
 * function of the message bytes, the current time and the lease table, and
 * the size gate of loop() in front of it. The reply is the byte sequence the
 * server broadcasts; the clock and the UDP socket are parameters and results.
 */
module ServerSpec {
  import opened Wrappers
  import opened Utils
  import opened Dhcp
  import opened Options
  import opened LeaseDatabase

  /** IPAddress, as its four octets in wire order. */
  type IPv4 = a: seq<bv8> | |a| == 4 witness [0, 0, 0, 0]

  const LocalIp: IPv4 := [10, 0, 0, 2]
  const Gateway: IPv4 := [10, 0, 0, 1]
  const Broadcast: IPv4 := [10, 0, 0, 255]
  const Subnet: IPv4 := [255, 255, 255, 0]
  const Dns1: IPv4 := [192, 168, 2, 1]

  /** The first address handed out; slot i of the table gets LEASE_START + i. */
  const LeaseStart: IPv4 := [10, 0, 0, 10]
  /** LEASE_TIME_SECS: 8 hours. */
  const LeaseTimeSecs: bv32 := 8 * 60 * 60
  /** The renewal time T1 the server announces: half the lease. */
  const RenewalTimeSecs: bv32 := LeaseTimeSecs / 2
  /** The rebinding time T2 the server announces: 8/12 of the lease. */
  const RebindingTimeSecs: bv32 := LeaseTimeSecs * 8 / 12
  /** How long a slot offered to a DISCOVER is reserved. */
  const ProvisionalSecs: nat := 15
  /** lease_db<16>: the number of slots of the server's table. */
  const LeaseCount: nat := 16
  /** Size of requested_param: at most this many requested parameters are answered. */
  const MaxRequestedParams: nat := 16

  /** The lease time, in seconds, added to the current time. */
  function LeaseTime(): nat
  {
    LeaseTimeSecs as nat
  }

  /** 8 h is 28800 s; T1 = 14400 s and T2 = 19200 s (section 4.4.5 of RFC 2131 suggests 0.875 of the lease for T2). */
  lemma LeaseTimes()
    ensures LeaseTime() == 28800
    ensures RenewalTimeSecs as nat == 14400 && RebindingTimeSecs as nat == 19200
    ensures 2 * RenewalTimeSecs as nat == LeaseTime() && 3 * RebindingTimeSecs as nat == 2 * LeaseTime()
  {
  }

  // -- Reading the request.

  /** The options the client filled in: from the options offset to the end of the datagram. */
  function OptionArea(req: seq<bv8>): seq<bv8>
    requires OptionsOffset <= |req|
  {
    req[OptionsOffset..]
  }

  /** op is BOOTREQUEST and the cookie bytes are 99.130.83.99. */
  predicate HeaderAccepted(req: seq<bv8>)
    requires OptionsOffset <= |req|
    ensures HeaderAccepted(req) <==>
      Operation(req[OpOffset]) == BootRequest && HostU32(req[CookieOffset..OptionsOffset]) == OptionCookie
  {
    CookieOnTheWire(req[CookieOffset..OptionsOffset]);
    Operation(req[OpOffset]) == BootRequest && req[CookieOffset..OptionsOffset] == CookieBytes
  }

  /** The first k bytes of the value of option `tag`: none when it is absent or shorter than k. */
  function OptionValue(opts: seq<bv8>, tag: OptionTag, k: nat): (r: Option<seq<bv8>>)
    ensures r.Some? ==> |r.value| == k
    ensures r.Some? <==> FindOption(opts, tag).Some? && FindOption(opts, tag).value.len >= k
    ensures r.Some? ==> r.value == ValueOf(opts, FindOption(opts, tag).value)[..k]
  {
    match FindOption(opts, tag)
    case None => None
    case Some(v) => if v.len < k then None else Some(opts[v.offset..v.offset + k])
  }

  /** The message type the client sent (option 53). */
  function MessageTypeOf(opts: seq<bv8>): (r: Option<MsgType>)
    ensures r.Some? <==> FindOption(opts, DhcpMessageType).Some? && FindOption(opts, DhcpMessageType).value.len >= 1
    ensures r.Some? ==> r.value.raw == opts[FindOption(opts, DhcpMessageType).value.offset]
  {
    match OptionValue(opts, DhcpMessageType, 1)
    case None => None
    case Some(b) => Some(MsgType(b[0]))
  }

  /** The bytes of chaddr the client identity is computed from: hlen of them, at most the 16 chaddr holds. */
  function KeyBytes(req: seq<bv8>): (b: seq<bv8>)
    requires OptionsOffset <= |req|
    ensures |b| <= ChaddrLen
    ensures b == DecodeHeader(req).chaddr[..|b|]
    ensures |b| == if req[HlenOffset] as nat < ChaddrLen then req[HlenOffset] as nat else ChaddrLen
  {
    var n := if req[HlenOffset] as nat < ChaddrLen then req[HlenOffset] as nat else ChaddrLen;
    var chaddr := req[ChaddrOffset..SnameOffset];
    assert DecodeHeader(req).chaddr == chaddr;
    SliceOfSlice(req, ChaddrOffset, SnameOffset, 0, n);
    assert chaddr[..n] == chaddr[0..n];
    req[ChaddrOffset..ChaddrOffset + n]
  }

  /** The client identity: the hash of option 61 if present, else of the hardware address. */
  function ClientKey(req: seq<bv8>): (key: bv32)
    requires OptionsOffset <= |req|
    ensures FindOption(OptionArea(req), ClientId).Some? ==>
      key == Hash(ValueOf(OptionArea(req), FindOption(OptionArea(req), ClientId).value))
    ensures FindOption(OptionArea(req), ClientId).None? ==>
      var h := DecodeHeader(req);
      key == Hash(h.chaddr[..if h.hlen as nat < ChaddrLen then h.hlen as nat else ChaddrLen])
  {
    var opts := OptionArea(req);
    match FindOption(opts, ClientId)
    case Some(v) => Hash(ValueOf(opts, v))
    case None => Hash(KeyBytes(req))
  }

  /** The requested parameters (option 55), at most 16, in the client's order. */
  function RequestedParams(opts: seq<bv8>): (params: seq<OptionTag>)
    ensures |params| <= MaxRequestedParams
    ensures FindOption(opts, ParameterRequestList).Some? ==>
      var v := FindOption(opts, ParameterRequestList).value;
      && |params| == (if v.len < MaxRequestedParams then v.len else MaxRequestedParams)
      && forall i :: 0 <= i < |params| ==> params[i].raw == opts[v.offset + i]
    ensures FindOption(opts, ParameterRequestList).None? ==> params == []
  {
    match FindOption(opts, ParameterRequestList)
    case None => []
    case Some(v) =>
      var n := if v.len < MaxRequestedParams then v.len else MaxRequestedParams;
      seq(n, i requires 0 <= i < n => OptionTag(opts[v.offset + i]))
  }

  /** The server identifier (option 54) names this server. */
  predicate ServerIdMatches(opts: seq<bv8>)
    ensures ServerIdMatches(opts) <==>
      && FindOption(opts, ServerIdentifier).Some?
      && FindOption(opts, ServerIdentifier).value.len >= 4
      && opts[FindOption(opts, ServerIdentifier).value.offset..FindOption(opts, ServerIdentifier).value.offset + 4] == LocalIp
  {
    OptionValue(opts, ServerIdentifier, 4) == Some(LocalIp)
  }

  // -- The reply.

  /** LEASE_START with lease_id added to its last octet, which is a u8 and wraps. */
  function YourAddr(slot: nat): (a: IPv4)
    ensures a[..3] == LeaseStart[..3]
    ensures slot < 246 ==> a[3] == (10 + slot) as bv8
  {
    [LeaseStart[0], LeaseStart[1], LeaseStart[2], ((LeaseStart[3] as nat + slot) % 256) as bv8]
  }

  /** The fixed header of the reply: Table 3 of section 4.3.1 of RFC 2131 applied to the request's header. */
  function ReplyHeader(req: seq<bv8>, slot: nat): (h: seq<bv8>)
    requires OptionsOffset <= |req|
    ensures |h| == OptionsOffset
  {
    seq(OptionsOffset, i requires 0 <= i < OptionsOffset =>
      if i == OpOffset then BootReply.raw
      else if i == HopsOffset || SecsOffset <= i < FlagsOffset || CiaddrOffset <= i < YiaddrOffset then 0
      else if YiaddrOffset <= i < SiaddrOffset then YourAddr(slot)[i - YiaddrOffset]
      else if SiaddrOffset <= i < GiaddrOffset then LocalIp[i - SiaddrOffset]
      else req[i])
  }

  /** An option carrying an address. */
  function AddrEntry(tag: OptionTag, a: IPv4): Entry
  {
    Entry(tag, 4, a)
  }

  /** An option carrying a u32, in network order. */
  function U32Entry(tag: OptionTag, v: bv32): Entry
  {
    Entry(tag, 4, ToBigEndian(v, 4))
  }

  /** The options every reply carries: message type, server identifier, lease time, T1, T2. */
  function FixedEntries(mt: MsgType): (es: seq<Entry>)
    ensures AllWellFormed(es)
  {
    [ Entry(DhcpMessageType, 1, [mt.raw]),
      AddrEntry(ServerIdentifier, LocalIp),
      U32Entry(IpAddressLeaseTime, LeaseTimeSecs),
      U32Entry(RenewalTimeT1, RenewalTimeSecs),
      U32Entry(RebindingTimeT2, RebindingTimeSecs) ]
  }

  /** The value the server gives for a requested parameter: subnet mask, router, DNS, broadcast. */
  function ParamValue(tag: OptionTag): Option<IPv4>
  {
    if tag == SubnetMask then Some(Subnet)
    else if tag == Router then Some(Gateway)
    else if tag == Dns then Some(Dns1)
    else if tag == BroadcastAddr then Some(Broadcast)
    else None
  }

  /** The answer to one requested parameter: an entry for a supported one, nothing otherwise. */
  function ParamEntry(tag: OptionTag): seq<Entry>
  {
    match ParamValue(tag)
    case None => []
    case Some(a) => [AddrEntry(tag, a)]
  }

  /** The answers to the requested parameters, in the client's order. */
  function RequestedEntries(params: seq<OptionTag>): (es: seq<Entry>)
    ensures AllWellFormed(es)
    ensures |es| <= |params|
    ensures forall i :: 0 <= i < |es| ==> ParamValue(es[i].tag) == Some(es[i].data)
  {
    if params == [] then []
    else RequestedEntries(params[..|params| - 1]) + ParamEntry(params[|params| - 1])
  }

  /** All option entries of the reply, in the order they are written. */
  function ReplyEntries(mt: MsgType, params: seq<OptionTag>): (es: seq<Entry>)
    ensures AllWellFormed(es)
  {
    FixedEntries(mt) + RequestedEntries(params)
  }

  /** The options area of the reply: the entries, then END. */
  function ReplyOptions(mt: MsgType, params: seq<OptionTag>): (opts: seq<bv8>)
    ensures 0 < |opts| && OptionTag(opts[|opts| - 1]) == End
    ensures FindOption(opts, DhcpMessageType).Some?
  {
    Serialize(ReplyEntries(mt, params)) + [End.raw]
  }

  /** The bytes sent: the rewritten header, then the reply options. */
  function Reply(req: seq<bv8>, mt: MsgType, slot: nat, params: seq<OptionTag>): (r: seq<bv8>)
    requires OptionsOffset <= |req|
    ensures |params| <= MaxRequestedParams ==> OptionsOffset < |r| <= MessageSize
  {
    if |params| <= MaxRequestedParams then
      ReplyFits(mt, params);
      ReplyHeader(req, slot) + ReplyOptions(mt, params)
    else
      ReplyHeader(req, slot) + ReplyOptions(mt, params)
  }

  // -- The handler.

  /** What handling one message yields: the reply, if any, and the lease table afterwards. */
  datatype Outcome = Outcome(reply: Option<seq<bv8>>, table: seq<Lease>)

  /** What the switch on the message type decides: no reply, or a reply of type resp for a slot; and the table after it. */
  datatype Decision = Drop(table: seq<Lease>) | Answer(resp: MsgType, slot: nat, table: seq<Lease>)

  /**
   * The switch of handle_dhcp_message on message type mt, for client key
   * `key`, on the table `flushed` the expired leases were already removed from.
   */
  function Decide(opts: seq<bv8>, mt: MsgType, key: bv32, now: nat, flushed: seq<Lease>): (d: Decision)
    ensures |d.table| == |flushed|
    ensures d.Answer? ==>
      && mt in {Discover, Request}
      && d.resp == (if mt == Discover then Offer else Ack)
      && d.slot < |d.table| && d.table[d.slot].clientHash == key
    ensures mt !in {Discover, Request} ==> d == Drop(flushed)
  {
    if mt == Discover then
      match Lookup(flushed, key)
      case Some(slot) => Answer(Offer, slot, flushed)
      case None =>
        match NewLeaseSlot(flushed, key)
        case None => Drop(flushed)
        case Some(slot) => Answer(Offer, slot, Allocated(flushed, key, now + ProvisionalSecs))
    else if mt == Request then
      if !ServerIdMatches(opts) then Drop(flushed)
      else
        match Lookup(flushed, key)
        case None => Drop(flushed)
        case Some(slot) => Answer(Ack, slot, Renewed(flushed, key, now + LeaseTime()))
    else Drop(flushed)
  }

  /** handle_dhcp_message(msg, len) for the len received bytes `req`, at time `now`. */
  function Handle(req: seq<bv8>, now: nat, table: seq<Lease>): (out: Outcome)
    requires MessageMinLen <= |req| < MessageSize
    ensures |out.table| == |table|
    ensures out.reply.Some? ==>
      && HeaderAccepted(req) && MessageTypeOf(OptionArea(req)).Some?
      && MessageTypeOf(OptionArea(req)).value in {Discover, Request}
  {
    var opts := OptionArea(req);
    if !HeaderAccepted(req) then Outcome(None, table)
    else match MessageTypeOf(opts)
      case None => Outcome(None, table)
      case Some(mt) => Respond(req, mt, now, table)
  }

  /** The rest of handle_dhcp_message once the message type is known: flush, switch, reply. */
  function Respond(req: seq<bv8>, mt: MsgType, now: nat, table: seq<Lease>): (out: Outcome)
    requires OptionsOffset <= |req|
    ensures |out.table| == |table|
    ensures out.reply.Some? ==> mt in {Discover, Request}
  {
    var opts := OptionArea(req);
    match Decide(opts, mt, ClientKey(req), now, Flush(table, now))
    case Drop(t) => Outcome(None, t)
    case Answer(resp, slot, t) => Outcome(Some(Reply(req, resp, slot, RequestedParams(opts))), t)
  }

  /** loop(): only datagrams of at least DHCP_MESSAGE_MIN_LEN and less than sizeof(dhcp_message) bytes are handled. */
  function Serve(datagram: seq<bv8>, now: nat, table: seq<Lease>): (out: Outcome)
    ensures |out.table| == |table|
    ensures out.reply.Some? ==> MessageMinLen <= |datagram| < MessageSize
  {
    if MessageMinLen <= |datagram| < MessageSize then Handle(datagram, now, table)
    else Outcome(None, table)
  }

  // -- Properties of the handler.

  /** A datagram outside the size gate changes nothing and is not answered. */
  lemma GateRejects(datagram: seq<bv8>, now: nat, table: seq<Lease>)
    requires |datagram| < MessageMinLen || MessageSize <= |datagram|
    ensures Serve(datagram, now, table) == Outcome(None, table)
  {
  }

  /** A wrong op, a wrong cookie or a missing message type is dropped before the flush: nothing changes. */
  lemma InvalidChangesNothing(req: seq<bv8>, now: nat, table: seq<Lease>)
    requires MessageMinLen <= |req| < MessageSize
    requires !HeaderAccepted(req) || MessageTypeOf(OptionArea(req)).None?
    ensures Handle(req, now, table) == Outcome(None, table)
  {
  }

  /** Message types other than DISCOVER and REQUEST get no reply; only the flush has happened. */
  lemma OtherTypesOnlyFlush(req: seq<bv8>, now: nat, table: seq<Lease>)
    requires MessageMinLen <= |req| < MessageSize
    requires HeaderAccepted(req) && MessageTypeOf(OptionArea(req)).Some?
    requires MessageTypeOf(OptionArea(req)).value !in {Discover, Request}
    ensures Handle(req, now, table) == Outcome(None, Flush(table, now))
  {
  }

  /**
   * A DISCOVER is answered exactly when the client holds a slot after the
   * flush, or the client key is not 0 and a slot is free.
   */
  lemma DiscoverAnswered(req: seq<bv8>, now: nat, table: seq<Lease>)
    requires MessageMinLen <= |req| < MessageSize
    requires HeaderAccepted(req) && MessageTypeOf(OptionArea(req)) == Some(Discover)
    ensures var flushed := Flush(table, now);
      Handle(req, now, table).reply.Some? <==>
        Lookup(flushed, ClientKey(req)).Some?
        || (ClientKey(req) != 0 && exists j :: 0 <= j < |flushed| && !Occupied(flushed[j]))
  {
  }

  /** A REQUEST is answered exactly when it names this server and the client holds a slot after the flush. */
  lemma RequestAnswered(req: seq<bv8>, now: nat, table: seq<Lease>)
    requires MessageMinLen <= |req| < MessageSize
    requires HeaderAccepted(req) && MessageTypeOf(OptionArea(req)) == Some(Request)
    ensures Handle(req, now, table).reply.Some? <==>
      ServerIdMatches(OptionArea(req)) && Lookup(Flush(table, now), ClientKey(req)).Some?
  {
  }

  /** The table after an accepted message is the flushed table, or it with the client's slot taken or renewed. */
  lemma HandleTableCases(req: seq<bv8>, now: nat, table: seq<Lease>)
    requires MessageMinLen <= |req| < MessageSize
    requires HeaderAccepted(req) && MessageTypeOf(OptionArea(req)).Some?
    ensures var out := Handle(req, now, table).table;
      var flushed := Flush(table, now);
      var key := ClientKey(req);
      || out == flushed
      || out == Allocated(flushed, key, now + ProvisionalSecs)
      || out == Renewed(flushed, key, now + LeaseTime())
  {
    DecideTableCases(OptionArea(req), MessageTypeOf(OptionArea(req)).value, ClientKey(req), now, Flush(table, now));
  }

  /** The switch leaves the flushed table as it is, or takes or renews the client's slot in it. */
  lemma DecideTableCases(opts: seq<bv8>, mt: MsgType, key: bv32, now: nat, flushed: seq<Lease>)
    ensures var t := Decide(opts, mt, key, now, flushed).table;
      t == flushed || t == Allocated(flushed, key, now + ProvisionalSecs) || t == Renewed(flushed, key, now + LeaseTime())
  {
  }

  /**
   * After an accepted message, no expired lease is left in the table, and
   * besides the flush only the client's own slot has changed.
   */
  lemma HandleFlushesThenTouchesOneSlot(req: seq<bv8>, now: nat, table: seq<Lease>)
    requires MessageMinLen <= |req| < MessageSize
    requires HeaderAccepted(req) && MessageTypeOf(OptionArea(req)).Some?
    ensures var out := Handle(req, now, table).table;
      && |out| == |table|
      && (forall j :: 0 <= j < |out| && Occupied(out[j]) ==> out[j].leaseEnd > now)
      && (forall j :: 0 <= j < |out| ==> out[j] == Flush(table, now)[j] || out[j].clientHash == ClientKey(req))
  {
    var flushed := Flush(table, now);
    var key := ClientKey(req);
    HandleTableCases(req, now, table);
    FlushLeavesNoExpired(table, now);
    ClientStepKeepsLive(flushed, key, now + ProvisionalSecs, now);
    ClientStepKeepsLive(flushed, key, now + LeaseTime(), now);
  }

  /** Taking or renewing the client's slot with an end after now keeps every lease live and changes no other slot. */
  lemma ClientStepKeepsLive(s: seq<Lease>, h: bv32, end: nat, now: nat)
    requires end > now
    requires forall j :: 0 <= j < |s| && Occupied(s[j]) ==> s[j].leaseEnd > now
    ensures forall j :: 0 <= j < |s| && Occupied(Allocated(s, h, end)[j]) ==> Allocated(s, h, end)[j].leaseEnd > now
    ensures forall j :: 0 <= j < |s| && Occupied(Renewed(s, h, end)[j]) ==> Renewed(s, h, end)[j].leaseEnd > now
    ensures forall j :: 0 <= j < |s| ==> Allocated(s, h, end)[j] == s[j] || Allocated(s, h, end)[j].clientHash == h
    ensures forall j :: 0 <= j < |s| ==> Renewed(s, h, end)[j] == s[j] || Renewed(s, h, end)[j].clientHash == h
  {
    if NewLeaseSlot(s, h).Some? {
      AllocateThenLookup(s, h, end);
    }
    RenewThenLookup(s, h, end);
  }

  /** Handling a message keeps the occupied hashes of the table pairwise distinct. */
  lemma HandleKeepsDistinct(req: seq<bv8>, now: nat, table: seq<Lease>)
    requires MessageMinLen <= |req| < MessageSize
    requires Distinct(table)
    ensures Distinct(Handle(req, now, table).table)
  {
    if HeaderAccepted(req) && MessageTypeOf(OptionArea(req)).Some? {
      var opts := OptionArea(req);
      var mt := MessageTypeOf(opts).value;
      FlushKeepsDistinct(table, now);
      RespondTable(req, mt, now, table);
      DecideKeepsDistinct(opts, mt, ClientKey(req), now, Flush(table, now));
    }
  }

  /** The table after the handler is the one the switch leaves. */
  lemma RespondTable(req: seq<bv8>, mt: MsgType, now: nat, table: seq<Lease>)
    requires OptionsOffset <= |req|
    ensures Respond(req, mt, now, table).table == Decide(OptionArea(req), mt, ClientKey(req), now, Flush(table, now)).table
  {
  }

  /** The switch keeps the occupied hashes of a table pairwise distinct. */
  lemma DecideKeepsDistinct(opts: seq<bv8>, mt: MsgType, key: bv32, now: nat, flushed: seq<Lease>)
    requires Distinct(flushed)
    ensures Distinct(Decide(opts, mt, key, now, flushed).table)
  {
    var t := Decide(opts, mt, key, now, flushed).table;
    DecideTableCases(opts, mt, key, now, flushed);
    if t == Allocated(flushed, key, now + ProvisionalSecs) {
      AllocateKeepsDistinct(flushed, key, now + ProvisionalSecs);
    } else if t == Renewed(flushed, key, now + LeaseTime()) {
      RenewKeepsDistinct(flushed, key, now + LeaseTime());
    }
  }

  /**
   * Every reply is an OFFER to a DISCOVER or an ACK to a REQUEST, for the slot
   * the client holds in the new table, which ends after now; an ACK extends
   * the lease to now + LEASE_TIME_SECS.
   */
  lemma ReplyIsForClientSlot(req: seq<bv8>, now: nat, table: seq<Lease>)
    requires MessageMinLen <= |req| < MessageSize
    requires Handle(req, now, table).reply.Some?
    ensures var out := Handle(req, now, table);
      var opts := OptionArea(req);
      var slot := Lookup(out.table, ClientKey(req));
      && MessageTypeOf(opts).Some?
      && MessageTypeOf(opts).value in {Discover, Request}
      && slot.Some?
      && out.reply.value == Reply(req, if MessageTypeOf(opts).value == Discover then Offer else Ack,
                                  slot.value, RequestedParams(opts))
      && out.table[slot.value].leaseEnd > now
      && (MessageTypeOf(opts).value == Request ==> out.table[slot.value].leaseEnd == now + LeaseTime())
  {
    var opts := OptionArea(req);
    var mt := MessageTypeOf(opts).value;
    FlushLeavesNoExpired(table, now);
    DecideAnswers(opts, mt, ClientKey(req), now, Flush(table, now));
  }

  /** An answer names the client's slot in the new table, live, renewed for LEASE_TIME_SECS on a REQUEST. */
  lemma DecideAnswers(opts: seq<bv8>, mt: MsgType, key: bv32, now: nat, flushed: seq<Lease>)
    requires forall j :: 0 <= j < |flushed| && Occupied(flushed[j]) ==> flushed[j].leaseEnd > now
    requires Decide(opts, mt, key, now, flushed).Answer?
    ensures var d := Decide(opts, mt, key, now, flushed);
      && mt in {Discover, Request}
      && d.resp == (if mt == Discover then Offer else Ack)
      && Lookup(d.table, key) == Some(d.slot)
      && d.table[d.slot].leaseEnd > now
      && (mt == Request ==> d.table[d.slot].leaseEnd == now + LeaseTime())
  {
    if NewLeaseSlot(flushed, key).Some? {
      AllocateThenLookup(flushed, key, now + ProvisionalSecs);
    }
    RenewKeepsSlots(flushed, key, now + LeaseTime());
  }

  /**
   * With the 16 slots of LEASE_DB, every reply offers or acknowledges an
   * address from 10.0.0.10 to 10.0.0.25: yiaddr is 10.0.0.(10 + slot).
   */
  lemma ReplyAddressInRange(req: seq<bv8>, now: nat, table: seq<Lease>)
    requires MessageMinLen <= |req| < MessageSize
    requires |table| == LeaseCount
    requires Handle(req, now, table).reply.Some?
    ensures var out := Handle(req, now, table);
      var slot := Lookup(out.table, ClientKey(req));
      && slot.Some? && slot.value < LeaseCount
      && OptionsOffset <= |out.reply.value|
      && out.reply.value[YiaddrOffset..SiaddrOffset] == [10, 0, 0, (10 + slot.value) as bv8]
  {
    var out := Handle(req, now, table);
    var opts := OptionArea(req);
    ReplyIsForClientSlot(req, now, table);
    var slot := Lookup(out.table, ClientKey(req)).value;
    SlotOctet(slot);
    ReplyYiaddr(req, if MessageTypeOf(opts).value == Discover then Offer else Ack, slot, RequestedParams(opts));
  }

  /** yiaddr of a reply is the address of its slot. */
  lemma ReplyYiaddr(req: seq<bv8>, mt: MsgType, slot: nat, params: seq<OptionTag>)
    requires OptionsOffset <= |req|
    ensures OptionsOffset <= |Reply(req, mt, slot, params)|
    ensures Reply(req, mt, slot, params)[YiaddrOffset..SiaddrOffset] == YourAddr(slot)
  {
    var h := ReplyHeader(req, slot);
    var r := Reply(req, mt, slot, params);
    assert r[YiaddrOffset..SiaddrOffset] == h[YiaddrOffset..SiaddrOffset];
  }

  /**
   * A client new to the table that is offered a slot by a DISCOVER, and
   * sends a REQUEST naming this server before the 15 s provisional lease
   * ends, is acknowledged for the same slot, hence the same address, which
   * it now holds for LEASE_TIME_SECS.
   */
  lemma DiscoverThenRequest(d: seq<bv8>, r: seq<bv8>, now: nat, later: nat, table: seq<Lease>)
    requires MessageMinLen <= |d| < MessageSize && MessageMinLen <= |r| < MessageSize
    requires HeaderAccepted(d) && MessageTypeOf(OptionArea(d)) == Some(Discover)
    requires HeaderAccepted(r) && MessageTypeOf(OptionArea(r)) == Some(Request)
    requires ClientKey(d) == ClientKey(r) && ServerIdMatches(OptionArea(r))
    requires Lookup(Flush(table, now), ClientKey(d)).None?
    requires Handle(d, now, table).reply.Some?
    requires now <= later < now + ProvisionalSecs
    ensures NewLeaseSlot(Flush(table, now), ClientKey(d)).Some?
    ensures var slot := NewLeaseSlot(Flush(table, now), ClientKey(d)).value;
      Handle(d, now, table).reply == Some(Reply(d, Offer, slot, RequestedParams(OptionArea(d))))
    ensures var slot := NewLeaseSlot(Flush(table, now), ClientKey(d)).value;
      Handle(r, later, Handle(d, now, table).table).reply == Some(Reply(r, Ack, slot, RequestedParams(OptionArea(r))))
    ensures var t2 := Handle(r, later, Handle(d, now, table).table).table;
      Lookup(t2, ClientKey(r)).Some? && Lookup(t2, ClientKey(r)).value == NewLeaseSlot(Flush(table, now), ClientKey(d)).value
    ensures var t2 := Handle(r, later, Handle(d, now, table).table).table;
      t2[NewLeaseSlot(Flush(table, now), ClientKey(d)).value] == Lease(ClientKey(r), later + LeaseTime())
  {
    DiscoverAllocates(d, now, table);
    RequestAfterOffer(r, later, Flush(table, now), now + ProvisionalSecs);
  }

  /**
   * A REQUEST naming this server, from a client whose slot was taken by
   * new_lease(key, end) on the table s, sent before end: it is acknowledged
   * for that slot, which update_lease extends to LEASE_TIME_SECS from then.
   */
  lemma RequestAfterOffer(r: seq<bv8>, later: nat, s: seq<Lease>, end: nat)
    requires MessageMinLen <= |r| < MessageSize
    requires HeaderAccepted(r) && MessageTypeOf(OptionArea(r)) == Some(Request)
    requires ServerIdMatches(OptionArea(r))
    requires NewLeaseSlot(s, ClientKey(r)).Some? && later < end
    ensures var out := Handle(r, later, Allocated(s, ClientKey(r), end));
      var slot := NewLeaseSlot(s, ClientKey(r)).value;
      && out.reply == Some(Reply(r, Ack, slot, RequestedParams(OptionArea(r))))
      && Lookup(out.table, ClientKey(r)).Some? && Lookup(out.table, ClientKey(r)).value == slot
      && out.table[slot] == Lease(ClientKey(r), later + LeaseTime())
  {
    var key := ClientKey(r);
    AllocateFlushRenew(s, key, end, later, later + LeaseTime());
    RequestRenews(r, later, Allocated(s, key, end));
  }

  /** A DISCOVER from a client without a slot that is answered has taken the lowest free slot for 15 s, and offers it. */
  lemma DiscoverAllocates(req: seq<bv8>, now: nat, table: seq<Lease>)
    requires MessageMinLen <= |req| < MessageSize
    requires HeaderAccepted(req) && MessageTypeOf(OptionArea(req)) == Some(Discover)
    requires Lookup(Flush(table, now), ClientKey(req)).None?
    requires Handle(req, now, table).reply.Some?
    ensures NewLeaseSlot(Flush(table, now), ClientKey(req)).Some?
    ensures var flushed := Flush(table, now);
      var slot := NewLeaseSlot(flushed, ClientKey(req)).value;
      Handle(req, now, table) ==
        Outcome(Some(Reply(req, Offer, slot, RequestedParams(OptionArea(req)))),
                Allocated(flushed, ClientKey(req), now + ProvisionalSecs))
  {
  }

  /** A REQUEST naming this server from a client holding a slot after the flush is acknowledged for that slot, renewed. */
  lemma RequestRenews(req: seq<bv8>, now: nat, table: seq<Lease>)
    requires MessageMinLen <= |req| < MessageSize
    requires HeaderAccepted(req) && MessageTypeOf(OptionArea(req)) == Some(Request)
    requires ServerIdMatches(OptionArea(req))
    requires Lookup(Flush(table, now), ClientKey(req)).Some?
    ensures var slot := Lookup(Flush(table, now), ClientKey(req)).value;
      Handle(req, now, table) ==
        Outcome(Some(Reply(req, Ack, slot, RequestedParams(OptionArea(req)))),
                Renewed(Flush(table, now), ClientKey(req), now + LeaseTime()))
  {
  }

  /** The reply header is the request's with the fields of Table 3 of section 4.3.1 of RFC 2131 rewritten. */
  lemma ReplyHeaderTable3(req: seq<bv8>, slot: nat)
    requires OptionsOffset <= |req|
    ensures DecodeHeader(ReplyHeader(req, slot)) == DecodeHeader(req).(
      op := BootReply, hops := 0, secs := [0, 0], ciaddr := [0, 0, 0, 0],
      yiaddr := YourAddr(slot), siaddr := LocalIp)
  {
    var h := ReplyHeader(req, slot);
    assert h[XidOffset..SecsOffset] == req[XidOffset..SecsOffset];
    assert h[SecsOffset..FlagsOffset] == [0, 0];
    assert h[FlagsOffset..CiaddrOffset] == req[FlagsOffset..CiaddrOffset];
    assert h[CiaddrOffset..YiaddrOffset] == [0, 0, 0, 0];
    assert h[YiaddrOffset..SiaddrOffset] == YourAddr(slot);
    assert h[SiaddrOffset..GiaddrOffset] == LocalIp;
    assert h[GiaddrOffset..ChaddrOffset] == req[GiaddrOffset..ChaddrOffset];
    assert h[ChaddrOffset..SnameOffset] == req[ChaddrOffset..SnameOffset];
    assert h[SnameOffset..FileOffset] == req[SnameOffset..FileOffset];
    assert h[FileOffset..CookieOffset] == req[FileOffset..CookieOffset];
    assert h[CookieOffset..OptionsOffset] == req[CookieOffset..OptionsOffset];
  }

  /** Up to 16 slots, the addresses are 10.0.0.10 to 10.0.0.25, one per slot. */
  lemma YourAddrInRange(slot: nat, other: nat)
    requires slot < LeaseCount && other < LeaseCount
    ensures YourAddr(slot)[3] as nat == 10 + slot
    ensures slot != other ==> YourAddr(slot) != YourAddr(other)
  {
    SlotOctet(slot);
    SlotOctet(other);
  }

  /** Below 246 the u8 addition does not wrap: the last octet is 10 + slot. */
  lemma SlotOctet(slot: nat)
    requires slot < LeaseCount
    ensures YourAddr(slot)[3] as nat == 10 + slot
  {
    var k := (LeaseStart[3] as nat + slot) % 256;
    assert k == 10 + slot;
    assert k < 256;
  }

  /** The last octet is a u8: slot 246 would be given 10.0.0.0. */
  lemma YourAddrWraps()
    ensures YourAddr(246) == [10, 0, 0, 0]
  {
  }

  /** The first answer found for a tag in a concatenation comes from the first part if it has one. */
  lemma {:induction false} FirstDataAppend(a: seq<Entry>, b: seq<Entry>, tag: OptionTag)
    ensures FirstData(a + b, tag) == if FirstData(a, tag).Some? then FirstData(a, tag) else FirstData(b, tag)
    decreases |a|
  {
    if a == [] {
      assert a + b == b;
    } else {
      assert (a + b)[1..] == a[1..] + b;
      FirstDataAppend(a[1..], b, tag);
    }
  }

  /** A supported parameter is answered, with its value, exactly when it was requested. */
  lemma {:induction false} RequestedAnswered(params: seq<OptionTag>, tag: OptionTag)
    ensures FirstData(RequestedEntries(params), tag).Some? <==> ParamValue(tag).Some? && tag in params
    ensures FirstData(RequestedEntries(params), tag).Some? ==>
      FirstData(RequestedEntries(params), tag).value == ParamValue(tag).value
    decreases |params|
  {
    if params != [] {
      var init := params[..|params| - 1];
      var last := params[|params| - 1];
      RequestedAnswered(init, tag);
      FirstDataAppend(RequestedEntries(init), ParamEntry(last), tag);
      ParamEntryAnswers(last, tag);
      assert params == init + [last];
      assert tag in params <==> tag in init || tag == last;
    }
  }

  /** The answer to one parameter carries `tag` exactly when it is that supported parameter. */
  lemma ParamEntryAnswers(param: OptionTag, tag: OptionTag)
    ensures FirstData(ParamEntry(param), tag).Some? <==> ParamValue(tag).Some? && tag == param
    ensures FirstData(ParamEntry(param), tag).Some? ==> FirstData(ParamEntry(param), tag).value == ParamValue(tag).value
  {
    if ParamValue(param).Some? {
      assert ParamEntry(param)[1..] == [];
    }
  }

  /** The reply carries the message type, the server's address, the lease time, T1 and T2. */
  lemma FixedOptionsRoundTrip(mt: MsgType, params: seq<OptionTag>)
    ensures var opts := ReplyOptions(mt, params);
      && OptionValue(opts, DhcpMessageType, 1) == Some([mt.raw])
      && OptionValue(opts, ServerIdentifier, 4) == Some(LocalIp)
      && OptionValue(opts, IpAddressLeaseTime, 4) == Some(ToBigEndian(LeaseTimeSecs, 4))
      && OptionValue(opts, RenewalTimeT1, 4) == Some(ToBigEndian(RenewalTimeSecs, 4))
      && OptionValue(opts, RebindingTimeT2, 4) == Some(ToBigEndian(RebindingTimeSecs, 4))
  {
    FixedFound(mt, params, 0);
    FixedFound(mt, params, 1);
    FixedFound(mt, params, 2);
    FixedFound(mt, params, 3);
    FixedFound(mt, params, 4);
  }

  /** Each fixed entry is found in the reply options, with its data. */
  lemma FixedFound(mt: MsgType, params: seq<OptionTag>, i: nat)
    requires i < 5
    ensures var e := FixedEntries(mt)[i];
      OptionValue(ReplyOptions(mt, params), e.tag, |e.data|) == Some(e.data)
  {
    var e := FixedEntries(mt)[i];
    FixedFirstData(mt, i);
    FoundInReply(mt, params, e.tag, e.data);
  }

  /** What the first fixed entry with a tag holds is what the reply options give for it. */
  lemma FoundInReply(mt: MsgType, params: seq<OptionTag>, tag: OptionTag, data: seq<bv8>)
    requires FirstData(FixedEntries(mt), tag) == Some(data)
    ensures OptionValue(ReplyOptions(mt, params), tag, |data|) == Some(data)
  {
    FirstDataAppend(FixedEntries(mt), RequestedEntries(params), tag);
    FoundInOptions(ReplyEntries(mt, params), tag, data);
  }

  /** An entry that is the first with its tag is found, with its data, in the encoding followed by END. */
  lemma FoundInOptions(es: seq<Entry>, tag: OptionTag, data: seq<bv8>)
    requires AllWellFormed(es) && FirstData(es, tag) == Some(data)
    ensures OptionValue(Serialize(es) + [End.raw], tag, |data|) == Some(data)
  {
    var opts := Serialize(es) + [End.raw];
    assert opts[..|Serialize(es)| + 1] == opts;
    FindInTerminated(opts, es, tag);
    FoundValue(opts, tag, data);
  }

  /** A found option whose value is `data` is read back whole by OptionValue. */
  lemma FoundValue(opts: seq<bv8>, tag: OptionTag, data: seq<bv8>)
    requires FindOption(opts, tag).Some? && ValueOf(opts, FindOption(opts, tag).value) == data
    ensures OptionValue(opts, tag, |data|) == Some(data)
  {
    var v := FindOption(opts, tag).value;
    assert v.len == |data|;
    assert opts[v.offset..v.offset + v.len] == data;
  }

  /** The fixed entries have distinct tags: each is the first with its tag. */
  lemma FixedFirstData(mt: MsgType, i: nat)
    requires i < 5
    ensures FirstData(FixedEntries(mt), FixedEntries(mt)[i].tag) == Some(FixedEntries(mt)[i].data)
  {
    var f := FixedEntries(mt);
    var tag := f[i].tag;
    var f1 := f[1..];
    var f2 := f1[1..];
    var f3 := f2[1..];
    var f4 := f3[1..];
    assert f1[0] == f[1] && f2[0] == f[2] && f3[0] == f[3] && f4[0] == f[4];
    if i > 0 {
      assert FirstData(f, tag) == FirstData(f1, tag);
      if i > 1 {
        assert FirstData(f1, tag) == FirstData(f2, tag);
        if i > 2 {
          assert FirstData(f2, tag) == FirstData(f3, tag);
          if i > 3 {
            assert FirstData(f3, tag) == FirstData(f4, tag);
          }
        }
      }
    }
  }

  /** 28800, 14400 and 19200 in network order. */
  lemma LeaseTimeBytes()
    ensures ToBigEndian(LeaseTimeSecs, 4) == [0x00, 0x00, 0x70, 0x80]
    ensures ToBigEndian(RenewalTimeSecs, 4) == [0x00, 0x00, 0x38, 0x40]
    ensures ToBigEndian(RebindingTimeSecs, 4) == [0x00, 0x00, 0x4b, 0x00]
  {
  }

  /** No fixed entry carries a requested parameter. */
  lemma FixedHasNoParam(mt: MsgType, tag: OptionTag)
    requires ParamValue(tag).Some?
    ensures FirstData(FixedEntries(mt), tag) == None
  {
    var f := FixedEntries(mt);
    assert tag.raw in {1, 3, 6, 28};
    assert forall i :: 0 <= i < |f| ==> f[i].tag.raw in {51, 53, 54, 58, 59};
  }

  /** The scan of the reply's options finds, for every tag, what the first reply entry with that tag holds. */
  lemma ReplyFindsEntries(mt: MsgType, params: seq<OptionTag>, tag: OptionTag)
    ensures var opts := ReplyOptions(mt, params);
      var d := FirstData(ReplyEntries(mt, params), tag);
      && (FindOption(opts, tag).Some? <==> d.Some?)
      && (d.Some? ==> ValueOf(opts, FindOption(opts, tag).value) == d.value)
  {
    var es := ReplyEntries(mt, params);
    var opts := ReplyOptions(mt, params);
    assert opts[..|Serialize(es)| + 1] == Serialize(es) + [End.raw];
    FindInTerminated(opts, es, tag);
  }

  /** Among the reply's entries, a supported parameter is present, with the server's value, exactly when requested. */
  lemma ReplyEntriesAnswer(mt: MsgType, params: seq<OptionTag>, tag: OptionTag)
    requires ParamValue(tag).Some?
    ensures var d := FirstData(ReplyEntries(mt, params), tag);
      && (d.Some? <==> tag in params)
      && (d.Some? ==> d.value == ParamValue(tag).value)
  {
    FirstDataAppend(FixedEntries(mt), RequestedEntries(params), tag);
    FixedHasNoParam(mt, tag);
    RequestedAnswered(params, tag);
  }

  /** A supported parameter is in the reply, with the server's value, exactly when the client asked for it. */
  lemma RequestedOptionsRoundTrip(mt: MsgType, params: seq<OptionTag>, tag: OptionTag)
    requires ParamValue(tag).Some?
    ensures var opts := ReplyOptions(mt, params);
      && (FindOption(opts, tag).Some? <==> tag in params)
      && (tag in params ==> OptionValue(opts, tag, 4) == ParamValue(tag))
  {
    ReplyFindsEntries(mt, params, tag);
    ReplyEntriesAnswer(mt, params, tag);
    if tag in params {
      WholeValue(ReplyOptions(mt, params), tag, ParamValue(tag).value);
    }
  }

  /** Reading as many bytes as an option holds gives its whole value. */
  lemma WholeValue(opts: seq<bv8>, tag: OptionTag, a: seq<bv8>)
    requires FindOption(opts, tag).Some? && ValueOf(opts, FindOption(opts, tag).value) == a
    ensures OptionValue(opts, tag, |a|) == Some(a)
  {
    assert a[..|a|] == a;
  }

  /** The encoding of the fixed entries, byte by byte. */
  lemma FixedEntriesBytes(mt: MsgType)
    ensures Serialize(FixedEntries(mt)) ==
      [53, 1, mt.raw, 54, 4, 10, 0, 0, 2,
       51, 4, 0x00, 0x00, 0x70, 0x80,
       58, 4, 0x00, 0x00, 0x38, 0x40,
       59, 4, 0x00, 0x00, 0x4b, 0x00]
  {
    FixedEntriesConcat(mt);
    assert [58, 4, 0x00, 0x00, 0x38, 0x40] + [59, 4, 0x00, 0x00, 0x4b, 0x00] ==
      [58, 4, 0x00, 0x00, 0x38, 0x40, 59, 4, 0x00, 0x00, 0x4b, 0x00];
    assert [53, 1, mt.raw] + [54, 4, 10, 0, 0, 2] == [53, 1, mt.raw, 54, 4, 10, 0, 0, 2];
  }

  /** The encoding of the fixed entries is their five encodings back to back; 27 bytes in all. */
  lemma FixedEntriesConcat(mt: MsgType)
    ensures Serialize(FixedEntries(mt)) ==
      [53, 1, mt.raw] + [54, 4, 10, 0, 0, 2] + ([51, 4, 0x00, 0x00, 0x70, 0x80] +
      ([58, 4, 0x00, 0x00, 0x38, 0x40] + [59, 4, 0x00, 0x00, 0x4b, 0x00]))
    ensures |Serialize(FixedEntries(mt))| == 27
  {
    var f := FixedEntries(mt);
    FixedEntryBytes(mt);
    SerializeCons(f[4..]);
    assert f[4..][1..] == [];
    SerializeCons(f[3..]);
    assert f[3..][1..] == f[4..];
    SerializeCons(f[2..]);
    assert f[2..][1..] == f[3..];
    SerializeCons(f[1..]);
    assert f[1..][1..] == f[2..];
    SerializeCons(f);
  }

  /** The bytes of each fixed entry. */
  lemma FixedEntryBytes(mt: MsgType)
    ensures var f := FixedEntries(mt);
      && EntryBytes(f[0]) == [53, 1, mt.raw]
      && EntryBytes(f[1]) == [54, 4, 10, 0, 0, 2]
      && EntryBytes(f[2]) == [51, 4, 0x00, 0x00, 0x70, 0x80]
      && EntryBytes(f[3]) == [58, 4, 0x00, 0x00, 0x38, 0x40]
      && EntryBytes(f[4]) == [59, 4, 0x00, 0x00, 0x4b, 0x00]
  {
    LeaseTimeBytes();
  }

  /** The reply options begin with 53/1/type, 54/4/10.0.0.2, 51/4/28800, 58/4/14400, 59/4/19200. */
  lemma ReplyOptionsPrefix(mt: MsgType, params: seq<OptionTag>)
    ensures |ReplyOptions(mt, params)| >= 28
    ensures ReplyOptions(mt, params)[..27] ==
      [53, 1, mt.raw, 54, 4, 10, 0, 0, 2,
       51, 4, 0x00, 0x00, 0x70, 0x80,
       58, 4, 0x00, 0x00, 0x38, 0x40,
       59, 4, 0x00, 0x00, 0x4b, 0x00]
  {
    SerializeSplit(FixedEntries(mt), RequestedEntries(params));
    FixedEntriesBytes(mt);
  }

  /** The encoding of two lists of entries is the encoding of the first, then of the second. */
  lemma {:induction false} SerializeSplit(a: seq<Entry>, b: seq<Entry>)
    requires AllWellFormed(a) && AllWellFormed(b)
    ensures AllWellFormed(a + b)
    ensures Serialize(a + b) == Serialize(a) + Serialize(b)
    decreases |a|
  {
    var ab := a + b;
    assert forall i :: 0 <= i < |ab| ==> WellFormed(ab[i]) by {
      forall i | 0 <= i < |ab| ensures WellFormed(ab[i]) {
        if i < |a| { assert ab[i] == a[i]; } else { assert ab[i] == b[i - |a|]; }
      }
    }
    if a == [] {
      assert ab == b;
    } else {
      assert ab[1..] == a[1..] + b;
      assert ab[0] == a[0];
      SerializeSplit(a[1..], b);
      SerializeCons(ab);
      SerializeCons(a);
    }
  }

  /** The reply fits the options array of the message: at most 124 of its 308 bytes. */
  lemma ReplyFits(mt: MsgType, params: seq<OptionTag>)
    requires |params| <= MaxRequestedParams
    ensures |ReplyOptions(mt, params)| <= 28 + 6 * |params| <= OptionsCapacity
  {
    SerializeSplit(FixedEntries(mt), RequestedEntries(params));
    FixedEntriesConcat(mt);
    RequestedEntriesLength(params);
  }

  /** Each answered parameter takes six bytes. */
  lemma {:induction false} RequestedEntriesLength(params: seq<OptionTag>)
    ensures |Serialize(RequestedEntries(params))| <= 6 * |params|
    decreases |params|
  {
    if params != [] {
      var init := params[..|params| - 1];
      RequestedEntriesLength(init);
      SerializeSplit(RequestedEntries(init), ParamEntry(params[|params| - 1]));
    }
  }

  // -- Reading an option value without checking its length, as main.cc does.

  /**
   * opt.data[0] at line 160 and get_opt_val<IPAddress>(op.data) at line 212:
   * k bytes from the start of the found value, whatever its length, read
   * from the buffer `area` of which the options window is a prefix.
   */
  function ValueAsWritten(area: seq<bv8>, v: OptionView, k: nat): (r: seq<bv8>)
    requires v.offset + k <= |area|
    ensures |r| == k
    ensures k <= v.len && v.offset + v.len <= |area| ==> r == ValueOf(area, v)[..k]
  {
    if k <= v.len && v.offset + v.len <= |area| then
      SliceOfSlice(area, v.offset, v.offset + v.len, 0, k);
      assert ValueOf(area, v)[..k] == ValueOf(area, v)[0..k];
      area[v.offset..v.offset + k]
    else
      area[v.offset..v.offset + k]
  }

  /**
   * A zero-length server identifier followed by the bytes 10 0 0 2 is taken
   * as naming this server when read as written; OptionValue reports it absent.
   */
  lemma ShortServerIdAsWritten()
    ensures var opts: seq<bv8> := [53, 1, 3, 54, 0, 10, 0, 0, 2, 255];
      && FindOption(opts, ServerIdentifier) == Some(OptionView(5, 0))
      && ValueAsWritten(opts, OptionView(5, 0), 4) == LocalIp
      && OptionValue(opts, ServerIdentifier, 4) == None
      && !ServerIdMatches(opts)
  {
    var a: seq<bv8> := [53, 1, 3, 54, 0, 10, 0, 0, 2, 255];
    assert a[0] == 53 && a[1] == 1 && a[3] == 54 && a[4] == 0;
    assert OptionTag(a[0]) != ServerIdentifier && OptionTag(a[0]) != End;
    assert Scan(a, 0, ServerIdentifier) == Scan(a, 3, ServerIdentifier);
    assert OptionTag(a[3]) == ServerIdentifier;
    assert Scan(a, 3, ServerIdentifier) == Some(OptionView(5, 0));
    assert a[5..9] == LocalIp;
  }

  /**
   * A zero-length message type followed by the byte 1 is read as DISCOVER
   * when read as written; OptionValue reports it absent.
   */
  lemma ShortMessageTypeAsWritten()
    ensures var opts: seq<bv8> := [53, 0, 1, 0, 255];
      && FindOption(opts, DhcpMessageType) == Some(OptionView(2, 0))
      && MsgType(ValueAsWritten(opts, OptionView(2, 0), 1)[0]) == Discover
      && MessageTypeOf(opts) == None
  {
  }

  // -- Hashing hlen bytes of chaddr, as main.cc does.

  /** hash(msg.chaddr, msg.hlen) reads hlen bytes from chaddr on, past its 16 bytes when hlen > 16. */
  function KeyBytesAsWritten(req: seq<bv8>): (b: seq<bv8>)
    requires HlenOffset < |req| && ChaddrOffset + req[HlenOffset] as nat <= |req|
    ensures |b| == req[HlenOffset] as nat
    ensures OptionsOffset <= |req| && req[HlenOffset] as nat <= ChaddrLen ==> b == KeyBytes(req)
    ensures ChaddrLen < |b| ==> b[ChaddrLen..] == req[SnameOffset..ChaddrOffset + |b|]
  {
    req[ChaddrOffset..ChaddrOffset + req[HlenOffset] as nat]
  }

  /** With hlen = 17 the bytes hashed as written end with sname[0]; KeyBytes stays inside chaddr. */
  lemma HlenPastChaddr(req: seq<bv8>)
    requires MessageMinLen <= |req| && req[HlenOffset] == 17
    ensures |KeyBytesAsWritten(req)| == 17 > ChaddrLen
    ensures KeyBytesAsWritten(req)[16] == DecodeHeader(req).sname[0]
    ensures KeyBytes(req) == DecodeHeader(req).chaddr
  {
  }

  /** The client identity depends only on chaddr, hlen and the options, never on sname or file. */
  lemma ClientKeyIgnoresNames(req: seq<bv8>, other: seq<bv8>)
    requires OptionsOffset <= |req| && OptionsOffset <= |other|
    requires req[HlenOffset] == other[HlenOffset]
    requires DecodeHeader(req).chaddr == DecodeHeader(other).chaddr
    requires OptionArea(req) == OptionArea(other)
    ensures ClientKey(req) == ClientKey(other)
  {
  }
}
