/**
 * src/main.cc: handle_dhcp_message as the source runs it, in place on the
 * message buffer and the lease table, and the size gate of loop() in front
 * of it. Each method is proved to do what ServerSpec says.
 */
module Server {
  import opened Wrappers
  import opened Utils
  import opened Dhcp
  import opened Options
  import opened LeaseDatabase
  import opened ServerSpec

  /** get_opt_val<IPAddress>: the four octets at `at`, in order. */
  method GetIpv4(data: array<bv8>, at: nat) returns (addr: IPv4)
    requires at + 4 <= data.Length
    ensures addr == data[at..at + 4]
  {
    addr := [data[at], data[at + 1], data[at + 2], data[at + 3]];
  }

  /** put_opt_val<IPAddress>: writes the four octets at `at`, returns the advanced cursor. */
  method PutIpv4(data: array<bv8>, at: nat, addr: IPv4) returns (next: nat)
    requires at + 4 <= data.Length
    modifies data
    ensures next == at + 4
    ensures data[at..next] == addr
    ensures forall j :: 0 <= j < data.Length && !(at <= j < next) ==> data[j] == old(data[j])
  {
    data[at] := addr[0];
    data[at + 1] := addr[1];
    data[at + 2] := addr[2];
    data[at + 3] := addr[3];
    next := at + 4;
  }

  /** *optp++ = tag; *optp++ = 4; optp = put_opt_val(optp, addr). */
  method PutAddrOption(data: array<bv8>, at: nat, tag: OptionTag, addr: IPv4) returns (next: nat)
    requires at + 6 <= data.Length && tag != End
    modifies data
    ensures next == at + 6
    ensures data[at..next] == EntryBytes(AddrEntry(tag, addr))
    ensures forall j :: 0 <= j < data.Length && !(at <= j < next) ==> data[j] == old(data[j])
  {
    data[at] := tag.raw;
    data[at + 1] := 4;
    next := PutIpv4(data, at + 2, addr);
  }

  /** *optp++ = tag; *optp++ = 4; optp = put_opt_val(optp, v) for a u32 v. */
  method PutU32Option(data: array<bv8>, at: nat, tag: OptionTag, v: bv32) returns (next: nat)
    requires at + 6 <= data.Length && tag != End
    modifies data
    ensures next == at + 6
    ensures data[at..next] == EntryBytes(U32Entry(tag, v))
    ensures forall j :: 0 <= j < data.Length && !(at <= j < next) ==> data[j] == old(data[j])
  {
    data[at] := tag.raw;
    data[at + 1] := 4;
    next := PutOptVal(data, at + 2, v, 4);
  }

  /** The reply header depends only on the first 240 bytes of the request. */
  lemma ReplyHeaderReadsHeader(a: seq<bv8>, b: seq<bv8>, slot: nat)
    requires OptionsOffset <= |a| && OptionsOffset <= |b| && a[..OptionsOffset] == b[..OptionsOffset]
    ensures ReplyHeader(a, slot) == ReplyHeader(b, slot)
  {
    assert forall i :: 0 <= i < OptionsOffset ==> a[i] == b[i];
  }

  /** msg.op = BOOTREPLY; msg.hops = 0; msg.secs = 0; msg.ciaddr = 0. */
  method ClearReplyFields(msg: array<bv8>)
    requires OptionsOffset <= msg.Length
    modifies msg
    ensures forall i :: 0 <= i < msg.Length ==> (msg[i] ==
      if i == OpOffset then BootReply.raw
      else if i == HopsOffset || SecsOffset <= i < FlagsOffset || CiaddrOffset <= i < YiaddrOffset then 0
      else old(msg[i]))
  {
    msg[OpOffset] := BootReply.raw;
    msg[HopsOffset] := 0;
    msg[SecsOffset] := 0;
    msg[SecsOffset + 1] := 0;
    msg[CiaddrOffset] := 0;
    msg[CiaddrOffset + 1] := 0;
    msg[CiaddrOffset + 2] := 0;
    msg[CiaddrOffset + 3] := 0;
  }

  /** The header rewrite of handle_dhcp_message, for lease index `leaseId`. */
  method WriteReplyHeader(msg: array<bv8>, leaseId: nat)
    requires OptionsOffset <= msg.Length
    modifies msg
    ensures msg[..OptionsOffset] == ReplyHeader(old(msg[..]), leaseId)
    ensures msg[OptionsOffset..] == old(msg[OptionsOffset..])
  {
    ghost var req := msg[..];
    // client_addr[3] = client_addr[3] + lease_id, on a u8.
    var clientAddr := LeaseStart;
    clientAddr := clientAddr[3 := ((clientAddr[3] as nat + leaseId) % 256) as bv8];
    assert clientAddr == YourAddr(leaseId);
    ClearReplyFields(msg);
    ghost var cleared := msg[..];
    var _ := PutIpv4(msg, YiaddrOffset, clientAddr);
    ghost var placed := msg[..];
    var _ := PutIpv4(msg, SiaddrOffset, LocalIp);
    forall i | 0 <= i < OptionsOffset
      ensures msg[i] == ReplyHeader(req, leaseId)[i]
    {
      if YiaddrOffset <= i < SiaddrOffset {
        assert msg[i] == placed[i] == msg[YiaddrOffset..SiaddrOffset][i - YiaddrOffset];
      } else if SiaddrOffset <= i < GiaddrOffset {
        assert msg[i] == msg[SiaddrOffset..GiaddrOffset][i - SiaddrOffset];
      } else {
        assert msg[i] == placed[i] == cleared[i];
      }
    }
    forall i | OptionsOffset <= i < msg.Length
      ensures msg[i] == req[i]
    {
      assert msg[i] == placed[i] == cleared[i];
    }
    assert msg[OptionsOffset..] == req[OptionsOffset..];
  }

  /** The bytes of one more entry, written after a serialized run of entries, extend the run. */
  lemma WroteEntry(buf: seq<bv8>, lo: nat, mid: nat, hi: nat, es: seq<Entry>, e: Entry, extended: seq<Entry>)
    requires lo <= mid <= hi <= |buf|
    requires AllWellFormed(es) && WellFormed(e) && extended == es + [e]
    requires buf[lo..mid] == Serialize(es) && buf[mid..hi] == EntryBytes(e)
    ensures AllWellFormed(extended)
    ensures buf[lo..hi] == Serialize(extended)
  {
    SliceSplit(buf, lo, mid, hi);
    SerializeAppend(es, e);
  }

  /** The bytes of more entries, written after a serialized run of entries, extend the run. */
  lemma WroteEntries(buf: seq<bv8>, lo: nat, mid: nat, hi: nat, es: seq<Entry>, more: seq<Entry>)
    requires lo <= mid <= hi <= |buf|
    requires AllWellFormed(es) && AllWellFormed(more)
    requires buf[lo..mid] == Serialize(es) && buf[mid..hi] == Serialize(more)
    ensures AllWellFormed(es + more)
    ensures buf[lo..hi] == Serialize(es + more)
  {
    SliceSplit(buf, lo, mid, hi);
    SerializeSplit(es, more);
  }

  /** The switch over one requested parameter: a supported one is answered with its address, any other skipped. */
  method PutRequestedOption(msg: array<bv8>, at: nat, opt: OptionTag) returns (next: nat)
    requires at + 6 <= msg.Length
    modifies msg
    ensures at <= next <= at + 6
    ensures AllWellFormed(ParamEntry(opt)) && msg[at..next] == Serialize(ParamEntry(opt))
    ensures forall j :: 0 <= j < msg.Length && !(at <= j < next) ==> msg[j] == old(msg[j])
  {
    if opt == SubnetMask {
      next := PutAddrOption(msg, at, opt, Subnet);
    } else if opt == Router {
      next := PutAddrOption(msg, at, opt, Gateway);
    } else if opt == Dns {
      next := PutAddrOption(msg, at, opt, Dns1);
    } else if opt == BroadcastAddr {
      next := PutAddrOption(msg, at, opt, Broadcast);
    } else {
      next := at;
      return;
    }
    SerializeCons(ParamEntry(opt));
    assert ParamEntry(opt)[1..] == [];
  }

  /** One turn of the loop over the requested parameters: the answer to `opt` follows the entries `es` written so far. */
  method AppendAnswer(msg: array<bv8>, optp: nat, opt: OptionTag, ghost es: seq<Entry>) returns (next: nat)
    requires OptionsOffset <= optp && optp + 6 <= msg.Length
    requires AllWellFormed(es) && msg[OptionsOffset..optp] == Serialize(es)
    modifies msg
    ensures optp <= next <= optp + 6
    ensures AllWellFormed(es + ParamEntry(opt)) && msg[OptionsOffset..next] == Serialize(es + ParamEntry(opt))
    ensures msg[..OptionsOffset] == old(msg[..OptionsOffset])
  {
    ghost var done := msg[OptionsOffset..optp];
    next := PutRequestedOption(msg, optp, opt);
    assert msg[OptionsOffset..optp] == done;
    WroteEntries(msg[..], OptionsOffset, optp, next, es, ParamEntry(opt));
  }

  /** The five options every reply starts with: message type, server identifier, lease time, T1, T2. */
  method PutFixedOptions(msg: array<bv8>, resp: MsgType) returns (optp: nat)
    requires MessageSize <= msg.Length
    modifies msg
    ensures optp == OptionsOffset + 27
    ensures msg[OptionsOffset..optp] == Serialize(FixedEntries(resp))
    ensures msg[..OptionsOffset] == old(msg[..OptionsOffset])
  {
    ghost var f := FixedEntries(resp);
    ghost var header := msg[..OptionsOffset];
    optp := OptionsOffset;
    msg[optp] := DhcpMessageType.raw;
    msg[optp + 1] := 1;
    msg[optp + 2] := resp.raw;
    optp := optp + 3;
    assert msg[..][OptionsOffset..optp] == EntryBytes(f[0]);
    WroteEntry(msg[..], OptionsOffset, OptionsOffset, optp, [], f[0], f[..1]);

    ghost var start := optp;
    ghost var done := msg[OptionsOffset..optp];
    optp := PutAddrOption(msg, optp, ServerIdentifier, LocalIp);
    assert msg[OptionsOffset..start] == done;
    WroteEntry(msg[..], OptionsOffset, start, optp, f[..1], f[1], f[..2]);

    start := optp;
    done := msg[OptionsOffset..optp];
    optp := PutU32Option(msg, optp, IpAddressLeaseTime, LeaseTimeSecs);
    assert msg[OptionsOffset..start] == done;
    WroteEntry(msg[..], OptionsOffset, start, optp, f[..2], f[2], f[..3]);

    start := optp;
    done := msg[OptionsOffset..optp];
    optp := PutU32Option(msg, optp, RenewalTimeT1, RenewalTimeSecs);
    assert msg[OptionsOffset..start] == done;
    WroteEntry(msg[..], OptionsOffset, start, optp, f[..3], f[3], f[..4]);

    start := optp;
    done := msg[OptionsOffset..optp];
    optp := PutU32Option(msg, optp, RebindingTimeT2, RebindingTimeSecs);
    assert msg[OptionsOffset..start] == done;
    WroteEntry(msg[..], OptionsOffset, start, optp, f[..4], f[4], f);
    assert msg[..OptionsOffset] == header;
  }

  /** The options the reply is given, written from the start of the options area; returns the end. */
  method WriteReplyOptions(msg: array<bv8>, resp: MsgType, requested: array<OptionTag>, n: nat)
      returns (optp: nat)
    requires MessageSize <= msg.Length && msg as object != requested
    requires n <= requested.Length && n <= MaxRequestedParams
    modifies msg
    ensures OptionsOffset < optp <= msg.Length
    ensures msg[OptionsOffset..optp] == ReplyOptions(resp, requested[..n])
    ensures msg[..OptionsOffset] == old(msg[..OptionsOffset])
  {
    ghost var params := requested[..n];
    ghost var fixed := FixedEntries(resp);
    ghost var header := msg[..OptionsOffset];
    optp := PutFixedOptions(msg, resp);
    assert params[..0] == [];
    assert fixed + RequestedEntries(params[..0]) == fixed;
    for i := 0 to n
      invariant OptionsOffset + 27 <= optp <= OptionsOffset + 27 + 6 * i
      invariant AllWellFormed(fixed + RequestedEntries(params[..i]))
      invariant msg[OptionsOffset..optp] == Serialize(fixed + RequestedEntries(params[..i]))
      invariant msg[..OptionsOffset] == header
    {
      ghost var answered := fixed + RequestedEntries(params[..i]);
      RequestedStep(params, i);
      assert fixed + RequestedEntries(params[..i + 1]) == answered + ParamEntry(params[i]);
      assert requested[i] == params[i];
      optp := AppendAnswer(msg, optp, requested[i], answered);
    }
    assert params[..n] == params;
    optp := PutEnd(msg, optp, ReplyEntries(resp, params));
    assert requested[..n] == params;
  }

  /** *optp++ = END, after the encoded entries `es`. */
  method PutEnd(msg: array<bv8>, optp: nat, ghost es: seq<Entry>) returns (next: nat)
    requires OptionsOffset <= optp < msg.Length
    requires AllWellFormed(es) && msg[OptionsOffset..optp] == Serialize(es)
    modifies msg
    ensures next == optp + 1
    ensures msg[OptionsOffset..next] == Serialize(es) + [End.raw]
    ensures msg[..OptionsOffset] == old(msg[..OptionsOffset])
  {
    ghost var body := msg[OptionsOffset..optp];
    msg[optp] := End.raw;
    next := optp + 1;
    assert msg[OptionsOffset..next] == body + [End.raw];
  }

  /** One more requested parameter adds its answer, if any, at the end. */
  lemma RequestedStep(params: seq<OptionTag>, i: nat)
    requires i < |params|
    ensures RequestedEntries(params[..i + 1]) == RequestedEntries(params[..i]) + ParamEntry(params[i])
  {
    assert params[..i + 1][..i] == params[..i];
  }

  /** The client key: the hash of the CLIENT_ID option if present, else of chaddr. */
  method ClientHash(msg: array<bv8>, len: nat) returns (clientHash: bv32)
    requires OptionsOffset <= len <= msg.Length
    ensures clientHash == ClientKey(msg[..len])
  {
    var clientId := GetOption(msg, OptionsOffset, len - OptionsOffset, ClientId);
    if clientId.Some? {
      clientHash := HashClientId(msg, len, clientId.value);
    } else {
      clientHash := HashChaddr(msg, len);
    }
  }

  /** The hash of option 61's value, read in place. */
  method HashClientId(msg: array<bv8>, len: nat, v: OptionView) returns (clientHash: bv32)
    requires OptionsOffset <= len <= msg.Length
    requires FindOption(msg[OptionsOffset..len], ClientId) == Some(v)
    ensures clientHash == ClientKey(msg[..len])
  {
    ghost var s := msg[..];
    KeyFromClientId(s, len, v);
    clientHash := HashBytes(msg, OptionsOffset + v.offset, v.len);
    assert msg[..] == s;
  }

  /** The hash of the first min(hlen, 16) bytes of chaddr, read in place. */
  method HashChaddr(msg: array<bv8>, len: nat) returns (clientHash: bv32)
    requires OptionsOffset <= len <= msg.Length
    requires FindOption(msg[OptionsOffset..len], ClientId).None?
    ensures clientHash == ClientKey(msg[..len])
  {
    ghost var s := msg[..];
    KeyFromChaddr(s, len);
    var hlen := msg[HlenOffset] as nat;
    clientHash := HashBytes(msg, ChaddrOffset, if hlen < ChaddrLen then hlen else ChaddrLen);
    assert msg[..] == s;
  }

  /** With option 61 present, the client key is the hash of its value, read in place. */
  lemma KeyFromClientId(s: seq<bv8>, len: nat, v: OptionView)
    requires OptionsOffset <= len <= |s|
    requires FindOption(s[OptionsOffset..len], ClientId) == Some(v)
    ensures OptionsOffset + v.offset + v.len <= len
    ensures ClientKey(s[..len]) == Hash(s[OptionsOffset + v.offset..OptionsOffset + v.offset + v.len])
  {
    assert OptionArea(s[..len]) == s[OptionsOffset..len];
    SliceOfSlice(s, OptionsOffset, len, v.offset, v.offset + v.len);
  }

  /** Without option 61, the client key is the hash of the first min(hlen, 16) bytes of chaddr. */
  lemma KeyFromChaddr(s: seq<bv8>, len: nat)
    requires OptionsOffset <= len <= |s|
    requires FindOption(s[OptionsOffset..len], ClientId).None?
    ensures ClientKey(s[..len]) ==
      Hash(s[ChaddrOffset..ChaddrOffset + (if s[HlenOffset] as nat < ChaddrLen then s[HlenOffset] as nat else ChaddrLen)])
  {
    assert OptionArea(s[..len]) == s[OptionsOffset..len];
    var n := if s[HlenOffset] as nat < ChaddrLen then s[HlenOffset] as nat else ChaddrLen;
    SliceOfSlice(s, 0, len, ChaddrOffset, ChaddrOffset + n);
    assert s[..len] == s[0..len];
  }

  /** The PARAMETER_REQUEST_LIST codes, at most 16, copied into requested_param. */
  method RequestedParamList(msg: array<bv8>, len: nat) returns (requested: array<OptionTag>, n: nat)
    requires OptionsOffset <= len <= msg.Length
    ensures fresh(requested) && requested.Length == MaxRequestedParams
    ensures n <= MaxRequestedParams
    ensures requested[..n] == RequestedParams(msg[OptionsOffset..len])
  {
    requested := new OptionTag[MaxRequestedParams](_ => Pad);
    n := 0;
    var opt := GetOption(msg, OptionsOffset, len - OptionsOffset, ParameterRequestList);
    if opt.Some? {
      n := CopyParams(msg, len, opt.value, requested);
    }
  }

  /** The loop over option 55's value: its first min(len, 16) bytes, as tags, into requested. */
  method CopyParams(msg: array<bv8>, len: nat, v: OptionView, requested: array<OptionTag>) returns (n: nat)
    requires OptionsOffset <= len <= msg.Length && requested.Length == MaxRequestedParams
    requires FindOption(msg[OptionsOffset..len], ParameterRequestList) == Some(v)
    modifies requested
    ensures n <= MaxRequestedParams
    ensures requested[..n] == RequestedParams(msg[OptionsOffset..len])
  {
    ghost var opts := msg[OptionsOffset..len];
    ghost var params := RequestedParams(opts);
    n := if v.len > MaxRequestedParams then MaxRequestedParams else v.len;
    for i := 0 to n
      invariant forall k :: 0 <= k < i ==> requested[k] == params[k]
    {
      ParamAt(opts, v, i);
      assert opts[v.offset + i] == msg[OptionsOffset + v.offset + i];
      requested[i] := OptionTag(msg[OptionsOffset + v.offset + i]);
    }
    assert requested[..n] == params;
  }

  /** The k-th requested parameter is the k-th byte of option 55's value. */
  lemma ParamAt(opts: seq<bv8>, v: OptionView, k: nat)
    requires FindOption(opts, ParameterRequestList) == Some(v)
    requires k < |RequestedParams(opts)|
    ensures v.offset + k < |opts|
    ensures RequestedParams(opts)[k] == OptionTag(opts[v.offset + k])
  {
    assert RequestedParams(opts)[k].raw == opts[v.offset + k];
  }

  /** The DHCP_MESSAGE_TYPE option's first byte, or none when the option is missing or empty. */
  method MessageType(msg: array<bv8>, len: nat) returns (msgType: Option<MsgType>)
    requires OptionsOffset <= len <= msg.Length
    ensures msgType == MessageTypeOf(msg[OptionsOffset..len])
  {
    ghost var opts := msg[OptionsOffset..len];
    var opt := GetOption(msg, OptionsOffset, len - OptionsOffset, DhcpMessageType);
    if opt.None? || opt.value.len < 1 {
      return None;
    }
    assert opts[opt.value.offset] == msg[OptionsOffset + opt.value.offset];
    msgType := Some(MsgType(msg[OptionsOffset + opt.value.offset]));
  }

  /** The SERVER_IDENTIFIER option names LOCAL_IP; false when it is missing or shorter than an address. */
  method ServerIdentified(msg: array<bv8>, len: nat) returns (ours: bool)
    requires OptionsOffset <= len <= msg.Length
    ensures ours == ServerIdMatches(msg[OptionsOffset..len])
  {
    ghost var opts := msg[OptionsOffset..len];
    var opt := GetOption(msg, OptionsOffset, len - OptionsOffset, ServerIdentifier);
    if opt.None? || opt.value.len < 4 {
      return false;
    }
    var serverId := GetIpv4(msg, OptionsOffset + opt.value.offset);
    SliceOfSlice(msg[..], OptionsOffset, len, opt.value.offset, opt.value.offset + 4);
    assert serverId == opts[opt.value.offset..opt.value.offset + 4];
    ours := serverId == LocalIp;
  }

  /** DHCP_DISCOVER: the client's slot, or a new one reserved for a short time. */
  method Discovered(db: LeaseDb, clientHash: bv32, now: nat) returns (leaseId: Option<nat>)
    requires db.Valid()
    modifies db.leases
    ensures db.Valid()
    ensures var flushed := old(db.leases[..]);
      && (Lookup(flushed, clientHash).Some? ==> leaseId == Lookup(flushed, clientHash) && db.leases[..] == flushed)
      && (Lookup(flushed, clientHash).None? ==>
            leaseId == NewLeaseSlot(flushed, clientHash)
            && db.leases[..] == Allocated(flushed, clientHash, now + ProvisionalSecs))
  {
    var lease := db.GetLease(clientHash);
    if lease.Some? {
      // The client already holds a slot: offer it again.
      return lease;
    }
    // A new client: reserve the lowest free slot for 15 s.
    leaseId := db.NewLease(clientHash, now + ProvisionalSecs);
  }

  /** DHCP_REQUEST: when it names this server and the client holds a slot, the lease is renewed. */
  method Requested(db: LeaseDb, msg: array<bv8>, len: nat, clientHash: bv32, now: nat) returns (leaseId: Option<nat>)
    requires db.Valid() && msg as object != db.leases
    requires OptionsOffset <= len <= msg.Length
    modifies db.leases
    ensures db.Valid()
    ensures var flushed := old(db.leases[..]);
      && (!ServerIdMatches(msg[OptionsOffset..len]) ==> leaseId == None && db.leases[..] == flushed)
      && (ServerIdMatches(msg[OptionsOffset..len]) ==>
            leaseId == Lookup(flushed, clientHash) && db.leases[..] == Renewed(flushed, clientHash, now + LeaseTime()))
  {
    ghost var flushed := db.leases[..];
    var ours := ServerIdentified(msg, len);
    if !ours {
      return None;
    }
    leaseId := db.GetLease(clientHash);
    if leaseId.None? {
      return;
    }
    var _ := db.UpdateLease(clientHash, now + LeaseTime());
  }

  /**
   * The switch on the message type: the reply type and the lease index, or
   * none when the message is dropped. The table is already flushed.
   */
  method Dispatch(db: LeaseDb, msg: array<bv8>, len: nat, msgType: MsgType, clientHash: bv32, now: nat)
      returns (answer: Option<(MsgType, nat)>)
    requires db.Valid() && msg as object != db.leases
    requires OptionsOffset <= len <= msg.Length
    modifies db.leases
    ensures db.Valid()
    ensures var d := Decide(msg[OptionsOffset..len], msgType, clientHash, now, old(db.leases[..]));
      && db.leases[..] == d.table
      && (answer.Some? <==> d.Answer?)
      && (answer.Some? ==> answer.value == (d.resp, d.slot))
  {
    if msgType == Discover {
      var leaseId := Discovered(db, clientHash, now);
      answer := if leaseId.Some? then Some((Offer, leaseId.value)) else None;
    } else if msgType == Request {
      var leaseId := Requested(db, msg, len, clientHash, now);
      answer := if leaseId.Some? then Some((Ack, leaseId.value)) else None;
    } else {
      answer := None;
    }
  }

  /** Crafts the reply in place: the header rewrite, then the options; returns the length to send. */
  method WriteReply(msg: array<bv8>, resp: MsgType, leaseId: nat, requested: array<OptionTag>, n: nat)
      returns (optp: nat)
    requires msg.Length == MessageSize && msg as object != requested
    requires n <= requested.Length && n <= MaxRequestedParams
    modifies msg
    ensures optp <= msg.Length
    ensures msg[..optp] == Reply(old(msg[..]), resp, leaseId, requested[..n])
  {
    WriteReplyHeader(msg, leaseId);
    ghost var header := msg[..OptionsOffset];
    optp := WriteReplyOptions(msg, resp, requested, n);
    assert msg[..optp] == msg[..OptionsOffset] + msg[OptionsOffset..optp];
  }

  /**
   * handle_dhcp_message(msg, len): msg is the whole struct, of which the
   * first len bytes were received. Returns the number of bytes to send from
   * the start of msg, or none when nothing is sent.
   */
  method HandleDhcpMessage(db: LeaseDb, msg: array<bv8>, len: nat, now: nat) returns (sent: Option<nat>)
    requires db.Valid() && msg as object != db.leases
    requires msg.Length == MessageSize && MessageMinLen <= len < MessageSize
    modifies msg, db.leases
    ensures db.Valid()
    ensures db.leases[..] == Handle(old(msg[..len]), now, old(db.leases[..])).table
    ensures sent.Some? <==> Handle(old(msg[..len]), now, old(db.leases[..])).reply.Some?
    ensures sent.Some? ==>
      sent.value <= msg.Length && msg[..sent.value] == Handle(old(msg[..len]), now, old(db.leases[..])).reply.value
    ensures sent.None? ==> msg[..] == old(msg[..])
  {
    ghost var req := msg[..len];
    ghost var opts := msg[OptionsOffset..len];
    assert OptionArea(req) == opts;

    // Only a BOOTREQUEST with the magic cookie is handled.
    var cookie := HostU32(msg[CookieOffset..OptionsOffset]);
    CookieOnTheWire(msg[CookieOffset..OptionsOffset]);
    assert req[CookieOffset..OptionsOffset] == msg[CookieOffset..OptionsOffset];
    if Operation(msg[OpOffset]) != BootRequest || cookie != OptionCookie {
      return None;
    }

    // Without option 53 the message is dropped.
    var msgType := MessageType(msg, len);
    if msgType.None? {
      return None;
    }

    sent := HandleTypedMessage(db, msg, len, now, msgType.value);
  }

  /** The part of handle_dhcp_message after the message type is known. */
  method HandleTypedMessage(db: LeaseDb, msg: array<bv8>, len: nat, now: nat, msgType: MsgType)
      returns (sent: Option<nat>)
    requires db.Valid() && msg as object != db.leases
    requires msg.Length == MessageSize && OptionsOffset <= len < MessageSize
    modifies msg, db.leases
    ensures db.Valid()
    ensures var out := Respond(old(msg[..len]), msgType, now, old(db.leases[..]));
      && db.leases[..] == out.table
      && (sent.Some? <==> out.reply.Some?)
      && (sent.Some? ==> sent.value <= msg.Length && msg[..sent.value] == out.reply.value)
    ensures sent.None? ==> msg[..] == old(msg[..])
  {
    ghost var req := msg[..len];
    assert OptionArea(req) == msg[OptionsOffset..len];

    // Free every slot whose lease has ended.
    db.FlushExpired(now);

    var clientHash := ClientHash(msg, len);
    var requested, nrequested := RequestedParamList(msg, len);
    sent := AnswerMessage(db, msg, len, now, msgType, clientHash, requested, nrequested);
  }

  /** The switch on the message type and, when it answers, the reply written into msg. */
  method AnswerMessage(db: LeaseDb, msg: array<bv8>, len: nat, now: nat, msgType: MsgType,
                       clientHash: bv32, requested: array<OptionTag>, n: nat)
      returns (sent: Option<nat>)
    requires db.Valid() && msg as object != db.leases && msg as object != requested
    requires msg.Length == MessageSize && OptionsOffset <= len < MessageSize
    requires n <= requested.Length && n <= MaxRequestedParams
    modifies msg, db.leases
    ensures db.Valid()
    ensures var d := Decide(old(msg[OptionsOffset..len]), msgType, clientHash, now, old(db.leases[..]));
      && db.leases[..] == d.table
      && (sent.Some? <==> d.Answer?)
      && (sent.Some? ==> sent.value <= msg.Length
                         && msg[..sent.value] == Reply(old(msg[..len]), d.resp, d.slot, requested[..n]))
    ensures sent.None? ==> msg[..] == old(msg[..])
  {
    var answer := Dispatch(db, msg, len, msgType, clientHash, now);
    if answer.None? {
      return None;
    }
    var (resp, leaseId) := answer.value;

    // Write the reply over the request.
    ghost var whole := msg[..];
    ghost var req := msg[..len];
    var optp := WriteReply(msg, resp, leaseId, requested, n);
    ReplyHeaderReadsHeader(whole, req, leaseId);
    return Some(optp);
  }

  /** UDP.read into the receive buffer: the datagram's bytes at its start, the rest kept. */
  method ReadDatagram(buffer: array<bv8>, datagram: seq<bv8>)
    requires |datagram| <= buffer.Length
    modifies buffer
    ensures buffer[..|datagram|] == datagram
    ensures buffer[|datagram|..] == old(buffer[|datagram|..])
  {
    forall i | 0 <= i < |datagram| {
      buffer[i] := datagram[i];
    }
  }

  /** The memcpy type pun: a fresh message holding the first sizeof(dhcp_message) bytes of the buffer. */
  method CopyMessage(buffer: array<bv8>) returns (msg: array<bv8>)
    requires MessageSize <= buffer.Length
    ensures fresh(msg) && msg.Length == MessageSize
    ensures msg[..] == buffer[..MessageSize]
  {
    msg := new bv8[MessageSize];
    forall i | 0 <= i < MessageSize {
      msg[i] := buffer[i];
    }
  }

  /**
   * loop(): a datagram of an accepted size is read into the receive buffer,
   * the message struct is copied out of it, and handled; the bytes sent, if
   * any, are returned. Bytes of the buffer past the datagram are whatever an
   * earlier datagram left there.
   */
  method Receive(db: LeaseDb, buffer: array<bv8>, datagram: seq<bv8>, now: nat) returns (reply: Option<seq<bv8>>)
    requires db.Valid() && db.leases.Length == LeaseCount
    requires buffer.Length == MessageLen && buffer as object != db.leases
    modifies buffer, db.leases
    ensures db.Valid()
    ensures reply == Serve(datagram, now, old(db.leases[..])).reply
    ensures db.leases[..] == Serve(datagram, now, old(db.leases[..])).table
    ensures MessageMinLen <= |datagram| < MessageSize ==>
      buffer[..|datagram|] == datagram && buffer[|datagram|..] == old(buffer[|datagram|..])
    ensures !(MessageMinLen <= |datagram| < MessageSize) ==> buffer[..] == old(buffer[..])
  {
    ghost var table := db.leases[..];
    if MessageMinLen <= |datagram| < MessageSize {
      ReadDatagram(buffer, datagram);
      var msg := CopyMessage(buffer);
      assert msg[..|datagram|] == buffer[..MessageSize][..|datagram|] == buffer[..|datagram|] == datagram;
      assert db.leases[..] == table;
      ghost var out := Handle(datagram, now, table);
      assert Serve(datagram, now, table) == out;
      var sent := HandleDhcpMessage(db, msg, |datagram|, now);
      assert db.leases[..] == out.table;
      if sent.Some? {
        reply := Some(msg[..sent.value]);
      } else {
        reply := None;
      }
      assert reply == out.reply;
    } else {
      reply := None;
    }
  }
}
