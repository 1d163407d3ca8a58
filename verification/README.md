# A verified model of an ESP8266 DHCP server

This project models the protocol engine of a small DHCP server for the
ESP8266 in Dafny. It covers:

- the DHCP message layout and its constants;
- the big-endian value codec `get_opt_val` / `put_opt_val`;
- the option (tag/length/value) scanner `get_option`;
- the client identity hash and the enum casts;
- the fixed-capacity lease table `lease_db<LEASES>`;
- `handle_dhcp_message`, which answers DISCOVER with OFFER and REQUEST with
  ACK, together with the size gate of `loop()` in front of it.

The model has two layers. The lower layer states what the source computes,
as pure functions over byte sequences and slot sequences:

- `Options.FindOption` for the option scan;
- `LeaseDatabase.Lookup`, `NewLeaseSlot`, `Allocated`, `Renewed`, `Flush`
  and `Active` for the lease table;
- `ServerSpec.Handle` and `ServerSpec.Serve` for one received datagram.

Where the source reads an option value or `chaddr` without checking its
length, these functions use the checked read instead (see "Left out"); the
unchecked reads are modelled separately, under "Findings". Lemmas state the
properties of that lower layer. The upper layer is the
source's own imperative code:

- the cursor loops as `while`/`for` loops over arrays;
- the lease table as class `LeaseDb` over an `array<Lease>`, updated in
  place;
- the handler as a method that rewrites the message buffer in place and
  mutates the table.

Each imperative method is proved to compute what the corresponding
function says. The message buffer is a byte array with the field offsets
of `struct dhcp_message`. `IPAddress` is its four octets. The enums are
single-field datatypes over `bv8`. The time `now` is a parameter.

Modules:

| module | file | models |
|---|---|---|
| Wrappers | wrappers.dfy | `std::optional` |
| Utils | utils.dfy | lib/dhcp/utils.h (`hash`) |
| Dhcp | dhcp.dfy | lib/dhcp/dhcp.h (layout, constants, enums, `from_raw`/`into_raw`, codec) |
| Options | options.dfy | lib/dhcp/dhcp.cc (`get_option`) |
| LeaseDatabase | lease_db.dfy | lib/dhcp/lease_db.h |
| ServerSpec | server_spec.dfy | src/main.cc as functions of (message, time, table) |
| Server | server.dfy | src/main.cc as in-place methods |

### Where this model follows the code rather than the documentation

- **Size gate.** `loop()` accepts datagrams of 243 up to but excluding
  `sizeof(dhcp_message)` = 548 bytes, not 576 (`DHCP_MESSAGE_LEN`).
- **T2.** The rebinding time T2 the server announces is 8/12 of the lease,
  which is 19200 s. Section 4.4.5 of RFC 2131 suggests 0.875 of the lease.
- **PAD.** PAD (0) is scanned like any other tag, so it consumes a length
  byte. Section 3.1 of RFC 2132 makes PAD a single byte.

## Model

| member | source | states |
|---|---|---|
| Utils.RotR7IsRotation | lib/dhcp/utils.h:28 | `(h << 25) \| (h >> 7)` is rotation right by 7, and rotating left by 7 undoes it |
| Utils.FoldAppend | lib/dhcp/utils.h:27-29 | one more byte applies exactly one more step to the accumulator, so bytes are consumed in order |
| Utils.FoldConcat | lib/dhcp/utils.h:27-29 | hashing a concatenation continues from the state reached after the first part |
| Utils.HashIsLeftFold | lib/dhcp/utils.h:25-31 | the hash of no bytes is the seed 0xa5a55a5a; `hash(s ++ [b])` is `h + (rotr7(h) ^ b)` mod 2^32 with `h = hash(s)` |
| Utils.Hash | lib/dhcp/utils.h:25-31 | the hash of no bytes is the seed; the hash of n + 1 bytes is one more round, from the fold over the first n |
| Utils.HashBytes | lib/dhcp/utils.h:25-31 | the loop returns the hash of exactly the `len` bytes from `from` on, and of nothing else |
| Dhcp.RawCastsRoundTrip | lib/dhcp/utils.h:11-22 | `into_raw(from_raw(u)) == u` and `from_raw(into_raw(e)) == e` for operations, option tags and message types |
| Dhcp.DecodeHeader | lib/dhcp/dhcp.h:67-84 | every decoded header field has the byte width of its struct member |
| Dhcp.EncodeHeader | lib/dhcp/dhcp.h:67-84 | a header whose fields have their struct widths takes exactly the 240 bytes before the options |
| Dhcp.HeaderRoundTrip | lib/dhcp/dhcp.h:67-87 | a header with fields of the right widths encodes to 240 bytes, which decode back to it |
| Dhcp.HeaderBytesRoundTrip | lib/dhcp/dhcp.h:67-87 | decoding and re-encoding gives back the first 240 bytes: the fields tile the header with no gap |
| Dhcp.LayoutSizes | lib/dhcp/dhcp.h:18-87 | `DHCP_MESSAGE_MIN_LEN` is the 240-byte header plus 3; `sizeof(dhcp_message)` is 240 + 308 = 548, within `DHCP_MESSAGE_LEN` |
| Dhcp.CookieOnTheWire | lib/dhcp/dhcp.h:21 | the host-endian `u32` read of the cookie field equals `DHCP_OPTION_COOKIE` iff the wire bytes are 99, 130, 83, 99 |
| Dhcp.HostU32 | lib/dhcp/dhcp.h:82 | the `u32` cookie field read in the ESP8266's little-endian order: its low byte is the first on the wire and its high byte the fourth |
| Dhcp.BigEndianFits | lib/dhcp/dhcp.h:99-106 | the value decoded from n bytes fits in n bytes |
| Dhcp.BigEndian | lib/dhcp/dhcp.h:99-106 | no bytes give 0, and the value's low byte is the last byte read |
| Dhcp.FourBytesOf | lib/dhcp/dhcp.h:108-114 | a `u32` whose bytes, most significant first, are the four given ones is written as those four bytes |
| Dhcp.DecodeEncode | lib/dhcp/dhcp.h:99-114 | `get_opt_val<T>` of the bytes `put_opt_val<T>(v)` writes is v, for 1-, 2- and 4-byte T |
| Dhcp.EncodeDecode | lib/dhcp/dhcp.h:99-114 | re-encoding the value decoded from 1, 2 or 4 bytes gives back those bytes |
| Dhcp.PutDeadbeef | lib/dhcp/dhcp.h:108-114 | 0xdeadbeef is written as de ad be ef |
| Dhcp.GetOptVal | lib/dhcp/dhcp.h:99-106 | the loop returns the most-significant-first value of the n bytes at the cursor |
| Dhcp.PutOptVal | lib/dhcp/dhcp.h:108-114 | writes v's n bytes most significant first, returns cursor + n, and changes no byte outside them |
| Options.Scan | lib/dhcp/dhcp.cc:6-36 | a found view lies inside the buffer, right after a tag byte equal to the searched tag and a length byte equal to its length |
| Options.FindOption | lib/dhcp/dhcp.cc:6-36 | a found view lies inside the window right after the searched tag and a length byte equal to its length; a window of fewer than 2 bytes or one starting with END gives none |
| Options.ScanEntryAt | lib/dhcp/dhcp.cc:18-31 | one step of the scan when its window is read in place inside a larger buffer |
| Options.GetOption | lib/dhcp/dhcp.cc:6-36 | the cursor loop returns exactly the view the scan specification finds in the len bytes, and writes nothing |
| Options.ScanSerialized | lib/dhcp/dhcp.cc:9-31 | over well-formed entries followed by END, the scan finds a tag iff some entry has it, and then yields the first such entry's data |
| Options.ScanStep | lib/dhcp/dhcp.cc:20-31 | a matching entry yields the view just after its length byte; any other entry moves the cursor past 2 + length bytes |
| Options.FindInTerminated | lib/dhcp/dhcp.cc:6-36 | the same from the start of a buffer that begins with serialized entries and END |
| Options.ScanUnterminated | lib/dhcp/dhcp.cc:9-35 | over well-formed entries that fill the window to its end with no END, a tag is found iff some entry has it, and then with the first such entry's data |
| Options.FindUnterminated | lib/dhcp/dhcp.cc:6-36 | the same for a window that holds exactly the serialized entries: reaching the window's end means not found |
| Options.EndHidesLaterOptions | lib/dhcp/dhcp.cc:13-15 | END stops the scan: a tag that appears only after END is not found |
| Options.OverlongSkipEndsScan | lib/dhcp/dhcp.cc:29-35 | an over-long non-matching entry moves the cursor past the end and the result is none, not a failure |
| Options.MalformedLengthIsNone | lib/dhcp/dhcp.cc:20-23 | a matching entry whose length overruns the buffer gives none, never a partial slice |
| Options.GetAvailableOption | test/native/dhcp.cc:8-23 | PAD PAD 53 5 0 1 2 3 4 END yields the 5 bytes 0..4 |
| Options.MalformedLength | test/native/dhcp.cc:25-41 | an overrunning length gives none both for that tag and for an absent tag |
| Options.MissingEnd | test/native/dhcp.cc:43-52 | a buffer with no END and no match gives none |
| Options.PadTakesALengthByte | lib/dhcp/dhcp.cc:11-18 | PAD consumes a length byte: after one PAD, the 53 is taken as PAD's length; after two, 53 is found |
| Options.TagAtLastByte | lib/dhcp/dhcp.cc:18 | as written, a tag in the last byte of the window makes the scan read the byte past the window and return a view beyond it |
| Options.ScanAsWritten | lib/dhcp/dhcp.cc:6-36 | the scan as written, with `end - opt` as a 32-bit `usize`: a found view starts after the searched tag, whose byte is inside the window, and a length byte equal to its length; it may extend past the window |
| Options.AsWrittenEntryAt | lib/dhcp/dhcp.cc:18-31 | one step of the scan as written when the length byte is inside the window: the `usize` difference does not wrap |
| Options.ScanAsWrittenAgrees | lib/dhcp/dhcp.cc:6-36 | the as-written scan, with its `usize` arithmetic, agrees with the specification whenever the last byte of the window (from the cursor on) is END |
| LeaseDatabase.Lookup | lib/dhcp/lease_db.h:64-71 | some iff the hash is nonzero and held by a slot; the index holds it and no lower index does |
| LeaseDatabase.FirstWith | lib/dhcp/lease_db.h:65-70 | the scan from a slot finds the first slot at or after it holding the hash, and none iff no such slot exists |
| LeaseDatabase.NewLeaseSlot | lib/dhcp/lease_db.h:48-61 | none iff the hash is 0, already held, or every slot is occupied; otherwise the lowest free slot |
| LeaseDatabase.Allocated | lib/dhcp/lease_db.h:48-61 | new_lease keeps the number of slots; what it writes is stated by AllocateThenLookup |
| LeaseDatabase.Active | lib/dhcp/lease_db.h:97-105 | the count never exceeds the capacity |
| LeaseDatabase.ActiveCountsOccupied | lib/dhcp/lease_db.h:97-105 | the count is the number of slots with a nonzero hash |
| LeaseDatabase.ActiveFull | lib/dhcp/lease_db.h:97-105 | the count equals the capacity iff every slot is occupied |
| LeaseDatabase.ActiveEmpty | lib/dhcp/lease_db.h:108 | a table of free slots counts 0 |
| LeaseDatabase.NewLeaseTwice | lib/dhcp/lease_db.h:49-51 | a hash that already holds a slot gets none and the table is unchanged |
| LeaseDatabase.AllocateThenLookup | lib/dhcp/lease_db.h:53-58 | allocation writes (hash, end) into the chosen slot, leaves every other slot alone, and `get_lease` then finds that slot |
| LeaseDatabase.AllocateCounts | lib/dhcp/lease_db.h:53-58 | a successful allocation adds one active lease |
| LeaseDatabase.RenewThenLookup | lib/dhcp/lease_db.h:75-83 | an absent hash changes nothing; otherwise only the first matching slot changes, to (hash, end) |
| LeaseDatabase.RenewKeepsSlots | lib/dhcp/lease_db.h:75-83 | renewal changes no slot's hash, so lookups are unchanged |
| LeaseDatabase.RenewCounts | lib/dhcp/lease_db.h:75-83 | renewal keeps the active count |
| LeaseDatabase.Renewed | lib/dhcp/lease_db.h:75-83 | update_lease keeps the number of slots; what it writes is stated by RenewThenLookup |
| LeaseDatabase.FlushLeavesNoExpired | lib/dhcp/lease_db.h:87-94 | afterwards every occupied slot ends after `curr_time`; unexpired slots are unchanged and expired ones are (0, 0) |
| LeaseDatabase.FlushIdempotent | lib/dhcp/lease_db.h:87-94 | flushing twice at the same time is flushing once |
| LeaseDatabase.FlushNeverGrows | lib/dhcp/lease_db.h:87-94 | flushing never increases the active count |
| LeaseDatabase.Flush | lib/dhcp/lease_db.h:87-94 | flush_expired keeps the number of slots; what it clears is stated by FlushLeavesNoExpired |
| LeaseDatabase.FlushKeepsLive | lib/dhcp/lease_db.h:64-94 | a client whose lease ends after the flush time keeps its slot through the flush |
| LeaseDatabase.AllocateFlushRenew | lib/dhcp/lease_db.h:48-94 | a slot allocated with an end after the flush time survives the flush, is found by get_lease, and is the slot update_lease renews |
| LeaseDatabase.OperationsKeepDistinct | lib/dhcp/lease_db.h:48-94 | allocation, renewal and flush keep occupied hashes pairwise distinct |
| LeaseDatabase.LookupUnique | lib/dhcp/lease_db.h:64-71 | in a table with distinct hashes, the slot found is the only one holding the hash |
| LeaseDatabase.TwoSlotScenario | test/native/lease_db.cc:15-36 | two slots are allocated in order; a third client and a repeated client are refused; lookups and counts as expected |
| LeaseDatabase.TwoLeases | test/native/lease_db.cc:41-45 | two allocations into a 2-slot table take slots 0 and 1, in that order, and count 2 |
| LeaseDatabase.FlushScenario | test/native/lease_db.cc:38-58 | flushing at 50, 150 and 250 leaves 2, 1 and 0 active leases, with the lookups the test expects |
| LeaseDatabase.UpdateScenario | test/native/lease_db.cc:60-85 | after the flush at 150, renewing the expired client changes nothing and renewing the live one extends it to 300; then flushes at 250 and 350 leave 1 and 0 |
| LeaseDatabase.LeaseDb.constructor | lib/dhcp/lease_db.h:108 | a new table has every slot free |
| LeaseDatabase.LeaseDb.GetLease | lib/dhcp/lease_db.h:64-71 | the scan returns the lowest slot holding the nonzero hash, and changes nothing |
| LeaseDatabase.LeaseDb.NewLease | lib/dhcp/lease_db.h:48-61 | returns the slot NewLeaseSlot chooses and updates the array to Allocated, keeping hashes distinct |
| LeaseDatabase.LeaseDb.UpdateLease | lib/dhcp/lease_db.h:75-83 | true iff the hash held a slot; the array becomes Renewed, keeping hashes distinct |
| LeaseDatabase.LeaseDb.FlushExpired | lib/dhcp/lease_db.h:87-94 | the array becomes Flush of its old contents |
| LeaseDatabase.LeaseDb.ActiveLeases | lib/dhcp/lease_db.h:97-105 | the counter equals the number of occupied slots |
| ServerSpec.LeaseTimes | src/main.cc:290-303 | lease 28800 s, T1 = 14400 s (half), T2 = 19200 s (8/12) |
| ServerSpec.HeaderAccepted | src/main.cc:149-152 | the message is accepted iff op is BOOTREQUEST and the cookie field, read as a host `u32`, equals `DHCP_OPTION_COOKIE` |
| ServerSpec.MessageTypeOf | src/main.cc:157-161 | a type iff option 53 is present with at least one byte; the type is that byte |
| ServerSpec.ServerIdMatches | src/main.cc:209-218 | true iff option 54 is present with at least 4 bytes and they are 10.0.0.2 |
| ServerSpec.ClientKey | src/main.cc:166-173 | the hash of option 61's value if it is present, else of chaddr's first min(hlen, 16) bytes |
| ServerSpec.OptionValue | src/main.cc:157-161 | the value is read iff the option is present with at least k bytes, and is then its first k bytes |
| ServerSpec.KeyBytes | src/main.cc:172 | the hardware key is the first min(hlen, 16) bytes of chaddr |
| ServerSpec.YourAddr | src/main.cc:241-242 | the first three octets are those of 10.0.0.10; below 246 the last is 10 + slot |
| ServerSpec.ReplyHeader | src/main.cc:263-268 | the rewritten header is 240 bytes, like the request's |
| ServerSpec.ReplyOptions | src/main.cc:278-343 | the options end with END, and option 53 is found in them |
| ServerSpec.Reply | src/main.cc:238-347 | with at most 16 requested parameters, the bytes sent are more than the header and fit in `dhcp_message` |
| ServerSpec.Decide | src/main.cc:189-236 | the table keeps its size; an answer is OFFER for DISCOVER or ACK for REQUEST, for a slot holding the client's key; any other type is dropped with the table unchanged |
| ServerSpec.Respond | src/main.cc:163-347 | the table keeps its size, and only DISCOVER and REQUEST are answered |
| ServerSpec.Handle | src/main.cc:148-349 | the table keeps its size, and a reply is sent only to an accepted header with a DISCOVER or REQUEST message type |
| ServerSpec.Serve | src/main.cc:112-131 | the table keeps its size, and a reply is sent only for a datagram of 243 to 547 bytes |
| ServerSpec.RequestedParams | src/main.cc:175-184 | the first min(len, 16) bytes of option 55, in order, as tags; empty when option 55 is absent |
| ServerSpec.RequestedEntries | src/main.cc:305-340 | every answered parameter carries the configured address for its tag, and at most one entry is written per requested code |
| ServerSpec.GateRejects | src/main.cc:116 | a datagram shorter than 243 bytes or of 548 or more gets no reply and leaves the table unchanged |
| ServerSpec.InvalidChangesNothing | src/main.cc:149-161 | a wrong op, a wrong cookie or no message type means no reply and no flush |
| ServerSpec.OtherTypesOnlyFlush | src/main.cc:232-235 | any other message type gives no reply; the only table change is the flush |
| ServerSpec.DiscoverAnswered | src/main.cc:190-204 | a DISCOVER is answered iff the client already has a slot after the flush, or its key is nonzero and a slot is free |
| ServerSpec.RequestAnswered | src/main.cc:206-230 | a REQUEST is answered iff option 54 names 10.0.0.2 and the client holds a slot after the flush |
| ServerSpec.HandleTableCases | src/main.cc:163-230 | the table afterwards is the flushed table, the flushed table with a 15 s allocation, or the flushed table with an 8 h renewal |
| ServerSpec.DecideTableCases | src/main.cc:189-236 | the switch leaves the table as it is, allocates a 15 s lease, or renews for 8 h |
| ServerSpec.HandleFlushesThenTouchesOneSlot | src/main.cc:163-230 | after an accepted message, no occupied slot is expired, and every slot is either its flushed value or belongs to this client |
| ServerSpec.HandleKeepsDistinct | src/main.cc:163-230 | handling a message keeps occupied hashes pairwise distinct |
| ServerSpec.DecideKeepsDistinct | src/main.cc:189-236 | the switch keeps occupied hashes pairwise distinct |
| ServerSpec.ReplyIsForClientSlot | src/main.cc:189-242 | a reply goes only to DISCOVER (as OFFER) or REQUEST (as ACK); it addresses the client's own slot, that slot's lease is live, and on ACK it ends at now + 28800 |
| ServerSpec.ReplyAddressInRange | src/main.cc:241-267 | with the 16-slot table, every reply's yiaddr is 10.0.0.(10 + slot) for the client's slot, with no wrap |
| ServerSpec.ReplyYiaddr | src/main.cc:241-267 | the yiaddr field of a reply is the slot's address |
| ServerSpec.DiscoverAllocates | src/main.cc:190-204 | an answered DISCOVER from a client without a slot allocates the lowest free slot for 15 s and offers it |
| ServerSpec.RequestRenews | src/main.cc:206-230 | a REQUEST naming this server from a client with a slot renews it for 8 h and acknowledges it |
| ServerSpec.RequestAfterOffer | src/main.cc:190-230 | a REQUEST before the 15 s reservation ends is acknowledged for the reserved slot, which is renewed to now + 28800 |
| ServerSpec.DiscoverThenRequest | src/main.cc:190-230 | DISCOVER from a new client, then its REQUEST within 15 s: OFFER then ACK for the same new slot, which then holds the client until later + 28800 |
| ServerSpec.DecideAnswers | src/main.cc:189-230 | when the switch answers, the reply type matches the request and the client's slot is live in the new table |
| ServerSpec.ReplyHeaderTable3 | src/main.cc:263-268 | the reply header is the request's with op = BOOTREPLY, hops = secs = ciaddr = 0, yiaddr = the slot's address and siaddr = 10.0.0.2 |
| ServerSpec.YourAddrInRange | src/main.cc:241-242 | slot i of the 16 gets 10.0.0.(10 + i); different slots get different addresses |
| ServerSpec.YourAddrWraps | src/main.cc:242 | the `u8` octet wraps: slot 246 would get 10.0.0.0 |
| ServerSpec.RequestedAnswered | src/main.cc:305-340 | a tag is answered iff it is one of 1, 3, 6, 28 and the client requested it; its value is then the configured address |
| ServerSpec.FixedOptionsRoundTrip | src/main.cc:278-303 | scanning the reply options gives back message type, server identifier, lease time, T1 and T2 |
| ServerSpec.FixedFound | src/main.cc:278-303 | each of the five fixed entries is found in the reply options with its own data |
| ServerSpec.LeaseTimeBytes | src/main.cc:290-303 | the lease time, T1 and T2 go on the wire as 00 00 70 80, 00 00 38 40 and 00 00 4b 00 |
| ServerSpec.ReplyFindsEntries | src/main.cc:278-343 | `get_option` on the reply options finds exactly the first entry written for each tag, with its data |
| ServerSpec.RequestedOptionsRoundTrip | src/main.cc:305-343 | a supported parameter is present in the reply iff it was requested, with the configured 4-byte value |
| ServerSpec.FixedEntriesBytes | src/main.cc:278-303 | the fixed options are exactly the 27 bytes 53 1 type, 54 4 10.0.0.2, 51 4 lease, 58 4 T1, 59 4 T2 |
| ServerSpec.ReplyOptionsPrefix | src/main.cc:278-303 | the reply options start with those 27 bytes |
| ServerSpec.ReplyFits | src/main.cc:278-343 | with at most 16 requested parameters, the reply options take at most 28 + 6n bytes and fit in the 308-byte options field |
| ServerSpec.ShortServerIdAsWritten | src/main.cc:210-218 | as written, an empty server identifier followed by 10 0 0 2 names this server; the checked read rejects it |
| ServerSpec.ShortMessageTypeAsWritten | src/main.cc:157-161 | as written, an empty message type followed by 1 reads as DISCOVER; the checked read reports no type |
| ServerSpec.ValueAsWritten | src/main.cc:157-213 | the unchecked read takes k bytes from the option's start whatever its length; when the option is long enough they are its first k bytes |
| ServerSpec.HlenPastChaddr | src/main.cc:172 | as written, hlen = 17 hashes the first byte of sname; the clamped key stays within chaddr |
| ServerSpec.KeyBytesAsWritten | src/main.cc:172 | the unchecked read takes hlen bytes from chaddr; up to 16 they are the clamped key bytes, and past 16 they are the bytes that follow chaddr in the struct (sname, then file, the cookie and the options) |
| ServerSpec.ClientKeyIgnoresNames | src/main.cc:166-173 | the client key depends only on hlen, chaddr and the options |
| Server.GetIpv4 | src/main.cc:44-47 | reads the four octets at the cursor in order |
| Server.PutIpv4 | src/main.cc:49-56 | writes the four octets at the cursor, returns cursor + 4, and changes nothing else |
| Server.PutAddrOption | src/main.cc:285-288 | writes tag, 4 and the address as one option entry, and changes nothing else |
| Server.PutU32Option | src/main.cc:290-303 | writes tag, 4 and the big-endian value as one option entry, and changes nothing else |
| Server.ClearReplyFields | src/main.cc:263-266 | op becomes BOOTREPLY, hops, secs and ciaddr become 0, and every other byte is kept |
| Server.WriteReplyHeader | src/main.cc:263-268 | the header becomes the Table 3 reply header for the slot; the options are untouched |
| Server.PutRequestedOption | src/main.cc:307-339 | a supported code gets its entry; any other code writes nothing |
| Server.PutFixedOptions | src/main.cc:278-303 | the 27 bytes after the header are the five fixed entries, and the header is untouched |
| Server.WriteReplyOptions | src/main.cc:278-343 | the options written are the reply options for the type and the first n requested codes, END included |
| Server.PutEnd | src/main.cc:343 | appends END after the entries written so far |
| Server.ClientHash | src/main.cc:166-173 | the key computed is the hash of option 61 if present, else of chaddr[0..min(hlen, 16)) |
| Server.HashClientId | src/main.cc:169-170 | the hash of option 61's value, read in place, is the client key |
| Server.HashChaddr | src/main.cc:171-172 | without option 61, the hash of chaddr's first min(hlen, 16) bytes, read in place, is the client key |
| Server.RequestedParamList | src/main.cc:175-184 | the array holds the requested parameter tags, at most 16 of them |
| Server.CopyParams | src/main.cc:179-183 | the loop copies min(len, 16) bytes of option 55 into the array, as the requested tags in order |
| Server.MessageType | src/main.cc:157-161 | the type read is the checked value of option 53 |
| Server.ServerIdentified | src/main.cc:209-218 | true iff option 54 holds 4 bytes naming 10.0.0.2 |
| Server.Discovered | src/main.cc:190-204 | reuses the client's slot unchanged, or allocates the lowest free slot with a 15 s lease |
| Server.Requested | src/main.cc:206-230 | a foreign or missing server id gives none and changes nothing; otherwise the client's slot, renewed for 8 h |
| Server.Dispatch | src/main.cc:186-236 | the table and the chosen (type, slot) are those of the switch specification |
| Server.WriteReply | src/main.cc:238-343 | the bytes to send are the reply header followed by the reply options |
| Server.AnswerMessage | src/main.cc:186-347 | the table follows the switch, and a reply is sent iff the switch answers, with the reply bytes for its type and slot |
| Server.HandleTypedMessage | src/main.cc:163-347 | flush, identify, switch and reply, as `Respond` specifies; nothing is written to the message when no reply is sent |
| Server.HandleDhcpMessage | src/main.cc:148-349 | the table afterwards and the bytes sent are those of `Handle`, and hashes stay distinct; no reply means the message buffer is untouched |
| Server.ReadDatagram | src/main.cc:117 | the datagram's bytes are at the start of the receive buffer, and the buffer's other bytes are kept |
| Server.CopyMessage | src/main.cc:121-122 | a fresh message holds exactly the first `sizeof(dhcp_message)` bytes of the receive buffer |
| Server.Receive | src/main.cc:112-131 | with the 16-slot table of `LEASE_DB` (src/main.cc:36), the reply and the new table are those of the size gate in front of the handler; an accepted datagram is copied into the receive buffer, whose other bytes are kept, and a rejected one leaves the buffer as it was |

## Left out

- WiFi setup, `setup()`, `delay`, the UDP socket (`parsePacket`,
  `beginPacket`/`write`/`endPacket`) and `LOG`/`Serial`. These are
  hardware and network I/O. A datagram is an input byte sequence and the
  send is a returned byte sequence.
- `now_secs()` and `millis()`. The clock is the parameter `now`.
- The source reads the clock separately for the flush, for the 15 s
  reservation and for the 8 h renewal (src/main.cc:164, 199, 226). The model
  uses one `now` for all three, as if no second boundary passes while one
  message is handled.
- The `alignas` receive buffer and the `memcpy` type pun. The copy is
  modelled byte by byte, and the message is a byte array with field
  offsets.
- The number of bytes `UDP.read` returns is taken to be the datagram's
  size. Short reads are not modelled.
- `Server.Receive`: the bytes of the receive buffer past the datagram are
  whatever an earlier datagram left there. The model copies them into the
  message like the source. The corrected handler never reads them; the
  unchecked reads under "Findings" can (`hash(msg.chaddr, msg.hlen)` with
  hlen above 16, the length byte after a tag in the window's last byte, and
  the value of a short option at the window's end).
- The Arduino `IPAddress` class, which is modelled as four octets.
- test/native/hash.cc, a statistical uniformity test. The code promises no
  distribution or collision property.
- The `TRY` macro, which is modelled as an early return when the optional
  is empty.
- DECLINE, RELEASE, INFORM, NAK, relays and option overload. The code does
  not implement them.
- lib/dhcp/types.h is not part of this model. Its aliases are `bv8`,
  `bv16` and `bv32`, and `usize` is `nat` except where the scan's pointer
  arithmetic matters (`Options.ScanAsWritten`).
- `Utils.Step`: one round of the hash has no contract of its own. Stating
  it on 32-bit vectors costs the solver more than it can afford. Its meaning
  is given by `Utils.RotR7IsRotation`, `Utils.Hash` and `Utils.HashIsLeftFold`.
- `LeaseDatabase.Lease`: `lease_end` and `now` are unbounded naturals.
  Overflow of `usize` time values is not modelled, since `millis() / 1000`
  stays far below 2^32.
- `LeaseDatabase.LeaseDb.Valid` is distinctness of occupied hashes. The
  source keeps this without stating it.
- The methods of `Server` require the message buffer, the lease array and
  the requested-parameter array to be distinct objects. In the source they
  are separate objects.
- `Server.MessageType`, `Server.ServerIdentified` and `Server.ClientHash`
  model the corrected reads, not the unchecked ones in the source. So do
  the functions they are proved against, `ServerSpec.OptionValue`,
  `ServerSpec.MessageTypeOf`, `ServerSpec.ServerIdMatches`,
  `ServerSpec.KeyBytes` and `ServerSpec.ClientKey`, and through them
  `ServerSpec.Decide`, `ServerSpec.Respond`, `ServerSpec.Handle` and
  `ServerSpec.Serve`. They
  reject an option value shorter than what is read, and they clamp hlen to
  16. The behaviour as written is stated by the `AsWritten` members under
  "Findings".
- `Options.GetOption` models the corrected scan. A tag in the last byte of
  the window gives none. The behaviour as written is `Options.ScanAsWritten`.

## Findings

| source | as written | input that shows it | evidently intended | confidence | as-written member | corrected member |
|---|---|---|---|---|---|---|
| lib/dhcp/dhcp.cc:18 | the length byte is read without checking that a byte remains after the tag | the window `[53]` of a buffer `[53, 7]`, searching 53: the length 7 is read past the window, and `end - opt` wraps to 2^32 - 1 as a 32-bit `usize`, so a view of 7 bytes past the window is returned | a tag in the last byte ends the scan with none | high (not executed) | Options.TagAtLastByte | Options.Scan |
| src/main.cc:160, 211-212 | `opt.data[0]` and `get_opt_val<IPAddress>(op.data)` read 1 and 4 bytes of an option of any length, including 0 | options `53 1 3 54 0 10 0 0 2 255`: the empty server identifier is read as 10.0.0.2, and options `53 0 1 0 255` read as DISCOVER | an option shorter than the value read counts as absent | high (not executed) | ServerSpec.ShortServerIdAsWritten | ServerSpec.OptionValue |
| src/main.cc:172 | `hash(msg.chaddr, msg.hlen)` hashes hlen bytes of the 16-byte chaddr, with hlen up to 255 | hlen = 17: the byte after chaddr (`sname[0]`) is hashed | at most 16 bytes of chaddr are hashed | high (not executed) | ServerSpec.HlenPastChaddr | ServerSpec.KeyBytes |
