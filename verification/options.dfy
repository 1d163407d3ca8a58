/**
 * lib/dhcp/dhcp.cc: get_option, the scan of the options area (section 9 of
 * RFC 2131, section 2 of RFC 2132) for the first tag/length/value entry with
 * a given tag.
 *
 * Every byte is read as a tag followed by a length byte, PAD (0) included:
 * two PADs are consumed as one empty entry. END (255) stops the scan. A
 * matching entry whose length overruns the window gives no result; a
 * non-matching one moves the cursor past the end and so ends the scan.
 */
module Options {
  import opened Wrappers
  import opened Dhcp

  /** option_view: where the value of the found entry starts in the area, and its length. */
  datatype OptionView = OptionView(offset: nat, len: nat)

  /** Adjacent slices make up the slice that spans them. */
  lemma SliceSplit(s: seq<bv8>, lo: nat, mid: nat, hi: nat)
    requires lo <= mid <= hi <= |s|
    ensures s[lo..hi] == s[lo..mid] + s[mid..hi]
  {
  }

  /** A slice of a slice is a slice. */
  lemma SliceOfSlice(s: seq<bv8>, a: nat, b: nat, c: nat, d: nat)
    requires a <= b <= |s| && c <= d <= b - a
    ensures s[a..b][c..d] == s[a + c..a + d]
  {
    assert |s[a..b][c..d]| == |s[a + c..a + d]|;
    forall k | 0 <= k < d - c
      ensures s[a..b][c..d][k] == s[a + c..a + d][k]
    {
      assert s[a..b][c..d][k] == s[a..b][c + k] == s[a + c + k];
    }
  }

  /** The scan of get_option from cursor p over the bytes `opts` of the window. */
  function Scan(opts: seq<bv8>, p: nat, tag: OptionTag): (r: Option<OptionView>)
    decreases |opts| - p
    ensures r.Some? ==>
      && p + 2 <= r.value.offset
      && r.value.offset + r.value.len <= |opts|
      && opts[r.value.offset - 2] == tag.raw
      && opts[r.value.offset - 1] as nat == r.value.len
  {
    if p >= |opts| then None
    else if OptionTag(opts[p]) == End then None
    else if p + 1 == |opts| then None
    else
      var n := opts[p + 1] as nat;
      if OptionTag(opts[p]) == tag then
        if |opts| - (p + 2) < n then None else Some(OptionView(p + 2, n))
      else
        Scan(opts, p + 2 + n, tag)
  }

  /** get_option(opts, |opts|, tag). */
  function FindOption(opts: seq<bv8>, tag: OptionTag): (r: Option<OptionView>)
    ensures r.Some? ==>
      && 2 <= r.value.offset && r.value.offset + r.value.len <= |opts|
      && opts[r.value.offset - 2] == tag.raw
      && opts[r.value.offset - 1] as nat == r.value.len
    ensures |opts| < 2 || OptionTag(opts[0]) == End ==> r.None?
  {
    Scan(opts, 0, tag)
  }

  /** The value bytes a view designates. */
  function ValueOf(opts: seq<bv8>, v: OptionView): seq<bv8>
    requires v.offset + v.len <= |opts|
  {
    opts[v.offset..v.offset + v.len]
  }

  /** get_option over the len bytes of buf starting at `from`; offsets are relative to `from`. */
  method GetOption(buf: array<bv8>, from: nat, len: nat, searchTag: OptionTag) returns (r: Option<OptionView>)
    requires from + len <= buf.Length
    ensures r == FindOption(buf[from..from + len], searchTag)
  {
    ghost var opts := buf[from..from + len];
    ghost var found := FindOption(opts, searchTag);
    var opt: nat := 0;
    while opt < len
      invariant Scan(opts, opt, searchTag) == found
      decreases len - opt
    {
      ghost var start := opt;
      var tag := OptionTag(buf[from + opt]);
      opt := opt + 1;
      if tag == End {
        return None;
      }
      if opt == len {
        // The tag is the last byte of the window: there is no length byte.
        return None;
      }
      var n := buf[from + opt] as nat;
      opt := opt + 1;
      ScanEntryAt(opts, buf[..], from, len, start, searchTag);
      if tag == searchTag {
        if len - opt < n {
          return None;
        } else {
          return Some(OptionView(opt, n));
        }
      }
      opt := opt + n;
    }
    return None;
  }

  /** One step of the scan at an entry of the window buf[from..from + len] that has its length byte. */
  lemma ScanEntryAt(opts: seq<bv8>, buf: seq<bv8>, from: nat, len: nat, p: nat, tag: OptionTag)
    requires from + len <= |buf| && opts == buf[from..from + len]
    requires p + 1 < len && OptionTag(buf[from + p]) != End
    ensures OptionTag(buf[from + p]) == tag ==>
      Scan(opts, p, tag) == if len - (p + 2) < buf[from + p + 1] as nat then None else Some(OptionView(p + 2, buf[from + p + 1] as nat))
    ensures OptionTag(buf[from + p]) != tag ==> Scan(opts, p, tag) == Scan(opts, p + 2 + buf[from + p + 1] as nat, tag)
  {
    assert opts[p] == buf[from + p] && opts[p + 1] == buf[from + p + 1];
  }

  // -- Options as a list of entries, and what the scan finds in their encoding.

  /** One tag/length/value entry, with its length byte. */
  datatype Entry = Entry(tag: OptionTag, len: bv8, data: seq<bv8>)

  /** An entry the encoding can carry: not END, and a length byte that counts the data. */
  predicate WellFormed(e: Entry)
  {
    e.tag != End && e.len as nat == |e.data|
  }

  predicate AllWellFormed(es: seq<Entry>)
  {
    forall i :: 0 <= i < |es| ==> WellFormed(es[i])
  }

  /** tag, length, value. */
  function EntryBytes(e: Entry): (b: seq<bv8>)
    requires WellFormed(e)
    ensures |b| == 2 + |e.data|
  {
    [e.tag.raw, e.len] + e.data
  }

  /** The entries back to back, in order. */
  function Serialize(es: seq<Entry>): seq<bv8>
    requires AllWellFormed(es)
  {
    if es == [] then [] else EntryBytes(es[0]) + Serialize(es[1..])
  }

  lemma AppendWellFormed(es: seq<Entry>, e: Entry)
    requires AllWellFormed(es) && WellFormed(e)
    ensures AllWellFormed(es + [e])
  {
  }

  /** Appending an entry appends its bytes. */
  lemma {:induction false} SerializeAppend(es: seq<Entry>, e: Entry)
    requires AllWellFormed(es) && WellFormed(e)
    ensures AllWellFormed(es + [e])
    ensures Serialize(es + [e]) == Serialize(es) + EntryBytes(e)
    decreases |es|
  {
    AppendWellFormed(es, e);
    if es == [] {
      assert [e][1..] == [];
    } else {
      assert (es + [e])[1..] == es[1..] + [e];
      assert (es + [e])[0] == es[0];
      SerializeAppend(es[1..], e);
    }
  }

  /** The data of the first entry carrying `tag`. */
  function FirstData(es: seq<Entry>, tag: OptionTag): (r: Option<seq<bv8>>)
    ensures r.Some? <==> exists i :: 0 <= i < |es| && es[i].tag == tag
    ensures r.Some? ==> exists i :: 0 <= i < |es| && es[i].tag == tag && es[i].data == r.value
  {
    if es == [] then None
    else if es[0].tag == tag then Some(es[0].data)
    else
      var rest := FirstData(es[1..], tag);
      assert forall i :: 1 <= i < |es| ==> es[i] == es[1..][i - 1];
      rest
  }

  /** The encoding of es starts with its first entry, then the encoding of the others. */
  lemma SerializeCons(es: seq<Entry>)
    requires AllWellFormed(es) && es != []
    ensures AllWellFormed(es[1..])
    ensures Serialize(es) == EntryBytes(es[0]) + Serialize(es[1..])
    ensures |Serialize(es)| == 2 + |es[0].data| + |Serialize(es[1..])|
  {
    assert WellFormed(es[0]);
  }

  /** Where the encoding of es sits at p, its first entry's tag, length byte and data come first. */
  lemma SerializedHead(opts: seq<bv8>, p: nat, es: seq<Entry>)
    requires AllWellFormed(es) && es != []
    requires p + |Serialize(es)| <= |opts|
    requires opts[p..p + |Serialize(es)|] == Serialize(es)
    ensures opts[p] == es[0].tag.raw && opts[p + 1] as nat == |es[0].data|
    ensures opts[p + 2..p + 2 + |es[0].data|] == es[0].data
  {
    assert WellFormed(es[0]);
    SerializeCons(es);
    PrefixAt(opts, p, Serialize(es), EntryBytes(es[0]));
    EntryAt(opts, p, es[0]);
  }

  /** Where `whole` sits at p, so does each prefix of it. */
  lemma PrefixAt(opts: seq<bv8>, p: nat, whole: seq<bv8>, head: seq<bv8>)
    requires p + |whole| <= |opts| && opts[p..p + |whole|] == whole
    requires |head| <= |whole| && whole[..|head|] == head
    ensures opts[p..p + |head|] == head
  {
    SliceOfSlice(opts, p, p + |whole|, 0, |head|);
    assert whole[0..|head|] == whole[..|head|];
  }

  /** Where an entry's bytes sit at p, its tag, length byte and data can be read there. */
  lemma EntryAt(opts: seq<bv8>, p: nat, e: Entry)
    requires WellFormed(e)
    requires p + 2 + |e.data| <= |opts| && opts[p..p + 2 + |e.data|] == EntryBytes(e)
    ensures opts[p] == e.tag.raw && opts[p + 1] as nat == |e.data|
    ensures opts[p + 2..p + 2 + |e.data|] == e.data
  {
    var head := EntryBytes(e);
    assert opts[p] == head[0];
    assert opts[p + 1] == head[1] == e.len;
    SliceOfSlice(opts, p, p + |head|, 2, |head|);
    assert head[2..] == e.data;
  }

  /** Where the encoding of es sits at p, the encoding of all but its first entry follows that entry. */
  lemma SerializedRest(opts: seq<bv8>, p: nat, es: seq<Entry>)
    requires AllWellFormed(es) && es != []
    requires p + |Serialize(es)| <= |opts|
    requires opts[p..p + |Serialize(es)|] == Serialize(es)
    ensures AllWellFormed(es[1..])
    ensures opts[p + 2 + |es[0].data|..p + |Serialize(es)|] == Serialize(es[1..])
  {
    SerializeCons(es);
    var k := 2 + |es[0].data|;
    assert opts[p + k..p + |Serialize(es)|] == opts[p..p + |Serialize(es)|][k..];
  }

  /**
   * Scanning the encoding of well-formed entries followed by END finds exactly
   * the first entry with the tag, and designates its data.
   */
  lemma {:induction false} ScanSerialized(opts: seq<bv8>, p: nat, es: seq<Entry>, tag: OptionTag)
    requires AllWellFormed(es)
    requires p + |Serialize(es)| < |opts|
    requires opts[p..p + |Serialize(es)|] == Serialize(es)
    requires opts[p + |Serialize(es)|] == End.raw
    ensures Scan(opts, p, tag).Some? <==> FirstData(es, tag).Some?
    ensures Scan(opts, p, tag).Some? ==> ValueOf(opts, Scan(opts, p, tag).value) == FirstData(es, tag).value
    decreases |es|
  {
    if es == [] {
      assert OptionTag(opts[p]) == End;
    } else if es[0].tag == tag {
      ScanHit(opts, p, es, tag);
    } else {
      ScanMiss(opts, p, es, tag);
      ScanSerialized(opts, p + 2 + |es[0].data|, es[1..], tag);
    }
  }

  /**
   * The same without END: when the window ends right after the entries, the
   * scan runs off its end, and still finds exactly the first entry with the tag.
   */
  lemma {:induction false} ScanUnterminated(opts: seq<bv8>, p: nat, es: seq<Entry>, tag: OptionTag)
    requires AllWellFormed(es)
    requires p + |Serialize(es)| == |opts|
    requires opts[p..p + |Serialize(es)|] == Serialize(es)
    ensures Scan(opts, p, tag).Some? <==> FirstData(es, tag).Some?
    ensures Scan(opts, p, tag).Some? ==> ValueOf(opts, Scan(opts, p, tag).value) == FirstData(es, tag).value
    decreases |es|
  {
    if es == [] {
    } else if es[0].tag == tag {
      ScanHit(opts, p, es, tag);
    } else {
      ScanMiss(opts, p, es, tag);
      ScanUnterminated(opts, p + 2 + |es[0].data|, es[1..], tag);
    }
  }

  /** Where the first entry carries the tag, the scan designates its data, which is the first data for the tag. */
  lemma ScanHit(opts: seq<bv8>, p: nat, es: seq<Entry>, tag: OptionTag)
    requires AllWellFormed(es) && es != [] && es[0].tag == tag
    requires p + |Serialize(es)| <= |opts|
    requires opts[p..p + |Serialize(es)|] == Serialize(es)
    ensures Scan(opts, p, tag) == Some(OptionView(p + 2, |es[0].data|))
    ensures p + 2 + |es[0].data| <= |opts|
    ensures ValueOf(opts, OptionView(p + 2, |es[0].data|)) == es[0].data
    ensures FirstData(es, tag) == Some(es[0].data)
  {
    ScanStep(opts, p, es, tag);
    SerializedHead(opts, p, es);
  }

  /** Where the first entry carries another tag, the scan and the first data both move on to the rest. */
  lemma ScanMiss(opts: seq<bv8>, p: nat, es: seq<Entry>, tag: OptionTag)
    requires AllWellFormed(es) && es != [] && es[0].tag != tag
    requires p + |Serialize(es)| <= |opts|
    requires opts[p..p + |Serialize(es)|] == Serialize(es)
    ensures AllWellFormed(es[1..])
    ensures p + 2 + |es[0].data| + |Serialize(es[1..])| == p + |Serialize(es)|
    ensures opts[p + 2 + |es[0].data|..p + 2 + |es[0].data| + |Serialize(es[1..])|] == Serialize(es[1..])
    ensures Scan(opts, p, tag) == Scan(opts, p + 2 + |es[0].data|, tag)
    ensures FirstData(es, tag) == FirstData(es[1..], tag)
  {
    ScanStep(opts, p, es, tag);
    SerializeCons(es);
    SerializedRest(opts, p, es);
  }

  /** At the encoding of a well-formed entry, the scan designates its data when the tag matches, and skips it otherwise. */
  lemma ScanStep(opts: seq<bv8>, p: nat, es: seq<Entry>, tag: OptionTag)
    requires AllWellFormed(es) && es != []
    requires p + |Serialize(es)| <= |opts|
    requires opts[p..p + |Serialize(es)|] == Serialize(es)
    ensures es[0].tag == tag ==> Scan(opts, p, tag) == Some(OptionView(p + 2, |es[0].data|))
    ensures es[0].tag != tag ==> Scan(opts, p, tag) == Scan(opts, p + 2 + |es[0].data|, tag)
  {
    SerializeCons(es);
    SerializedHead(opts, p, es);
    assert WellFormed(es[0]);
  }

  /** The same, for an options area that starts with the entries and END. */
  lemma FindInTerminated(opts: seq<bv8>, es: seq<Entry>, tag: OptionTag)
    requires AllWellFormed(es)
    requires |Serialize(es)| < |opts|
    requires opts[..|Serialize(es)| + 1] == Serialize(es) + [End.raw]
    ensures FindOption(opts, tag).Some? <==> FirstData(es, tag).Some?
    ensures FindOption(opts, tag).Some? ==> ValueOf(opts, FindOption(opts, tag).value) == FirstData(es, tag).value
  {
    var n := |Serialize(es)|;
    assert opts[0..n] == opts[..n + 1][..n];
    assert opts[n] == opts[..n + 1][n];
    ScanSerialized(opts, 0, es, tag);
  }

  /** A missing END is not an error: over the bare encoding of the entries, get_option finds exactly the first entry with the tag. */
  lemma FindUnterminated(es: seq<Entry>, tag: OptionTag)
    requires AllWellFormed(es)
    ensures FindOption(Serialize(es), tag).Some? <==> FirstData(es, tag).Some?
    ensures FindOption(Serialize(es), tag).Some? ==>
      ValueOf(Serialize(es), FindOption(Serialize(es), tag).value) == FirstData(es, tag).value
  {
    var opts := Serialize(es);
    assert opts[0..|opts|] == opts;
    ScanUnterminated(opts, 0, es, tag);
  }

  /** Nothing after an END is found, whatever it holds: END stops the scan. */
  lemma EndHidesLaterOptions(es: seq<Entry>, tail: seq<bv8>, tag: OptionTag)
    requires AllWellFormed(es)
    requires forall i :: 0 <= i < |es| ==> es[i].tag != tag
    ensures FindOption(Serialize(es) + [End.raw] + tail, tag) == None
  {
    var opts := Serialize(es) + [End.raw] + tail;
    assert opts[..|Serialize(es)| + 1] == Serialize(es) + [End.raw];
    FindInTerminated(opts, es, tag);
  }

  /** A non-matching entry whose length overruns the window ends the scan with no result. */
  lemma OverlongSkipEndsScan(opts: seq<bv8>, p: nat, tag: OptionTag)
    requires p + 1 < |opts| && OptionTag(opts[p]) != End && OptionTag(opts[p]) != tag
    requires p + 2 + opts[p + 1] as nat >= |opts|
    ensures Scan(opts, p, tag) == None
  {
  }

  /** An entry of the searched tag whose length overruns the window is not found, even partially. */
  lemma MalformedLengthIsNone(opts: seq<bv8>, p: nat, tag: OptionTag)
    requires p + 1 < |opts| && OptionTag(opts[p]) == tag && tag != End
    requires |opts| - (p + 2) < opts[p + 1] as nat
    ensures Scan(opts, p, tag) == None
  {
  }

  // -- The cases of test/native/dhcp.cc.

  /** PAD PAD 53/5 0 1 2 3 4 END: the five bytes after the length byte are found. */
  lemma GetAvailableOption()
    ensures FindOption([0, 0, 53, 5, 0, 1, 2, 3, 4, 255], DhcpMessageType) == Some(OptionView(4, 5))
    ensures ValueOf([0, 0, 53, 5, 0, 1, 2, 3, 4, 255], OptionView(4, 5)) == [0, 1, 2, 3, 4]
  {
  }

  /** PAD PAD 53/5 0 END: the length overruns, so neither 53 nor 60 is found. */
  lemma MalformedLength()
    ensures FindOption([0, 0, 53, 5, 0, 255], DhcpMessageType) == None
    ensures FindOption([0, 0, 53, 5, 0, 255], ClassId) == None
  {
  }

  /** PAD PAD, no END: nothing found, and no failure. */
  lemma MissingEnd()
    ensures FindOption([0, 0], DhcpMessageType) == None
  {
  }

  /**
   * PAD is read as a tag with a length byte: in PAD 53/1 2 END the 53 is taken
   * as PAD's length, so option 53 is not found (section 3.1 of RFC 2132 has
   * PAD as a single byte).
   */
  lemma PadTakesALengthByte()
    ensures FindOption([0, 53, 1, 2, 255], DhcpMessageType) == None
    ensures FindOption([0, 0, 53, 1, 2, 255], DhcpMessageType) == Some(OptionView(4, 1))
  {
  }

  // -- get_option as written, when the tag is the last byte of the window.

  /** 2^32: usize on the ESP8266 is 32 bits wide. */
  const UsizeModulus: int := 0x1_0000_0000

  /**
   * The scan as written, over the window storage[..len] of a larger buffer: the
   * length byte after a final tag is read from beyond the window, and
   * `end - opt`, then -1, is cast to usize.
   */
  function ScanAsWritten(storage: seq<bv8>, len: nat, p: nat, tag: OptionTag): (r: Option<OptionView>)
    requires len < |storage|
    decreases len - p
    ensures r.Some? ==>
      && p + 2 <= r.value.offset && r.value.offset - 2 < len
      && storage[r.value.offset - 2] == tag.raw
      && storage[r.value.offset - 1] as nat == r.value.len
  {
    if p >= len then None
    else if OptionTag(storage[p]) == End then None
    else
      var n := storage[p + 1] as nat;
      var remaining := (len - (p + 2)) % UsizeModulus;
      if OptionTag(storage[p]) == tag then
        if remaining < n then None else Some(OptionView(p + 2, n))
      else
        ScanAsWritten(storage, len, p + 2 + n, tag)
  }

  /**
   * With the tag 53 as the only byte of the window and 7 after it, the scan as
   * written returns a 7-byte view that starts past the window's end; Scan
   * returns none.
   */
  lemma TagAtLastByte()
    ensures ScanAsWritten([53, 7], 1, 0, DhcpMessageType) == Some(OptionView(2, 7))
    ensures FindOption([53, 7][..1], DhcpMessageType) == None
  {
  }

  /** A difference that is non-negative and below 2^32 is unchanged by the usize wrap. */
  lemma NoWrap(x: int)
    requires 0 <= x < UsizeModulus
    ensures x % UsizeModulus == x
  {
  }

  /** One step of the scan as written at an entry with its length byte inside the window: no wrap. */
  lemma AsWrittenEntryAt(storage: seq<bv8>, len: nat, p: nat, tag: OptionTag)
    requires len < |storage| && len < UsizeModulus
    requires p + 1 < len && OptionTag(storage[p]) != End
    ensures OptionTag(storage[p]) == tag ==>
      ScanAsWritten(storage, len, p, tag) ==
        if len - (p + 2) < storage[p + 1] as nat then None else Some(OptionView(p + 2, storage[p + 1] as nat))
    ensures OptionTag(storage[p]) != tag ==>
      ScanAsWritten(storage, len, p, tag) == ScanAsWritten(storage, len, p + 2 + storage[p + 1] as nat, tag)
  {
    NoWrap(len - (p + 2));
  }

  /** The step of AsWrittenEntryAt for Scan over the window storage[..len]. */
  lemma PrefixEntryAt(storage: seq<bv8>, len: nat, p: nat, tag: OptionTag)
    requires len < |storage|
    requires p + 1 < len && OptionTag(storage[p]) != End
    ensures OptionTag(storage[p]) == tag ==>
      Scan(storage[..len], p, tag) ==
        if len - (p + 2) < storage[p + 1] as nat then None else Some(OptionView(p + 2, storage[p + 1] as nat))
    ensures OptionTag(storage[p]) != tag ==>
      Scan(storage[..len], p, tag) == Scan(storage[..len], p + 2 + storage[p + 1] as nat, tag)
  {
    assert storage[..len] == storage[0..0 + len];
    ScanEntryAt(storage[..len], storage, 0, len, p, tag);
  }

  /** Wherever the window has room for the length byte, the scan as written and Scan agree. */
  lemma {:induction false} ScanAsWrittenAgrees(storage: seq<bv8>, len: nat, p: nat, tag: OptionTag)
    requires len < |storage| && len < UsizeModulus
    requires forall q :: p <= q < len ==> q + 1 != len || OptionTag(storage[q]) == End
    ensures ScanAsWritten(storage, len, p, tag) == Scan(storage[..len], p, tag)
    decreases len - p
  {
    if p < len && OptionTag(storage[p]) != End {
      assert p + 1 != len;
      AsWrittenEntryAt(storage, len, p, tag);
      PrefixEntryAt(storage, len, p, tag);
      if OptionTag(storage[p]) != tag {
        ScanAsWrittenAgrees(storage, len, p + 2 + storage[p + 1] as nat, tag);
      }
    }
  }
}
