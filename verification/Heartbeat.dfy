/** The miner heartbeat body, in its ten-field and eleven-field wire forms. */
module Heartbeat {
  import opened ByteStrings
  import opened Sorting
  import opened Cbor
  import opened Canonical
  import opened Records
  import opened HostAttestor

  const DOMAIN := Ascii("HIPPIUS_MINER_HEARTBEAT_V1")
  const VERSION_1: nat := 1
  const VERSION_GRACEFUL_EXIT: nat := 2
  const MAX_MINER_ID_LEN: nat := 64
  const TWO_63: int := 0x8000_0000_0000_0000

  datatype MinerHeartbeat = MinerHeartbeat(
    schemaVersion: nat, minerId: bytes, timestamp: int, sequence: nat, vmRunning: nat, vmTotal: nat, cpuLoad: nat,
    memTotal: nat, memAvailable: nat, domain: bytes, gracefulExit: bool)

  ghost predicate Typed(h: MinerHeartbeat) {
    && h.schemaVersion < 256 && IsString(h.minerId) && IsString(h.domain)
    && -TWO_63 <= h.timestamp < TWO_63 && h.sequence < TWO_64
    && h.vmRunning < TWO_32 && h.vmTotal < TWO_32 && h.cpuLoad < TWO_32 && h.memTotal < TWO_32 && h.memAvailable < TWO_32
  }

  predicate Valid(h: MinerHeartbeat) {
    && (h.schemaVersion == VERSION_1 || h.schemaVersion == VERSION_GRACEFUL_EXIT)
    && !(h.schemaVersion == VERSION_1 && h.gracefulExit)
    && h.domain == DOMAIN
    && h.minerId != [] && |h.minerId| <= MAX_MINER_ID_LEN
  }

  function Named(name: string, v: Value): (e: Entry) { Entry(Text(Ascii(name)), v) }

  function Flag(h: MinerHeartbeat): (es: seq<Entry>) {
    if h.schemaVersion == VERSION_GRACEFUL_EXIT then [Named("graceful_exit_requested", Bool(h.gracefulExit))] else []
  }

  /** The entries in the order the encoder pushes them. */
  function PushedEntries(h: MinerHeartbeat): (es: seq<Entry>) {
    [Named("cpu_load_1m_centi", Int(h.cpuLoad)), Named("domain", Text(DOMAIN))]
    + Flag(h)
    + [Named("memory_available_mib", Int(h.memAvailable)), Named("memory_total_mib", Int(h.memTotal)),
       Named("miner_id", Text(h.minerId)), Named("schema_version", Int(h.schemaVersion)),
       Named("sequence", Int(h.sequence)), Named("timestamp_unix", Int(h.timestamp)),
       Named("vm_count_running", Int(h.vmRunning)), Named("vm_count_total", Int(h.vmTotal))]
  }

  function CanonicalBody(h: MinerHeartbeat): (r: Option<bytes>) {
    if Valid(h) then ToCanonicalVec(Map(PushedEntries(h))) else None
  }

  /** The encoder as it runs: entries are pushed, the flag only in version 2. */
  method EncodeBody(h: MinerHeartbeat) returns (r: Option<bytes>)
    ensures r == CanonicalBody(h)
  {
    if !Valid(h) { return None; }
    var entries := [Named("cpu_load_1m_centi", Int(h.cpuLoad)), Named("domain", Text(DOMAIN))];
    if h.schemaVersion == VERSION_GRACEFUL_EXIT {
      entries := entries + [Named("graceful_exit_requested", Bool(h.gracefulExit))];
    }
    entries := entries +
      [Named("memory_available_mib", Int(h.memAvailable)), Named("memory_total_mib", Int(h.memTotal)),
       Named("miner_id", Text(h.minerId)), Named("schema_version", Int(h.schemaVersion)),
       Named("sequence", Int(h.sequence)), Named("timestamp_unix", Int(h.timestamp)),
       Named("vm_count_running", Int(h.vmRunning)), Named("vm_count_total", Int(h.vmTotal))];
    assert entries == PushedEntries(h);
    r := ToCanonicalVec(Map(entries));
  }

  // -------- the order on the wire --------

  function WireFront(h: MinerHeartbeat): (es: seq<Entry>) {
    [Named("domain", Text(DOMAIN)), Named("miner_id", Text(h.minerId)), Named("sequence", Int(h.sequence))]
  }

  function WireBack(h: MinerHeartbeat): (es: seq<Entry>) {
    [Named("timestamp_unix", Int(h.timestamp)), Named("vm_count_total", Int(h.vmTotal)),
     Named("memory_total_mib", Int(h.memTotal)), Named("vm_count_running", Int(h.vmRunning)),
     Named("cpu_load_1m_centi", Int(h.cpuLoad)), Named("memory_available_mib", Int(h.memAvailable))]
  }

  function WireEntries(h: MinerHeartbeat): (es: seq<Entry>) {
    WireFront(h) + [Named("schema_version", Int(h.schemaVersion))] + WireBack(h) + Flag(h)
  }

  /** Where each wire entry was pushed. */
  function PushedAt(h: MinerHeartbeat): (p: seq<nat>) {
    var n := |Flag(h)|;
    [1, n + 4, n + 6, n + 5, n + 7, n + 9, n + 3, n + 8, 0, n + 2] + (if n == 0 then [] else [2])
  }

  lemma PushedIsWire(h: MinerHeartbeat)
    ensures |PushedEntries(h)| == |WireEntries(h)| && Permutation(PushedAt(h), |WireEntries(h)|)
    ensures forall i :: 0 <= i < |WireEntries(h)| ==> WireEntries(h)[i] == PushedEntries(h)[PushedAt(h)[i]]
  {
    PushedOnce(h);
    PushedFront(h);
    PushedBack(h);
  }

  lemma PushedFront(h: MinerHeartbeat)
    requires |PushedEntries(h)| == |WireEntries(h)| && Permutation(PushedAt(h), |WireEntries(h)|)
    ensures forall i :: 0 <= i < 5 ==> WireEntries(h)[i] == PushedEntries(h)[PushedAt(h)[i]]
  {
  }

  lemma PushedBack(h: MinerHeartbeat)
    requires |PushedEntries(h)| == |WireEntries(h)| && Permutation(PushedAt(h), |WireEntries(h)|)
    ensures forall i :: 5 <= i < |WireEntries(h)| ==> WireEntries(h)[i] == PushedEntries(h)[PushedAt(h)[i]]
  {
  }

  lemma PushedOnce(h: MinerHeartbeat)
    ensures |PushedEntries(h)| == |WireEntries(h)| && Permutation(PushedAt(h), |WireEntries(h)|)
  {
  }

  lemma WireAscends(h: MinerHeartbeat)
    ensures StrictlyAscending(WireEntries(h))
  {
    FirstLetter("miner_id", "sequence");
    FirstLetter("schema_version", "timestamp_unix");
    FirstLetter("timestamp_unix", "vm_count_total");
    FirstLetter("memory_total_mib", "vm_count_running");
    AscendingTextKeys(WireEntries(h));
  }

  ghost predicate AllGood(es: seq<Entry>) {
    forall i :: 0 <= i < |es| ==> EntryWellFormed(es[i]) && IsCanonicalEntry(es[i])
  }

  lemma DomainEntryGood()
    ensures EntryWellFormed(Named("domain", Text(DOMAIN))) && IsCanonicalEntry(Named("domain", Text(DOMAIN)))
  {
    AsciiIsUtf8(DOMAIN);
    PlainEntry("domain", Text(DOMAIN));
  }

  lemma MinerEntryGood(h: MinerHeartbeat)
    requires Typed(h)
    ensures AllGood([Named("miner_id", Text(h.minerId)), Named("sequence", Int(h.sequence))])
  {
    PlainEntry("miner_id", Text(h.minerId));
    PlainEntry("sequence", Int(h.sequence));
  }

  lemma WireFrontGood(h: MinerHeartbeat)
    requires Typed(h)
    ensures AllGood(WireFront(h))
  {
    var d, m := [Named("domain", Text(DOMAIN))], [Named("miner_id", Text(h.minerId)), Named("sequence", Int(h.sequence))];
    assert AllGood(d) by { DomainEntryGood(); }
    MinerEntryGood(h);
    GoodConcat(d, m);
    assert d + m == WireFront(h);
  }

  lemma VersionAndFlagGood(h: MinerHeartbeat)
    requires Typed(h)
    ensures AllGood([Named("schema_version", Int(h.schemaVersion))]) && AllGood(Flag(h))
  {
    PlainEntry("schema_version", Int(h.schemaVersion));
    PlainEntry("graceful_exit_requested", Bool(h.gracefulExit));
  }

  lemma WireBackGood(h: MinerHeartbeat)
    requires Typed(h)
    ensures AllGood(WireBack(h))
  {
    PlainEntry("timestamp_unix", Int(h.timestamp));
    PlainEntry("vm_count_total", Int(h.vmTotal));
    PlainEntry("memory_total_mib", Int(h.memTotal));
    PlainEntry("vm_count_running", Int(h.vmRunning));
    PlainEntry("cpu_load_1m_centi", Int(h.cpuLoad));
    PlainEntry("memory_available_mib", Int(h.memAvailable));
  }

  lemma WireEntriesGood(h: MinerHeartbeat)
    requires Typed(h)
    ensures AllGood(WireEntries(h))
  {
    WireFrontGood(h);
    VersionAndFlagGood(h);
    WireBackGood(h);
    var f, v, b, g := WireFront(h), [Named("schema_version", Int(h.schemaVersion))], WireBack(h), Flag(h);
    GoodConcat(f, v);
    GoodConcat(f + v, b);
    GoodConcat(f + v + b, g);
  }

  lemma GoodConcat(a: seq<Entry>, b: seq<Entry>)
    requires AllGood(a) && AllGood(b)
    ensures AllGood(a + b)
  {
  }

  /** The body is the map in wire order, and nothing can fail once the heartbeat is valid. */
  lemma BodyIsWire(h: MinerHeartbeat)
    requires Typed(h) && Valid(h)
    ensures WellFormed(Map(WireEntries(h))) && IsCanonical(Map(WireEntries(h)))
    ensures CanonicalBody(h) == Some(Encode(Map(WireEntries(h))))
  {
    WireAscends(h);
    WireEntriesGood(h);
    PushedIsWire(h);
    var p := PushedAt(h);
    CanonicalIsFixed(Map(WireEntries(h)));
    forall i | 0 <= i < |WireEntries(h)| ensures ReorderedEntry(WireEntries(h)[i], PushedEntries(h)[p[i]]) {
      LeafEntryReordered(h, WireEntries(h)[i]);
    }
    assert ReorderedEntries(WireEntries(h), PushedEntries(h), p);
    ReorderedCanonicalizeAlike(Map(WireEntries(h)), Map(PushedEntries(h)));
  }

  lemma LeafEntryReordered(h: MinerHeartbeat, e: Entry)
    requires e in WireEntries(h)
    ensures ReorderedEntry(e, e)
  {
    assert Leaf(e.key) && Leaf(e.val);
  }

  // -------- version 2 extends version 1 --------

  /** Everything before the version number, and everything after it up to the flag. */
  function Prefix(h: MinerHeartbeat): (b: bytes) { EncodeEntries(WireFront(h)) + Encode(Text(Ascii("schema_version"))) }
  function Suffix(h: MinerHeartbeat): (b: bytes) { EncodeEntries(WireBack(h)) }

  lemma RegroupBody(head: bytes, a: bytes, k: bytes, v: bytes, b: bytes, f: bytes)
    ensures head + (a + (k + v) + b + f) == head + (a + k) + v + b + f
  {
  }

  lemma BodyLayout(h: MinerHeartbeat)
    requires Typed(h) && Valid(h)
    ensures CanonicalBody(h) == Some(Head(5, |WireEntries(h)|) + Prefix(h) + [h.schemaVersion] + Suffix(h) + EncodeEntries(Flag(h)))
  {
    BodyIsWire(h);
    var version := [Named("schema_version", Int(h.schemaVersion))];
    EncodeEntriesConcat(WireFront(h) + version + WireBack(h), Flag(h));
    EncodeEntriesConcat(WireFront(h) + version, WireBack(h));
    EncodeEntriesConcat(WireFront(h), version);
    EncodeSingle(version[0]);
    assert Encode(Int(h.schemaVersion)) == [h.schemaVersion];
    RegroupBody(Head(5, |WireEntries(h)|), EncodeEntries(WireFront(h)), Encode(Text(Ascii("schema_version"))),
            [h.schemaVersion], Suffix(h), EncodeEntries(Flag(h)));
  }

  /**
   A version-2 body is the version-1 body of the same fields with two bytes changed, the map head and the
   version number, and the flag pair appended.
   */
  lemma GracefulExitExtendsV1(h: MinerHeartbeat)
    requires Typed(h) && Valid(h) && h.schemaVersion == VERSION_GRACEFUL_EXIT
    ensures Valid(h.(schemaVersion := VERSION_1, gracefulExit := false))
    ensures CanonicalBody(h.(schemaVersion := VERSION_1, gracefulExit := false))
         == Some([0xAA] + Prefix(h) + [1] + Suffix(h))
    ensures CanonicalBody(h) == Some([0xAB] + Prefix(h) + [2] + Suffix(h)
                                     + (Encode(Text(Ascii("graceful_exit_requested"))) + [if h.gracefulExit then 0xF5 else 0xF4]))
  {
    var h1 := h.(schemaVersion := VERSION_1, gracefulExit := false);
    BodyLayout(h);
    BodyLayout(h1);
    assert WireFront(h1) == WireFront(h) && WireBack(h1) == WireBack(h);
    EncodeSingle(Flag(h)[0]);
    assert |WireEntries(h)| == 11 && |WireEntries(h1)| == 10;
    assert EncodeEntries(Flag(h1)) == [];
    var b := [0xAA] + Prefix(h) + [1] + Suffix(h);
    assert b + [] == b;
  }

  // -------- reading the timestamp back --------

  /** The body is a map whose first entry named `timestamp_unix` is the 64-bit integer `n`; the body need not be canonical. */
  ghost predicate HasTimestamp(body: bytes, n: int) {
    && Decode(body).Parsed? && Decode(body).value.Map? && -TWO_63 <= n < TWO_63
    && exists i :: FirstTimestamp(Decode(body).value.entries, i) && Decode(body).value.entries[i].val == Int(n)
  }

  ghost predicate FirstTimestamp(es: seq<Entry>, i: int) {
    && 0 <= i < |es| && es[i].key == Text(Ascii("timestamp_unix"))
    && forall k :: 0 <= k < i ==> es[k].key != Text(Ascii("timestamp_unix"))
  }

  method TimestampUnix(body: bytes) returns (r: Option<int>)
    ensures forall n :: r == Some(n) <==> HasTimestamp(body, n)
  {
    var v := Decode(body);
    if !v.Parsed? || !v.value.Map? { return None; }
    var entries := v.value.entries;
    for i := 0 to |entries|
      invariant forall k :: 0 <= k < i ==> entries[k].key != Text(Ascii("timestamp_unix"))
    {
      if entries[i].key == Text(Ascii("timestamp_unix")) {
        assert FirstTimestamp(entries, i);
        if entries[i].val.Int? && -TWO_63 <= entries[i].val.i < TWO_63 { return Some(entries[i].val.i); }
        return None;
      }
    }
    r := None;
  }

  /** Every heartbeat's body has that heartbeat's timestamp, and no other. */
  lemma HeartbeatTimestamp(h: MinerHeartbeat, n: int)
    requires Typed(h) && Valid(h)
    ensures CanonicalBody(h).Some? && (HasTimestamp(CanonicalBody(h).value, n) <==> n == h.timestamp)
  {
    BodyIsWire(h);
    var body, es := CanonicalBody(h).value, WireEntries(h);
    CanonicalPasses(Map(es));
    FifthIsFirst(h);
    if i :| FirstTimestamp(es, i) && es[i].val == Int(n) {
      TimestampIsFifth(h, i);
    }
  }

  lemma FifthIsFirst(h: MinerHeartbeat)
    ensures FirstTimestamp(WireEntries(h), 4) && WireEntries(h)[4].val == Int(h.timestamp)
  {
    var es := WireEntries(h);
    WireAscends(h);
    assert es[4] == Named("timestamp_unix", Int(h.timestamp));
    forall k | 0 <= k < 4 ensures es[k].key != es[4].key {
      LexTrichotomy(Encode(es[k].key), Encode(es[4].key));
    }
  }

  lemma TimestampIsFifth(h: MinerHeartbeat, i: nat)
    requires i < |WireEntries(h)| && WireEntries(h)[i].key == Text(Ascii("timestamp_unix"))
    ensures WireEntries(h)[i].val == Int(h.timestamp)
  {
    WireAscends(h);
    var es := WireEntries(h);
    assert es[4] == Named("timestamp_unix", Int(h.timestamp));
    LexTrichotomy(Encode(es[4].key), Encode(es[i].key));
  }
}
