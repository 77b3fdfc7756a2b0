/** Which heartbeats encode, and what their bodies say, key by key. */
module HeartbeatReads {
  import opened ByteStrings
  import opened Cbor
  import opened Canonical
  import opened Records
  import opened Lookups
  import opened Heartbeat

  /** A map built from entries has as many keys as there are entries, and holds each. */
  lemma {:induction false} CollectedSize(es: seq<Entry>)
    requires StringMap(es).Some?
    ensures |StringMap(es).value| == |es|
  {
    if es != [] {
      CollectedSize(es[..|es| - 1]);
    }
  }

  lemma Collected(es: seq<Entry>, i: nat)
    requires StringMap(es).Some? && i < |es|
    ensures es[i].key.Text? && es[i].key.t in StringMap(es).value && StringMap(es).value[es[i].key.t] == es[i].val
  {
    StringMapRepresents(es);
    assert es[i] in es;
  }

  predicate HoldsInt(m: StringKeyed, name: string, n: int) { Ascii(name) in m && m[Ascii(name)] == Int(n) }

  /** The ten keys every heartbeat has. */
  ghost predicate TenKeys(m: StringKeyed, h: MinerHeartbeat) {
    && HoldsText(m, "domain", Ascii("HIPPIUS_MINER_HEARTBEAT_V1")) && HoldsText(m, "miner_id", h.minerId)
    && HoldsInt(m, "sequence", h.sequence) && HoldsInt(m, "schema_version", h.schemaVersion)
    && HoldsInt(m, "timestamp_unix", h.timestamp)
    && HoldsInt(m, "vm_count_total", h.vmTotal) && HoldsInt(m, "vm_count_running", h.vmRunning)
    && HoldsInt(m, "memory_total_mib", h.memTotal) && HoldsInt(m, "memory_available_mib", h.memAvailable)
    && HoldsInt(m, "cpu_load_1m_centi", h.cpuLoad)
  }

  /** In version 2 the flag is the eleventh key, in version 1 there is none. */
  ghost predicate FlagKey(m: StringKeyed, h: MinerHeartbeat) {
    if h.schemaVersion == 2
    then |m| == 11 && Ascii("graceful_exit_requested") in m && m[Ascii("graceful_exit_requested")] == Bool(h.gracefulExit)
    else |m| == 10
  }

  lemma WireCollects(h: MinerHeartbeat)
    ensures StringMap(WireEntries(h)).Some? && |StringMap(WireEntries(h)).value| == |WireEntries(h)|
  {
    WireAscends(h);
    CanonicalKeysCollect(WireEntries(h));
    CollectedSize(WireEntries(h));
  }

  lemma WireFrontReads(h: MinerHeartbeat)
    requires StringMap(WireEntries(h)).Some?
    ensures var m := StringMap(WireEntries(h)).value;
            && HoldsText(m, "domain", DOMAIN) && HoldsText(m, "miner_id", h.minerId)
            && HoldsInt(m, "sequence", h.sequence) && HoldsInt(m, "schema_version", h.schemaVersion)
            && HoldsInt(m, "timestamp_unix", h.timestamp)
  {
    var es := WireEntries(h);
    Collected(es, 0);
    Collected(es, 1);
    Collected(es, 2);
    Collected(es, 3);
    Collected(es, 4);
  }

  lemma WireBackReads(h: MinerHeartbeat)
    requires StringMap(WireEntries(h)).Some?
    ensures var m := StringMap(WireEntries(h)).value;
            && HoldsInt(m, "vm_count_total", h.vmTotal) && HoldsInt(m, "vm_count_running", h.vmRunning)
            && HoldsInt(m, "memory_total_mib", h.memTotal) && HoldsInt(m, "memory_available_mib", h.memAvailable)
            && HoldsInt(m, "cpu_load_1m_centi", h.cpuLoad)
  {
    var es := WireEntries(h);
    Collected(es, 5);
    Collected(es, 6);
    Collected(es, 7);
    Collected(es, 8);
    Collected(es, 9);
  }

  lemma WireFlagReads(h: MinerHeartbeat)
    requires Valid(h) && StringMap(WireEntries(h)).Some? && |StringMap(WireEntries(h)).value| == |WireEntries(h)|
    ensures FlagKey(StringMap(WireEntries(h)).value, h)
  {
    if h.schemaVersion == 2 {
      Collected(WireEntries(h), 10);
    }
  }

  /**
   A heartbeat encodes exactly when its version is 1 or 2, a version-1 one does not ask for a graceful exit, its domain is
   the heartbeat domain and its miner id has 1 to 64 bytes; and then its body is a canonical map with exactly its keys,
   each holding its own field.
   */
  lemma HeartbeatReadsBack(h: MinerHeartbeat)
    requires Typed(h)
    ensures CanonicalBody(h).Some? <==>
              && (h.schemaVersion == 2 || (h.schemaVersion == 1 && !h.gracefulExit))
              && h.domain == Ascii("HIPPIUS_MINER_HEARTBEAT_V1") && 1 <= |h.minerId| <= 64
    ensures CanonicalBody(h).Some? ==>
              var m := BodyMap(CanonicalBody(h).value);
              m.Some? && TenKeys(m.value, h) && FlagKey(m.value, h)
  {
    if Valid(h) {
      BodyIsWire(h);
      CanonicalPasses(Map(WireEntries(h)));
      WireCollects(h);
      WireFrontReads(h);
      WireBackReads(h);
      WireFlagReads(h);
    }
  }
}
