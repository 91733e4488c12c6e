/** The types the dataplane shares with user space: configuration, the two NAT
    tables' keys and values, and the small functions on them. */
module Abi {
  import opened Words
  import opened Checksum

  const V4_POOL_MAX: nat := 16
  const COOLDOWN_SIZE: nat := 64

  /** The configuration map entry; `v4Pool` always has its sixteen slots. */
  datatype DataplaneConfig = DataplaneConfig(
    prefix96: seq<byte>,
    v4Pool: seq<u32>,
    v4PoolLen: u32,
    portMin: u16,
    portMax: u16,
    sessionTimeoutSecs: u32,
    bridge: u32,
    uplink: u32
  )

  predicate WellFormed(cfg: DataplaneConfig) {
    |cfg.prefix96| == 12 && |cfg.v4Pool| == V4_POOL_MAX
  }

  /** Reverse-lookup key: the external tuple. */
  datatype NatKey = NatKey(extV4: u32, extPort: u16, proto: byte)

  /** Forward-flow key: the whole five-tuple. */
  datatype FwdKey = FwdKey(vmV6: Addr6, remoteV4: u32, vmPort: u16, remotePort: u16, proto: byte)

  datatype NatVal = NatVal(vmV6: Addr6, vmPort: u16, remoteV4: u32, remotePort: u16, generation: u32, lastSeen: nat)

  function NatTupleMatches(v: NatVal, ipv4Src: u32, srcPort: u16): bool {
    v.remoteV4 == ipv4Src && v.remotePort == srcPort
  }

  /** The IPv4 address in the last four bytes of a /96 destination. */
  function EmbeddedV4(dst: Addr6): u32 {
    Be32(dst[12], dst[13], dst[14], dst[15])
  }

  const WELL_KNOWN_PREFIX: seq<byte> := [0x00, 0x64, 0xff, 0x9b, 0, 0, 0, 0, 0, 0, 0, 0]

  /** Source address given to replies: always under the well-known prefix. */
  function Nat64SourceV6(ipv4Src: u32): Addr6 {
    WELL_KNOWN_PREFIX + Be32Bytes(ipv4Src)
  }

  /** Synthesising the reply source undoes the extraction exactly when the client
      addressed the remote through the well-known prefix. */
  lemma SourceUndoesEmbedding(dst: Addr6)
    ensures Nat64SourceV6(EmbeddedV4(dst)) == dst <==> dst[..12] == WELL_KNOWN_PREFIX
  {
    Be32BytesInverse(dst[12], dst[13], dst[14], dst[15]);
    assert dst == dst[..12] + [dst[12], dst[13], dst[14], dst[15]];
    assert Nat64SourceV6(EmbeddedV4(dst))[..12] == WELL_KNOWN_PREFIX;
  }
}
