/** Recognising a QUIC long header, section 17.2 of RFC 9000. */
module Quic {
  import opened Bytes
  import opened Types

  const MAX_ID := 20
  const VERSION_1: seq<Byte> := [0, 0, 0, 1]
  const VERSION_2: seq<Byte> := [0x6b, 0x33, 0x43, 0xcf]

  /** The connection ids of a long header with a known version; the packet type does not matter. */
  function ParseQuicInitial(d: seq<Byte>): Option<AppProtocol> {
    if |d| < 7 || d[0] < 0x80 || d[0] / 0x40 % 2 == 0 || d[1..5] !in [VERSION_1, VERSION_2] then None
    else
      var dcid := d[5];
      if dcid > MAX_ID || |d| < 6 + dcid + 1 then None
      else
        var scid := d[6 + dcid];
        if scid > MAX_ID || |d| < 7 + dcid + scid then None
        else Some(QuicInitial(d[6..6 + dcid], d[7 + dcid..7 + dcid + scid]))
  }

  /** A long header with its first byte, version and connection ids, and what follows. */
  function Print(flags: Byte, version: seq<Byte>, dcid: seq<Byte>, scid: seq<Byte>, rest: seq<Byte>): seq<Byte>
    requires |dcid| < 256 && |scid| < 256
  {
    [flags] + version + [|dcid|] + (dcid + ([|scid|] + (scid + rest)))
  }

  /**
   * A printed header is recognised, with its ids, exactly when the two top bits are set, the version is
   * known and the ids are not too long: every type of long header packet is taken for an Initial one.
   */
  lemma HeaderRecognised(
      flags: Byte, version: seq<Byte>, dcid: seq<Byte>, scid: seq<Byte>, rest: seq<Byte>)
    requires |version| == 4 && |dcid| < 256 && |scid| < 256
    ensures ParseQuicInitial(Print(flags, version, dcid, scid, rest)) ==
            if flags >= 0xC0 && version in [VERSION_1, VERSION_2] && |dcid| <= MAX_ID && |scid| <= MAX_ID
            then Some(QuicInitial(dcid, scid)) else None
  {
    var d := Print(flags, version, dcid, scid, rest);
    assert d[6..] == dcid + ([|scid|] + (scid + rest));
    Taken(d, 6, dcid, [|scid|] + (scid + rest));
    Taken(d, 6 + |dcid|, [|scid|], scid + rest);
    Taken(d, 7 + |dcid|, scid, rest);
    TakenAt(d, 6 + |dcid|, [|scid|], scid + rest, 0);
    assert d[1..5] == version && d[5] == |dcid|;
  }
}
