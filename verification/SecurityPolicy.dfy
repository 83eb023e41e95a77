/** `SecurityPolicy`: which cipher suites and versions the proxy lets pass. */
module SecurityPolicy {
  import opened Bytes
  import opened TlsDefinition
  import opened Sequences

  const LOWEST_ALLOWED_VERSION := TLS_1_2

  const ALLOWED_CIPHER_SUITES: set<uint16> :=
    {0xC02F, 0xC030, 0xC02B, 0xC02C, 0x1301, 0x1302, 0x1303}

  /** At least one of the suites offered is allowed. */
  predicate OffersAllowedSuite(suites: seq<uint16>) {
    exists i :: 0 <= i < |suites| && suites[i] in ALLOWED_CIPHER_SUITES
  }

  method CheckCipherSuites(suites: seq<uint16>) returns (ok: bool)
    ensures ok == OffersAllowedSuite(suites)
  {
    for i := 0 to |suites|
      invariant forall k :: 0 <= k < i ==> suites[k] !in ALLOWED_CIPHER_SUITES
    {
      if suites[i] in ALLOWED_CIPHER_SUITES {
        return true;
      }
    }
    return false;
  }

  /** The versions not below the lowest allowed one, in order. */
  function Hardened(versions: seq<uint16>): seq<uint16> {
    if versions == [] then []
    else (if versions[0] < LOWEST_ALLOWED_VERSION then [] else [versions[0]]) + Hardened(versions[1..])
  }

  lemma {:induction false} HardenedKeepsExactly(versions: seq<uint16>, v: uint16)
    ensures multiset(Hardened(versions))[v] == if v < LOWEST_ALLOWED_VERSION then 0 else multiset(versions)[v]
  {
    if versions != [] {
      HardenedKeepsExactly(versions[1..], v);
      assert versions == [versions[0]] + versions[1..];
    }
  }

  /** Just those from TLS 1.2 on are kept, as often as they stand there, in order. */
  lemma {:induction false} HardenedInOrder(versions: seq<uint16>, keep: uint16 -> bool)
    requires forall v :: keep(v) <==> v >= 0x303
    ensures Keeps(versions, keep, Hardened(versions))
  {
    hide Keeps;
    if versions == [] {
      KeepsNone(keep);
    } else {
      var first, rest := versions[0], versions[1..];
      HardenedInOrder(rest, keep);
      KeepsFirst(keep, first, rest, Hardened(rest));
      assert versions == [first] + rest && [] + Hardened(rest) == Hardened(rest);
    }
  }

  predicate WellTypedVersions(es: seq<Extension>) {
    forall i :: 0 <= i < |es| && es[i].kind == SUPPORTED_VERSIONS ==> es[i].content.Numbers?
  }

  lemma VersionsWellTyped(es: seq<Extension>)
    requires AllWellTyped(es)
    ensures WellTypedVersions(es)
  {
    assert forall i :: 0 <= i < |es| ==> es[i] in es;
  }

  predicate OffersVersion(es: seq<Extension>) {
    exists i :: 0 <= i < |es| && es[i].kind == SUPPORTED_VERSIONS && es[i].content != Numbers([])
  }

  function HardenedExtension(e: Extension): Extension {
    if e.kind == SUPPORTED_VERSIONS && e.content.Numbers? then e.(content := Numbers(Hardened(e.content.numbers))) else e
  }

  /** `HardenVersions`: hardens a copy, and drops both the copy and its verdict. */
  method HardenVersions(h: HandshakeMessage) returns (ok: bool)
    requires WellTyped(h)
    ensures ok
  {
    if h.kind == CLIENT_HELLO {
      var message := h.content.client;
      VersionsWellTyped(message.extensions);
      var _, version, hardened := HardenVersionsInternal(message.legacyVersion, message.extensions);
      message := message.(legacyVersion := version, extensions := hardened);
    } else if h.kind == SERVER_HELLO {
      var message := h.content.server;
      VersionsWellTyped(message.extensions);
      var _, version, hardened := HardenVersionsInternal(message.legacyVersion, message.extensions);
      message := message.(legacyVersion := version, extensions := hardened);
    }
    return true;
  }

  /** `HardenVersionsInternal`, on a copy of a hello's version and extensions. */
  method HardenVersionsInternal(legacyVersion: uint16, extensions: seq<Extension>)
    returns (supported: bool, version: uint16, hardened: seq<Extension>)
    requires WellTypedVersions(extensions)
    ensures version == if legacyVersion < LOWEST_ALLOWED_VERSION then LOWEST_ALLOWED_VERSION else legacyVersion
    ensures |hardened| == |extensions|
    ensures forall i :: 0 <= i < |extensions| ==> hardened[i] == HardenedExtension(extensions[i])
    ensures supported <==> (legacyVersion >= LOWEST_ALLOWED_VERSION || OffersVersion(hardened))
  {
    supported, version, hardened := legacyVersion >= LOWEST_ALLOWED_VERSION, legacyVersion, extensions;
    if !supported {
      version := LOWEST_ALLOWED_VERSION;
    }
    for i := 0 to |extensions|
      invariant |hardened| == |extensions|
      invariant forall k :: 0 <= k < i ==> hardened[k] == HardenedExtension(extensions[k])
      invariant forall k :: i <= k < |extensions| ==> hardened[k] == extensions[k]
      invariant supported <==> (legacyVersion >= LOWEST_ALLOWED_VERSION || OffersVersion(hardened[..i]))
    {
      if extensions[i].kind != SUPPORTED_VERSIONS {
        continue;
      }
      var versions := RemoveBelow(extensions[i].content.numbers);
      hardened := hardened[i := extensions[i].(content := Numbers(versions))];
      supported := supported || |versions| != 0;
      assert hardened[..i + 1][i] == hardened[i];
    }
    assert hardened[..|extensions|] == hardened;
  }

  /** `erase` after `remove_if`. */
  method RemoveBelow(versions: seq<uint16>) returns (kept: seq<uint16>)
    ensures kept == Hardened(versions)
  {
    kept := [];
    for i := 0 to |versions|
      invariant Hardened(versions) == kept + Hardened(versions[i..])
    {
      if versions[i] >= LOWEST_ALLOWED_VERSION {
        kept := kept + [versions[i]];
      }
    }
  }
}
