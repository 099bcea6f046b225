/** `ClientHello.TlsData` (fp.go:104-123) and the five extension getters
    (fp.go:125-191). Each getter walks the extensions in wire order and returns
    the decoded value of the first extension of its type that the extension
    decoder accepts; an earlier occurrence that does not decode is skipped.

    The per-type decoders live in the utls library, which is not part of this
    model: they are a parameter, one partial decoder per type code, and every
    property below holds whatever they are. */
module Fields {
  import opened Wrappers
  import opened Bytes
  import opened Decoder

  /** `createExtension` for the five types the getters ask for: None where
      it reports failure. */
  datatype ExtensionDecoders = ExtensionDecoders(
    curves: seq<uint8> -> Option<seq<uint16>>,
    points: seq<uint8> -> Option<seq<uint8>>,
    algorithms: seq<uint8> -> Option<seq<uint16>>,
    protocols: seq<uint8> -> Option<seq<string>>,
    versions: seq<uint8> -> Option<seq<uint16>>)

  const SupportedGroupsType: uint16 := 10
  const PointFormatsType: uint16 := 11
  const SignatureAlgorithmsType: uint16 := 13
  const AlpnType: uint16 := 16
  const SupportedVersionsType: uint16 := 43

  /** Extension i has type `code` and is the first of that type to decode. */
  predicate FirstHit<T>(exts: seq<Extension>, code: uint16, decode: seq<uint8> -> Option<T>, i: int) {
    && 0 <= i < |exts| && exts[i].extType == code && decode(exts[i].data).Some?
    && forall j :: 0 <= j < i && exts[j].extType == code ==> decode(exts[j].data).None?
  }

  /** No extension of type `code` decodes. */
  predicate NoHit<T>(exts: seq<Extension>, code: uint16, decode: seq<uint8> -> Option<T>) {
    forall i :: 0 <= i < |exts| && exts[i].extType == code ==> decode(exts[i].data).None?
  }

  /** The first extension of type `code` whose payload decodes, and its value. */
  function FirstDecoded<T>(exts: seq<Extension>, code: uint16, decode: seq<uint8> -> Option<T>)
    : (r: Option<T>)
    ensures r.None? <==> NoHit(exts, code, decode)
    ensures forall i :: FirstHit(exts, code, decode, i) ==> r == decode(exts[i].data)
  {
    if exts == [] then None
    else if exts[0].extType == code && decode(exts[0].data).Some? then decode(exts[0].data)
    else
      var r := FirstDecoded(exts[1..], code, decode);
      assert forall i :: 1 <= i < |exts| ==> exts[1..][i - 1] == exts[i];
      assert forall i :: FirstHit(exts, code, decode, i) ==> FirstHit(exts[1..], code, decode, i - 1);
      r
  }

  /** `Curves`: the supported groups of the first type-10 extension that
      decodes, nil when none does. */
  function Curves(h: ClientHello, d: ExtensionDecoders): (r: seq<uint16>)
    ensures NoHit(h.extensions, 10, d.curves) ==> r == []
    ensures forall i :: FirstHit(h.extensions, 10, d.curves, i) ==> r == d.curves(h.extensions[i].data).value
  {
    FirstDecoded(h.extensions, SupportedGroupsType, d.curves).GetOr([])
  }

  /** `Points`: the point formats of the first type-11 extension that
      decodes. */
  function Points(h: ClientHello, d: ExtensionDecoders): (r: seq<uint8>)
    ensures NoHit(h.extensions, 11, d.points) ==> r == []
    ensures forall i :: FirstHit(h.extensions, 11, d.points, i) ==> r == d.points(h.extensions[i].data).value
  {
    FirstDecoded(h.extensions, PointFormatsType, d.points).GetOr([])
  }

  /** `Algorithms`: the signature algorithms of the first type-13 extension
      that decodes. */
  function Algorithms(h: ClientHello, d: ExtensionDecoders): (r: seq<uint16>)
    ensures NoHit(h.extensions, 13, d.algorithms) ==> r == []
    ensures forall i :: FirstHit(h.extensions, 13, d.algorithms, i) ==> r == d.algorithms(h.extensions[i].data).value
  {
    FirstDecoded(h.extensions, SignatureAlgorithmsType, d.algorithms).GetOr([])
  }

  /** `Protocols`: the ALPN protocol names of the first type-16 extension
      that decodes. */
  function Protocols(h: ClientHello, d: ExtensionDecoders): (r: seq<string>)
    ensures NoHit(h.extensions, 16, d.protocols) ==> r == []
    ensures forall i :: FirstHit(h.extensions, 16, d.protocols, i) ==> r == d.protocols(h.extensions[i].data).value
  {
    FirstDecoded(h.extensions, AlpnType, d.protocols).GetOr([])
  }

  /** `Versions`: the supported versions of the first type-43 extension that
      decodes. */
  function Versions(h: ClientHello, d: ExtensionDecoders): (r: seq<uint16>)
    ensures NoHit(h.extensions, 43, d.versions) ==> r == []
    ensures forall i :: FirstHit(h.extensions, 43, d.versions, i) ==> r == d.versions(h.extensions[i].data).value
  {
    FirstDecoded(h.extensions, SupportedVersionsType, d.versions).GetOr([])
  }

  /** The list fields of `TlsData`; the text renderings of the random,
      session id and compression methods are not modelled. */
  datatype TlsData = TlsData(
    ciphers: seq<uint16>,
    curves: seq<uint16>,
    extensions: seq<uint16>,
    points: seq<uint16>,
    protocols: seq<string>,
    versions: seq<uint16>,
    algorithms: seq<uint16>)

  /** The type code of every extension, in wire order, duplicates included. */
  function ExtensionTypes(exts: seq<Extension>): (types: seq<uint16>)
    ensures |types| == |exts|
    ensures forall i :: 0 <= i < |exts| ==> types[i] == exts[i].extType
  {
    if exts == [] then [] else [exts[0].extType] + ExtensionTypes(exts[1..])
  }

  /** The point formats widened from bytes to 16-bit values. */
  function Widen(points: seq<uint8>): (wide: seq<uint16>)
    ensures |wide| == |points|
    ensures forall i :: 0 <= i < |points| ==> wide[i] == points[i] as int
  {
    if points == [] then [] else [points[0] as uint16] + Widen(points[1..])
  }

  /** `ClientHello.TlsData`: the suites as decoded, the extension types in
      wire order, the point formats widened, and the other lists as the
      getters return them. */
  function ToTlsData(h: ClientHello, d: ExtensionDecoders): (t: TlsData)
    ensures t.ciphers == h.cipherSuites
    ensures t.curves == Curves(h, d) && t.protocols == Protocols(h, d)
    ensures t.versions == Versions(h, d) && t.algorithms == Algorithms(h, d)
    ensures |t.extensions| == |h.extensions|
    ensures forall i :: 0 <= i < |h.extensions| ==> t.extensions[i] == h.extensions[i].extType
    ensures |t.points| == |Points(h, d)|
    ensures forall i :: 0 <= i < |t.points| ==> t.points[i] == Points(h, d)[i] as int
  {
    TlsData(h.cipherSuites, Curves(h, d), ExtensionTypes(h.extensions), Widen(Points(h, d)),
            Protocols(h, d), Versions(h, d), Algorithms(h, d))
  }

  /** The scan stops at the first hit: extensions after a decodable one
      never matter, and extensions before any hit are passed over. */
  lemma {:induction false} FirstDecodedAppend<T>(a: seq<Extension>, b: seq<Extension>, code: uint16,
                                                 decode: seq<uint8> -> Option<T>)
    ensures FirstDecoded(a + b, code, decode)
         == if FirstDecoded(a, code, decode).Some? then FirstDecoded(a, code, decode)
            else FirstDecoded(b, code, decode)
  {
    if a == [] {
      assert a + b == b;
    } else {
      assert (a + b)[1..] == a[1..] + b;
      FirstDecodedAppend(a[1..], b, code, decode);
    }
  }
}
