/** `FpContextData.Ja4` (fp.go:269-319) and `FpContextData.ClientHello`
    (fp.go:327-329).

    The context keeps the raw ClientHello record and the connection state of
    the finished handshake; only the negotiated version, the server name and
    the negotiated ALPN protocol take part. SHA-256 and the IP-literal test of
    `gtls.ParseHost` are parameters: any function with the right shape. */
module Ja4 {
  import opened Bytes
  import opened Decoder
  import opened Encoding
  import opened Fields
  import opened Grease
  import opened Sorting
  import opened Text

  datatype ConnectionState = ConnectionState(version: uint16, serverName: string, negotiatedProtocol: string)

  datatype FpContext = FpContext(clientHelloData: seq<uint8>, connectionState: ConnectionState)

  type Digest = d: seq<uint8> | |d| == 32 witness seq(32, _ => 0)

  datatype Primitives = Primitives(sha256: seq<uint8> -> Digest, isIpLiteral: string -> bool)

  /** `ClientHello()`: the context's record decoded afresh on every call. */
  function ClientHelloOf(ctx: FpContext): (r: Outcome)
    ensures r.Decoded? ==> 49 <= |ctx.clientHelloData| && ctx.clientHelloData[0] == r.hello.contentType
    ensures r.Failed? && r.error == ContentType <==> ctx.clientHelloData == []
  {
    DecodeRecordErrors(ctx.clientHelloData);
    Decode(ctx.clientHelloData)
  }

  /** The two-digit code of the negotiated version: TLS 1.0 to 1.3 give their
      minor version plus ten, everything else "00". */
  function VersionCode(v: uint16): (r: string)
    ensures |r| == 2 && AllDigits(r)
    ensures r == "00" <==> !(0x0301 <= v <= 0x0304)
    ensures 0x0301 <= v <= 0x0304 ==> r == Decimal(v - 0x0301 + 10)
  {
    match v
    case 0x0301 => "10"
    case 0x0302 => "11"
    case 0x0303 => "12"
    case 0x0304 => "13"
    case _ => "00"
  }

  /** 'd' for a server name that is present and not an IP literal, else 'i'. */
  function ServerNameCode(name: string, isIpLiteral: string -> bool): (c: char)
    ensures c == 'd' || c == 'i'
    ensures c == 'd' <==> name != "" && !isIpLiteral(name)
  {
    if name == "" then 'i'
    else if isIpLiteral(name) then 'i'
    else 'd'
  }

  /** The two-character ALPN code: the protocol's first two bytes, padded with
      '0', except "h1" for "http/1.1". */
  function AlpnCode(p: string): (r: string)
    ensures |r| == 2
    ensures p == "http/1.1" ==> r == "h1"
    ensures p != "http/1.1" ==> r == (p + "00")[..2]
  {
    match |p|
    case 0 => "00"
    case 1 => p + "0"
    case 2 => p
    case _ => if p == "http/1.1" then "h1" else p[..2]
  }

  /** Segment A: protocol 't', version code, server-name code, the GREASE-free
      cipher and extension counts in plain decimal, ALPN code. */
  function Ja4A(t: TlsData, cs: ConnectionState, prim: Primitives): (a: string)
    ensures 6 <= |a|
    ensures a[0] == 't'
    ensures a[1..3] == VersionCode(cs.version)
    ensures a[3] == ServerNameCode(cs.serverName, prim.isIpLiteral)
    ensures a[|a| - 2..] == AlpnCode(cs.negotiatedProtocol)
    ensures a[4..|a| - 2] == Decimal(|ClearGrease(t.ciphers)|) + Decimal(|ClearGrease(t.extensions)|)
  {
    var head := "t" + VersionCode(cs.version) + [ServerNameCode(cs.serverName, prim.isIpLiteral)];
    var counts := Decimal(|ClearGrease(t.ciphers)|) + Decimal(|ClearGrease(t.extensions)|);
    var alpn := AlpnCode(cs.negotiatedProtocol);
    ThreePieces(head, counts, alpn);
    assert head[1..3] == VersionCode(cs.version);
    head + counts + alpn
  }

  /** Where the pieces of a concatenation sit. */
  lemma ThreePieces(x: string, y: string, z: string)
    ensures (x + y + z)[..|x|] == x
    ensures (x + y + z)[|x|..|x| + |y|] == y
    ensures (x + y + z)[|x| + |y|..] == z
  {
  }

  /** `[]byte` of a joined list of decimals: every character is a digit. */
  function DigitBytes(values: seq<nat>): (b: seq<uint8>)
    ensures |b| == |AnyJoin(values, "")|
    ensures forall i :: 0 <= i < |b| ==> '0' as int <= b[i] <= '9' as int
  {
    AsBytes(AnyJoin(values, ""))
  }

  /** The first 12 hex digits of a digest: those of its first six bytes. */
  function Truncated(d: Digest): (s: string)
    ensures |s| == 12
    ensures s == Hex(d[..6])
    ensures forall i :: 0 <= i < 12 ==> IsLowerHex(s[i])
  {
    HexPrefix(d, 6);
    Hex(d)[..12]
  }

  /** Segment B: the digest of the sorted GREASE-free cipher suites. */
  function Ja4B(t: TlsData, prim: Primitives): (b: string)
    ensures |b| == 12
    ensures forall i :: 0 <= i < 12 ==> IsLowerHex(b[i])
  {
    var ciphers: seq<uint16> := Sort(ClearGrease(t.ciphers));
    Truncated(prim.sha256(DigitBytes(ciphers)))
  }

  /** Segment C: the digest of the sorted GREASE-free extension types followed
      by the signature algorithms as received. */
  function Ja4C(t: TlsData, prim: Primitives): (c: string)
    ensures |c| == 12
    ensures forall i :: 0 <= i < 12 ==> IsLowerHex(c[i])
  {
    var exts: seq<uint16> := Sort(ClearGrease(t.extensions));
    var input: seq<uint8> := DigitBytes(exts) + DigitBytes(t.algorithms);
    Truncated(prim.sha256(input))
  }

  /** The three segments joined by '_'; the last two have fixed width, so the
      string splits at known positions from the end. */
  function Ja4Of(t: TlsData, cs: ConnectionState, prim: Primitives): (r: string)
    ensures var n := |Ja4A(t, cs, prim)|;
      && |r| == n + 26
      && r[..n] == Ja4A(t, cs, prim)
      && r[n] == '_' && r[n + 13] == '_'
      && r[n + 1..n + 13] == Ja4B(t, prim)
      && r[n + 14..] == Ja4C(t, prim)
  {
    var a := Ja4A(t, cs, prim);
    var b := Ja4B(t, prim);
    var c := Ja4C(t, prim);
    Ja4Layout(a, b, c);
    Join([a, b, c], "_")
  }

  /** Where the segments sit in the joined fingerprint. */
  lemma Ja4Layout(a: string, b: string, c: string)
    requires |b| == 12 && |c| == 12
    ensures var r := Join([a, b, c], "_");
      && |r| == |a| + 26
      && r[..|a|] == a
      && r[|a|] == '_' && r[|a| + 13] == '_'
      && r[|a| + 1..|a| + 13] == b
      && r[|a| + 14..] == c
  {
    JoinThree(a, b, c, "_");
    var r := a + "_" + b + "_" + c;
    assert r[..|a|] == a;
    assert r[|a| + 1..|a| + 13] == b;
    assert r[|a| + 14..] == c;
  }

  /** What `Ja4()` makes of the outcome of `ClientHello()`: "" for an error,
      the fingerprint of the TLS data of a decoded hello, and no result when
      decoding never returns. */
  function Fingerprint(o: Outcome, cs: ConnectionState, d: ExtensionDecoders, prim: Primitives): (r: Loop<string>)
    ensures r == Spins <==> o.Hangs?
    ensures r == Done("") <==> o.Failed?
    ensures o.Decoded? ==> r == Done(Ja4Of(ToTlsData(o.hello, d), cs, prim))
  {
    match o
    case Hangs => Spins
    case Failed(_) => Done("")
    case Decoded(hello) => Done(Ja4Of(ToTlsData(hello, d), cs, prim))
  }

  /** `Ja4()`: "" when the record does not decode, otherwise the fingerprint
      of its TLS data. A record whose cipher or extension loop never ends
      never yields a fingerprint. */
  function Ja4(ctx: FpContext, d: ExtensionDecoders, prim: Primitives): (r: Loop<string>)
    ensures r == Spins <==> ClientHelloOf(ctx).Hangs?
    ensures r == Done("") <==> ClientHelloOf(ctx).Failed?
    ensures ClientHelloOf(ctx).Decoded? ==>
              r == Done(Ja4Of(ToTlsData(ClientHelloOf(ctx).hello, d), ctx.connectionState, prim))
  {
    Fingerprint(ClientHelloOf(ctx), ctx.connectionState, d, prim)
  }

  /** Segment B and the extension half of segment C forget wire order and
      GREASE: two hellos whose cipher suites and extension types agree as
      bags of non-GREASE values, and whose signature algorithms agree, give
      the same fingerprint. */
  lemma {:induction false} Ja4PermutationInvariant(t1: TlsData, t2: TlsData, cs: ConnectionState, prim: Primitives)
    requires forall v :: !IsGrease(v) ==> multiset(t1.ciphers)[v] == multiset(t2.ciphers)[v]
    requires forall v :: !IsGrease(v) ==> multiset(t1.extensions)[v] == multiset(t2.extensions)[v]
    requires t1.algorithms == t2.algorithms
    ensures Ja4Of(t1, cs, prim) == Ja4Of(t2, cs, prim)
  {
    ClearGreasePermutation(t1.ciphers, t2.ciphers);
    ClearGreasePermutation(t1.extensions, t2.extensions);
    SameBagSameSort(ClearGrease(t1.ciphers), ClearGrease(t2.ciphers));
    SameBagSameSort(ClearGrease(t1.extensions), ClearGrease(t2.extensions));
    assert Ja4A(t1, cs, prim) == Ja4A(t2, cs, prim);
    assert Ja4B(t1, prim) == Ja4B(t2, prim);
    assert Ja4C(t1, prim) == Ja4C(t2, prim);
  }

  lemma {:induction false} SameBagSameSort(a: seq<uint16>, b: seq<uint16>)
    requires multiset(a) == multiset(b)
    ensures Sort(a) == Sort(b) && |a| == |b|
  {
    SortPermutation(a, b);
    assert |multiset(a)| == |multiset(b)|;
  }

  /** A context holding a well-formed record, whatever follows it, yields
      the fingerprint of that hello. */
  lemma {:induction false} Ja4OfEncoded(ctx: FpContext, h: ClientHello, tail: seq<uint8>, d: ExtensionDecoders, prim: Primitives)
    requires Encodable(h) && ctx.clientHelloData == EncodeRecord(h) + tail
    ensures Ja4(ctx, d, prim) == Done(Ja4Of(ToTlsData(h, d), ctx.connectionState, prim))
  {
    DecodeEncode(h, tail);
  }

  /** A record whose handshake body stops short of its end yields "". */
  lemma {:induction false} Ja4OfTruncatedIsEmpty(ctx: FpContext, h: ClientHello, n: nat, d: ExtensionDecoders, prim: Primitives)
    requires BodyEncodable(h) && n < |EncodeBody(h)| && |EncodeBody(h)| + 4 < 0x1_0000
    requires ctx.clientHelloData == Frame(h.contentType, h.messageVersion, h.handshakeType, EncodeBody(h)[..n])
    ensures Ja4(ctx, d, prim) == Done("")
  {
    TruncatedHelloFails(h, n);
  }
}
