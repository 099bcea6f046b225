/** The wire form of a ClientHello record, written the way section 4.1.2 of
    RFC 8446 lays it out, as the reference the decoder is proved against:
    decoding an encoded record gives the record back, a record cut short
    inside a field fails at that field, and the two lenient loops of the
    decoder behave as described in `Decoder`. */
module Encoding {
  import opened Wrappers
  import opened Bytes
  import opened Cursor
  import opened Decoder

  /** The cipher-suite block: each suite as two big-endian bytes. */
  function EncodeWords(ws: seq<uint16>): (s: seq<uint8>)
    ensures |s| == 2 * |ws|
  {
    if ws == [] then [] else ToBigEndian(ws[0], 2) + EncodeWords(ws[1..])
  }

  /** An extension whose payload fits a 16-bit length field. */
  predicate ExtensionFits(e: Extension) {
    |e.data| < 0x1_0000
  }

  /** One extension entry: type, then the payload behind a 16-bit length. */
  function EncodeExtension(e: Extension): (s: seq<uint8>)
    requires ExtensionFits(e)
    ensures |s| == 4 + |e.data|
  {
    ToBigEndian(e.extType, 2) + LengthPrefixed(2, e.data)
  }

  /** The extension block: the entries back to back in list order. */
  function EncodeExtensions(es: seq<Extension>): (s: seq<uint8>)
    requires forall i :: 0 <= i < |es| ==> ExtensionFits(es[i])
  {
    if es == [] then [] else EncodeExtension(es[0]) + EncodeExtensions(es[1..])
  }

  /** Every variable-length field of the body fits its length field. */
  predicate BodyEncodable(h: ClientHello) {
    && |h.randomBytes| == 28
    && |h.sessionId| < 0x100
    && |h.cipherSuites| < 0x8000
    && |h.compressionMethods| < 0x100
    && (forall i :: 0 <= i < |h.extensions| ==> ExtensionFits(h.extensions[i]))
    && |EncodeExtensions(h.extensions)| < 0x1_0000
  }

  /** The ClientHello body: client version, Random (time, then 28 bytes),
      session id, cipher suites, compression methods, extensions. */
  function EncodeBody(h: ClientHello): seq<uint8>
    requires BodyEncodable(h)
  {
    ToBigEndian(h.handshakeVersion, 2)
      + (ToBigEndian(h.randomTime, 4)
      + (h.randomBytes
      + (LengthPrefixed(1, h.sessionId)
      + (LengthPrefixed(2, EncodeWords(h.cipherSuites))
      + (LengthPrefixed(1, h.compressionMethods)
      + LengthPrefixed(2, EncodeExtensions(h.extensions)))))))
  }

  /** A body framed by a handshake header inside a record header. */
  function Frame(contentType: uint8, messageVersion: uint16, handshakeType: uint8,
                 body: seq<uint8>): (s: seq<uint8>)
    requires |body| + 4 < 0x1_0000
    ensures |s| == 9 + |body|
  {
    [contentType] + (ToBigEndian(messageVersion, 2)
      + LengthPrefixed(2, [handshakeType] + LengthPrefixed(3, body)))
  }

  /** The whole record fits the 16-bit record length. */
  predicate Encodable(h: ClientHello) {
    BodyEncodable(h) && |EncodeBody(h)| + 4 < 0x1_0000
  }

  function EncodeRecord(h: ClientHello): seq<uint8>
    requires Encodable(h)
  {
    Frame(h.contentType, h.messageVersion, h.handshakeType, EncodeBody(h))
  }

  /** Some entries in front of what a loop produces; a spinning loop still spins. */
  function Prepend(es: seq<Extension>, l: Loop<seq<Extension>>): Loop<seq<Extension>> {
    match l
    case Spins => Spins
    case Done(rest) => Done(es + rest)
  }

  /** An even cipher block is read back as the suites it encodes. */
  lemma {:induction false} CipherSuiteWordsOf(ws: seq<uint16>)
    ensures CipherSuiteWords(EncodeWords(ws)) == Done(ws)
  {
    if ws != [] {
      ReadUintOf(ws[0], 2, EncodeWords(ws[1..]));
      CipherSuiteWordsOf(ws[1..]);
      assert [ws[0]] + ws[1..] == ws;
    }
  }

  /** One well-formed entry in front of any tail is enumerated first. */
  lemma ExtensionEntriesStep(e: Extension, more: seq<uint8>)
    requires ExtensionFits(e)
    ensures ExtensionEntries(EncodeExtension(e) + more) == Prepend([e], ExtensionEntries(more))
  {
    var s := EncodeExtension(e) + more;
    assert s == ToBigEndian(e.extType, 2) + (LengthPrefixed(2, e.data) + more);
    ReadUintOf(e.extType, 2, LengthPrefixed(2, e.data) + more);
    ReadLengthPrefixedOf(2, e.data, more);
  }

  /** Well-formed entries in front of any tail are enumerated in wire order,
      byte for byte, before the loop goes on with the tail. */
  lemma {:induction false} ExtensionEntriesOf(es: seq<Extension>, tail: seq<uint8>)
    requires forall i :: 0 <= i < |es| ==> ExtensionFits(es[i])
    ensures ExtensionEntries(EncodeExtensions(es) + tail) == Prepend(es, ExtensionEntries(tail))
  {
    if es == [] {
      assert EncodeExtensions(es) + tail == tail;
      PrependNothing(ExtensionEntries(tail));
    } else {
      var more := EncodeExtensions(es[1..]) + tail;
      assert EncodeExtensions(es) + tail == EncodeExtension(es[0]) + more;
      ExtensionEntriesStep(es[0], more);
      ExtensionEntriesOf(es[1..], tail);
      PrependTwice(es[0], es[1..], ExtensionEntries(tail));
      assert [es[0]] + es[1..] == es;
    }
  }

  lemma PrependNothing(l: Loop<seq<Extension>>)
    ensures Prepend([], l) == l
  {
    if l.Done? {
      assert [] + l.value == l.value;
    }
  }

  lemma PrependTwice(e: Extension, es: seq<Extension>, l: Loop<seq<Extension>>)
    ensures Prepend([e], Prepend(es, l)) == Prepend([e] + es, l)
  {
    if l.Done? {
      assert [e] + (es + l.value) == [e] + es + l.value;
    }
  }

  /** A block of well-formed entries is read back exactly. */
  lemma {:induction false} ExtensionEntriesRoundTrip(es: seq<Extension>)
    requires forall i :: 0 <= i < |es| ==> ExtensionFits(es[i])
    ensures ExtensionEntries(EncodeExtensions(es)) == Done(es)
  {
    ExtensionEntriesOf(es, []);
    assert EncodeExtensions(es) + [] == EncodeExtensions(es);
    assert es + [] == es;
  }

  /** A stray byte after well-formed entries makes the loop spin: the type
      read fails on it without consuming it. */
  lemma {:induction false} StrayByteSpins(es: seq<Extension>, b: uint8)
    requires forall i :: 0 <= i < |es| ==> ExtensionFits(es[i])
    ensures ExtensionEntries(EncodeExtensions(es) + [b]) == Spins
  {
    ExtensionEntriesOf(es, [b]);
  }

  /** An entry whose length runs past the block does not end enumeration:
      its type and length are consumed and the loop carries on with the
      bytes of the would-be payload as if they were further entries. */
  lemma {:induction false} OverlongEntryResumesInside(es: seq<Extension>, extType: uint16, length: uint16,
                                   tail: seq<uint8>)
    requires forall i :: 0 <= i < |es| ==> ExtensionFits(es[i])
    requires |tail| < length
    ensures ExtensionEntries(EncodeExtensions(es) + (ToBigEndian(extType, 2) + (ToBigEndian(length, 2) + tail)))
         == Prepend(es, ExtensionEntries(tail))
  {
    var entry := ToBigEndian(extType, 2) + (ToBigEndian(length, 2) + tail);
    ExtensionEntriesOf(es, entry);
    ReadUintOf(extType, 2, ToBigEndian(length, 2) + tail);
    var after := ToBigEndian(length, 2) + tail;
    assert after[..2] == ToBigEndian(length, 2);
    FromToBigEndian(length, 2);
    assert after[2..] == tail;
  }

  /** The read of the body whose field holds byte n of the encoding: cutting
      the body just before byte n makes exactly that read run short. */
  function FieldAt(h: ClientHello, n: nat): DecodeError
    requires BodyEncodable(h)
  {
    var sessionEnd := 35 + |h.sessionId|;
    var suitesEnd := sessionEnd + 2 + 2 * |h.cipherSuites|;
    var compressionEnd := suitesEnd + 1 + |h.compressionMethods|;
    if n < 2 then ClientVersion
    else if n < 6 then RandomTime
    else if n < 34 then RandomBytes
    else if n < sessionEnd then SessionId
    else if n < suitesEnd then CipherSuites
    else if n < compressionEnd then CompressionMethods
    else ExtensionsBlock
  }

  lemma PrefixOfConcat<T>(a: seq<T>, b: seq<T>, n: nat)
    requires |a| <= n <= |a| + |b|
    ensures (a + b)[..n] == a + b[..n - |a|]
  {
  }

  /** An encoded body, followed by anything, decodes to the record it encodes. */
  lemma {:induction false} DecodeBodyOf(h: ClientHello, tail: seq<uint8>)
    requires BodyEncodable(h)
    ensures DecodeBody(h.contentType, h.messageVersion, h.handshakeType, EncodeBody(h) + tail)
         == Decoded(h)
  {
    var s3 := BodyAfterRandom(h) + tail;
    ReadsFixedFields(h, tail);
    ReadsListFields(h, tail);
    CipherSuiteWordsOf(h.cipherSuites);
    ExtensionEntriesRoundTrip(h.extensions);
  }

  /** The client version, random time and random bytes at the head of an
      encoded body. */
  lemma ReadsFixedFields(h: ClientHello, tail: seq<uint8>)
    requires BodyEncodable(h)
    ensures var s1 := BodyAfterVersion(h) + tail;
      var s2 := BodyAfterTime(h) + tail;
      && ReadUint(EncodeBody(h) + tail, 2) == Read(Some(h.handshakeVersion as nat), s1)
      && ReadUint(s1, 4) == Read(Some(h.randomTime as nat), s2)
      && ReadBytes(s2, 28) == Read(Some(h.randomBytes), BodyAfterRandom(h) + tail)
  {
    Pow256Values();
    ReadsClientVersion(h, tail);
    var s2 := BodyAfterTime(h) + tail;
    Reassociate(ToBigEndian(h.randomTime, 4), BodyAfterTime(h), tail);
    ReadUintOf(h.randomTime, 4, s2);
    Reassociate(h.randomBytes, BodyAfterRandom(h), tail);
    assert s2[..28] == h.randomBytes && s2[28..] == BodyAfterRandom(h) + tail;
  }

  lemma ReadsClientVersion(h: ClientHello, tail: seq<uint8>)
    requires BodyEncodable(h)
    ensures ReadUint(EncodeBody(h) + tail, 2) == Read(Some(h.handshakeVersion as nat), BodyAfterVersion(h) + tail)
  {
    Pow256Values();
    assert EncodeBody(h) == ToBigEndian(h.handshakeVersion, 2) + BodyAfterVersion(h);
    Reassociate(ToBigEndian(h.handshakeVersion, 2), BodyAfterVersion(h), tail);
    ReadUintOf(h.handshakeVersion, 2, BodyAfterVersion(h) + tail);
  }

  lemma Reassociate<T>(a: seq<T>, b: seq<T>, c: seq<T>)
    ensures (a + b) + c == a + (b + c)
  {
  }

  /** The four length-prefixed fields after the random bytes. */
  lemma ReadsListFields(h: ClientHello, tail: seq<uint8>)
    requires BodyEncodable(h)
    ensures var s4 := BodyAfterSession(h) + tail;
      var s5 := BodyAfterSuites(h) + tail;
      var s6 := LengthPrefixed(2, EncodeExtensions(h.extensions)) + tail;
      && ReadLengthPrefixed(BodyAfterRandom(h) + tail, 1) == Read(Some(h.sessionId), s4)
      && ReadLengthPrefixed(s4, 2) == Read(Some(EncodeWords(h.cipherSuites)), s5)
      && ReadLengthPrefixed(s5, 1) == Read(Some(h.compressionMethods), s6)
      && ReadLengthPrefixed(s6, 2) == Read(Some(EncodeExtensions(h.extensions)), tail)
  {
    Pow256Values();
    ReadPiece(1, h.sessionId, BodyAfterSession(h), tail);
    ReadPiece(2, EncodeWords(h.cipherSuites), BodyAfterSuites(h), tail);
    ReadPiece(1, h.compressionMethods, LengthPrefixed(2, EncodeExtensions(h.extensions)), tail);
    ReadLengthPrefixedOf(2, EncodeExtensions(h.extensions), tail);
  }

  /** A length-prefixed piece at the head of a nested concatenation. */
  lemma ReadPiece(k: nat, payload: seq<uint8>, rest: seq<uint8>, tail: seq<uint8>)
    requires |payload| < Pow256(k)
    ensures ReadLengthPrefixed((LengthPrefixed(k, payload) + rest) + tail, k) == Read(Some(payload), rest + tail)
  {
    Reassociate(LengthPrefixed(k, payload), rest, tail);
    ReadLengthPrefixedOf(k, payload, rest + tail);
  }

  /** The handshake header in front of a body: its type, then the body
      behind a 24-bit length. */
  lemma ReadsHandshakeHeader(handshakeType: uint8, body: seq<uint8>)
    requires |body| < 0x100_0000
    ensures var inner := [handshakeType] + LengthPrefixed(3, body);
            && ReadUint(inner, 1) == Read(Some(handshakeType), LengthPrefixed(3, body))
            && ReadLengthPrefixed(LengthPrefixed(3, body), 3) == Read(Some(body), [])
  {
    Pow256Values();
    assert [handshakeType] + LengthPrefixed(3, body) == ToBigEndian(handshakeType, 1) + LengthPrefixed(3, body);
    ReadUintOf(handshakeType, 1, LengthPrefixed(3, body));
    ReadLengthPrefixedOf(3, body, []);
    assert LengthPrefixed(3, body) + [] == LengthPrefixed(3, body);
  }

  /** A framed body, followed by anything, decodes as the body does. */
  lemma DecodeFrameOf(contentType: uint8, messageVersion: uint16, handshakeType: uint8,
                      body: seq<uint8>, tail: seq<uint8>)
    requires |body| + 4 < 0x1_0000
    ensures Decode(Frame(contentType, messageVersion, handshakeType, body) + tail)
         == DecodeBody(contentType, messageVersion, handshakeType, body)
  {
    Pow256Values();
    var inner := [handshakeType] + LengthPrefixed(3, body);
    var s2 := LengthPrefixed(2, inner) + tail;
    var s1 := ToBigEndian(messageVersion, 2) + s2;
    assert Frame(contentType, messageVersion, handshakeType, body) + tail == ToBigEndian(contentType, 1) + s1;
    ReadUintOf(contentType, 1, s1);
    ReadUintOf(messageVersion, 2, s2);
    ReadLengthPrefixedOf(2, inner, tail);
    ReadsHandshakeHeader(handshakeType, body);
  }

  /** Round trip: an encoded record, followed by anything, decodes to itself. */
  lemma {:induction false} DecodeEncode(h: ClientHello, tail: seq<uint8>)
    requires Encodable(h)
    ensures Decode(EncodeRecord(h) + tail) == Decoded(h)
  {
    DecodeFrameOf(h.contentType, h.messageVersion, h.handshakeType, EncodeBody(h), tail);
    DecodeBodyOf(h, []);
    assert EncodeBody(h) + [] == EncodeBody(h);
  }

  lemma PrefixOfFirst<T>(a: seq<T>, b: seq<T>, n: nat)
    requires n <= |a|
    ensures (a + b)[..n] == a[..n]
  {
  }

  /** The pieces of an encoded body, each nested to the right. */
  lemma BodyPieces(h: ClientHello)
    requires BodyEncodable(h)
    ensures EncodeBody(h) == ToBigEndian(h.handshakeVersion, 2) + BodyAfterVersion(h)
    ensures BodyAfterVersion(h) == ToBigEndian(h.randomTime, 4) + BodyAfterTime(h)
    ensures BodyAfterTime(h) == h.randomBytes + BodyAfterRandom(h)
    ensures BodyAfterRandom(h) == LengthPrefixed(1, h.sessionId) + BodyAfterSession(h)
    ensures BodyAfterSession(h) == LengthPrefixed(2, EncodeWords(h.cipherSuites)) + BodyAfterSuites(h)
    ensures BodyAfterSuites(h)
         == LengthPrefixed(1, h.compressionMethods) + LengthPrefixed(2, EncodeExtensions(h.extensions))
  {
  }

  function BodyAfterSuites(h: ClientHello): seq<uint8>
    requires BodyEncodable(h)
  {
    LengthPrefixed(1, h.compressionMethods) + LengthPrefixed(2, EncodeExtensions(h.extensions))
  }

  function BodyAfterSession(h: ClientHello): seq<uint8>
    requires BodyEncodable(h)
  {
    LengthPrefixed(2, EncodeWords(h.cipherSuites)) + BodyAfterSuites(h)
  }

  function BodyAfterRandom(h: ClientHello): seq<uint8>
    requires BodyEncodable(h)
  {
    LengthPrefixed(1, h.sessionId) + BodyAfterSession(h)
  }

  function BodyAfterTime(h: ClientHello): seq<uint8>
    requires BodyEncodable(h)
  {
    h.randomBytes + BodyAfterRandom(h)
  }

  function BodyAfterVersion(h: ClientHello): seq<uint8>
    requires BodyEncodable(h)
  {
    ToBigEndian(h.randomTime, 4) + BodyAfterTime(h)
  }

  /** Cutting inside the client version, the time or the 28 random bytes. */
  lemma TruncatedInRandom(h: ClientHello, n: nat)
    requires BodyEncodable(h) && n < 34
    ensures DecodeBody(h.contentType, h.messageVersion, h.handshakeType, EncodeBody(h)[..n])
         == Failed(FieldAt(h, n))
  {
    BodyPieces(h);
    if 2 <= n {
      PrefixOfConcat(ToBigEndian(h.handshakeVersion, 2), BodyAfterVersion(h), n);
      ReadUintOf(h.handshakeVersion, 2, BodyAfterVersion(h)[..n - 2]);
      if 6 <= n {
        PrefixOfConcat(ToBigEndian(h.randomTime, 4), BodyAfterTime(h), n - 2);
        ReadUintOf(h.randomTime, 4, BodyAfterTime(h)[..n - 6]);
      }
    }
  }

  /** Past the random bytes, the cut leaves the first 34 bytes whole. */
  lemma TruncatedAfterRandom(h: ClientHello, n: nat)
    requires BodyEncodable(h) && 34 <= n <= |EncodeBody(h)|
    ensures EncodeBody(h)[..n]
         == ToBigEndian(h.handshakeVersion, 2)
              + (ToBigEndian(h.randomTime, 4) + (h.randomBytes + BodyAfterRandom(h)[..n - 34]))
  {
    BodyPieces(h);
    PrefixOfConcat(ToBigEndian(h.handshakeVersion, 2), BodyAfterVersion(h), n);
    PrefixOfConcat(ToBigEndian(h.randomTime, 4), BodyAfterTime(h), n - 2);
    PrefixOfConcat(h.randomBytes, BodyAfterRandom(h), n - 6);
  }

  /** What the first three reads of the body leave on a cut past byte 34. */
  lemma ReadsUpToRandom(h: ClientHello, c: seq<uint8>)
    requires |h.randomBytes| == 28
    ensures var s := ToBigEndian(h.handshakeVersion, 2)
                       + (ToBigEndian(h.randomTime, 4) + (h.randomBytes + c));
            && ReadUint(s, 2) == Read(Some(h.handshakeVersion), ToBigEndian(h.randomTime, 4) + (h.randomBytes + c))
            && ReadUint(ReadUint(s, 2).rest, 4) == Read(Some(h.randomTime), h.randomBytes + c)
            && ReadBytes(h.randomBytes + c, 28) == Read(Some(h.randomBytes), c)
  {
    Pow256Values();
    ReadUintOf(h.handshakeVersion, 2, ToBigEndian(h.randomTime, 4) + (h.randomBytes + c));
    ReadUintOf(h.randomTime, 4, h.randomBytes + c);
    assert (h.randomBytes + c)[..28] == h.randomBytes;
    assert (h.randomBytes + c)[28..] == c;
  }

  /** The body up to the 28 random bytes, whole, followed by `c`. */
  function UpToRandom(h: ClientHello, c: seq<uint8>): seq<uint8> {
    ToBigEndian(h.handshakeVersion, 2) + (ToBigEndian(h.randomTime, 4) + (h.randomBytes + c))
  }

  /** The body up to the cipher-suite block, whole, followed by `c`. */
  function UpToSuites(h: ClientHello, c: seq<uint8>): seq<uint8>
    requires BodyEncodable(h)
  {
    UpToRandom(h, LengthPrefixed(1, h.sessionId) + (LengthPrefixed(2, EncodeWords(h.cipherSuites)) + c))
  }

  lemma SessionShort(h: ClientHello, c: seq<uint8>)
    requires |h.randomBytes| == 28 && ReadLengthPrefixed(c, 1).value.None?
    ensures DecodeBody(h.contentType, h.messageVersion, h.handshakeType, UpToRandom(h, c))
         == Failed(SessionId)
  {
    ReadsUpToRandom(h, c);
  }

  lemma SuitesShort(h: ClientHello, c: seq<uint8>)
    requires BodyEncodable(h) && ReadLengthPrefixed(c, 2).value.None?
    ensures DecodeBody(h.contentType, h.messageVersion, h.handshakeType,
                       UpToRandom(h, LengthPrefixed(1, h.sessionId) + c))
         == Failed(CipherSuites)
  {
    Pow256Values();
    ReadsUpToRandom(h, LengthPrefixed(1, h.sessionId) + c);
    ReadLengthPrefixedOf(1, h.sessionId, c);
  }

  /** The reads of the body up to and including the cipher-suite loop. */
  lemma ReadsUpToSuites(h: ClientHello, c: seq<uint8>)
    requires BodyEncodable(h)
    ensures var afterRandom := LengthPrefixed(1, h.sessionId) + (LengthPrefixed(2, EncodeWords(h.cipherSuites)) + c);
            var afterSession := LengthPrefixed(2, EncodeWords(h.cipherSuites)) + c;
            && ReadLengthPrefixed(afterRandom, 1) == Read(Some(h.sessionId), afterSession)
            && ReadLengthPrefixed(afterSession, 2) == Read(Some(EncodeWords(h.cipherSuites)), c)
            && CipherSuiteWords(EncodeWords(h.cipherSuites)) == Done(h.cipherSuites)
  {
    Pow256Values();
    ReadLengthPrefixedOf(1, h.sessionId, LengthPrefixed(2, EncodeWords(h.cipherSuites)) + c);
    ReadLengthPrefixedOf(2, EncodeWords(h.cipherSuites), c);
    CipherSuiteWordsOf(h.cipherSuites);
  }

  lemma CompressionShort(h: ClientHello, c: seq<uint8>)
    requires BodyEncodable(h) && ReadLengthPrefixed(c, 1).value.None?
    ensures DecodeBody(h.contentType, h.messageVersion, h.handshakeType, UpToSuites(h, c))
         == Failed(CompressionMethods)
  {
    ReadsUpToRandom(h, LengthPrefixed(1, h.sessionId) + (LengthPrefixed(2, EncodeWords(h.cipherSuites)) + c));
    ReadsUpToSuites(h, c);
  }

  lemma ExtensionsShort(h: ClientHello, c: seq<uint8>)
    requires BodyEncodable(h) && ReadLengthPrefixed(c, 2).value.None?
    ensures DecodeBody(h.contentType, h.messageVersion, h.handshakeType,
                       UpToSuites(h, LengthPrefixed(1, h.compressionMethods) + c))
         == Failed(ExtensionsBlock)
  {
    Pow256Values();
    var d := LengthPrefixed(1, h.compressionMethods) + c;
    ReadsUpToRandom(h, LengthPrefixed(1, h.sessionId) + (LengthPrefixed(2, EncodeWords(h.cipherSuites)) + d));
    ReadsUpToSuites(h, d);
    ReadLengthPrefixedOf(1, h.compressionMethods, c);
  }

  /** Cutting inside the session id or the cipher-suite block. */
  lemma TruncatedInSuites(h: ClientHello, n: nat)
    requires BodyEncodable(h) && 34 <= n < 37 + |h.sessionId| + 2 * |h.cipherSuites|
    ensures DecodeBody(h.contentType, h.messageVersion, h.handshakeType, EncodeBody(h)[..n])
         == Failed(FieldAt(h, n))
  {
    Pow256Values();
    BodyPieces(h);
    TruncatedAfterRandom(h, n);
    var p3 := LengthPrefixed(1, h.sessionId);
    if n - 34 < |p3| {
      PrefixOfFirst(p3, BodyAfterSession(h), n - 34);
      ReadLengthPrefixedTruncated(1, h.sessionId, n - 34);
      SessionShort(h, BodyAfterRandom(h)[..n - 34]);
    } else {
      PrefixOfConcat(p3, BodyAfterSession(h), n - 34);
      var p4 := LengthPrefixed(2, EncodeWords(h.cipherSuites));
      PrefixOfFirst(p4, BodyAfterSuites(h), n - 34 - |p3|);
      ReadLengthPrefixedTruncated(2, EncodeWords(h.cipherSuites), n - 34 - |p3|);
      SuitesShort(h, BodyAfterSession(h)[..n - 34 - |p3|]);
    }
  }

  /** Past the cipher-suite block, the cut leaves everything before it whole. */
  lemma TruncatedAfterSuites(h: ClientHello, n: nat)
    requires BodyEncodable(h) && 37 + |h.sessionId| + 2 * |h.cipherSuites| <= n <= |EncodeBody(h)|
    ensures EncodeBody(h)[..n]
         == UpToSuites(h, BodyAfterSuites(h)[..n - (37 + |h.sessionId| + 2 * |h.cipherSuites|)])
  {
    Pow256Values();
    BodyPieces(h);
    TruncatedAfterRandom(h, n);
    var p3 := LengthPrefixed(1, h.sessionId);
    var p4 := LengthPrefixed(2, EncodeWords(h.cipherSuites));
    PrefixOfConcat(p3, BodyAfterSession(h), n - 34);
    PrefixOfConcat(p4, BodyAfterSuites(h), n - 34 - |p3|);
  }

  /** Cutting inside the compression methods or the extension block. */
  lemma TruncatedInExtensions(h: ClientHello, n: nat)
    requires BodyEncodable(h) && 37 + |h.sessionId| + 2 * |h.cipherSuites| <= n < |EncodeBody(h)|
    ensures DecodeBody(h.contentType, h.messageVersion, h.handshakeType, EncodeBody(h)[..n])
         == Failed(FieldAt(h, n))
  {
    var m := n - (37 + |h.sessionId| + 2 * |h.cipherSuites|);
    if m < 1 + |h.compressionMethods| {
      TruncatedInCompressionField(h, n);
    } else {
      TruncatedInExtensionBlock(h, n);
    }
  }

  lemma TruncatedInCompressionField(h: ClientHello, n: nat)
    requires BodyEncodable(h)
    requires 37 + |h.sessionId| + 2 * |h.cipherSuites| <= n
    requires n < 38 + |h.sessionId| + 2 * |h.cipherSuites| + |h.compressionMethods|
    ensures DecodeBody(h.contentType, h.messageVersion, h.handshakeType, EncodeBody(h)[..n])
         == Failed(CompressionMethods)
  {
    Pow256Values();
    BodyLength(h);
    var p5 := LengthPrefixed(1, h.compressionMethods);
    var p6 := LengthPrefixed(2, EncodeExtensions(h.extensions));
    var m := n - (37 + |h.sessionId| + 2 * |h.cipherSuites|);
    TruncatedAfterSuites(h, n);
    assert BodyAfterSuites(h) == p5 + p6;
    PrefixOfFirst(p5, p6, m);
    ReadLengthPrefixedTruncated(1, h.compressionMethods, m);
    assert ReadLengthPrefixed(BodyAfterSuites(h)[..m], 1).value.None?;
    CompressionShort(h, BodyAfterSuites(h)[..m]);
  }

  lemma TruncatedInExtensionBlock(h: ClientHello, n: nat)
    requires BodyEncodable(h)
    requires 38 + |h.sessionId| + 2 * |h.cipherSuites| + |h.compressionMethods| <= n < |EncodeBody(h)|
    ensures DecodeBody(h.contentType, h.messageVersion, h.handshakeType, EncodeBody(h)[..n])
         == Failed(ExtensionsBlock)
  {
    Pow256Values();
    BodyLength(h);
    var p5 := LengthPrefixed(1, h.compressionMethods);
    var p6 := LengthPrefixed(2, EncodeExtensions(h.extensions));
    var m := n - (37 + |h.sessionId| + 2 * |h.cipherSuites|);
    TruncatedAfterSuites(h, n);
    assert BodyAfterSuites(h) == p5 + p6;
    PrefixOfConcat(p5, p6, m);
    assert |p5| <= m < |p5| + |p6|;
    assert EncodeBody(h)[..n] == UpToSuites(h, p5 + p6[..m - |p5|]);
    ReadLengthPrefixedTruncated(2, EncodeExtensions(h.extensions), m - |p5|);
    assert ReadLengthPrefixed(p6[..m - |p5|], 2).value.None?;
    ExtensionsShort(h, p6[..m - |p5|]);
  }

  lemma BodyLength(h: ClientHello)
    requires BodyEncodable(h)
    ensures |EncodeBody(h)| == 37 + |h.sessionId| + 2 * |h.cipherSuites| + |BodyAfterSuites(h)|
    ensures |BodyAfterSuites(h)| == 3 + |h.compressionMethods| + |EncodeExtensions(h.extensions)|
  {
    BodyPieces(h);
  }

  /** A body cut short before its end fails, and fails at the read whose field
      the cut falls in; nothing after that read is looked at. */
  lemma TruncatedBodyFails(h: ClientHello, n: nat)
    requires BodyEncodable(h) && n < |EncodeBody(h)|
    ensures DecodeBody(h.contentType, h.messageVersion, h.handshakeType, EncodeBody(h)[..n])
         == Failed(FieldAt(h, n))
  {
    if n < 34 {
      TruncatedInRandom(h, n);
    } else if n < 37 + |h.sessionId| + 2 * |h.cipherSuites| {
      TruncatedInSuites(h, n);
    } else {
      TruncatedInExtensions(h, n);
    }
  }

  /** A ClientHello whose body is cut short at byte n, but framed with
      consistent lengths, fails at the read whose field holds byte n. */
  lemma TruncatedHelloFails(h: ClientHello, n: nat)
    requires BodyEncodable(h) && n < |EncodeBody(h)| && |EncodeBody(h)| + 4 < 0x1_0000
    ensures Decode(Frame(h.contentType, h.messageVersion, h.handshakeType, EncodeBody(h)[..n]))
         == Failed(FieldAt(h, n))
  {
    var f := Frame(h.contentType, h.messageVersion, h.handshakeType, EncodeBody(h)[..n]);
    DecodeFrameOf(h.contentType, h.messageVersion, h.handshakeType, EncodeBody(h)[..n], []);
    assert f + [] == f;
    TruncatedBodyFails(h, n);
  }
}
