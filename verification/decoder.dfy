/** `decodeClientHello` (fp.go:193-268): one pass of cryptobyte reads over a
    TLS record carrying a ClientHello handshake message. The record layer is
    section 5.1 of RFC 8446, the handshake header section 4 and the ClientHello
    body section 4.1.2. Neither the content type nor the handshake type is
    checked, and bytes after a length-prefixed block are ignored. */
module Decoder {
  import opened Wrappers
  import opened Bytes
  import opened Cursor

  /** One extension entry: its type code and its undecoded payload. */
  datatype Extension = Extension(extType: uint16, data: seq<uint8>)

  /** The decoded record; the 32-byte Random is split into a 4-byte time and
      28 further bytes. */
  datatype ClientHello = ClientHello(
    contentType: uint8,
    messageVersion: uint16,
    handshakeVersion: uint16,
    handshakeType: uint8,
    randomTime: uint32,
    randomBytes: seq<uint8>,
    sessionId: seq<uint8>,
    cipherSuites: seq<uint16>,
    compressionMethods: seq<uint8>,
    extensions: seq<Extension>)

  /** A loop of the decoder either ends with a value or never returns. */
  datatype Loop<T> = Done(value: T) | Spins

  /** The read that ran short, one per failure point of `decodeClientHello`. */
  datatype DecodeError =
    | ContentType | RecordVersion | HandshakeProtocol | HandshakeType | HandshakeBody
    | ClientVersion | RandomTime | RandomBytes | SessionId | CipherSuites
    | CompressionMethods | ExtensionsBlock
  {
    /** The text of the error `decodeClientHello` returns. Twelve reads can fail but
        only ten texts exist: the time and the 28 random bytes share one, and
        so do the handshake body and the extensions block. Each names a
        field and ends in " error". */
    function Message(): (m: string)
      ensures 6 < |m| && forall k :: 0 <= k < 6 ==> m[|m| - 6 + k] == " error"[k]
    {
      match this
      case ContentType => "contentType error"
      case RecordVersion => "tlsMinVersion error"
      case HandshakeProtocol => "handShakeProtocol error"
      case HandshakeType => "handShakeType error"
      case HandshakeBody => "handShakeData error"
      case ClientVersion => "tlsMaxVersion error"
      case RandomTime => "randomTime error"
      case RandomBytes => "randomTime error"
      case SessionId => "sessionId error"
      case CipherSuites => "cipherSuites error"
      case CompressionMethods => "compressionMethods error"
      case ExtensionsBlock => "handShakeData error"
    }

    /** The read lies inside the ClientHello body rather than in the record
        or handshake header. */
    predicate InBody() {
      !(ContentType? || RecordVersion? || HandshakeProtocol? || HandshakeType? || HandshakeBody?)
    }
  }

  /** Two reads report the same text exactly when they are the same read or
      one of the two pairs that share a text. */
  lemma {:induction false} SharedMessages(a: DecodeError, b: DecodeError)
    ensures a.Message() == b.Message() <==>
      || a == b
      || ({a, b} == {RandomTime, RandomBytes})
      || ({a, b} == {HandshakeBody, ExtensionsBlock})
  {
    if a != b && a.Message() == b.Message() {
      assert {a, b} == {RandomTime, RandomBytes} || {a, b} == {HandshakeBody, ExtensionsBlock} by {
        match a
        case RandomTime => assert b == RandomBytes;
        case RandomBytes => assert b == RandomTime;
        case HandshakeBody => assert b == ExtensionsBlock;
        case ExtensionsBlock => assert b == HandshakeBody;
        case _ => assert false;
      }
    }
  }

  /** What a call of the decoder comes to: a record, the read that ran short,
      or no return at all. */
  datatype Outcome = Decoded(hello: ClientHello) | Failed(error: DecodeError) | Hangs

  /** The cipher-suite loop: big-endian 16-bit words while bytes remain. With
      one byte left `ReadUint16` fails without consuming it, so an odd-length
      block keeps the loop running forever. */
  function CipherSuiteWords(block: seq<uint8>): (r: Loop<seq<uint16>>)
    ensures r.Done? <==> |block| % 2 == 0
    ensures r.Done? ==> |r.value| == |block| / 2
    ensures r.Done? ==> forall i :: 0 <= i < |r.value| ==>
      r.value[i] == block[2 * i] as int * 256 + block[2 * i + 1] as int
    decreases |block|
  {
    if |block| == 0 then Done([])
    else
      var w := ReadUint(block, 2);
      if w.value.None? then Spins
      else
        BigEndian16(block[..2]);
        match CipherSuiteWords(w.rest)
        case Spins => Spins
        case Done(ws) => Done([w.value.value] + ws)
  }

  /** The extension loop: while bytes remain, a 16-bit type and a
      16-bit-length-prefixed payload. A failed read does not end the loop: a
      type read with one byte left spins forever, and a payload read that
      runs short has consumed the type and length, so the loop resumes inside
      the announced payload. */
  function ExtensionEntries(block: seq<uint8>): (r: Loop<seq<Extension>>)
    ensures r.Done? ==> 4 * |r.value| <= |block|
    ensures r.Done? ==> forall i :: 0 <= i < |r.value| ==> |r.value[i].data| < 0x1_0000
    decreases |block|
  {
    if |block| == 0 then Done([])
    else
      var t := ReadUint(block, 2);
      if t.value.None? then Spins
      else
        var d := ReadLengthPrefixed(t.rest, 2);
        match d.value
        case None => ExtensionEntries(d.rest)
        case Some(payload) =>
          Pow256Values();
          assert |payload| <= FromBigEndian(t.rest[..2]) < 0x1_0000;
          match ExtensionEntries(d.rest)
          case Spins => Spins
          case Done(es) => Done([Extension(t.value.value, payload)] + es)
  }

  /** Fewer than four bytes hold no entry: an even count ends the loop with
      nothing, since a lone type leaves no length to read, and an odd count
      leaves one byte that the type read can never take. */
  lemma {:induction false} ExtensionEntriesShortBlock(block: seq<uint8>)
    requires |block| < 4
    ensures ExtensionEntries(block) == Spins <==> |block| % 2 == 1
    ensures |block| % 2 == 0 ==> ExtensionEntries(block) == Done([])
  {
    if |block| == 3 {
      assert ExtensionEntries(block[2..]) == Spins;
    } else if |block| == 2 {
      assert ExtensionEntries(block[2..]) == Done([]);
    }
  }

  /** The ClientHello body, after the handshake header (fp.go:219-266). The
      record-layer and handshake-header fields read before it are passed in. */
  function DecodeBody(contentType: uint8, messageVersion: uint16, handshakeType: uint8,
                      body: seq<uint8>): (r: Outcome)
    ensures r.Decoded? ==>
              && r.hello.contentType == contentType
              && r.hello.messageVersion == messageVersion
              && r.hello.handshakeType == handshakeType
    ensures r.Failed? ==> r.error.InBody()
    ensures r == Failed(ClientVersion) <==> |body| < 2
  {
    var version := ReadUint(body, 2);
    if version.value.None? then Failed(ClientVersion)
    else
      var time := ReadUint(version.rest, 4);
      if time.value.None? then Failed(RandomTime)
      else
        var random := ReadBytes(time.rest, 28);
        if random.value.None? then Failed(RandomBytes)
        else
          var session := ReadLengthPrefixed(random.rest, 1);
          if session.value.None? then Failed(SessionId)
          else
            var ciphers := ReadLengthPrefixed(session.rest, 2);
            if ciphers.value.None? then Failed(CipherSuites)
            else
              match CipherSuiteWords(ciphers.value.value)
              case Spins => Hangs
              case Done(suites) =>
                var compression := ReadLengthPrefixed(ciphers.rest, 1);
                if compression.value.None? then Failed(CompressionMethods)
                else
                  var extensions := ReadLengthPrefixed(compression.rest, 2);
                  if extensions.value.None? then Failed(ExtensionsBlock)
                  else
                    match ExtensionEntries(extensions.value.value)
                    case Spins => Hangs
                    case Done(entries) =>
                      Decoded(ClientHello(contentType, messageVersion, version.value.value,
                                          handshakeType, time.value.value, random.value.value,
                                          session.value.value, suites, compression.value.value,
                                          entries))
  }

  /** What the length prefixes allow a decoded body to hold: a 28-byte
      random, at most 255 session-id bytes and compression methods, and at
      most 0x7FFF cipher suites, in a body of at least 40 bytes: the 34 bytes
      of version and random and the 6 bytes of the four length fields. */
  lemma DecodedBodyBounds(contentType: uint8, messageVersion: uint16, handshakeType: uint8,
                          body: seq<uint8>)
    ensures var r := DecodeBody(contentType, messageVersion, handshakeType, body);
      r.Decoded? ==>
      && |r.hello.randomBytes| == 28
      && 40 <= |body|
      && |r.hello.sessionId| <= 255
      && |r.hello.compressionMethods| <= 255
      && |r.hello.cipherSuites| <= 0x7FFF
  {
    if DecodeBody(contentType, messageVersion, handshakeType, body).Decoded? {
      Pow256Values();
      var version := ReadUint(body, 2);
      var time := ReadUint(version.rest, 4);
      var random := ReadBytes(time.rest, 28);
      var session := ReadLengthPrefixed(random.rest, 1);
      var ciphers := ReadLengthPrefixed(session.rest, 2);
      var compression := ReadLengthPrefixed(ciphers.rest, 1);
      assert |random.rest| == |body| - 34;
      assert |session.value.value| < 0x100;
      assert |ciphers.value.value| < 0x1_0000;
      assert |compression.value.value| < 0x100;
      assert 2 <= |compression.rest|;
    }
  }

  /** `decodeClientHello`: the record header, the handshake header and then
      the body. Nothing partial is returned with an error. */
  function Decode(data: seq<uint8>): (r: Outcome)
    ensures r.Decoded? ==> 49 <= |data|
    ensures r.Decoded? ==> r.hello.contentType == data[0]
    ensures r.Decoded? ==> r.hello.messageVersion == FromBigEndian(data[1..3])
    ensures r.Decoded? ==> r.hello.handshakeType == data[5]
  {
    var contentType := ReadUint(data, 1);
    if contentType.value.None? then Failed(ContentType)
    else
      var version := ReadUint(contentType.rest, 2);
      if version.value.None? then Failed(RecordVersion)
      else
        assert contentType.rest[..2] == data[1..3];
        var handshake := ReadLengthPrefixed(version.rest, 2);
        if handshake.value.None? then Failed(HandshakeProtocol)
        else
          var handshakeType := ReadUint(handshake.value.value, 1);
          if handshakeType.value.None? then Failed(HandshakeType)
          else
            var body := ReadLengthPrefixed(handshakeType.rest, 3);
            if body.value.None? then Failed(HandshakeBody)
            else
              DecodedBodyBounds(contentType.value.value, version.value.value,
                                handshakeType.value.value, body.value.value);
              DecodeBody(contentType.value.value, version.value.value,
                         handshakeType.value.value, body.value.value)
  }

  /** The first three reads fail exactly when the record is too short for
      them, each with its own message. */
  lemma {:induction false} DecodeRecordErrors(data: seq<uint8>)
    ensures Decode(data) == Failed(ContentType) <==> |data| == 0
    ensures Decode(data) == Failed(RecordVersion) <==> 1 <= |data| < 3
    ensures Decode(data) == Failed(HandshakeProtocol) <==>
              3 <= |data| && (|data| < 5 || FromBigEndian(data[3..5]) > |data| - 5)
  {
    if |data| >= 5 {
      assert ReadUint(ReadUint(data, 1).rest, 2).rest[..2] == data[3..5];
    }
  }

  /** The two handshake-header reads, inside the record's block of length
      L: the type fails exactly when the block is empty, and the body fails
      exactly when the block has no room for its 3-byte length or for the
      body that length announces. */
  lemma {:induction false} DecodeHandshakeErrors(data: seq<uint8>)
    ensures Decode(data) == Failed(HandshakeType) <==>
              5 <= |data| && FromBigEndian(data[3..5]) == 0
    ensures Decode(data) == Failed(HandshakeBody) <==>
              && 5 <= |data|
              && 1 <= FromBigEndian(data[3..5]) <= |data| - 5
              && (FromBigEndian(data[3..5]) < 4
                  || FromBigEndian(data[6..9]) > FromBigEndian(data[3..5]) - 4)
  {
    if |data| >= 5 {
      var L := FromBigEndian(data[3..5]);
      assert ReadUint(ReadUint(data, 1).rest, 2).rest == data[3..];
      assert data[3..][..2] == data[3..5];
      if L <= |data| - 5 {
        assert data[3..][2..2 + L] == data[5..5 + L];
        if 1 <= L {
          assert data[5..5 + L][1..] == data[6..5 + L];
          if 4 <= L {
            assert data[6..5 + L][..3] == data[6..9];
          }
        }
      }
    }
  }
}
