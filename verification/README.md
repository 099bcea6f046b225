# ja3 fingerprinting core, modelled in Dafny

The Go package `ja3` computes TLS client fingerprints from the raw bytes of a
ClientHello record. The pipeline has five steps:

- `decodeClientHello` reads the record with cryptobyte.
- `ClientHello.TlsData` turns the decoded record into the lists that
  fingerprints are built from.
- `clearGreas` removes the GREASE values of RFC 8701.
- `TlsData.Fp` renders the JA3 and JA3N strings.
- `FpContextData.Ja4` renders the JA4 string.

This project models that pipeline as pure Dafny functions and proves what the
code guarantees.

| file | module | models |
|---|---|---|
| `wrappers.dfy` | `Wrappers` | `Option` |
| `bytes.dfy` | `Bytes` | byte and word types, big-endian values |
| `cursor.dfy` | `Cursor` | cryptobyte's fixed-size and length-prefixed reads |
| `decoder.dfy` | `Decoder` | `decodeClientHello`, its two loops, its error points |
| `encoding.dfy` | `Encoding` | a ClientHello encoder, the decode round trip, truncation and malformed-loop behaviour |
| `grease.dfy` | `Grease` | `IsGREASEUint16` and `clearGreas` |
| `text.dfy` | `Text` | `fmt.Sprint` of integers, `tools.AnyJoin`, `strings.Join`/`Split`, `tools.Hex` |
| `fields.dfy` | `Fields` | the five extension getters and `ClientHello.TlsData` |
| `ja3.dfy` | `Ja3` | `TlsData.Fp` |
| `sorting.dfy` | `Sorting` | `sort.Slice` ascending on 16-bit values |
| `ja4.dfy` | `Ja4` | `FpContextData.Ja4` and `FpContextData.ClientHello` |

## How the model handles non-termination and failures

Two loops in `decodeClientHello` may never end.

- **Cipher-suite loop.** An odd-length block leaves one byte. `ReadUint16`
  fails on that byte without consuming it, so the loop repeats forever.
- **Extension loop.** A single stray byte leaves a 16-bit type read that
  fails in the same way, so the loop also repeats forever.

Both loops are total recursive functions. They return `Loop.Spins` exactly
when the Go loop runs forever. A decode therefore ends in one of three ways:

- `Decoded(hello)`
- `Failed(error)`, naming the read that ran short
- `Hangs`

The twelve failure points map to the source's error texts through
`DecodeError.Message`. There are only ten distinct texts:

- The random time and the 28 random bytes share "randomTime error".
- The handshake body and the extension block share "handShakeData error".

The extension getters call utls's `createExtension`, which is not part of
this model. Each getter instead takes a parameter: one partial decoder per
type code.

JA4 depends on two outside functions, SHA-256 and the IP-literal test of
`gtls.ParseHost`. Both are parameters of type `Primitives`: any function of
the right shape.

## Lenient or surprising behaviour of the code

The model keeps each of these behaviours of the Go code:

- **Odd cipher-suite block.** It is not skipped: the decoder hangs.
- **Malformed extension entry.** It does not end the enumeration.
  - An entry whose length runs past the block consumes its type and length.
    Reading then resumes inside the would-be payload.
  - A stray final byte makes the loop spin.
- **JA4 counts.** The cipher and extension counts in JA4 segment A are
  written by `fmt.Sprint`. They are plain decimals without zero padding, so
  "1" followed by "12" reads the same as "11" followed by "2". The published
  JA4 format pads each count to two digits.
- **JA3 version field.** `TlsData.Fp` takes element 0 of the GREASE-free
  version list without a guard. `Ja3.Fp` therefore requires that list to be
  non-empty.
- **Result on error.** The source returns a partially filled ClientHello
  alongside an error. `FpContextData.ClientHello` (fp.go:327-329) passes it
  on to its callers. `Ja4`, the only caller in fp.go, discards it (fp.go:270-273),
  and the model drops it.

## Model

| member | source | states |
|---|---|---|
| Cursor.ReadBytes | fp.go:227-230 | a fixed read succeeds exactly when enough bytes remain, yields the first n bytes and the remainder, and consumes nothing when it fails |
| Cursor.ReadUint | fp.go:219-226 | a k-byte read yields the big-endian value of the first k bytes and the rest, or fails without consuming |
| Cursor.ReadLengthPrefixed | fp.go:231-239 | succeeds exactly when the length field is present and the announced payload fits; a short payload fails after the length field is consumed |
| Cursor.ReadUintOf | fp.go:219-226 | reading back a value written big-endian in k bytes gives the value and leaves what follows |
| Cursor.ReadLengthPrefixedOf | fp.go:231-239 | a payload written behind its length prefix reads back whole, leaving what follows |
| Cursor.ReadLengthPrefixedTruncated | fp.go:247-255 | any strict prefix of a length-prefixed payload fails to read |
| Bytes.FromToBigEndian | fp.go:219-226 | writing a value in k big-endian bytes and reading it back gives the value |
| Bytes.ToFromBigEndian | fp.go:219-226 | reading k bytes and writing the value back gives the same bytes |
| Decoder.CipherSuiteWords | fp.go:240-246 | the loop ends exactly when the block has even length, then yields one word per byte pair, high byte first |
| Decoder.DecodeBody | fp.go:219-266 | the record and handshake header fields pass through unchanged; a failure is always at a body read; the client-version read fails exactly when fewer than two bytes remain |
| Decoder.DecodedBodyBounds | fp.go:219-255 | a decoded body holds a 28-byte random, at most 255 session-id and compression bytes and at most 0x7FFF suites, and is at least 40 bytes long: 34 bytes of version and random plus the 6 bytes of the four length fields (session id 1, cipher suites 2, compression methods 1, extensions 2) |
| Decoder.Decode | fp.go:193-218 | a decoded record is at least 49 bytes, its content type is byte 0, its record version is bytes 1-2, its handshake type is byte 5 |
| Decoder.DecodeRecordErrors | fp.go:194-208 | the content-type error exactly on empty input, the record-version error exactly for 1-2 bytes, the handshake-protocol error exactly when the 16-bit length is missing or exceeds what follows |
| Decoder.DecodeHandshakeErrors | fp.go:209-218 | with L the record's 16-bit block length: the handshake-type error exactly when L is 0; the handshake-body error exactly when 1 <= L fits the input and the block lacks the 3-byte body length or the body it announces |
| Decoder.DecodeError.Message | fp.go:196-253 | every failure point's text ends in " error"; which texts coincide is stated by Decoder.SharedMessages |
| Decoder.ExtensionEntries | fp.go:256-266 | a finished loop yields at most one entry per four block bytes, each payload shorter than 0x10000 bytes |
| Decoder.ExtensionEntriesShortBlock | fp.go:257-260 | a block of fewer than four bytes spins exactly when its length is odd, and otherwise ends with no entries |
| Decoder.SharedMessages | fp.go:195-255 | two failure points report the same error text exactly when they are the same point, the time and random-bytes reads, or the handshake-body and extension-block reads |
| Encoding.CipherSuiteWordsOf | fp.go:240-246 | the encoding of any list of suites decodes back to the list |
| Encoding.ExtensionEntriesOf | fp.go:256-266 | encoded entries followed by any tail decode to the entries followed by whatever the tail decodes to |
| Encoding.ExtensionEntriesRoundTrip | fp.go:256-266 | any list of extensions whose payloads fit in 16 bits encodes and decodes back to itself, in order and with duplicates |
| Encoding.StrayByteSpins | fp.go:257-260 | well-formed entries followed by one stray byte make the loop spin forever |
| Encoding.OverlongEntryResumesInside | fp.go:257-266 | an entry announcing more bytes than remain is dropped and decoding resumes at its would-be payload |
| Encoding.DecodeBodyOf | fp.go:219-266 | an encoded body followed by anything decodes to the hello it encodes |
| Encoding.DecodeFrameOf | fp.go:193-218 | a framed body decodes as the body alone does, whatever follows the record |
| Encoding.DecodeEncode | fp.go:193-268 | round trip: an encodable hello, encoded as a record and followed by any bytes, decodes to itself |
| Encoding.TruncatedBodyFails | fp.go:219-255 | a body cut at any point before its end fails at the read whose field the cut falls in |
| Encoding.TruncatedHelloFails | fp.go:193-255 | a record framing a truncated body fails with the error of the field the cut falls in |
| Grease.GreasePattern | fp.go:97 | a value is one of the sixteen GREASE values exactly when its two bytes are equal and its low nibble is 0xA |
| Grease.ClearGrease | fp.go:94-102 | the result has no GREASE value, is no longer than the input, and holds every non-GREASE value as often as the input does |
| Grease.ClearGreaseAppend | fp.go:94-102 | filtering a concatenation filters each part, so relative order is kept |
| Grease.ClearGreaseKeepsClean | fp.go:94-102 | a list without GREASE values is returned unchanged |
| Grease.ClearGreaseIdempotent | fp.go:94-102 | filtering twice is filtering once |
| Grease.ClearGreaseMembers | fp.go:94-102 | a value is in the result exactly when it is in the input and is not GREASE |
| Grease.ClearGreasePermutation | fp.go:94-102 | inputs with the same non-GREASE values, in any order and mixed with any GREASE, give results that are permutations of each other |
| Grease.SmallValuesAreNotGrease | fp.go:111-114 | widened one-byte point formats are never GREASE |
| Text.Decimal | fp.go:72 | the rendering is a non-empty run of digits with no leading zero, and "0" only for zero |
| Text.DecimalRoundTrip | fp.go:72 | parsing the rendering of a number gives the number back |
| Text.SplitJoin | fp.go:77-90 | joining comma-free fields with a comma and splitting at commas gives the fields back |
| Text.ParseAnyJoin | fp.go:79-82 | a dash-joined list of decimals parses back to the list |
| Text.Join | fp.go:77-90 | the result starts with the first part and is as long as the parts plus one separator between each pair of neighbours; one part is returned as is |
| Text.AnyJoin | fp.go:79-82 | only digits and separator characters appear, and the result is empty exactly for the empty list |
| Text.HexDigit | fp.go:315-316 | a lower-case hex digit that reads back to its value, a decimal digit exactly below 10 |
| Text.Hex | fp.go:315-316 | two lower-case hex digits per byte; digits 2i and 2i+1 read back to the high and low nibble of byte i |
| Text.HexRoundTrip | fp.go:315-316 | reading the hex rendering two digits at a time gives the bytes back |
| Text.HexPrefix | fp.go:315-316 | the first 2k hex digits are the rendering of the first k bytes |
| Fields.FirstDecoded | fp.go:125-191 | none exactly when no extension of the type decodes; otherwise the value of the first one that does, and later ones are never consulted |
| Fields.Curves | fp.go:177-191 | nil when no type-10 extension decodes; otherwise the curves of the first type-10 extension that decodes |
| Fields.Points | fp.go:125-135 | nil when no type-11 extension decodes; otherwise the point formats of the first type-11 extension that decodes |
| Fields.Algorithms | fp.go:161-175 | nil when no type-13 extension decodes; otherwise the signature algorithms of the first type-13 extension that decodes |
| Fields.Protocols | fp.go:137-147 | nil when no type-16 extension decodes; otherwise the protocol names of the first type-16 extension that decodes |
| Fields.Versions | fp.go:149-159 | nil when no type-43 extension decodes; otherwise the versions of the first type-43 extension that decodes |
| Fields.FirstDecodedAppend | fp.go:126-135 | over two runs of extensions the getter returns the first run's value when it has one, else the second run's |
| Fields.ExtensionTypes | fp.go:107-110 | one type code per extension, in wire order, duplicates kept |
| Fields.Widen | fp.go:111-114 | one 16-bit value per point format, same value |
| Fields.ToTlsData | fp.go:104-117 | ciphers are the decoded suites, extension types follow the wire order, points are the widened point formats, and curves, protocols, versions and algorithms are what the type-10, 16, 43 and 13 getters return |
| Ja3.Ja3PartsSplit | fp.go:77-90 | the five fields contain no comma, so the comma-joined string splits back into them |
| Ja3.Fp | fp.go:71-92 | both strings have five fields; JA3 and JA3N agree except in field 2, which JA3N leaves empty; field 0 is the first non-GREASE version; JA3's field 2 is the GREASE-free extension list |
| Ja3.ParseFp | fp.go:71-92 | JA3 parses back to the first non-GREASE version and the GREASE-free lists in wire order; JA3N parses back the same with no extensions |
| Ja3.PointsNeverFiltered | fp.go:76 | point formats are never removed by the GREASE filter |
| Sorting.Sort | fp.go:313-314 | the result is ascending and a permutation of the input |
| Sorting.SortedUnique | fp.go:313-314 | two ascending lists with the same values are equal, so the order `sort.Slice` produces does not depend on its algorithm |
| Sorting.SortPermutation | fp.go:313-314 | permutations of one list sort to the same list |
| Ja4.ClientHelloOf | fp.go:327-329 | the context's bytes decode afresh; empty bytes give the content-type error, and a decoded record is at least 49 bytes with its first byte as content type |
| Ja4.VersionCode | fp.go:275-287 | two digits; "00" exactly for versions outside TLS 1.0-1.3, else the minor version plus ten |
| Ja4.ServerNameCode | fp.go:288-294 | 'd' exactly when a server name is present and is not an IP literal, else 'i' |
| Ja4.AlpnCode | fp.go:299-312 | always two characters: "h1" for "http/1.1", otherwise the first two characters of the protocol padded with '0' |
| Ja4.Ja4A | fp.go:274-312 | 't', the version code, the server-name code, the GREASE-free cipher and extension counts in plain decimal, then the ALPN code |
| Ja4.Truncated | fp.go:315-316 | the first 12 characters of a 32-byte digest's hex are the hex of its first six bytes |
| Ja4.Ja4B | fp.go:315 | twelve lower-case hex digits |
| Ja4.Ja4C | fp.go:316 | twelve lower-case hex digits |
| Ja4.Ja4Of | fp.go:317-318 | segment A, '_', segment B, '_', segment C, at fixed positions from the end |
| Ja4.Ja4 | fp.go:269-273 | "" exactly when decoding fails, no result exactly when decoding hangs, otherwise the fingerprint of the decoded hello |
| Ja4.Fingerprint | fp.go:270-273 | an error outcome gives "" and only an error does; a hang gives no result and only a hang does; a decoded hello gives the fingerprint of its TLS data |
| Ja4.Ja4PermutationInvariant | fp.go:295-317 | reordering the cipher suites or extension types, or adding GREASE values to them, does not change the JA4 string |
| Ja4.Ja4OfEncoded | fp.go:269-274 | a context holding an encoded hello followed by anything fingerprints that hello |
| Ja4.Ja4OfTruncatedIsEmpty | fp.go:270-273 | a record whose handshake body is cut short fingerprints as "" |

## Left out

- Context plumbing is not modelled, because it only stores and fetches values:
  - `CreateContext`, `GetFpContextData` and the setters and getters around
    the context (fp.go:19-29, fp.go:320-364)
  - the HTTP/2 fields
- `UtlsExtensions` (fp.go:48-55) is not modelled. It builds utls objects and
  no fingerprint uses it.
- `createExtension` and the per-type wire formats of the five extensions
  are not part of this model. Each getter takes its decoder as a parameter.
- SHA-256 and `gtls.ParseHost` are not part of this model. Both are
  uninterpreted parameters.
- The `RandomTime`, `RandomBytes`, `SessionId` and `CompressionMethods`
  strings of `TlsData` are not modelled. They are a `time.Unix` rendering
  and hex dumps that no fingerprint reads (fp.go:118-121).
- `Protocols` and `Versions` are computed, but only `Versions` reaches a
  fingerprint. JA4 takes its ALPN code from the negotiated protocol of the
  connection state.
- Connection-state fields other than the version, the server name and the
  negotiated protocol are not modelled.
- The partial ClientHello returned next to an error is dropped.
- Go strings are byte strings. Here a `string` stands for one, one char per
  byte: the server name and negotiated protocol of `ConnectionState` and
  the ALPN names are not constrained to chars below 256, and `AlpnCode`'s
  `p[..2]` is the first two bytes only under that reading. No UTF-8
  encoding is modelled.
- Non-termination is represented as an outcome (`Spins`, `Hangs`). The
  model says when a loop never ends, not what the process does meanwhile.
- Ja4.Ja4B: its contract states only the shape of the segment. Its
  dependence on the sorted GREASE-free cipher suites alone is stated by
  Ja4.Ja4PermutationInvariant.
- Ja4.Ja4C: its contract states only the shape of the segment. Its
  dependence on the sorted GREASE-free extension types and the algorithms is
  stated by Ja4.Ja4PermutationInvariant.
