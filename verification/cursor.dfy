/** The reads of `cryptobyte.String` that the ClientHello decoder uses, as pure
    functions from the unread bytes to the value read and the bytes left.

    A fixed-size read that runs short consumes nothing. A length-prefixed read
    consumes its length field first and then fails, leaving the cursor just past
    the length field, when the payload it announces is not all there. */
module Cursor {
  import opened Wrappers
  import opened Bytes

  /** One read: the value, if the read succeeded, and the unread remainder. */
  datatype Read<T> = Read(value: Option<T>, rest: seq<uint8>)

  /** `ReadBytes(&out, n)`: the next `n` bytes. */
  function ReadBytes(s: seq<uint8>, n: nat): (r: Read<seq<uint8>>)
    ensures r.value.Some? <==> n <= |s|
    ensures r.value.Some? ==> r.value.value == s[..n] && r.rest == s[n..]
    ensures r.value.None? ==> r.rest == s
  {
    if |s| < n then Read(None, s) else Read(Some(s[..n]), s[n..])
  }

  /** `ReadUint8`, `ReadUint16`, `ReadUint24`, `ReadUint32`: a k-byte
      big-endian unsigned integer. */
  function ReadUint(s: seq<uint8>, k: nat): (r: Read<nat>)
    ensures r.value.Some? <==> k <= |s|
    ensures r.value.Some? ==> r.value.value == FromBigEndian(s[..k]) && r.rest == s[k..]
    ensures r.value.None? ==> r.rest == s
  {
    var b := ReadBytes(s, k);
    if b.value.None? then Read(None, s)
    else Read(Some(FromBigEndian(b.value.value)), b.rest)
  }

  /** The wire form of a payload behind a k-byte length field. */
  function LengthPrefixed(k: nat, payload: seq<uint8>): (s: seq<uint8>)
    requires |payload| < Pow256(k)
    ensures |s| == k + |payload| && s[k..] == payload
  {
    ToBigEndian(|payload|, k) + payload
  }

  /** `ReadUint8LengthPrefixed`, `ReadUint16LengthPrefixed`,
      `ReadUint24LengthPrefixed`: a k-byte length, then that many bytes. */
  function ReadLengthPrefixed(s: seq<uint8>, k: nat): (r: Read<seq<uint8>>)
    ensures r.value.Some? <==> k <= |s| && FromBigEndian(s[..k]) <= |s| - k
    ensures r.value.Some? ==>
              var n := FromBigEndian(s[..k]);
              r.value.value == s[k..k + n] && r.rest == s[k + n..]
    ensures r.value.None? && |s| < k ==> r.rest == s
    ensures r.value.None? && k <= |s| ==> r.rest == s[k..]
  {
    var len := ReadUint(s, k);
    if len.value.None? then Read(None, s)
    else
      var body := ReadBytes(len.rest, len.value.value);
      if body.value.None? then Read(None, len.rest)
      else Read(body.value, body.rest)
  }

  /** A fixed-size read of an encoded integer gets the integer back. */
  lemma ReadUintOf(n: nat, k: nat, rest: seq<uint8>)
    requires n < Pow256(k)
    ensures ReadUint(ToBigEndian(n, k) + rest, k) == Read(Some(n), rest)
  {
    var s := ToBigEndian(n, k) + rest;
    assert s[..k] == ToBigEndian(n, k);
    FromToBigEndian(n, k);
  }

  /** A length-prefixed read of an encoded payload gets the payload back. */
  lemma ReadLengthPrefixedOf(k: nat, payload: seq<uint8>, rest: seq<uint8>)
    requires |payload| < Pow256(k)
    ensures ReadLengthPrefixed(LengthPrefixed(k, payload) + rest, k) == Read(Some(payload), rest)
  {
    var s := LengthPrefixed(k, payload) + rest;
    assert s[..k] == ToBigEndian(|payload|, k);
    FromToBigEndian(|payload|, k);
    assert s[k..k + |payload|] == payload;
    assert s[k + |payload|..] == rest;
  }

  /** A length-prefixed read of a strict prefix of an encoded payload fails. */
  lemma ReadLengthPrefixedTruncated(k: nat, payload: seq<uint8>, m: nat)
    requires |payload| < Pow256(k) && m < k + |payload|
    ensures ReadLengthPrefixed(LengthPrefixed(k, payload)[..m], k).value.None?
  {
    var s := LengthPrefixed(k, payload)[..m];
    if k <= m {
      assert s[..k] == ToBigEndian(|payload|, k);
      FromToBigEndian(|payload|, k);
    }
  }
}
