/** `clearGreas` (fp.go:94-102) and the GREASE test it relies on. GREASE
    values (section 2 of RFC 8701) are sixteen reserved code points a client
    may offer to keep servers tolerant of unknown values; no fingerprint
    counts them. */
module Grease {
  import opened Bytes

  /** The reserved values of section 2 of RFC 8701, one per high nibble. */
  const GreaseValues: set<uint16> := {
    0x0A0A, 0x1A1A, 0x2A2A, 0x3A3A, 0x4A4A, 0x5A5A, 0x6A6A, 0x7A7A,
    0x8A8A, 0x9A9A, 0xAAAA, 0xBABA, 0xCACA, 0xDADA, 0xEAEA, 0xFAFA }

  /** `IsGREASEUint16`. */
  predicate IsGrease(v: uint16) {
    v in GreaseValues
  }

  /** The same set by its bit pattern: both bytes equal, low nibble 0xA. */
  lemma GreasePattern(v: uint16)
    ensures IsGrease(v) <==> v / 0x100 == v % 0x100 && v % 0x10 == 0xA
  {
    if IsGrease(v) {
      GreaseHasPattern(v);
    }
    if v / 0x100 == v % 0x100 && v % 0x10 == 0xA {
      var b := v % 0x100;
      assert v == 0x100 * b + b;
      var hi := b / 0x10;
      assert b == 0x10 * hi + 0xA;
      GreaseByNibble(hi);
    }
  }

  lemma GreaseHasPattern(v: uint16)
    requires IsGrease(v)
    ensures v / 0x100 == v % 0x100 && v % 0x10 == 0xA
  {
    if v == 0x0A0A {} else if v == 0x1A1A {} else if v == 0x2A2A {} else if v == 0x3A3A {}
    else if v == 0x4A4A {} else if v == 0x5A5A {} else if v == 0x6A6A {} else if v == 0x7A7A {}
    else if v == 0x8A8A {} else if v == 0x9A9A {} else if v == 0xAAAA {} else if v == 0xBABA {}
    else if v == 0xCACA {} else if v == 0xDADA {} else if v == 0xEAEA {} else {}
  }

  lemma GreaseByNibble(hi: int)
    requires 0 <= hi < 0x10
    ensures 0x1010 * hi + 0x0A0A in GreaseValues
  {
    if hi < 8 {
      if hi < 4 {
        if hi < 2 {} else {}
      } else {
        if hi < 6 {} else {}
      }
    } else {
      if hi < 12 {
        if hi < 10 {} else {}
      } else {
        if hi < 14 {} else {}
      }
    }
  }

  /** `clearGreas`: the values that are not GREASE, in their original order. */
  function ClearGrease(values: seq<uint16>): (r: seq<uint16>)
    ensures |r| <= |values|
    ensures forall i :: 0 <= i < |r| ==> !IsGrease(r[i])
    ensures forall v :: !IsGrease(v) ==> multiset(r)[v] == multiset(values)[v]
  {
    if values == [] then []
    else
      var rest := ClearGrease(values[1..]);
      assert values == [values[0]] + values[1..];
      if IsGrease(values[0]) then rest else [values[0]] + rest
  }

  /** Filtering a concatenation filters each part: the survivors keep their
      relative order. */
  lemma {:induction false} ClearGreaseAppend(a: seq<uint16>, b: seq<uint16>)
    ensures ClearGrease(a + b) == ClearGrease(a) + ClearGrease(b)
  {
    if a == [] {
      assert a + b == b;
    } else {
      assert (a + b)[1..] == a[1..] + b;
      ClearGreaseAppend(a[1..], b);
    }
  }

  /** A list without GREASE values is left exactly as it is. */
  lemma {:induction false} ClearGreaseKeepsClean(values: seq<uint16>)
    requires forall i :: 0 <= i < |values| ==> !IsGrease(values[i])
    ensures ClearGrease(values) == values
  {
    if values != [] {
      ClearGreaseKeepsClean(values[1..]);
    }
  }

  /** Filtering twice is filtering once. */
  lemma {:induction false} ClearGreaseIdempotent(values: seq<uint16>)
    ensures ClearGrease(ClearGrease(values)) == ClearGrease(values)
  {
    ClearGreaseKeepsClean(ClearGrease(values));
  }

  /** A value survives exactly when it occurs and is not GREASE. */
  lemma {:induction false} ClearGreaseMembers(values: seq<uint16>, v: uint16)
    ensures v in ClearGrease(values) <==> v in values && !IsGrease(v)
  {
    var r := ClearGrease(values);
    if v in r {
      var i :| 0 <= i < |r| && r[i] == v;
      assert multiset(r)[v] > 0;
    }
    if v in values && !IsGrease(v) {
      assert multiset(values)[v] > 0;
    }
  }

  /** Lists that hold the same non-GREASE values, in any order and with any
      GREASE values mixed in, keep the same values. */
  lemma {:induction false} ClearGreasePermutation(a: seq<uint16>, b: seq<uint16>)
    requires forall v :: !IsGrease(v) ==> multiset(a)[v] == multiset(b)[v]
    ensures multiset(ClearGrease(a)) == multiset(ClearGrease(b))
  {
    var ra: seq<uint16> := ClearGrease(a);
    var rb: seq<uint16> := ClearGrease(b);
    forall v: uint16 | IsGrease(v)
      ensures multiset(ra)[v] == 0 && multiset(rb)[v] == 0
    {
      ClearGreaseMembers(a, v);
      ClearGreaseMembers(b, v);
    }
    assert forall v: uint16 :: multiset(ra)[v] == multiset(rb)[v];
  }

  /** Values below 0x0A0A, such as widened one-byte point formats, are never
      GREASE. */
  lemma SmallValuesAreNotGrease(v: uint16)
    requires v < 0x0A0A
    ensures !IsGrease(v)
  {
  }
}
