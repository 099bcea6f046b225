/** The text renderings the fingerprints are built from: `fmt.Sprint` of an
    unsigned integer, `strings.Join`, `tools.AnyJoin` and `tools.Hex`, with
    `strings.Split` and a decimal reader as their inverses. Go strings are byte
    strings; here a string holds one char per byte. */
module Text {
  import opened Wrappers
  import opened Bytes

  predicate IsDigit(c: char) {
    '0' <= c <= '9'
  }

  predicate IsLowerHex(c: char) {
    '0' <= c <= '9' || 'a' <= c <= 'f'
  }

  predicate AllDigits(s: string) {
    forall i :: 0 <= i < |s| ==> IsDigit(s[i])
  }

  /** The digit character for a value below 10. */
  function DigitChar(d: nat): (c: char)
    requires d < 10
    ensures IsDigit(c) && c as int - '0' as int == d
  {
    ('0' as int + d) as char
  }

  /** `fmt.Sprint` of an unsigned integer: its decimal digits, with no
      leading zero and no padding. */
  function Decimal(n: nat): (s: string)
    ensures |s| >= 1 && AllDigits(s)
    ensures n == 0 <==> s == "0"
    ensures s[0] == '0' ==> |s| == 1
  {
    if n < 10 then [DigitChar(n)] else Decimal(n / 10) + [DigitChar(n % 10)]
  }

  /** The value of a run of decimal digits. */
  function DigitsValue(s: string): nat
    requires AllDigits(s)
  {
    if s == [] then 0
    else DigitsValue(s[..|s| - 1]) * 10 + (s[|s| - 1] as int - '0' as int)
  }

  /** Reading back a rendering: none for the empty string or a non-digit. */
  function ParseDecimal(s: string): Option<nat> {
    if s != [] && AllDigits(s) then Some(DigitsValue(s)) else None
  }

  /** Rendering then reading a number gives the number back, so the
      rendering is one-to-one. */
  lemma {:induction false} DecimalRoundTrip(n: nat)
    ensures ParseDecimal(Decimal(n)) == Some(n)
  {
    var s := Decimal(n);
    if n < 10 {
      assert s[..0] == [];
    } else {
      DecimalRoundTrip(n / 10);
      assert s[..|s| - 1] == Decimal(n / 10);
      assert s[|s| - 1] as int - '0' as int == n % 10;
      assert DigitsValue(s) == (n / 10) * 10 + n % 10;
    }
  }

  /** The lengths of the parts, added up. */
  function TotalLength(parts: seq<string>): nat {
    if parts == [] then 0 else |parts[0]| + TotalLength(parts[1..])
  }

  /** `strings.Join`: the parts with `sep` between neighbours. The result
      starts with the first part and holds every part and one separator per
      pair of neighbours. */
  function Join(parts: seq<string>, sep: string): (s: string)
    ensures |parts| == 0 ==> s == ""
    ensures |parts| == 1 ==> s == parts[0]
    ensures |parts| >= 1 ==> |s| == TotalLength(parts) + (|parts| - 1) * |sep|
    ensures |parts| >= 1 ==> s[..|parts[0]|] == parts[0]
  {
    if |parts| == 0 then ""
    else if |parts| == 1 then parts[0]
    else
      var rest := Join(parts[1..], sep);
      assert (|parts| - 1) * |sep| == |sep| + (|parts| - 2) * |sep|;
      parts[0] + sep + rest
  }

  lemma JoinThree(a: string, b: string, c: string, sep: string)
    ensures Join([a, b, c], sep) == a + sep + b + sep + c
  {
    assert [a, b, c][1..] == [b, c];
    assert [b, c][1..] == [c];
  }

  /** The decimal rendering of each value. */
  function Decimals(values: seq<nat>): (parts: seq<string>)
    ensures |parts| == |values|
    ensures forall i :: 0 <= i < |values| ==> parts[i] == Decimal(values[i])
  {
    if values == [] then [] else [Decimal(values[0])] + Decimals(values[1..])
  }

  /** `tools.AnyJoin`: the decimal renderings of the values joined by `sep`.
      Only digits and separator characters appear, and the result is empty
      only for the empty list. */
  function AnyJoin(values: seq<nat>, sep: string): (s: string)
    ensures forall i :: 0 <= i < |s| ==> IsDigit(s[i]) || s[i] in sep
    ensures s == "" <==> values == []
  {
    var parts := Decimals(values);
    JoinChars(parts, sep);
    assert values != [] ==> Join(parts, sep) != "" by {
      if values != [] {
        JoinNonEmpty(parts, sep);
      }
    }
    Join(parts, sep)
  }

  /** `strings.Split` on one separator character: the maximal runs between
      separators, so the empty string splits into one empty part. */
  function Split(s: string, c: char): (parts: seq<string>)
    ensures |parts| >= 1
    ensures forall i :: 0 <= i < |parts| ==> c !in parts[i]
    decreases |s|
  {
    if |s| == 0 then [""]
    else
      var rest := Split(s[1..], c);
      if s[0] == c then [""] + rest else [[s[0]] + rest[0]] + rest[1..]
  }

  /** A string without the separator is one part. */
  lemma {:induction false} SplitNoSeparator(s: string, c: char)
    requires c !in s
    ensures Split(s, c) == [s]
  {
    if |s| > 0 {
      SplitNoSeparator(s[1..], c);
      assert [s[0]] + s[1..] == s;
    }
  }

  /** A part without the separator, the separator, then anything: the part
      comes off first. */
  lemma {:induction false} SplitAfterPart(p: string, c: char, rest: string)
    requires c !in p
    ensures Split(p + [c] + rest, c) == [p] + Split(rest, c)
  {
    if |p| == 0 {
      assert p + [c] + rest == [c] + rest;
      assert ([c] + rest)[1..] == rest;
    } else {
      assert (p + [c] + rest)[1..] == p[1..] + [c] + rest;
      SplitAfterPart(p[1..], c, rest);
      assert [p[0]] + p[1..] == p;
    }
  }

  /** Splitting a join on its one-character separator gives the parts back,
      provided no part contains the separator. */
  lemma {:induction false} SplitJoin(parts: seq<string>, c: char)
    requires |parts| >= 1
    requires forall i :: 0 <= i < |parts| ==> c !in parts[i]
    ensures Split(Join(parts, [c]), c) == parts
  {
    if |parts| == 1 {
      SplitNoSeparator(parts[0], c);
    } else {
      SplitJoin(parts[1..], c);
      SplitAfterPart(parts[0], c, Join(parts[1..], [c]));
      assert [parts[0]] + parts[1..] == parts;
    }
  }

  /** Reading back a dash-joined list: the empty field is the empty list. */
  function ParseList(field: string, c: char): Option<seq<nat>> {
    if field == "" then Some([]) else ParseAll(Split(field, c))
  }

  function ParseAll(parts: seq<string>): Option<seq<nat>> {
    if parts == [] then Some([])
    else
      match (ParseDecimal(parts[0]), ParseAll(parts[1..]))
      case (Some(v), Some(vs)) => Some([v] + vs)
      case _ => None
  }

  lemma {:induction false} ParseAllDecimals(values: seq<nat>)
    ensures ParseAll(Decimals(values)) == Some(values)
  {
    if values != [] {
      DecimalRoundTrip(values[0]);
      ParseAllDecimals(values[1..]);
      assert Decimals(values)[1..] == Decimals(values[1..]);
      assert [values[0]] + values[1..] == values;
    }
  }

  /** A joined list of decimals can be read back into the list, whatever
      separator other than a digit joins it. */
  lemma ParseAnyJoin(values: seq<nat>, c: char)
    requires !IsDigit(c)
    ensures ParseList(AnyJoin(values, [c]), c) == Some(values)
  {
    var parts := Decimals(values);
    if values == [] {
    } else {
      forall i | 0 <= i < |parts| ensures c !in parts[i] {
        assert AllDigits(parts[i]);
      }
      SplitJoin(parts, c);
      assert AnyJoin(values, [c]) != "" by {
        JoinNonEmpty(parts, [c]);
      }
      ParseAllDecimals(values);
    }
  }

  lemma {:induction false} JoinNonEmpty(parts: seq<string>, sep: string)
    requires |parts| >= 1 && parts[0] != ""
    ensures Join(parts, sep) != ""
  {
  }

  lemma {:induction false} JoinChars(parts: seq<string>, sep: string)
    requires forall i :: 0 <= i < |parts| ==> AllDigits(parts[i])
    ensures forall i :: 0 <= i < |Join(parts, sep)| ==>
              IsDigit(Join(parts, sep)[i]) || Join(parts, sep)[i] in sep
  {
    if |parts| > 1 {
      JoinChars(parts[1..], sep);
    }
  }

  /** The characters of a byte string as bytes (`[]byte(s)`). */
  function AsBytes(s: string): (b: seq<uint8>)
    requires forall i :: 0 <= i < |s| ==> s[i] as int < 0x100
    ensures |b| == |s| && forall i :: 0 <= i < |s| ==> b[i] == s[i] as int
  {
    if s == [] then [] else [s[0] as int] + AsBytes(s[1..])
  }

  /** The value of a lower-case hex digit. */
  function HexValue(c: char): nat
    requires IsLowerHex(c)
  {
    if c <= '9' then c as int - '0' as int else c as int - 'a' as int + 10
  }

  /** The lower-case hex digit of a value below 16; reading it back gives
      the value. */
  function HexDigit(d: nat): (c: char)
    requires d < 16
    ensures IsLowerHex(c) && HexValue(c) == d
    ensures d < 10 <==> IsDigit(c)
  {
    if d < 10 then DigitChar(d) else ('a' as int + d - 10) as char
  }

  /** `tools.Hex`: two lower-case hex digits per byte, high nibble first. */
  function Hex(b: seq<uint8>): (s: string)
    ensures |s| == 2 * |b|
    ensures forall i :: 0 <= i < |s| ==> IsLowerHex(s[i])
    ensures forall i :: 0 <= i < |b| ==>
              HexValue(s[2 * i]) == b[i] / 16 && HexValue(s[2 * i + 1]) == b[i] % 16
  {
    if b == [] then []
    else
      var t := Hex(b[1..]);
      var s := [HexDigit(b[0] / 16), HexDigit(b[0] % 16)] + t;
      forall i | 1 <= i < |b|
        ensures HexValue(s[2 * i]) == b[i] / 16 && HexValue(s[2 * i + 1]) == b[i] % 16
      {
        assert s[2 * i] == t[2 * (i - 1)] && s[2 * i + 1] == t[2 * (i - 1) + 1];
        assert b[1..][i - 1] == b[i];
      }
      s
  }

  /** Reading two hex digits per byte, high nibble first. */
  function ParseHex(s: string): seq<uint8>
    requires |s| % 2 == 0 && forall i :: 0 <= i < |s| ==> IsLowerHex(s[i])
  {
    if s == [] then []
    else
      assert IsLowerHex(s[0]) && IsLowerHex(s[1]);
      var v := HexValue(s[0]) * 16 + HexValue(s[1]);
      [if v < 0x100 then v else 0] + ParseHex(s[2..])
  }

  /** The hex rendering reads back to the bytes, so it is one-to-one. */
  lemma {:induction false} HexRoundTrip(b: seq<uint8>)
    ensures ParseHex(Hex(b)) == b
  {
    if b != [] {
      HexRoundTrip(b[1..]);
      assert Hex(b)[2..] == Hex(b[1..]);
      assert [b[0]] + b[1..] == b;
    }
  }

  /** The first 2k hex digits render the first k bytes. */
  lemma {:induction false} HexPrefix(b: seq<uint8>, k: nat)
    requires k <= |b|
    ensures Hex(b)[..2 * k] == Hex(b[..k])
  {
    if k > 0 {
      HexPrefix(b[1..], k - 1);
      assert b[..k][1..] == b[1..][..k - 1];
    }
  }
}
