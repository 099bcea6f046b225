/** `TlsData.Fp` (fp.go:71-92): the JA3 and JA3N strings before hashing.
    Each is five comma-separated fields: the first supported version, then
    the cipher suites, extension types, curves and point formats as
    dash-joined decimals, all without GREASE values and in wire order. JA3N
    leaves the extension field empty. Nothing is sorted. */
module Ja3 {
  import opened Wrappers
  import opened Bytes
  import opened Grease
  import opened Text
  import opened Fields

  datatype Fingerprints = Fingerprints(ja3: string, ja3n: string)

  /** The five fields of a JA3 string as numbers. */
  datatype Ja3Fields = Ja3Fields(version: nat, ciphers: seq<nat>, extensions: seq<nat>,
                                 curves: seq<nat>, points: seq<nat>)

  /** What JA3 renders: the first non-GREASE version and the GREASE-free
      lists in wire order. */
  function Ja3Inputs(t: TlsData): Ja3Fields
    requires |ClearGrease(t.versions)| > 0
  {
    Ja3Fields(ClearGrease(t.versions)[0], ClearGrease(t.ciphers), ClearGrease(t.extensions),
              ClearGrease(t.curves), ClearGrease(t.points))
  }

  /** The five fields rendered, with or without the extension types. */
  function Ja3Parts(f: Ja3Fields, withExtensions: bool): seq<string> {
    [Decimal(f.version),
     AnyJoin(f.ciphers, "-"),
     if withExtensions then AnyJoin(f.extensions, "-") else "",
     AnyJoin(f.curves, "-"),
     AnyJoin(f.points, "-")]
  }

  /** No field holds a comma, so commas delimit the fields. */
  lemma Ja3PartsSplit(f: Ja3Fields, withExtensions: bool)
    ensures Split(Join(Ja3Parts(f, withExtensions), ","), ',') == Ja3Parts(f, withExtensions)
  {
    var parts := Ja3Parts(f, withExtensions);
    NoCommaInDecimal(f.version);
    NoCommaIn(f.ciphers);
    NoCommaIn(f.extensions);
    NoCommaIn(f.curves);
    NoCommaIn(f.points);
    SplitFive(parts[0], parts[1], parts[2], parts[3], parts[4]);
    assert parts == [parts[0], parts[1], parts[2], parts[3], parts[4]];
  }

  /** Split back, the two strings agree outside the extension field, which
      JA3N leaves empty. */
  lemma Ja3SplitFields(f: Ja3Fields)
    ensures var full := Split(Join(Ja3Parts(f, true), ","), ',');
            var bare := Split(Join(Ja3Parts(f, false), ","), ',');
            && |full| == 5 && |bare| == 5
            && (forall k :: 0 <= k < 5 && k != 2 ==> full[k] == bare[k])
            && bare[2] == ""
            && full[0] == Decimal(f.version)
            && full[2] == AnyJoin(f.extensions, "-")
  {
    Ja3PartsSplit(f, true);
    Ja3PartsSplit(f, false);
  }

  lemma SplitFive(a: string, b: string, c: string, d: string, e: string)
    requires ',' !in a && ',' !in b && ',' !in c && ',' !in d && ',' !in e
    ensures Split(Join([a, b, c, d, e], ","), ',') == [a, b, c, d, e]
  {
    var parts := [a, b, c, d, e];
    forall k | 0 <= k < |parts| ensures ',' !in parts[k] {
      if k == 0 {} else if k == 1 {} else if k == 2 {} else if k == 3 {} else {}
    }
    SplitJoin(parts, ',');
  }

  lemma NoCommaInDecimal(n: nat)
    ensures ',' !in Decimal(n)
  {
    var s := Decimal(n);
    assert forall i :: 0 <= i < |s| ==> IsDigit(s[i]);
  }

  lemma NoCommaIn(values: seq<nat>)
    ensures ',' !in AnyJoin(values, "-")
  {
  }

  /** `TlsData.Fp` reads the first filtered version with an unguarded
      index, so a list with no non-GREASE version is a precondition. */
  function Fp(t: TlsData): (r: Fingerprints)
    requires |ClearGrease(t.versions)| > 0
    ensures |Split(r.ja3, ',')| == 5 && |Split(r.ja3n, ',')| == 5
    ensures forall k :: 0 <= k < 5 && k != 2 ==> Split(r.ja3, ',')[k] == Split(r.ja3n, ',')[k]
    ensures Split(r.ja3n, ',')[2] == ""
    ensures Split(r.ja3, ',')[0] == Decimal(ClearGrease(t.versions)[0])
    ensures Split(r.ja3, ',')[2] == AnyJoin(ClearGrease(t.extensions), "-")
  {
    var f := Ja3Inputs(t);
    Ja3SplitFields(f);
    Fingerprints(Join(Ja3Parts(f, true), ","), Join(Ja3Parts(f, false), ","))
  }

  /** Reading a JA3 string back into its fields. */
  function ParseJa3(s: string): Option<Ja3Fields> {
    var fields := Split(s, ',');
    if |fields| != 5 then None
    else
      match (ParseDecimal(fields[0]), ParseList(fields[1], '-'), ParseList(fields[2], '-'),
             ParseList(fields[3], '-'), ParseList(fields[4], '-'))
      case (Some(v), Some(c), Some(e), Some(g), Some(p)) => Some(Ja3Fields(v, c, e, g, p))
      case _ => None
  }

  /** JA3 determines its inputs: it reads back as the first non-GREASE
      version and the GREASE-free lists in wire order; JA3N reads back the
      same except for an empty extension list. */
  lemma {:induction false} ParseFp(t: TlsData)
    requires |ClearGrease(t.versions)| > 0
    ensures ParseJa3(Fp(t).ja3) == Some(Ja3Fields(ClearGrease(t.versions)[0], ClearGrease(t.ciphers),
              ClearGrease(t.extensions), ClearGrease(t.curves), ClearGrease(t.points)))
    ensures ParseJa3(Fp(t).ja3n) == Some(Ja3Fields(ClearGrease(t.versions)[0], ClearGrease(t.ciphers),
              [], ClearGrease(t.curves), ClearGrease(t.points)))
  {
    Ja3PartsSplit(Ja3Inputs(t), true);
    Ja3PartsSplit(Ja3Inputs(t), false);
    DecimalRoundTrip(ClearGrease(t.versions)[0]);
    ParseAnyJoin(ClearGrease(t.ciphers), '-');
    ParseAnyJoin(ClearGrease(t.extensions), '-');
    ParseAnyJoin(ClearGrease(t.curves), '-');
    ParseAnyJoin(ClearGrease(t.points), '-');
  }

  /** Point formats are single bytes, below every GREASE value, so the
      filter never removes one from the points field. */
  lemma PointsNeverFiltered(t: TlsData)
    requires forall i :: 0 <= i < |t.points| ==> t.points[i] < 0x100
    ensures ClearGrease(t.points) == t.points
  {
    forall i | 0 <= i < |t.points| ensures !IsGrease(t.points[i]) {
      SmallValuesAreNotGrease(t.points[i]);
    }
    ClearGreaseKeepsClean(t.points);
  }
}
