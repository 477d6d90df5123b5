/** The subnet check of the host-discovery sweep: the regular expression
    `cidr_pattern` and the function `validate_cidr` built on it. */
module Cidr {
  import opened PyStr

  /** `[0-9]{1,3}`: one address field of the pattern, one to three ASCII digits. */
  predicate IsOctetField(t: string) {
    1 <= |t| <= 3 && AllDigits(t)
  }

  /** The prefix group `([0-9]|[1-2][0-9]|3[0-2])`, alternative by alternative. */
  predicate IsPrefixAlternative(p: string) {
    || (|p| == 1 && IsDigit(p[0]))
    || (|p| == 2 && '1' <= p[0] <= '2' && IsDigit(p[1]))
    || (|p| == 2 && p[0] == '3' && '0' <= p[1] <= '2')
  }

  /** The strings `cidr_pattern` matches from start to end: `(?:[0-9]{1,3}\.){3}`,
      a fourth field `[0-9]{1,3}`, then `/` and the prefix group. */
  ghost predicate InCidrPatternLanguage(s: string) {
    exists fields: seq<string>, prefix: string ::
      && |fields| == 4
      && (forall i | 0 <= i < 4 :: IsOctetField(fields[i]))
      && IsPrefixAlternative(prefix)
      && s == Join(fields, '.') + ['/'] + prefix
  }

  /** `cidr_pattern.match(s)`, decided by splitting at '/' and then at '.'. */
  function MatchesCidrPattern(s: string): bool {
    var halves := Split(s, '/');
    && |halves| == 2
    && IsPrefixAlternative(halves[1])
    && var fields := Split(halves[0], '.');
    && |fields| == 4
    && forall i | 0 <= i < 4 :: IsOctetField(fields[i])
  }

  /** `validate_cidr`: the pattern must match, then every field of the part
      before the first '/' must have a value of at most 255. */
  function ValidateCidr(cidr: string): bool {
    var ipPart := Split(cidr, '/')[0];
    if !MatchesCidrPattern(cidr) then false
    else
      var octets := Split(ipPart, '.');
      forall i | 0 <= i < |octets| :: DecimalValue(octets[i]) <= 255
  }

  /** What `validate_cidr` accepts, in numbers: four fields of one to three
      digits (leading zeros allowed) each worth at most 255, a '/', and a
      prefix written without a leading zero and worth at most 32. */
  ghost predicate IsWellFormedCidr(s: string) {
    exists fields: seq<string>, prefix: string ::
      && |fields| == 4
      && (forall i | 0 <= i < 4 :: IsOctetField(fields[i]) && DecimalValue(fields[i]) <= 255)
      && IsCanonicalDecimal(prefix) && DecimalValue(prefix) <= 32
      && s == Join(fields, '.') + ['/'] + prefix
  }

  /** The prefix group denotes exactly the numerals 0 to 32 written without a leading zero. */
  lemma PrefixAlternativeIff(p: string)
    ensures IsPrefixAlternative(p) <==> IsCanonicalDecimal(p) && DecimalValue(p) <= 32
  {
    if |p| >= 3 && IsCanonicalDecimal(p) {
      DecimalValueAtLeast(p);
      Pow10Monotone(2, |p| - 1);
      assert Pow10(2) == 100;
    }
    if |p| == 2 && AllDigits(p) {
      assert p[..1][..0] == [] && p[..1][0] == p[0];
      assert DecimalValue(p[..1]) == DigitValue(p[0]);
      assert DecimalValue(p) == 10 * DigitValue(p[0]) + DigitValue(p[1]);
    }
    if |p| == 1 && AllDigits(p) {
      assert DecimalValue(p) == DigitValue(p[0]);
    }
  }

  /** A string built as the pattern describes splits back into its own fields and prefix. */
  lemma SplitCidrShape(s: string, fields: seq<string>, prefix: string)
    requires |fields| == 4 && forall i | 0 <= i < 4 :: IsOctetField(fields[i])
    requires AllDigits(prefix)
    requires s == Join(fields, '.') + ['/'] + prefix
    ensures Split(s, '/') == [Join(fields, '.'), prefix]
    ensures Split(Join(fields, '.'), '.') == fields
  {
    JoinExcludes(fields, '.', '/');
    var halves := [Join(fields, '.'), prefix];
    assert Join(halves, '/') == s;
    SplitJoin(halves, '/');
    SplitJoin(fields, '.');
  }

  /** The split-based decision agrees with the regular expression's language. */
  lemma MatchesCidrPatternIff(s: string)
    ensures MatchesCidrPattern(s) <==> InCidrPatternLanguage(s)
  {
    if MatchesCidrPattern(s) {
      var halves := Split(s, '/');
      var fields := Split(halves[0], '.');
      assert Join(halves, '/') == halves[0] + ['/'] + halves[1];
      assert s == Join(fields, '.') + ['/'] + halves[1];
    }
    if InCidrPatternLanguage(s) {
      var fields: seq<string>, prefix: string :|
        && |fields| == 4
        && (forall i | 0 <= i < 4 :: IsOctetField(fields[i]))
        && IsPrefixAlternative(prefix)
        && s == Join(fields, '.') + ['/'] + prefix;
      SplitCidrShape(s, fields, prefix);
    }
  }

  /** `validate_cidr(s)` holds exactly for the well-formed subnets: the pattern
      with every field worth at most 255 and a prefix from 0 to 32. */
  lemma ValidateCidrIff(s: string)
    ensures ValidateCidr(s) <==> IsWellFormedCidr(s)
  {
    if ValidateCidr(s) {
      var halves := Split(s, '/');
      var fields := Split(halves[0], '.');
      PrefixAlternativeIff(halves[1]);
      assert Join(halves, '/') == halves[0] + ['/'] + halves[1];
      assert s == Join(fields, '.') + ['/'] + halves[1];
      assert forall i | 0 <= i < 4 :: IsOctetField(fields[i]) && DecimalValue(fields[i]) <= 255;
    }
    if IsWellFormedCidr(s) {
      var fields: seq<string>, prefix: string :|
        && |fields| == 4
        && (forall i | 0 <= i < 4 :: IsOctetField(fields[i]) && DecimalValue(fields[i]) <= 255)
        && IsCanonicalDecimal(prefix) && DecimalValue(prefix) <= 32
        && s == Join(fields, '.') + ['/'] + prefix;
      PrefixAlternativeIff(prefix);
      SplitCidrShape(s, fields, prefix);
    }
  }

  /** On a string of the pattern's shape, `validate_cidr` decides by the prefix
      group and the values of the four fields. */
  lemma ValidateCidrOfShape(s: string, fields: seq<string>, prefix: string)
    requires |fields| == 4 && forall i | 0 <= i < 4 :: IsOctetField(fields[i])
    requires AllDigits(prefix)
    requires s == Join(fields, '.') + ['/'] + prefix
    ensures ValidateCidr(s) <==>
      IsPrefixAlternative(prefix) && forall i | 0 <= i < 4 :: IsOctetField(fields[i]) && DecimalValue(fields[i]) <= 255
  {
    SplitCidrShape(s, fields, prefix);
  }

  /** The pattern alone lets through fields worth up to 999: a subnet of the
      pattern's shape with a field above 255 is in the pattern's language and
      is still refused. */
  lemma NumericCheckRefusesLargeField(s: string, fields: seq<string>, prefix: string, k: nat)
    requires |fields| == 4 && forall i | 0 <= i < 4 :: IsOctetField(fields[i])
    requires IsPrefixAlternative(prefix)
    requires s == Join(fields, '.') + ['/'] + prefix
    requires k < 4 && IsOctetField(fields[k]) && DecimalValue(fields[k]) > 255
    ensures InCidrPatternLanguage(s) && !ValidateCidr(s)
  {
    ValidateCidrOfShape(s, fields, prefix);
  }
}
