/** The address check of the port scanner: the regular expression
    `ip_add_pattern`, anchored at both ends, as `search` applies it. */
module Ipv4 {
  import opened PyStr
  import Cidr

  /** One octet of the pattern, `25[0-5]|2[0-4][0-9]|1[0-9]{2}|[1-9]?[0-9]`,
      alternative by alternative. */
  predicate IsOctetAlternative(t: string) {
    || (|t| == 3 && t[0] == '2' && t[1] == '5' && '0' <= t[2] <= '5')
    || (|t| == 3 && t[0] == '2' && '0' <= t[1] <= '4' && IsDigit(t[2]))
    || (|t| == 3 && t[0] == '1' && IsDigit(t[1]) && IsDigit(t[2]))
    || (|t| == 2 && '1' <= t[0] <= '9' && IsDigit(t[1]))
    || (|t| == 1 && IsDigit(t[0]))
  }

  /** The strings the pattern matches: `(octet\.){3}octet` and nothing around it. */
  ghost predicate InIpPatternLanguage(s: string) {
    exists parts: seq<string> ::
      && |parts| == 4
      && (forall i | 0 <= i < 4 :: IsOctetAlternative(parts[i]))
      && s == Join(parts, '.')
  }

  /** `ip_add_pattern.search(s)`, decided by splitting at '.'. */
  function MatchesIpPattern(s: string): bool {
    var parts := Split(s, '.');
    |parts| == 4 && forall i | 0 <= i < 4 :: IsOctetAlternative(parts[i])
  }

  /** `str(a) + "." + str(b) + "." + str(c) + "." + str(d)`. */
  function DottedQuad(a: nat, b: nat, c: nat, d: nat): string {
    Join([FormatDecimal(a), FormatDecimal(b), FormatDecimal(c), FormatDecimal(d)], '.')
  }

  /** The octet alternatives denote exactly the numerals 0 to 255 written without a leading zero. */
  lemma OctetAlternativeIff(t: string)
    ensures IsOctetAlternative(t) <==> IsCanonicalDecimal(t) && DecimalValue(t) <= 255
  {
    if |t| >= 4 && IsCanonicalDecimal(t) {
      DecimalValueAtLeast(t);
      Pow10Monotone(3, |t| - 1);
      assert Pow10(3) == 1000;
    }
    if 1 <= |t| <= 3 && AllDigits(t) {
      var p1 := t[..1];
      assert p1[..0] == [] && p1[0] == t[0];
      assert DecimalValue(p1) == DigitValue(t[0]);
      if |t| >= 2 {
        var p2 := t[..2];
        assert p2[..1] == p1 && p2[1] == t[1];
        assert DecimalValue(p2) == 10 * DigitValue(t[0]) + DigitValue(t[1]);
        if |t| == 3 {
          assert t[..2] == p2;
          assert DecimalValue(t) == 100 * DigitValue(t[0]) + 10 * DigitValue(t[1]) + DigitValue(t[2]);
        } else {
          assert t[..1] == p1;
        }
      }
    }
  }

  /** The split-based decision agrees with the regular expression's language. */
  lemma MatchesIpPatternIff(s: string)
    ensures MatchesIpPattern(s) <==> InIpPatternLanguage(s)
  {
    if InIpPatternLanguage(s) {
      var parts: seq<string> :|
        && |parts| == 4
        && (forall i | 0 <= i < 4 :: IsOctetAlternative(parts[i]))
        && s == Join(parts, '.');
      SplitJoin(parts, '.');
    }
  }

  /** An address the pattern accepts is the rendering of the values of its own fields. */
  lemma MatchedAddressIsDottedQuad(s: string)
    requires MatchesIpPattern(s)
    ensures var parts := Split(s, '.');
      && (forall i | 0 <= i < 4 :: IsCanonicalDecimal(parts[i]) && DecimalValue(parts[i]) <= 255)
      && s == DottedQuad(DecimalValue(parts[0]), DecimalValue(parts[1]), DecimalValue(parts[2]), DecimalValue(parts[3]))
  {
    var parts := Split(s, '.');
    forall i | 0 <= i < 4
      ensures IsCanonicalDecimal(parts[i]) && DecimalValue(parts[i]) <= 255
      ensures FormatDecimal(DecimalValue(parts[i])) == parts[i]
    {
      OctetAlternativeIff(parts[i]);
      FormatDecimalOfValue(parts[i]);
    }
    assert parts == [parts[0], parts[1], parts[2], parts[3]];
  }

  /** The rendering of four numbers from 0 to 255 is accepted, and splits back into their numerals. */
  lemma DottedQuadMatches(a: nat, b: nat, c: nat, d: nat)
    requires a <= 255 && b <= 255 && c <= 255 && d <= 255
    ensures Split(DottedQuad(a, b, c, d), '.') == [FormatDecimal(a), FormatDecimal(b), FormatDecimal(c), FormatDecimal(d)]
    ensures MatchesIpPattern(DottedQuad(a, b, c, d))
  {
    var parts := [FormatDecimal(a), FormatDecimal(b), FormatDecimal(c), FormatDecimal(d)];
    forall i | 0 <= i < 4
      ensures '.' !in parts[i] && IsOctetAlternative(parts[i])
    {
      OctetAlternativeIff(parts[i]);
    }
    SplitJoin(parts, '.');
  }

  /** The pattern accepts exactly the canonical renderings of four numbers from 0 to 255. */
  lemma MatchesIpPatternIffDottedQuad(s: string)
    ensures MatchesIpPattern(s) <==>
      exists a: nat, b: nat, c: nat, d: nat ::
        a <= 255 && b <= 255 && c <= 255 && d <= 255 && s == DottedQuad(a, b, c, d)
  {
    if MatchesIpPattern(s) {
      MatchedAddressIsDottedQuad(s);
      var parts := Split(s, '.');
      var a, b, c, d := DecimalValue(parts[0]), DecimalValue(parts[1]), DecimalValue(parts[2]), DecimalValue(parts[3]);
      assert a <= 255 && b <= 255 && c <= 255 && d <= 255 && s == DottedQuad(a, b, c, d);
    }
    if exists a: nat, b: nat, c: nat, d: nat ::
        a <= 255 && b <= 255 && c <= 255 && d <= 255 && s == DottedQuad(a, b, c, d)
    {
      var a: nat, b: nat, c: nat, d: nat :|
        a <= 255 && b <= 255 && c <= 255 && d <= 255 && s == DottedQuad(a, b, c, d);
      DottedQuadMatches(a, b, c, d);
    }
  }

  /** Every address the port scanner accepts, followed by '/' and a prefix
      from 0 to 32 written canonically, is a subnet the sweep accepts. */
  lemma IpPatternImpliesCidr(address: string, prefix: nat)
    requires MatchesIpPattern(address)
    requires prefix <= 32
    ensures Cidr.ValidateCidr(address + ['/'] + FormatDecimal(prefix))
  {
    var parts := Split(address, '.');
    forall i | 0 <= i < 4
      ensures Cidr.IsOctetField(parts[i]) && DecimalValue(parts[i]) <= 255
    {
      OctetAlternativeIff(parts[i]);
    }
    Cidr.ValidateCidrIff(address + ['/'] + FormatDecimal(prefix));
  }

  /** "010" is a field of one to three digits worth 10, but no octet alternative. */
  lemma LeadingZeroField()
    ensures Cidr.IsOctetField("010") && DecimalValue("010") == 10
    ensures !IsOctetAlternative("010") && '.' !in "010"
  {
    assert "010"[..2] == "01" && "01"[..1] == "0" && "0"[..0] == [];
  }

  /** The converse fails: a field with a leading zero passes the subnet check
      but not the address pattern. */
  lemma CidrAdmitsLeadingZeros(rest: string, prefix: nat)
    requires MatchesIpPattern("10." + rest)
    requires prefix <= 32
    ensures Cidr.ValidateCidr("010." + rest + ['/'] + FormatDecimal(prefix))
    ensures !MatchesIpPattern("010." + rest)
  {
    LeadingZeroField();
    var tail := Split(rest, '.');
    assert "10." + rest == "10" + ['.'] + rest;
    SplitAfterField("10", '.', rest);
    assert "010." + rest == "010" + ['.'] + rest;
    SplitAfterField("010", '.', rest);
    var fields := ["010"] + tail;
    assert Join(fields, '.') == "010." + rest by {
      assert fields[1..] == tail;
    }
    forall i | 1 <= i < 4
      ensures Cidr.IsOctetField(fields[i]) && DecimalValue(fields[i]) <= 255
    {
      OctetAlternativeIff(tail[i - 1]);
    }
    var p := FormatDecimal(prefix);
    Cidr.PrefixAlternativeIff(p);
    Cidr.ValidateCidrOfShape("010." + rest + ['/'] + p, fields, p);
  }
}
