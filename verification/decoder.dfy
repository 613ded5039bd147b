/** The label decoder, `parseSubdomain` (ipcnameecho.go:144-187): from a
    queried name and the configured domains to a typed intent. */
module Decoder {
  import opened Base
  import opened Strings
  import opened Net
  import opened AliasEscape

  /** What a queried name asks for. `domain` is the configured entry the
      name matched. */
  datatype Decoded =
    | NoMatch
    | IpAddr(ip: IP, domain: string)
    | Alias(target: string, domain: string)

  /** The loop over the configured domains: the first entry equal to the
      text after the first label, if any. */
  function MatchDomain(rest: string, domains: seq<string>): (r: Option<string>)
    ensures r.Some? <==> rest in domains
    ensures r.Some? ==> r.value == rest
    decreases |domains|
  {
    if domains == [] then None
    else if domains[0] == rest then Some(domains[0])
    else MatchDomain(rest, domains[1..])
  }

  /** The dispatch on the prefix of the (lower-cased) first label, once
      the rest of the name has matched configured domain `d`. */
  function ParseLabel(sub: string, d: string, parseIPv6: string -> Option<IP>): (r: Decoded)
    ensures !r.NoMatch? ==> r.domain == d
    ensures r.IpAddr? ==> "ip-" <= sub
    ensures r.Alias? ==> "cname-" <= sub && '_' !in r.target && |r.target| <= |sub| - 6
  {
    if "ip-" <= sub then
      match ParseIP(ReplaceAll(sub[3..], "-", "."), parseIPv6)
      case None => NoMatch
      case Some(ip) => IpAddr(ip, d)
    else if "cname-" <= sub then
      Alias(Unescape(sub[6..]), d)
    else
      NoMatch
  }

  /** parseSubdomain: lower-case the name, split it once at the first
      '.', require the remainder to be a configured domain, then decode
      the first label. */
  function ParseSubdomain(name: string, domains: seq<string>, parseIPv6: string -> Option<IP>): (r: Decoded)
    ensures '.' !in name ==> r.NoMatch?
    ensures !r.NoMatch? ==> r.domain in domains
    ensures !r.NoMatch? ==> exists first :: '.' !in first && ToLower(name) == first + "." + r.domain
    ensures r.Alias? ==> '_' !in r.target
  {
    match SplitFirstDot(ToLower(name))
    case None => NoMatch
    case Some((first, rest)) =>
      match MatchDomain(rest, domains)
      case None => NoMatch
      case Some(d) => ParseLabel(first, d, parseIPv6)
  }

  /** A name whose text after the first label is not exactly a configured
      domain never matches, so a name with extra intermediate labels
      under a configured domain is not decoded either. */
  lemma DecodeUnmatchedSuffix(name: string, first: string, rest: string, domains: seq<string>,
                              parseIPv6: string -> Option<IP>)
    requires '.' !in first && ToLower(name) == first + "." + rest
    requires rest !in domains
    ensures ParseSubdomain(name, domains, parseIPv6) == NoMatch
  {
    SplitFirstDotUnique(first, rest);
  }

  /** Decoding ignores ASCII case: a name decodes as its lower-case form,
      so `IP-1-2-3-4.EXAMPLE.COM` asks for what `ip-1-2-3-4.example.com`
      asks for. */
  lemma DecodeIgnoresCase(name: string, domains: seq<string>, parseIPv6: string -> Option<IP>)
    ensures ParseSubdomain(name, domains, parseIPv6) == ParseSubdomain(ToLower(name), domains, parseIPv6)
  {
    assert NoUpper(ToLower(name));
  }

  /** An `ip-` label under a configured domain decodes to an address
      exactly when its text, dashes read as dots, parses as an IP. */
  lemma DecodeIpLabel(name: string, first: string, rest: string, domains: seq<string>,
                      parseIPv6: string -> Option<IP>)
    requires '.' !in first && ToLower(name) == first + "." + rest
    requires rest in domains && "ip-" <= first
    ensures var r := ParseSubdomain(name, domains, parseIPv6);
            var parsed := ParseIP(ReplaceAll(first[3..], "-", "."), parseIPv6);
            (r.IpAddr? <==> parsed.Some?) && (r.IpAddr? ==> r == IpAddr(parsed.value, rest))
            && (parsed.None? ==> r.NoMatch?)
  {
    SplitFirstDotUnique(first, rest);
  }

  /** A `cname-` label under a configured domain always decodes to an
      alias, even when nothing follows the prefix. */
  lemma DecodeCnameLabel(name: string, first: string, rest: string, domains: seq<string>,
                         parseIPv6: string -> Option<IP>)
    requires '.' !in first && ToLower(name) == first + "." + rest
    requires rest in domains && "cname-" <= first
    ensures ParseSubdomain(name, domains, parseIPv6) == Alias(Unescape(first[6..]), rest)
  {
    SplitFirstDotUnique(first, rest);
  }

  /** A label with neither prefix never decodes. */
  lemma DecodeOtherLabel(name: string, first: string, rest: string, domains: seq<string>,
                         parseIPv6: string -> Option<IP>)
    requires '.' !in first && ToLower(name) == first + "." + rest
    requires !("ip-" <= first) && !("cname-" <= first)
    ensures ParseSubdomain(name, domains, parseIPv6) == NoMatch
  {
    SplitFirstDotUnique(first, rest);
  }

  /** The `ip-` label a client writes for a four-byte address. */
  function IpLabel(q: seq<byte>): string
    requires |q| == 4
  {
    "ip-" + FormatQuad(q, '-')
  }

  /** The `cname-` label a client writes for an alias. */
  function CnameLabel(alias: string): string {
    "cname-" + Escape(alias)
  }

  lemma DecimalHasNoMarks(n: nat)
    ensures '.' !in Decimal(n) && '-' !in Decimal(n) && ':' !in Decimal(n) && '%' !in Decimal(n)
    ensures NoUpper(Decimal(n))
  {
    var s := Decimal(n);
    assert AllDigits(s);
  }

  /** Reading the dashes of a dashed quad as dots gives the dotted quad. */
  lemma DashedQuadToDotted(q: seq<byte>)
    requires |q| == 4
    ensures ReplaceAll(FormatQuad(q, '-'), "-", ".") == FormatQuad(q, '.')
  {
    var a, b, c, d := Decimal(q[0]), Decimal(q[1]), Decimal(q[2]), Decimal(q[3]);
    DecimalHasNoMarks(q[0]);
    DecimalHasNoMarks(q[1]);
    DecimalHasNoMarks(q[2]);
    DecimalHasNoMarks(q[3]);
    var dash := "-";
    assert ReplaceAll(dash, "-", ".") == ".";
    ReplaceMissing(a, "-", ".");
    ReplaceMissing(b, "-", ".");
    ReplaceMissing(c, "-", ".");
    ReplaceMissing(d, "-", ".");
    ReplaceCharConcat(a + dash + b + dash + c + dash, d, '-', ".");
    ReplaceCharConcat(a + dash + b + dash + c, dash, '-', ".");
    ReplaceCharConcat(a + dash + b + dash, c, '-', ".");
    ReplaceCharConcat(a + dash + b, dash, '-', ".");
    ReplaceCharConcat(a + dash, b, '-', ".");
    ReplaceCharConcat(a, dash, '-', ".");
  }

  /** The label a client builds for an IPv4 address, under a configured
      lower-case domain, decodes to that address. */
  lemma DecodeIpTemplate(q: seq<byte>, d: string, domains: seq<string>, parseIPv6: string -> Option<IP>)
    requires |q| == 4
    requires d in domains && NoUpper(d)
    ensures ParseSubdomain(IpLabel(q) + "." + d, domains, parseIPv6) == IpAddr(IPv4(q), d)
  {
    var first := IpLabel(q);
    var name := first + "." + d;
    DecimalHasNoMarks(q[0]);
    DecimalHasNoMarks(q[1]);
    DecimalHasNoMarks(q[2]);
    DecimalHasNoMarks(q[3]);
    assert '.' !in first;
    assert NoUpper(name);
    assert first[3..] == FormatQuad(q, '-');
    DashedQuadToDotted(q);
    ParseFormatIPv4(q);
    var dotted := FormatQuad(q, '.');
    assert ':' !in dotted && '%' !in dotted;
    DecodeIpLabel(name, first, d, domains, parseIPv6);
  }

  /** The label a client builds for a lower-case alias without '_', under
      a configured lower-case domain, decodes to that alias. */
  lemma DecodeCnameTemplate(alias: string, d: string, domains: seq<string>, parseIPv6: string -> Option<IP>)
    requires NoUpper(alias) && '_' !in alias
    requires d in domains && NoUpper(d)
    ensures ParseSubdomain(CnameLabel(alias) + "." + d, domains, parseIPv6) == Alias(alias, d)
  {
    var first := CnameLabel(alias);
    var name := first + "." + d;
    assert NoUpper(name);
    assert first[6..] == Escape(alias);
    UnescapeEscape(alias);
    DecodeCnameLabel(name, first, d, domains, parseIPv6);
  }
}
