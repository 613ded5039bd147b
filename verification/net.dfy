/** The slice of Go's `net` package the decoder uses: the `net.IP` byte
    representation, `IP.To4`, and `net.ParseIP`, whose IPv4 branch is
    modelled here and whose IPv6 branch is supplied by the caller. */
module Net {
  import opened Base
  import opened Strings

  /** net.IP: a byte slice; parsed addresses are 16 bytes long, IPv4 ones
      in the IPv4-mapped IPv6 form. */
  type IP = seq<byte>

  /** The twelve bytes that precede an IPv4 address in its 16-byte form. */
  const V4InV6Prefix: seq<byte> := [0, 0, 0, 0, 0, 0, 0, 0, 0, 0, 0xff, 0xff]

  /** net.IPv4(a, b, c, d): the IPv4-mapped 16-byte form, from which
      To4 recovers the four bytes. */
  function IPv4(q: seq<byte>): (ip: IP)
    requires |q| == 4
    ensures |ip| == 16 && ip[12..] == q
    ensures To4(ip) == Some(q)
  {
    assert (V4InV6Prefix + q)[..12] == V4InV6Prefix;
    V4InV6Prefix + q
  }

  /** IP.To4: the four IPv4 bytes of `ip`, or None when `ip` is neither a
      4-byte address nor an IPv4-mapped 16-byte one. */
  function To4(ip: IP): (r: Option<seq<byte>>)
    ensures r.Some? <==> |ip| == 4 || (|ip| == 16 && V4InV6Prefix <= ip)
    ensures r.Some? ==> |r.value| == 4 && r.value == ip[|ip| - 4..]
  {
    if |ip| == 4 then Some(ip)
    else if |ip| == 16 && ip[..12] == V4InV6Prefix then Some(ip[12..])
    else None
  }

  predicate IsDigit(c: char) {
    '0' <= c <= '9'
  }

  predicate AllDigits(s: string) {
    forall c | c in s :: IsDigit(c)
  }

  function DigitChar(n: nat): (c: char)
    requires n < 10
    ensures IsDigit(c)
  {
    ('0' as int + n) as char
  }

  /** The number a string of decimal digits denotes. */
  function DecimalValue(s: string): nat
    requires AllDigits(s)
  {
    if s == [] then 0
    else
      assert forall c | c in s[..|s| - 1] :: c in s;
      assert s[|s| - 1] in s;
      10 * DecimalValue(s[..|s| - 1]) + (s[|s| - 1] as int - '0' as int)
  }

  /** A decimal field without superfluous leading zeros, as Go's IPv4
      parser demands of every octet. */
  predicate Canonical(f: string) {
    |f| >= 1 && AllDigits(f) && (|f| == 1 || f[0] != '0')
  }

  /** The canonical decimal text of `n`. */
  function Decimal(n: nat): (r: string)
    ensures Canonical(r)
    ensures n > 0 ==> r[0] != '0'
    ensures DecimalValue(r) == n
    decreases n
  {
    if n < 10 then [DigitChar(n)]
    else
      var r := Decimal(n / 10) + [DigitChar(n % 10)];
      assert r[..|r| - 1] == Decimal(n / 10);
      assert forall c | c in r :: c in Decimal(n / 10) || c == DigitChar(n % 10);
      r
  }

  /** A digit string with a non-zero first digit denotes a positive number. */
  lemma {:induction false} LeadingDigitPositive(s: string)
    requires |s| >= 1 && AllDigits(s) && s[0] != '0'
    ensures DecimalValue(s) >= 1
    decreases |s|
  {
    if |s| > 1 {
      var init := s[..|s| - 1];
      assert forall c | c in init :: c in s;
      assert init[0] == s[0];
      assert s[|s| - 1] in s;
      LeadingDigitPositive(init);
      assert DecimalValue(s) == 10 * DecimalValue(init) + (s[|s| - 1] as int - '0' as int);
    } else {
      assert s[0] in s;
    }
  }

  /** Every canonical decimal field is the text Decimal gives for its value. */
  lemma {:induction false} DecimalOfValue(f: string)
    requires Canonical(f)
    ensures Decimal(DecimalValue(f)) == f
    decreases |f|
  {
    assert f[|f| - 1] in f;
    if |f| > 1 {
      var init := f[..|f| - 1];
      assert forall c | c in init :: c in f;
      assert init[0] == f[0];
      LeadingDigitPositive(init);
      DecimalOfValue(init);
      var digit := f[|f| - 1] as int - '0' as int;
      var n := DecimalValue(f);
      assert n == 10 * DecimalValue(init) + digit;
      assert n / 10 == DecimalValue(init) && n % 10 == digit;
      assert Decimal(n) == Decimal(n / 10) + [DigitChar(n % 10)];
      assert DigitChar(digit) == f[|f| - 1];
      assert f == init + [f[|f| - 1]];
    }
  }

  /** One octet of a dotted quad: a canonical decimal no larger than 255. */
  function ParseOctet(f: string): (r: Option<byte>)
    ensures r.Some? <==> Canonical(f) && DecimalValue(f) < 256
    ensures r.Some? ==> Decimal(r.value) == f
  {
    if Canonical(f) && DecimalValue(f) < 256 then
      DecimalOfValue(f);
      Some(DecimalValue(f))
    else None
  }

  /** The text of a four-byte address with `sep` between the octets:
      '.' gives the usual dotted quad. */
  function FormatQuad(q: seq<byte>, sep: char): string
    requires |q| == 4
  {
    Decimal(q[0]) + [sep] + Decimal(q[1]) + [sep] + Decimal(q[2]) + [sep] + Decimal(q[3])
  }

  lemma JoinFour(fields: seq<string>)
    requires |fields| == 4
    ensures JoinDots(fields) == fields[0] + "." + fields[1] + "." + fields[2] + "." + fields[3]
  {
    assert fields[1..][1..] == fields[2..];
    assert fields[2..][1..] == fields[3..];
    assert JoinDots(fields[3..]) == fields[3];
    assert JoinDots(fields[2..]) == fields[2] + "." + fields[3];
    assert JoinDots(fields[1..]) == fields[1] + "." + (fields[2] + "." + fields[3]);
    assert JoinDots(fields) == fields[0] + "." + (fields[1] + "." + (fields[2] + "." + fields[3]));
  }

  /** The IPv4 branch of net.ParseIP: exactly four dot-separated canonical
      decimal octets. Only the canonical text of an address is accepted. */
  function ParseIPv4(s: string): (r: Option<IP>)
    ensures r.Some? ==> |r.value| == 16 && V4InV6Prefix <= r.value
    ensures r.Some? ==> FormatQuad(r.value[12..], '.') == s
  {
    var fields := SplitDots(s);
    if |fields| != 4 then None
    else
      match (ParseOctet(fields[0]), ParseOctet(fields[1]), ParseOctet(fields[2]), ParseOctet(fields[3]))
      case (Some(a), Some(b), Some(c), Some(d)) =>
        var ip := IPv4([a, b, c, d]);
        assert ip[12..] == [a, b, c, d];
        JoinFour(fields);
        Some(ip)
      case _ => None
  }

  /** The canonical text of a byte is accepted as that byte. */
  lemma ParseOctetDecimal(b: byte)
    ensures ParseOctet(Decimal(b)) == Some(b)
  {
    DecimalOfValue(Decimal(b));
  }

  /** The dotted quad of an address splits into its four octet texts. */
  lemma SplitFormatQuad(q: seq<byte>)
    requires |q| == 4
    ensures SplitDots(FormatQuad(q, '.')) == [Decimal(q[0]), Decimal(q[1]), Decimal(q[2]), Decimal(q[3])]
  {
    var fields := [Decimal(q[0]), Decimal(q[1]), Decimal(q[2]), Decimal(q[3])];
    forall f | f in fields
      ensures '.' !in f
    {
      assert AllDigits(f);
    }
    JoinFour(fields);
    SplitJoinDots(fields);
  }

  /** Text that splits into the canonical texts of four bytes parses as
      the address of those bytes. */
  lemma ParseIPv4Fields(s: string, a: byte, b: byte, c: byte, d: byte)
    requires SplitDots(s) == [Decimal(a), Decimal(b), Decimal(c), Decimal(d)]
    ensures ParseIPv4(s) == Some(IPv4([a, b, c, d]))
  {
    ParseOctetDecimal(a);
    ParseOctetDecimal(b);
    ParseOctetDecimal(c);
    ParseOctetDecimal(d);
  }

  lemma QuadOf(q: seq<byte>)
    requires |q| == 4
    ensures [q[0], q[1], q[2], q[3]] == q
  {
  }

  /** The canonical dotted quad of any address parses back to it. */
  lemma ParseFormatIPv4(q: seq<byte>)
    requires |q| == 4
    ensures ParseIPv4(FormatQuad(q, '.')) == Some(IPv4(q))
  {
    SplitFormatQuad(q);
    ParseIPv4Fields(FormatQuad(q, '.'), q[0], q[1], q[2], q[3]);
    QuadOf(q);
  }

  /** The first '.', ':' or '%' of `s`, the character net.ParseIP
      dispatches on. */
  function FirstAddressMark(s: string): (r: Option<char>)
    ensures r.None? <==> '.' !in s && ':' !in s && '%' !in s
    ensures r.Some? ==> r.value in ".:%"
    ensures r.Some? ==> exists i | 0 <= i < |s| :: s[i] == r.value && forall k | 0 <= k < i :: s[k] !in ".:%"
    decreases |s|
  {
    if s == [] then None
    else if s[0] in ".:%" then Some(s[0])
    else FirstAddressMark(s[1..])
  }

  /** net.ParseIP: IPv4 syntax when a '.' comes first, IPv6 syntax (the
      caller's `parseIPv6`) when a ':' comes first, failure otherwise. */
  function ParseIP(s: string, parseIPv6: string -> Option<IP>): (r: Option<IP>)
    ensures ':' !in s && '%' !in s ==> r == ParseIPv4(s)
    ensures '.' !in s && ':' !in s ==> r.None?
  {
    match FirstAddressMark(s)
    case Some('.') => ParseIPv4(s)
    case Some(':') => parseIPv6(s)
    case _ => None
  }
}
