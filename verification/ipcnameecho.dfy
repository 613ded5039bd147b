/** The query orchestrator: `echo` and `ServeDNS` (ipcnameecho.go:33-142)
    as pure functions from the plugin's configuration, the questions of
    a request and an upstream oracle to the reply the plugin writes, or
    to the decision to pass the request to the next handler. */
module IpCnameEcho {
  import opened Base
  import opened Net
  import opened Dns
  import opened Decoder

  /** The configured domains and the TTL put on every synthesized record. */
  datatype Config = Config(domains: seq<string>, ttl: uint32)

  /** The answer records and truncation flag of an upstream reply. */
  datatype UpstreamReply = UpstreamReply(answer: seq<RR>, truncated: bool)

  /** Upstreamer.Lookup(name, type); None stands for an error or a nil
      message, which the plugin treats alike. */
  type Lookup = (string, uint16) -> Option<UpstreamReply>

  /** The plugin value: configuration, the optional upstream resolver, and
      the IPv6 text parser of net.ParseIP. */
  datatype Plugin = Plugin(config: Config, upstream: Option<Lookup>,
                           parseIPv6: string -> Option<IP>)

  predicate IsAddressType(t: uint16) {
    t == TypeA || t == TypeAAAA
  }

  /** What one question does to the reply under construction. */
  datatype Effect =
    | Skip
    | Refuse(domain: string)
    | Emit(records: seq<RR>, truncation: Option<bool>)
  {
    /** The question went through a successful upstream lookup. */
    predicate LookedUp() {
      Emit? && truncation.Some?
    }
  }

  /** An `ip-` question that decoded to `ip` under domain `d`
      (ipcnameecho.go:77-106): AAAA gets the name error, A gets one A
      record when the address has an IPv4 form and nothing otherwise. */
  function AddressEffect(p: Plugin, q: Question, ip: IP, d: string): (e: Effect)
    ensures e.Refuse? <==> q.qtype == TypeAAAA
    ensures e.Refuse? ==> e.domain == d
    ensures e.Skip? <==> q.qtype != TypeAAAA && To4(ip).None?
    ensures e.Emit? ==> && |e.records| == 1 && e.truncation.None?
                        && e.records[0].A? && e.records[0].a == ip && To4(ip).Some?
                        && e.records[0].hdr == Header(q.name, TypeA, ClassINET, p.config.ttl)
  {
    if q.qtype == TypeAAAA then Refuse(d)
    else if To4(ip).Some? then Emit([A(Header(q.name, TypeA, ClassINET, p.config.ttl), ip)], None)
    else Skip
  }

  /** A `cname-` question that decoded to `target` (ipcnameecho.go:107-124):
      a CNAME record to target + ".", then, when there is an upstream and
      the request type is A or AAAA, the records of a successful lookup of
      that name, whose truncation flag it carries. */
  function AliasEffect(p: Plugin, reqType: uint16, q: Question, target: string): (e: Effect)
    ensures e.Emit? && |e.records| >= 1
    ensures e.records[0] == CNAME(Header(q.name, TypeCNAME, ClassINET, p.config.ttl), target + ".")
    ensures e.LookedUp() <==> && p.upstream.Some? && IsAddressType(reqType)
                              && p.upstream.value(target + ".", reqType).Some?
    ensures e.LookedUp() ==> var up := p.upstream.value(target + ".", reqType).value;
                             e.records[1..] == up.answer && e.truncation == Some(up.truncated)
    ensures !e.LookedUp() ==> |e.records| == 1
  {
    var fqdn := target + ".";
    var cname := CNAME(Header(q.name, TypeCNAME, ClassINET, p.config.ttl), fqdn);
    if p.upstream.Some? && IsAddressType(reqType) then
      match p.upstream.value(fqdn, reqType)
      case Some(up) => Emit([cname] + up.answer, Some(up.truncated))
      case None => Emit([cname], None)
    else Emit([cname], None)
  }

  /** The body of the question loop (ipcnameecho.go:63-126) for question
      `q` of a request whose request-level type is `reqType`. */
  function Contribution(p: Plugin, reqType: uint16, q: Question): (e: Effect)
    ensures q.qclass != ClassINET || !IsAddressType(q.qtype) ==> e.Skip?
    ensures var dec := ParseSubdomain(q.name, p.config.domains, p.parseIPv6);
            e.Skip? <==> || q.qclass != ClassINET || !IsAddressType(q.qtype) || dec.NoMatch?
                         || (dec.IpAddr? && q.qtype == TypeA && To4(dec.ip).None?)
    ensures e.Refuse? <==> q.qclass == ClassINET && q.qtype == TypeAAAA
                           && ParseSubdomain(q.name, p.config.domains, p.parseIPv6).IpAddr?
    ensures e.Refuse? ==> e.domain in p.config.domains
    ensures e.Emit? ==> |e.records| >= 1 && e.records[0].hdr.name == q.name
                        && e.records[0].hdr.rrclass == ClassINET && e.records[0].hdr.ttl == p.config.ttl
    ensures e.Emit? && e.records[0].A? ==> e.records == [e.records[0]] && e.truncation.None?
                                           && To4(e.records[0].a).Some?
    ensures e.LookedUp() ==> p.upstream.Some? && IsAddressType(reqType)
  {
    if q.qclass != ClassINET || !IsAddressType(q.qtype) then Skip
    else
      match ParseSubdomain(q.name, p.config.domains, p.parseIPv6)
      case NoMatch => Skip
      case IpAddr(ip, d) => AddressEffect(p, q, ip, d)
      case Alias(target, _) => AliasEffect(p, reqType, q, target)
  }

  /** The loop state: the records gathered so far and `m.Truncated`. */
  datatype Acc = Acc(rrs: seq<RR>, truncated: bool)

  /** How the question loop ends: all questions seen, or the name-error
      exit for a configured domain (carrying `m.Truncated` at that point). */
  datatype ScanEnd =
    | Exhausted(acc: Acc)
    | NegativeExit(domain: string, truncated: bool)

  /** The effect of each question, in order. The loop stops at the
      first refusal; effects are pure, so the ones after it are simply
      never used. */
  function Effects(p: Plugin, reqType: uint16, qs: seq<Question>): (es: seq<Effect>)
    ensures |es| == |qs|
    ensures forall i | 0 <= i < |qs| :: es[i] == Contribution(p, reqType, qs[i])
  {
    seq(|qs|, i requires 0 <= i < |qs| => Contribution(p, reqType, qs[i]))
  }

  /** The question loop (ipcnameecho.go:62-128) over the questions'
      effects: skip, stop with a name error, or append the records and,
      after a successful lookup, overwrite the truncation flag. */
  function Run(es: seq<Effect>, acc: Acc): (s: ScanEnd)
    ensures s.Exhausted? ==> acc.rrs <= s.acc.rrs
    ensures s.Exhausted? && s.acc.truncated != acc.truncated ==>
              exists i | 0 <= i < |es| :: es[i].LookedUp()
    ensures s.NegativeExit? ==> Refuse(s.domain) in es
    decreases |es|
  {
    if es == [] then Exhausted(acc)
    else
      match es[0]
      case Skip => Run(es[1..], acc)
      case Refuse(d) => NegativeExit(d, acc.truncated)
      case Emit(records, truncation) =>
        var t := if truncation.Some? then truncation.value else acc.truncated;
        Run(es[1..], Acc(acc.rrs + records, t))
  }

  /** The question loop for the questions of a request. */
  function Scan(p: Plugin, reqType: uint16, qs: seq<Question>, acc: Acc): (s: ScanEnd)
    ensures s.NegativeExit? ==> s.domain in p.config.domains
  {
    Run(Effects(p, reqType, qs), acc)
  }

  /** The name-error reply (ipcnameecho.go:78-83): `m.SetRcode` keeps
      whatever truncation flag earlier upstream lookups left in `m`. */
  function NegativeAnswer(zone: string, truncated: bool): (r: Msg)
    ensures r.rcode == RcodeNameError && !r.authoritative && r.truncated == truncated
    ensures r.answer == [] && r.ns == [Soa(zone)]
    ensures r.ns[0].SOA? && r.ns[0].hdr.name == zone && r.ns[0].hdr.rrtype == TypeSOA
  {
    Msg(RcodeNameError, false, truncated, [], [Soa(zone)])
  }

  /** What `echo` writes, if anything. */
  datatype EchoResult = Wrote(msg: Msg) | Declined

  /** echo (ipcnameecho.go:51-142). The request-level query type
      `state.QType()` is the type of the first question. */
  function Echo(p: Plugin, qs: seq<Question>): (r: EchoResult)
    ensures |qs| == 0 ==> r.Declined?
    ensures r.Wrote? ==>
              || (&& r.msg.rcode == RcodeSuccess && r.msg.authoritative
                  && |r.msg.answer| > 0 && r.msg.ns == [])
              || (&& r.msg.rcode == RcodeNameError && !r.msg.authoritative
                  && r.msg.answer == [] && |r.msg.ns| == 1 && r.msg.ns[0].SOA?
                  && r.msg.ns[0].hdr.name in p.config.domains)
  {
    if |qs| == 0 then Declined
    else
      match Scan(p, qs[0].qtype, qs, Acc([], false))
      case NegativeExit(d, truncated) => Wrote(NegativeAnswer(d, truncated))
      case Exhausted(acc) =>
        if |acc.rrs| > 0 then Wrote(Msg(RcodeSuccess, true, acc.truncated, acc.rrs, []))
        else Declined
  }

  /** What ServeDNS returns: the rcode of a reply the plugin wrote, or
      the hand-over to the next handler in the chain. */
  datatype Reply = Handled(rcode: int, msg: Msg) | ToNext

  /** ServeDNS (ipcnameecho.go:34-40). */
  function ServeDNS(p: Plugin, qs: seq<Question>): (r: Reply)
    ensures r.Handled? <==> Echo(p, qs).Wrote?
    ensures r.Handled? ==> r.rcode == RcodeSuccess && r.msg == Echo(p, qs).msg
  {
    match Echo(p, qs)
    case Wrote(msg) => Handled(0, msg)
    case Declined => ToNext
  }
}
