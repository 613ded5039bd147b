/** The DNS message vocabulary the plugin reads and writes: questions,
    resource records and reply messages, with the numeric codes of the
    miekg/dns library. */
module Dns {
  import opened Base
  import opened Net

  const TypeA: uint16 := 1
  const TypeCNAME: uint16 := 5
  const TypeSOA: uint16 := 6
  const TypeAAAA: uint16 := 28
  const ClassINET: uint16 := 1

  const RcodeSuccess: int := 0
  const RcodeNameError: int := 3

  datatype Question = Question(name: string, qtype: uint16, qclass: uint16)

  datatype Header = Header(name: string, rrtype: uint16, rrclass: uint16, ttl: uint32)

  /** A resource record. `Other` stands for any record an upstream
      resolver may return that the plugin itself never builds. */
  datatype RR =
    | A(hdr: Header, a: IP)
    | CNAME(hdr: Header, target: string)
    | SOA(hdr: Header, ns: string, mbox: string, serial: uint32,
          refresh: uint32, retry: uint32, expire: uint32, minttl: uint32)
    | Other(hdr: Header, rdata: seq<byte>)

  /** The parts of a reply message the plugin sets. */
  datatype Msg = Msg(rcode: int, authoritative: bool, truncated: bool,
                     answer: seq<RR>, ns: seq<RR>)

  /** The fabricated start-of-authority record that accompanies a
      name-error reply for `zone` (ipcnameecho.go:45-49). */
  function Soa(zone: string): (r: RR)
    ensures r.SOA? && r.hdr == Header(zone, TypeSOA, ClassINET, 60)
    ensures r.ns == "ns1." + zone && r.mbox == "postmaster." + zone
    ensures r.serial == 1524370381 && r.refresh == 14400 && r.retry == 3600
    ensures r.expire == 604800 && r.minttl == 60
  {
    SOA(Header(zone, TypeSOA, ClassINET, 60), "ns1." + zone, "postmaster." + zone,
        1524370381, 14400, 3600, 604800, 60)
  }
}
