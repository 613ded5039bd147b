# ipcnameecho in Dafny

A model of the `ipcnameecho` CoreDNS plugin. The plugin answers A and AAAA
queries for names under its configured domains. It decodes the answer from
the first label of the queried name, so no zone data is needed:

- `ip-93-184-216-34.example.com` yields an A record for `93.184.216.34`;
- `cname-foo-dexample-dnet.example.com` yields a CNAME record to
  `foo.example.net.`, followed by the addresses an upstream resolver returns
  for that target.

An AAAA query for an `ip-` label whose text, with its dashes read as dots,
parses as an IP address gets a name error (NXDOMAIN) carrying a fabricated
SOA record; when the text does not parse, the question is skipped. A request the plugin cannot answer goes to the next
plugin in the chain.

The model is a set of pure functions over immutable datatypes:

| file | module | what it holds |
|---|---|---|
| `base.dfy` | `Base` | `Option` and the fixed-width integer ranges |
| `strings.dfy` | `Strings` | `strings.ToLower`, `SplitN(s, ".", 2)`, `ReplaceAll`, and the dot split and join used by the model of `net.ParseIP` |
| `net.dfy` | `Net` | `net.IP` as bytes, `IP.To4`, `net.ParseIP` with its IPv4 branch |
| `escape.dfy` | `AliasEscape` | the three-pass alias decoding, its encoder and the round trip |
| `dns.dfy` | `Dns` | questions, resource records, reply messages, the SOA template |
| `decoder.dfy` | `Decoder` | `parseSubdomain` and its laws |
| `ipcnameecho.dfy` | `IpCnameEcho` | the question loop, `echo`, `ServeDNS` |
| `echo_props.dfy` | `EchoProperties` | a loop-free description of the reply, and the theorems linking the loop to it |

Design choices:

- The decode result is a sum type, `NoMatch | IpAddr(ip, domain) | Alias(target, domain)`.
  The source uses a struct whose empty `ReqType` means "no result".
- Each question becomes an `Effect`:
  - `Skip`;
  - `Refuse(domain)`, the name-error exit;
  - `Emit(records, truncation)`.

  The loop `Run` folds these effects into the reply.
- `EchoProperties` describes the reply a second way, without loop state:
  - the first refusal (`FirstRefusal`);
  - every emitted record in question order (`Answers`);
  - the flag of the last successful lookup (`LastTruncation`).

  `EchoMatchesReference` proves that `echo` gives exactly this reply.
- The upstream resolver is a pure function `(name, type) -> Option<UpstreamReply>`.
  `None` covers both an error and a nil message, which the code treats the same way.
  A plugin without an upstream has `upstream == None`.
- The request-level `state.QType()` is the type of the first question,
  which is what `request.Request.QType` returns.
- `net.ParseIP` dispatches on whichever of `.`, `:` or `%` comes first.
  - The IPv4 branch is modelled: four dot-separated decimal octets, each
    0 to 255, with no leading zeros.
  - The IPv6 branch is the plugin's `parseIPv6` parameter.
- `net.IP` is a byte sequence. A parsed IPv4 address has the 16-byte
  IPv4-mapped form, and `To4` follows Go's rule.

Behaviour of the code that the model keeps as written:

- Truncation. Each successful upstream lookup overwrites `m.Truncated`
  (ipcnameecho.go:121). The flag is not latched: the last success wins.
  `TruncationLastWins` states this.
- Negative answer. The SOA record is built for the matched configured
  domain, not for the queried name (ipcnameecho.go:81).
- Reply flags on the name-error path. `m.SetRcode` does not reset
  `m.Truncated`, and `Authoritative` is never set on that path
  (ipcnameecho.go:78-82). The name-error reply therefore carries the flag
  left by earlier lookups and is not authoritative.
- Upstream gate. The upstream lookup is gated on the request-level query
  type, which is the first question's type (ipcnameecho.go:119). If the
  first question is neither A nor AAAA, the upstream is never consulted
  (`UpstreamGatedByFirstQuestion`).
- Returned rcode. `ServeDNS` returns rcode 0 on both handled paths,
  including the name-error one (ipcnameecho.go:56 and 79).

## Model

| member | source | states |
|---|---|---|
| `Strings.ToLower` | ipcnameecho.go:145 | the lower-cased name has the same length; at each position an ASCII upper-case letter becomes its lower-case letter and every other character stays as it is, so the result has no upper-case letter and keeps every '.' where it was |
| `Strings.SplitFirstDot` | ipcnameecho.go:145-149 | splitting fails exactly when the name has no '.'; otherwise the first part has no '.' and the name is first part + "." + rest |
| `Strings.SplitFirstDotUnique` | ipcnameecho.go:145 | a dot-free label followed by "." and any text always splits back into that label and that text |
| `Strings.ReplaceAll` | ipcnameecho.go:171-173 | a replacement no longer than the pattern never lengthens the text; a one-character pattern absent from the replacement is gone from the result; nothing new appears beyond the replacement's characters |
| `Strings.ReplaceMissing` | ipcnameecho.go:171-173 | text that does not contain the pattern's first character is left as it is |
| `Strings.ReplaceAbsent` | ipcnameecho.go:171-173 | text in which the pattern occurs nowhere is left as it is |
| `Strings.ReplaceCharConcat` | ipcnameecho.go:160 | replacing one character distributes over concatenation |
| `Strings.SplitDots` | ipcnameecho.go:161 | splitting at every '.' gives at least one dot-free field, and joining the fields with '.' gives the text back |
| `Strings.SplitJoinDots` | ipcnameecho.go:161 | splitting a '.'-join of dot-free fields gives those fields back |
| `Net.To4` | ipcnameecho.go:87 | an address has an IPv4 form exactly when it has 4 bytes, or 16 bytes starting with the IPv4-mapped prefix; that form is its last four bytes |
| `Net.IPv4` | ipcnameecho.go:87 | the address built from four bytes has 16 bytes, ends in those bytes, and its IPv4 form is those four bytes |
| `Net.ParseOctet` | ipcnameecho.go:161 | an octet is accepted exactly when it is a canonical decimal below 256, and its canonical text is the input |
| `Net.ParseIPv4` | ipcnameecho.go:161 | an accepted text yields a 16-byte IPv4-mapped address whose canonical dotted quad is that text |
| `Net.ParseFormatIPv4` | ipcnameecho.go:161 | the dotted quad of any four bytes parses back to those four bytes |
| `Net.FirstAddressMark` | ipcnameecho.go:161 | the mark found is the first '.', ':' or '%' of the text; none is found exactly when the text holds none of them |
| `Net.ParseIP` | ipcnameecho.go:161 | a text without ':' or '%' is parsed as IPv4; a text with neither '.' nor ':' never parses |
| `AliasEscape.Unescape` | ipcnameecho.go:171-173 | the decoded alias never contains '_' and is never longer than the label text; a text with no '-' and no '_' is unchanged |
| `AliasEscape.Escape` | ipcnameecho.go:170-173 | the encoding of an alias contains no '.', so it fits in one label; it is no shorter than the alias and adds no upper-case letter |
| `AliasEscape.FirstPassOnEscape` | ipcnameecho.go:171 | on an encoded alias, the "--" pass turns exactly the escaped dashes into the sentinel and leaves each "-d" whole |
| `AliasEscape.SecondPassOnSentinels` | ipcnameecho.go:172 | the "-d" pass on the sentinel form restores the dots and leaves the sentinels where the dashes were |
| `AliasEscape.ThirdPassRestores` | ipcnameecho.go:173 | the sentinel pass gives back the alias when the alias has no '_' of its own |
| `AliasEscape.UnescapeEscape` | ipcnameecho.go:171-173 | decoding undoes encoding for every alias without '_' |
| `AliasEscape.UnescapeThreeLabels` | ipcnameecho.go:167-175 | a three-label host such as foo.example.net is carried as foo-dexample-dnet and decoded back |
| `AliasEscape.LoneDashKept` | ipcnameecho.go:171-173 | a '-' between two dash-free texts without '_', the second of which does not start with 'd', survives decoding, and so does the whole text |
| `AliasEscape.UnescapeAmbiguous` | ipcnameecho.go:171-173 | "a-b" and its encoding "a--b" decode alike, so decoding is not injective |
| `Dns.Soa` | ipcnameecho.go:45-49 | the SOA for the zone: owner the zone, type SOA, class IN, TTL 60, names ns1. and postmaster. prefixed to the zone, serial 1524370381, refresh 14400, retry 3600, expire 604800, minimum 60 |
| `Decoder.MatchDomain` | ipcnameecho.go:151-152 | the domain loop finds an entry exactly when the remainder is one of the configured domains, and returns that remainder |
| `Decoder.ParseLabel` | ipcnameecho.go:156-179 | an address result needs the "ip-" prefix; an alias result needs the "cname-" prefix and has no '_' and no more characters than the label after the prefix; every result carries the matched domain |
| `Decoder.ParseSubdomain` | ipcnameecho.go:144-187 | a name without '.' never decodes; a decoded name is one dot-free label, then ".", then exactly a configured domain, which the result carries; a decoded alias has no '_' |
| `Decoder.DecodeUnmatchedSuffix` | ipcnameecho.go:145-186 | when the text after the first label is not exactly a configured domain, the name never decodes, even if it ends in one |
| `Decoder.DecodeIgnoresCase` | ipcnameecho.go:145 | a name decodes exactly as its ASCII lower-case form, so upper-case letters in a template name change nothing |
| `Decoder.DecodeIpLabel` | ipcnameecho.go:157-166 | an `ip-` label under a configured domain decodes exactly when its text, with dashes read as dots, parses as an IP; the result is that IP and the domain, and otherwise there is no result |
| `Decoder.DecodeCnameLabel` | ipcnameecho.go:167-175 | a `cname-` label under a configured domain always decodes to an alias, even when the remainder is empty |
| `Decoder.DecodeOtherLabel` | ipcnameecho.go:176-178 | a label with neither prefix never decodes |
| `Decoder.DashedQuadToDotted` | ipcnameecho.go:160 | reading the dashes of a dashed quad as dots gives the dotted quad |
| `Decoder.DecodeIpTemplate` | ipcnameecho.go:144-166 | the ip- label a client builds for four bytes, under a configured lower-case domain, decodes to that IPv4 address and domain |
| `Decoder.DecodeCnameTemplate` | ipcnameecho.go:144-175 | the cname- label a client builds for a lower-case alias without '_', under a configured lower-case domain, decodes to that alias and domain |
| `IpCnameEcho.AddressEffect` | ipcnameecho.go:77-106 | a decoded address refuses exactly for AAAA, naming the decoded domain; it is skipped exactly when the question is A and the address has no IPv4 form; otherwise it emits exactly one A record for the question's name, with class IN, the configured TTL and that address, and no lookup |
| `IpCnameEcho.AliasEffect` | ipcnameecho.go:107-124 | a decoded alias always emits, first a CNAME record for the question's name to the alias plus "."; a lookup result appears exactly when there is an upstream, the request type is A or AAAA and the lookup of that name succeeds, and then the upstream's records follow with its truncation flag; otherwise the CNAME stands alone |
| `IpCnameEcho.Contribution` | ipcnameecho.go:63-126 | a question is skipped exactly when its class is not IN, its type is not A or AAAA, its name decodes to nothing, or it is an A question for an ip- name whose address has no IPv4 form; a question refuses exactly when it is an IN AAAA question for an ip- name, and the refusal names a configured domain; an emitted first record is owned by the question's name, with class IN and the configured TTL; an A record comes alone, with an IPv4 form and no lookup; a lookup result appears only with an upstream and an A/AAAA request type |
| `IpCnameEcho.Run` | ipcnameecho.go:62-128 | the loop only appends records; the flag changes only through a successful lookup; a name-error exit comes from a refusal among the effects |
| `IpCnameEcho.Scan` | ipcnameecho.go:62-128 | a name-error exit always names a configured domain |
| `IpCnameEcho.NegativeAnswer` | ipcnameecho.go:78-83 | the name-error reply: rcode NXDOMAIN, not authoritative, the truncation flag carried in, no answers, and exactly one authority record, the SOA of the zone |
| `IpCnameEcho.Echo` | ipcnameecho.go:51-142 | zero questions write nothing; a written reply is either an authoritative success with at least one answer and no authority records, or a non-authoritative name error with no answers and one SOA for a configured domain |
| `IpCnameEcho.ServeDNS` | ipcnameecho.go:34-40 | the request is handled exactly when echo writes a reply; the returned rcode is then 0 and the message is that reply; otherwise it goes to the next handler |
| `EchoProperties.FirstRefusal` | ipcnameecho.go:77-83 | the position found is the first refusing question; none is found only when no question refuses |
| `EchoProperties.LastTruncationFront` | ipcnameecho.go:119-123 | the last-success flag, read from the front, is the flag after the first question carried through the rest |
| `EchoProperties.RunWithoutRefusal` | ipcnameecho.go:62-128 | without a refusal, the loop gathers every emitted record in question order and ends with the last successful lookup's flag |
| `EchoProperties.RunWithRefusal` | ipcnameecho.go:62-83 | with a refusal, the loop ends at the first one, with the flag left by the questions before it |
| `EchoProperties.RunMatchesReference` | ipcnameecho.go:62-128 | the loop equals the loop-free description, with or without a refusal |
| `EchoProperties.EchoMatchesReference` | ipcnameecho.go:51-142 | echo's reply is determined by the loop-free description: the name error for the first refusal; else, if any record was emitted, an authoritative success listing all of them in order with the last lookup's flag; else nothing |
| `EchoProperties.RunIgnoresSkip` | ipcnameecho.go:64-76 | a skipping effect anywhere in the loop changes nothing |
| `EchoProperties.SkippedQuestionHarmless` | ipcnameecho.go:62-76 | a skipped question, wherever it stands after the first, leaves the reply the same as without it |
| `EchoProperties.RefusalDiscardsRest` | ipcnameecho.go:77-83 | at the first refusing question, the reply is a name error with no answers and exactly the SOA of the matched domain, whatever came before or after |
| `EchoProperties.LastTruncationIsLast` | ipcnameecho.go:119-123 | when no later lookup succeeds, the reply's flag is that lookup's flag |
| `EchoProperties.AnswersHoldEmitted` | ipcnameecho.go:130 | a question that emits records makes the answer list non-empty |
| `EchoProperties.TruncationLastWins` | ipcnameecho.go:119-123 | when no question refuses and some lookup succeeds, a reply is written, and its truncation flag is the flag of the last successful lookup, even when an earlier lookup set it |
| `EchoProperties.AllSkippedAnswersNothing` | ipcnameecho.go:64-76 | questions that are all skipped emit nothing and refuse nothing |
| `EchoProperties.UndecodableFallsThrough` | ipcnameecho.go:34-40 | a request where no question decodes goes to the next handler |
| `EchoProperties.UpstreamGatedByFirstQuestion` | ipcnameecho.go:119 | when the first question is neither A nor AAAA, the reply is the same as with no upstream |
| `EchoProperties.IpTemplateAnswered` | ipcnameecho.go:86-100 | an IN A question for the ip- label of four bytes under a configured domain is answered with exactly one A record: owned by the queried name, class IN, the configured TTL, and that address |
| `EchoProperties.IpTemplateAAAARefused` | ipcnameecho.go:77-83 | an IN AAAA question for an ip- label, asked first, gets rcode 0 and a name error with only the matched domain's SOA, whatever other questions follow |
| `EchoProperties.CnameTemplateAnswered` | ipcnameecho.go:107-124 | an IN A or AAAA question for the cname- label of an alias is answered with one CNAME to the alias plus "."; when a lookup succeeds, the upstream's records follow and its truncation flag is used; otherwise the CNAME stands alone and the flag is false |
| `EchoProperties.SingleEffect` | ipcnameecho.go:51-142 | the reply to a one-question request, from that question's effect |
| `EchoProperties.SkippedFirstQuestion` | ipcnameecho.go:62-99 | an undecodable first question does not stop a following ip- question from being answered with its one A record |

## Left out

- `setup.go` is not modelled: plugin registration, loading the domains,
  TTL and debug flag, and creating the upstream resolver. The
  configuration is a `Config` value, and the upstream is a field of `Plugin`.
- Logging (`log.Printf`) and the `Config.Debug` branches are left out:
  they only log.
- `w.WriteMsg` and `plugin.NextOrFailure` are replaced by the returned
  `Reply`, `Handled(rcode, msg)` or `ToNext`. What the next handler does is
  not modelled.
- Reply header fields are not modelled. `SetReply` and `SetRcode` of the
  DNS library copy the id, opcode, RD/CD bits and first question from the
  request; only rcode, AA, TC and the answer and authority sections are
  modelled.
- Dns.Soa: builds the record directly from the constants at
  ipcnameecho.go:46. Two effects of `dns.NewRR` text parsing are left out:
  it makes the names fully qualified, and it can fail (the code drops that
  error).
- Upstream lookups are a pure function of name and type. Context
  cancellation, concurrency and the lookup's side effects are left out. In
  Go, no lookup happens for questions after a name-error exit; a pure
  model cannot observe that.
- `net.ParseIP`'s IPv6 text syntax is the `parseIPv6` parameter, because
  that library code is not part of this model. The IPv4 branch follows
  current Go, which rejects leading zeros. Go releases before 1.17
  accepted them.
- Strings.ToLower: does not model Unicode case mapping. It lower-cases
  ASCII letters only, where Go's `strings.ToLower` maps all Unicode
  letters.
- `Name()` is left out: it returns the constant plugin name and has no
  logic.
