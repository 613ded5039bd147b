/** A question-by-question description of the reply, independent of the
    loop state, and the theorems that tie `echo` and `ServeDNS` to it. */
module EchoProperties {
  import opened Base
  import opened Strings
  import opened Net
  import opened Dns
  import opened Decoder
  import opened IpCnameEcho

  /** The position of the first effect that forces a name error. */
  function FirstRefusal(es: seq<Effect>): (r: Option<nat>)
    ensures r.Some? ==> r.value < |es| && es[r.value].Refuse?
    ensures r.Some? ==> forall j | 0 <= j < r.value :: !es[j].Refuse?
    ensures r.None? ==> forall j | 0 <= j < |es| :: !es[j].Refuse?
    decreases |es|
  {
    if es == [] then None
    else if es[0].Refuse? then Some(0)
    else
      match FirstRefusal(es[1..])
      case None => None
      case Some(i) => Some(i + 1)
  }

  function Emitted(e: Effect): seq<RR> {
    if e.Emit? then e.records else []
  }

  /** Every record the effects emit, in order. */
  function Answers(es: seq<Effect>): seq<RR>
    decreases |es|
  {
    if es == [] then [] else Emitted(es[0]) + Answers(es[1..])
  }

  /** The flag of the LAST successful lookup, or `init` when none
      succeeded. */
  function LastTruncation(es: seq<Effect>, init: bool): bool
    decreases |es|
  {
    if es == [] then init
    else if es[|es| - 1].LookedUp() then es[|es| - 1].truncation.value
    else LastTruncation(es[..|es| - 1], init)
  }

  /** The truncation flag after one effect. */
  function AfterOne(e: Effect, t: bool): bool {
    if e.LookedUp() then e.truncation.value else t
  }

  /** LastTruncation, read from the front. */
  lemma {:induction false} LastTruncationFront(e: Effect, rest: seq<Effect>, init: bool)
    ensures LastTruncation([e] + rest, init) == LastTruncation(rest, AfterOne(e, init))
    decreases |rest|
  {
    var es := [e] + rest;
    if rest == [] {
      assert es[..|es| - 1] == [];
    } else {
      assert es[|es| - 1] == rest[|rest| - 1];
      assert es[..|es| - 1] == [e] + rest[..|rest| - 1];
      LastTruncationFront(e, rest[..|rest| - 1], init);
    }
  }

  /** One step of the loop over an effect that does not refuse. */
  lemma RunStep(es: seq<Effect>, acc: Acc)
    requires |es| > 0 && !es[0].Refuse?
    ensures Run(es, acc) == Run(es[1..], Acc(acc.rrs + Emitted(es[0]), AfterOne(es[0], acc.truncated)))
  {
    if es[0].Skip? {
      assert acc.rrs + [] == acc.rrs;
    }
  }

  /** Without a refusal, the loop gathers every emitted record in order
      and ends with the last successful lookup's flag. */
  lemma {:induction false} RunWithoutRefusal(es: seq<Effect>, acc: Acc)
    requires FirstRefusal(es).None?
    ensures Run(es, acc) == Exhausted(Acc(acc.rrs + Answers(es), LastTruncation(es, acc.truncated)))
    decreases |es|
  {
    if es == [] {
      assert acc.rrs + [] == acc.rrs;
    } else {
      var e := es[0];
      assert es == [e] + es[1..];
      assert !e.Refuse?;
      var acc' := Acc(acc.rrs + Emitted(e), AfterOne(e, acc.truncated));
      RunStep(es, acc);
      RunWithoutRefusal(es[1..], acc');
      LastTruncationFront(e, es[1..], acc.truncated);
      assert acc'.rrs + Answers(es[1..]) == acc.rrs + Answers(es);
    }
  }

  /** With a refusal, the loop ends at the first one, with the flag left
      by the effects before it. */
  lemma {:induction false} RunWithRefusal(es: seq<Effect>, acc: Acc)
    requires FirstRefusal(es).Some?
    ensures var i := FirstRefusal(es).value;
            Run(es, acc) == NegativeExit(es[i].domain, LastTruncation(es[..i], acc.truncated))
    decreases |es|
  {
    var e := es[0];
    if e.Refuse? {
      assert es[..0] == [];
    } else {
      var i := FirstRefusal(es[1..]).value;
      var acc' := Acc(acc.rrs + Emitted(e), AfterOne(e, acc.truncated));
      RunStep(es, acc);
      RunWithRefusal(es[1..], acc');
      assert es[..i + 1] == [e] + es[1..][..i];
      LastTruncationFront(e, es[1..][..i], acc.truncated);
    }
  }

  /** The loop computes the effect-by-effect description: without a
      refusal, all emitted records in order and the last lookup's flag;
      with one, the name error for the first refusal, carrying the flag
      left by the effects before it. */
  lemma RunMatchesReference(es: seq<Effect>, acc: Acc)
    ensures match FirstRefusal(es)
            case None =>
              Run(es, acc) == Exhausted(Acc(acc.rrs + Answers(es), LastTruncation(es, acc.truncated)))
            case Some(i) =>
              Run(es, acc) == NegativeExit(es[i].domain, LastTruncation(es[..i], acc.truncated))
  {
    if FirstRefusal(es).None? {
      RunWithoutRefusal(es, acc);
    } else {
      RunWithRefusal(es, acc);
    }
  }

  /** echo, stated without the loop: a name error for the first refusing
      question; otherwise every emitted record, in question order, with
      the last successful lookup's truncation flag; otherwise nothing. */
  lemma EchoMatchesReference(p: Plugin, qs: seq<Question>)
    requires |qs| > 0
    ensures var es := Effects(p, qs[0].qtype, qs);
            Echo(p, qs) ==
              match FirstRefusal(es)
              case Some(i) =>
                Wrote(NegativeAnswer(es[i].domain, LastTruncation(es[..i], false)))
              case None =>
                if Answers(es) == [] then Declined
                else Wrote(Msg(RcodeSuccess, true, LastTruncation(es, false), Answers(es), []))
  {
    var es := Effects(p, qs[0].qtype, qs);
    RunMatchesReference(es, Acc([], false));
    assert [] + Answers(es) == Answers(es);
  }

  /** A skipping effect changes nothing in the loop, wherever it stands. */
  lemma {:induction false} RunIgnoresSkip(pre: seq<Effect>, post: seq<Effect>, acc: Acc)
    ensures Run(pre + [Skip] + post, acc) == Run(pre + post, acc)
    decreases |pre|
  {
    if pre == [] {
      assert (pre + [Skip] + post)[1..] == pre + post;
    } else {
      assert (pre + [Skip] + post)[0] == (pre + post)[0] == pre[0];
      assert (pre + [Skip] + post)[1..] == pre[1..] + [Skip] + post;
      assert (pre + post)[1..] == pre[1..] + post;
      if !pre[0].Refuse? {
        var acc' := Acc(acc.rrs + Emitted(pre[0]), AfterOne(pre[0], acc.truncated));
        if pre[0].Skip? {
          assert acc.rrs + [] == acc.rrs;
          assert acc' == acc;
        }
        RunIgnoresSkip(pre[1..], post, acc');
      }
    }
  }

  lemma EffectsConcat(p: Plugin, reqType: uint16, a: seq<Question>, b: seq<Question>)
    ensures Effects(p, reqType, a + b) == Effects(p, reqType, a) + Effects(p, reqType, b)
  {
  }

  /** A question of another class or type, or one that does not decode,
      neither answers nor blocks the questions after it: the reply is the
      one the request would get without it (the first question, which
      sets the request-level type, stays in place). */
  lemma SkippedQuestionHarmless(p: Plugin, pre: seq<Question>, q: Question, post: seq<Question>)
    requires |pre| > 0
    requires Contribution(p, pre[0].qtype, q).Skip?
    ensures Echo(p, pre + [q] + post) == Echo(p, pre + post)
  {
    var reqType := pre[0].qtype;
    assert (pre + [q] + post)[0] == pre[0] == (pre + post)[0];
    EffectsConcat(p, reqType, pre + [q], post);
    EffectsConcat(p, reqType, pre, [q]);
    EffectsConcat(p, reqType, pre, post);
    assert Effects(p, reqType, [q]) == [Skip];
    RunIgnoresSkip(Effects(p, reqType, pre), Effects(p, reqType, post), Acc([], false));
  }

  /** A refusal with none before it is the first refusal. */
  lemma {:induction false} FirstRefusalAt(es: seq<Effect>, k: nat)
    requires k < |es| && es[k].Refuse?
    requires forall j | 0 <= j < k :: !es[j].Refuse?
    ensures FirstRefusal(es) == Some(k)
    decreases k
  {
    if k > 0 {
      assert es[1..][k - 1] == es[k];
      FirstRefusalAt(es[1..], k - 1);
    }
  }

  /** The first refusing question ends the request with a name error for
      the matched configured domain: records gathered before it are
      dropped and the questions after it are never looked at. */
  lemma RefusalDiscardsRest(p: Plugin, pre: seq<Question>, q: Question, post: seq<Question>)
    requires var reqType := (pre + [q])[0].qtype;
             && Contribution(p, reqType, q).Refuse?
             && forall j | 0 <= j < |pre| :: !Contribution(p, reqType, pre[j]).Refuse?
    ensures var reqType := (pre + [q])[0].qtype;
            var d := Contribution(p, reqType, q).domain;
            var r := Echo(p, pre + [q] + post);
            && d in p.config.domains
            && r == Wrote(NegativeAnswer(d, LastTruncation(Effects(p, reqType, pre), false)))
            && r.msg.rcode == RcodeNameError && r.msg.answer == [] && r.msg.ns == [Soa(d)]
  {
    var qs := pre + [q] + post;
    var reqType := (pre + [q])[0].qtype;
    assert qs[0] == (pre + [q])[0];
    var es := Effects(p, reqType, qs);
    assert es[|pre|] == Contribution(p, reqType, q) by {
      assert qs[|pre|] == q;
    }
    assert es[..|pre|] == Effects(p, reqType, pre) by {
      forall j | 0 <= j < |pre|
        ensures es[j] == Contribution(p, reqType, pre[j])
      {
        assert qs[j] == pre[j];
      }
    }
    forall j | 0 <= j < |pre|
      ensures !es[j].Refuse?
    {
      assert es[j] == Effects(p, reqType, pre)[j];
    }
    FirstRefusalAt(es, |pre|);
    EchoMatchesReference(p, qs);
  }

  /** An effect's lookup flag survives when no later lookup succeeds: the
      flag is overwritten by each success, not latched. */
  lemma {:induction false} LastTruncationIsLast(es: seq<Effect>, k: nat, init: bool)
    requires k < |es| && es[k].LookedUp()
    requires forall j | k < j < |es| :: !es[j].LookedUp()
    ensures LastTruncation(es, init) == es[k].truncation.value
    decreases |es|
  {
    if k < |es| - 1 {
      var front := es[..|es| - 1];
      assert forall j | k < j < |front| :: front[j] == es[j];
      assert front[k] == es[k];
      LastTruncationIsLast(front, k, init);
    }
  }

  lemma {:induction false} AnswersHoldEmitted(es: seq<Effect>, k: nat)
    requires k < |es| && es[k].Emit? && |es[k].records| > 0
    ensures |Answers(es)| > 0
    decreases |es|
  {
    if k > 0 {
      assert es[1..][k - 1] == es[k];
      AnswersHoldEmitted(es[1..], k - 1);
    }
  }

  /** In a request no question of which refuses, the reply's truncation
      flag is the flag of the last question whose upstream lookup
      succeeded, even when an earlier lookup set it. */
  lemma TruncationLastWins(p: Plugin, qs: seq<Question>, k: nat)
    requires |qs| > 0 && k < |qs|
    requires forall j | 0 <= j < |qs| :: !Contribution(p, qs[0].qtype, qs[j]).Refuse?
    requires Contribution(p, qs[0].qtype, qs[k]).LookedUp()
    requires forall j | k < j < |qs| :: !Contribution(p, qs[0].qtype, qs[j]).LookedUp()
    ensures Echo(p, qs).Wrote?
    ensures Echo(p, qs).msg.truncated == Contribution(p, qs[0].qtype, qs[k]).truncation.value
  {
    var es := Effects(p, qs[0].qtype, qs);
    assert FirstRefusal(es).None? by {
      if FirstRefusal(es).Some? {
        assert false;
      }
    }
    EchoMatchesReference(p, qs);
    AnswersHoldEmitted(es, k);
    LastTruncationIsLast(es, k, false);
  }

  lemma {:induction false} AllSkippedAnswersNothing(es: seq<Effect>)
    requires forall j | 0 <= j < |es| :: es[j].Skip?
    ensures Answers(es) == []
    ensures FirstRefusal(es).None?
    decreases |es|
  {
    if es != [] {
      assert forall j | 0 <= j < |es[1..]| :: es[1..][j] == es[j + 1];
      AllSkippedAnswersNothing(es[1..]);
    }
  }

  /** A request none of whose questions decodes (no configured domain
      after the first label, an unknown prefix, an unparsable address) is
      passed to the next handler untouched. */
  lemma UndecodableFallsThrough(p: Plugin, qs: seq<Question>)
    requires forall j | 0 <= j < |qs| :: ParseSubdomain(qs[j].name, p.config.domains, p.parseIPv6).NoMatch?
    ensures ServeDNS(p, qs) == ToNext
  {
    if |qs| > 0 {
      var es := Effects(p, qs[0].qtype, qs);
      assert forall j | 0 <= j < |es| :: es[j] == Contribution(p, qs[0].qtype, qs[j]);
      AllSkippedAnswersNothing(es);
      EchoMatchesReference(p, qs);
    }
  }

  /** The upstream resolver is consulted only for requests whose FIRST
      question asks for A or AAAA: otherwise the reply is the one a
      plugin without an upstream gives. */
  lemma UpstreamGatedByFirstQuestion(p: Plugin, qs: seq<Question>)
    requires |qs| > 0 && !IsAddressType(qs[0].qtype)
    ensures Echo(p, qs) == Echo(p.(upstream := None), qs)
  {
    var reqType := qs[0].qtype;
    var p' := p.(upstream := None);
    forall i | 0 <= i < |qs|
      ensures Contribution(p, reqType, qs[i]) == Contribution(p', reqType, qs[i])
    {
    }
    assert Effects(p, reqType, qs) == Effects(p', reqType, qs);
  }

  /** An A question for the `ip-` label of an IPv4 address under a
      configured domain is answered with exactly one A record for it,
      owned by the queried name, with the configured TTL. */
  lemma IpTemplateAnswered(p: Plugin, q4: seq<byte>, d: string)
    requires |q4| == 4 && d in p.config.domains && NoUpper(d)
    ensures var name := IpLabel(q4) + "." + d;
            ServeDNS(p, [Question(name, TypeA, ClassINET)])
            == Handled(RcodeSuccess, Msg(RcodeSuccess, true, false,
                                         [A(Header(name, TypeA, ClassINET, p.config.ttl), IPv4(q4))], []))
  {
    var name := IpLabel(q4) + "." + d;
    var qs := [Question(name, TypeA, ClassINET)];
    DecodeIpTemplate(q4, d, p.config.domains, p.parseIPv6);
    var e := Contribution(p, TypeA, qs[0]);
    assert e == Emit([A(Header(name, TypeA, ClassINET, p.config.ttl), IPv4(q4))], None);
    SingleEffect(p, qs);
  }

  /** The reply to a one-question request, from that question's effect. */
  lemma SingleEffect(p: Plugin, qs: seq<Question>)
    requires |qs| == 1
    ensures var e := Contribution(p, qs[0].qtype, qs[0]);
            Echo(p, qs) == match e
              case Skip => Declined
              case Refuse(d) => Wrote(NegativeAnswer(d, false))
              case Emit(rrs, t) =>
                if rrs == [] then Declined
                else Wrote(Msg(RcodeSuccess, true, AfterOne(e, false), rrs, []))
  {
    var es := Effects(p, qs[0].qtype, qs);
    assert es == [Contribution(p, qs[0].qtype, qs[0])];
    EchoMatchesReference(p, qs);
    assert es[1..] == [];
    assert es[..0] == [];
    assert es[..|es| - 1] == [];
    assert Answers(es) == Emitted(es[0]) + [];
  }

  /** An AAAA question for an `ip-` label as the first question gets a
      name error with the SOA of the matched domain, whatever other
      questions the request holds. */
  lemma IpTemplateAAAARefused(p: Plugin, q4: seq<byte>, d: string, others: seq<Question>)
    requires |q4| == 4 && d in p.config.domains && NoUpper(d)
    ensures var name := IpLabel(q4) + "." + d;
            ServeDNS(p, [Question(name, TypeAAAA, ClassINET)] + others)
            == Handled(RcodeSuccess, Msg(RcodeNameError, false, false, [], [Soa(d)]))
  {
    var name := IpLabel(q4) + "." + d;
    var q := Question(name, TypeAAAA, ClassINET);
    DecodeIpTemplate(q4, d, p.config.domains, p.parseIPv6);
    assert Contribution(p, TypeAAAA, q) == Refuse(d);
    assert [] + [q] == [q];
    RefusalDiscardsRest(p, [], q, others);
    assert [] + [q] + others == [q] + others;
    assert Effects(p, TypeAAAA, []) == [];
  }

  /** An A or AAAA question for the `cname-` label of an alias under a
      configured domain is answered with one CNAME record to the alias
      plus '.', followed by the records the upstream resolver returns for
      that target (and its truncation flag) when there is an upstream and
      the lookup succeeds. */
  lemma CnameTemplateAnswered(p: Plugin, alias: string, d: string, qtype: uint16)
    requires IsAddressType(qtype)
    requires NoUpper(alias) && '_' !in alias
    requires d in p.config.domains && NoUpper(d)
    ensures var name := CnameLabel(alias) + "." + d;
            var cname := CNAME(Header(name, TypeCNAME, ClassINET, p.config.ttl), alias + ".");
            var looked := if p.upstream.Some? then p.upstream.value(alias + ".", qtype) else None;
            ServeDNS(p, [Question(name, qtype, ClassINET)])
            == Handled(RcodeSuccess,
                       match looked
                       case Some(up) => Msg(RcodeSuccess, true, up.truncated, [cname] + up.answer, [])
                       case None => Msg(RcodeSuccess, true, false, [cname], []))
  {
    var name := CnameLabel(alias) + "." + d;
    var qs := [Question(name, qtype, ClassINET)];
    DecodeCnameTemplate(alias, d, p.config.domains, p.parseIPv6);
    SingleEffect(p, qs);
  }

  lemma TwoEffects(rrs: seq<RR>)
    ensures Run([Skip, Emit(rrs, None)], Acc([], false)) == Exhausted(Acc(rrs, false))
  {
    var es := [Skip, Emit(rrs, None)];
    var acc := Acc([], false);
    assert es[1..] == [Emit(rrs, None)];
    assert es[1..][1..] == [];
    assert Run(es, acc) == Run(es[1..], acc);
    assert Run(es[1..], acc) == Run(es[1..][1..], Acc([] + rrs, false));
    assert [] + rrs == rrs;
  }

  /** The reply to a two-question request whose first question is
      skipped and whose second emits `rrs` without a lookup. */
  lemma SkipThenEmit(p: Plugin, qs: seq<Question>, rrs: seq<RR>)
    requires |qs| == 2 && |rrs| > 0
    requires Contribution(p, qs[0].qtype, qs[0]) == Skip
    requires Contribution(p, qs[0].qtype, qs[1]) == Emit(rrs, None)
    ensures Echo(p, qs) == Wrote(Msg(RcodeSuccess, true, false, rrs, []))
  {
    var es := Effects(p, qs[0].qtype, qs);
    assert es == [Skip, Emit(rrs, None)];
    TwoEffects(rrs);
  }

  /** A first question the plugin cannot decode does not stop it from
      answering the `ip-` question after it. */
  lemma SkippedFirstQuestion(p: Plugin, first: Question, q4: seq<byte>, d: string)
    requires ParseSubdomain(first.name, p.config.domains, p.parseIPv6).NoMatch?
    requires |q4| == 4 && d in p.config.domains && NoUpper(d)
    ensures var name := IpLabel(q4) + "." + d;
            ServeDNS(p, [first, Question(name, TypeA, ClassINET)])
            == Handled(RcodeSuccess, Msg(RcodeSuccess, true, false,
                                         [A(Header(name, TypeA, ClassINET, p.config.ttl), IPv4(q4))], []))
  {
    var name := IpLabel(q4) + "." + d;
    var second := Question(name, TypeA, ClassINET);
    var qs := [first, second];
    DecodeIpTemplate(q4, d, p.config.domains, p.parseIPv6);
    var rr := A(Header(name, TypeA, ClassINET, p.config.ttl), IPv4(q4));
    assert Contribution(p, first.qtype, first) == Skip;
    assert Contribution(p, first.qtype, second) == Emit([rr], None);
    SkipThenEmit(p, qs, [rr]);
  }
}
