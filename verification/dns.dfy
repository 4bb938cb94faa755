/**
 * `resolveDomain`: two DNS-over-HTTPS queries, one for A and one for AAAA
 * records, merged into one address list. The two HTTP exchanges are inputs:
 * a lookup function returns either the parsed JSON reply or the message of
 * the fault (transport or JSON parsing) that ended the exchange.
 */
module Dns {
  import opened Wrappers
  import opened Strings

  /** The record types the worker queries and keeps. */
  const TypeA: int := 1
  const TypeAAAA: int := 28

  /** The prefix of every error message `resolveDomain` throws. */
  const FailurePrefix: string := "DNS resolution failed: "
  const NoRecordsMessage: string := "No A or AAAA records found"

  /** One element of the reply's `Answer` array. */
  datatype Answer = Answer(rtype: int, data: string)

  /** A DNS JSON reply; `answer` is `None` when the `Answer` field is absent. */
  datatype Reply = Reply(answer: Option<seq<Answer>>)

  /** The outcome of one query. */
  datatype Lookup = Answered(reply: Reply) | Failed(message: string)

  /**
   * `domain.includes(':') ? domain.split(':')[0] : domain`: the name
   * queried is the domain cut at its first colon.
   */
  function QueryName(domain: string): (name: string)
    ensures ':' !in name
    ensures ':' in domain ==> name + ":" <= domain
    ensures ':' !in domain ==> name == domain
  {
    if Includes(domain, ":") then
      FirstPiece(domain);
      SplitOn(domain, ':')[0]
    else
      NoColon(domain);
      domain
  }

  lemma {:induction false} FirstPiece(s: string)
    requires Includes(s, ":")
    ensures ':' !in SplitOn(s, ':')[0]
    ensures SplitOn(s, ':')[0] + ":" <= s
  {
    SplitOnJoin(s, ':');
    var p := SplitOn(s, ':');
    var i := IndexOf(s, ":").value;
    assert s[i..i + 1] == ":";
    CountPositive(s, ':', i);
    assert Join(p, ':') == p[0] + [':'] + Join(p[1..], ':');
  }

  lemma {:induction false} CountPositive(s: string, c: char, i: nat)
    requires i < |s| && s[i] == c
    ensures Count(s, c) >= 1
  {
    if i > 0 {
      CountPositive(s[1..], c, i - 1);
    }
  }

  lemma {:induction false} NoColon(s: string)
    requires !Includes(s, ":")
    ensures ':' !in s
  {
    if ':' in s {
      var i :| 0 <= i < |s| && s[i] == ':';
      assert OccursAt(s, ":", i);
    }
  }

  /** `"[" + data + "]"`, the form an IPv6 address takes in the result. */
  function Bracket(address: string): string {
    "[" + address + "]"
  }

  /**
   * The `data` of the answers of type `rtype`, in answer order, optionally
   * wrapped in brackets: `.filter(r => r.type === rtype).map(...)`.
   */
  function Select(answers: seq<Answer>, rtype: int, bracket: bool): (r: seq<string>)
    ensures |r| <= |answers|
  {
    if |answers| == 0 then []
    else
      var a := answers[0];
      var rest := Select(answers[1..], rtype, bracket);
      if a.rtype == rtype then [if bracket then Bracket(a.data) else a.data] + rest else rest
  }

  /** Selecting from two runs of answers selects from each in turn: the order of the answers is kept. */
  lemma {:induction false} SelectAppend(a: seq<Answer>, b: seq<Answer>, rtype: int, bracket: bool)
    ensures Select(a + b, rtype, bracket) == Select(a, rtype, bracket) + Select(b, rtype, bracket)
  {
    if |a| > 0 {
      assert (a + b)[0] == a[0];
      assert (a + b)[1..] == a[1..] + b;
      SelectAppend(a[1..], b, rtype, bracket);
    } else {
      assert a + b == b;
    }
  }

  /** A single answer is kept, bracketed when asked, exactly when it has the requested type. */
  lemma {:induction false} SelectSingle(a: Answer, rtype: int, bracket: bool)
    ensures a.rtype == rtype ==> Select([a], rtype, bracket) == [if bracket then Bracket(a.data) else a.data]
    ensures a.rtype != rtype ==> Select([a], rtype, bracket) == []
  {
  }

  /** The answers of a reply, none when the `Answer` field is absent. */
  function Answers(reply: Reply): seq<Answer> {
    reply.answer.GetOr([])
  }

  /**
   * Every A answer's data verbatim, followed by every AAAA answer's data in
   * brackets, each group in answer order; answers of other types (CNAME,
   * for one) are dropped.
   */
  function MergeAnswers(v4: Reply, v6: Reply): (ips: seq<string>)
  {
    Select(Answers(v4), TypeA, false) + Select(Answers(v6), TypeAAAA, true)
  }

  /**
   * The selection keeps exactly the answers of the requested type: an entry
   * is in it iff some answer of that type carries it.
   */
  lemma {:induction false} SelectMembers(answers: seq<Answer>, rtype: int, bracket: bool, x: string)
    ensures x in Select(answers, rtype, bracket) <==>
      exists i :: 0 <= i < |answers| && answers[i].rtype == rtype &&
        x == (if bracket then Bracket(answers[i].data) else answers[i].data)
  {
    if |answers| > 0 {
      SelectMembers(answers[1..], rtype, bracket, x);
      var w := (i: int) requires 0 <= i < |answers| =>
        if bracket then Bracket(answers[i].data) else answers[i].data;
      if x in Select(answers, rtype, bracket) && !(answers[0].rtype == rtype && x == w(0)) {
        var j :| 0 <= j < |answers[1..]| && answers[1..][j].rtype == rtype &&
          x == (if bracket then Bracket(answers[1..][j].data) else answers[1..][j].data);
        assert answers[j + 1] == answers[1..][j];
      }
      if exists i :: 0 <= i < |answers| && answers[i].rtype == rtype && x == w(i) {
        var i :| 0 <= i < |answers| && answers[i].rtype == rtype && x == w(i);
        if i > 0 {
          assert answers[1..][i - 1] == answers[i];
        }
      }
    }
  }

  /** The number of answers of type `rtype`. */
  function CountType(answers: seq<Answer>, rtype: int): nat {
    if |answers| == 0 then 0
    else (if answers[0].rtype == rtype then 1 else 0) + CountType(answers[1..], rtype)
  }

  /** The selection has one entry per answer of the requested type. */
  lemma {:induction false} SelectLength(answers: seq<Answer>, rtype: int, bracket: bool)
    ensures |Select(answers, rtype, bracket)| == CountType(answers, rtype)
  {
    if |answers| > 0 {
      SelectLength(answers[1..], rtype, bracket);
    }
  }

  /**
   * The merged list has one entry per A answer and per AAAA answer; the
   * first entries are the A answers' data and the rest are bracketed AAAA
   * data.
   */
  lemma {:induction false} MergeAnswersShape(v4: Reply, v6: Reply, x: string)
    ensures |MergeAnswers(v4, v6)| == CountType(Answers(v4), TypeA) + CountType(Answers(v6), TypeAAAA)
    ensures x in MergeAnswers(v4, v6) <==>
      || (exists i :: 0 <= i < |Answers(v4)| && Answers(v4)[i].rtype == TypeA && x == Answers(v4)[i].data)
      || (exists i :: 0 <= i < |Answers(v6)| && Answers(v6)[i].rtype == TypeAAAA && x == Bracket(Answers(v6)[i].data))
  {
    SelectLength(Answers(v4), TypeA, false);
    SelectLength(Answers(v6), TypeAAAA, true);
    SelectMembers(Answers(v4), TypeA, false, x);
    SelectMembers(Answers(v6), TypeAAAA, true, x);
  }

  /**
   * The merged list puts all the A entries first and all the AAAA entries
   * after them: its first `CountType(A)` entries are the selection from the
   * A reply and the rest the selection from the AAAA reply.
   */
  lemma {:induction false} MergeOrder(v4: Reply, v6: Reply)
    ensures CountType(Answers(v4), TypeA) <= |MergeAnswers(v4, v6)|
    ensures MergeAnswers(v4, v6)[..CountType(Answers(v4), TypeA)] == Select(Answers(v4), TypeA, false)
    ensures MergeAnswers(v4, v6)[CountType(Answers(v4), TypeA)..] == Select(Answers(v6), TypeAAAA, true)
  {
    SelectLength(Answers(v4), TypeA, false);
    var x := Select(Answers(v4), TypeA, false);
    var y := Select(Answers(v6), TypeAAAA, true);
    assert (x + y)[..|x|] == x;
    assert (x + y)[|x|..] == y;
  }

  /**
   * `resolveDomain(domain)`: query both record types for the domain cut at
   * its first colon and merge the answers. A failed exchange, or a merge
   * that finds nothing, is reported as an error message with the common
   * prefix; a successful result is never empty.
   */
  function ResolveDomain(domain: string, lookup: (string, int) -> Lookup): (r: Result<seq<string>>)
    ensures r.Ok? ==> |r.value| > 0
    ensures r.Ok? ==> lookup(QueryName(domain), TypeA).Answered? && lookup(QueryName(domain), TypeAAAA).Answered?
    ensures r.Ok? ==> r.value == MergeAnswers(lookup(QueryName(domain), TypeA).reply,
                                               lookup(QueryName(domain), TypeAAAA).reply)
    ensures r.Err? ==> FailurePrefix <= r.message
    ensures lookup(QueryName(domain), TypeA).Answered? && lookup(QueryName(domain), TypeAAAA).Answered? &&
            MergeAnswers(lookup(QueryName(domain), TypeA).reply, lookup(QueryName(domain), TypeAAAA).reply) == [] ==>
              r == Err(FailurePrefix + NoRecordsMessage)
    ensures lookup(QueryName(domain), TypeA).Answered? && lookup(QueryName(domain), TypeAAAA).Answered? &&
            MergeAnswers(lookup(QueryName(domain), TypeA).reply, lookup(QueryName(domain), TypeAAAA).reply) != [] ==>
              r == Ok(MergeAnswers(lookup(QueryName(domain), TypeA).reply, lookup(QueryName(domain), TypeAAAA).reply))
    ensures lookup(QueryName(domain), TypeA).Failed? ==>
              r == Err(FailurePrefix + lookup(QueryName(domain), TypeA).message)
    ensures lookup(QueryName(domain), TypeA).Answered? && lookup(QueryName(domain), TypeAAAA).Failed? ==>
              r == Err(FailurePrefix + lookup(QueryName(domain), TypeAAAA).message)
  {
    var name := QueryName(domain);
    match (lookup(name, TypeA), lookup(name, TypeAAAA))
    case (Failed(m), _) => Err(FailurePrefix + m)
    case (_, Failed(m)) => Err(FailurePrefix + m)
    case (Answered(v4), Answered(v6)) =>
      var ips := MergeAnswers(v4, v6);
      if |ips| == 0 then Err(FailurePrefix + NoRecordsMessage) else Ok(ips)
  }

  /**
   * A domain with only AAAA answers resolves to bracketed addresses only:
   * no bare entry appears.
   */
  lemma {:induction false} AaaaOnlyIsBracketed(v4: Reply, v6: Reply)
    requires CountType(Answers(v4), TypeA) == 0
    ensures forall k :: 0 <= k < |MergeAnswers(v4, v6)| ==> IsBracketedAaaa(v6, MergeAnswers(v4, v6)[k])
  {
    SelectLength(Answers(v4), TypeA, false);
    assert MergeAnswers(v4, v6) == Select(Answers(v6), TypeAAAA, true);
    forall k | 0 <= k < |MergeAnswers(v4, v6)|
      ensures IsBracketedAaaa(v6, MergeAnswers(v4, v6)[k])
    {
      SelectMembers(Answers(v6), TypeAAAA, true, MergeAnswers(v4, v6)[k]);
    }
  }

  /** `x` is the bracketed data of one of the reply's AAAA answers. */
  ghost predicate IsBracketedAaaa(v6: Reply, x: string) {
    exists i :: 0 <= i < |Answers(v6)| && Answers(v6)[i].rtype == TypeAAAA && x == Bracket(Answers(v6)[i].data)
  }
}
