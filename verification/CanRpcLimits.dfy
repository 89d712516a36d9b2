/**
 How many request ids may be used before an answer can go to the wrong call: a late response is
 taken for the answer to a call with the same id and sequence, which come back together after
 16 * (2^32 - 1) ids.
 */
module CanRpcLimits {
  import opened Bytes
  import opened RpcPayload
  import opened CanRpc
  import opened CanRpcRun

  const CYCLE := 16 * U32_MAX

  lemma Extended(states: seq<System>, steps: seq<Step>, step: Step)
    requires IsRun(states, steps) && Enabled(states[|steps|], step)
    ensures IsRun(states + [Apply(states[|steps|], step)], steps + [step])
  {
    var more, longer := states + [Apply(states[|steps|], step)], steps + [step];
    forall k | 0 <= k < |longer|
      ensures Enabled(more[k], longer[k]) && more[k + 1] == Apply(more[k], longer[k])
    {
      if k < |steps| { assert Enabled(states[k], steps[k]) && states[k + 1] == Apply(states[k], steps[k]); }
    }
  }

  /** The sender takes the message of every call, as an idle sender does. */
  ghost predicate SenderTakes(steps: seq<Step>) {
    forall k :: 0 <= k < |steps| && steps[k].ClientCall? ==> steps[k].attempt.begin == Ok
  }

  /** A call without a body or a deadline; `pump` is what writing its frames says. */
  function Plain(pump: Status): Step {
    ClientCall(Attempt(true, true, [], 0, Ok, 0, false, Ok, pump))
  }

  function Start(): System {
    System(Client(true, 0, 0, false, 0, 0, 0, 0, 0, 0, 0, 0, 0, 0, 0),
           Server(0, 0, false, false, 0, 0, 0, 0, 0, 0, 0, 0), [], 0, 0, [], 0, false, {}, {})
  }

  function FirstRequest(): Request {
    Request(1, 0, [])
  }

  /** The response the server begins for the first call. */
  function Late(): Post {
    Post(0, Letter(0, ResponseBytes(Response(Unavailable, 1, []))))
  }

  lemma Called(s: System)
    requires Inv(s) && s.client.sealed && !s.client.pending && s.client.maxRequest == 0
    ensures Enabled(s, Plain(Ok))
    ensures var t := Apply(s, Plain(Ok));
            && t.issued == s.issued + 1 && t.client.pending && t.current == |s.calls| && t.client.sealed
            && t.client.maxRequest == 0 && t.client.maxResponse == s.client.maxResponse
            && t.client.id == IdOf(t.issued) && t.client.sequence == SequenceOf(t.issued)
            && t.calls == s.calls + [Call(Request(IdOf(t.issued), 0, []), SequenceOf(t.issued), t.issued, Waiting)]
            && t.toServer == s.toServer + {Post(|s.calls|, Letter(SequenceOf(t.issued),
                                                                 RequestBytes(Request(IdOf(t.issued), 0, []))))}
            && t.toClient == s.toClient && t.server == s.server && t.taken == s.taken && t.epoch == s.epoch
            && t.running == s.running
  {
    NextIssue(s.client, s.issued);
  }

  lemma FirstCall() returns (states: seq<System>, steps: seq<Step>)
    ensures IsRun(states, steps) && SenderTakes(steps)
    ensures var s := states[|steps|];
            && s.issued == 1 && s.client.sealed && s.client.pending && s.client.maxRequest == 0 == s.client.maxResponse
            && |s.calls| == 1 && s.current == 0 && s.taken == [] && s.server == Start().server
            && Post(0, Letter(0, RequestBytes(FirstRequest()))) in s.toServer
  {
    states, steps := [Start()], [];
    RunInv(states, steps, 0);
    Called(Start());
    Extended(states, steps, Plain(Ok));
    states, steps := states + [Apply(Start(), Plain(Ok))], steps + [Plain(Ok)];
  }

  /** The first call is taken up and answered; then the client gives it up. */
  lemma GivenUp() returns (states: seq<System>, steps: seq<Step>)
    ensures IsRun(states, steps) && SenderTakes(steps)
    ensures var s := states[|steps|];
            && s.issued == 1 && s.client.sealed && !s.client.pending && s.client.maxRequest == 0 == s.client.maxResponse
            && |s.calls| == 1 && |s.taken| == 1 && s.taken[0].call == 0 && Late() in s.toClient
  {
    states, steps := FirstCall();
    states, steps := AnsweredLate(states, steps);
    Extended(states, steps, ClientReset);
    states, steps := states + [Apply(states[|steps|], ClientReset)], steps + [ClientReset];
  }

  lemma AnsweredLate(states: seq<System>, steps: seq<Step>) returns (more: seq<System>, longer: seq<Step>)
    requires IsRun(states, steps) && SenderTakes(steps)
    requires var s := states[|steps|];
             && s.issued == 1 && s.client.sealed && s.client.pending && s.client.maxRequest == 0 == s.client.maxResponse
             && |s.calls| == 1 && s.current == 0 && s.taken == [] && s.server == Start().server
             && Post(0, Letter(0, RequestBytes(FirstRequest()))) in s.toServer
    ensures IsRun(more, longer) && SenderTakes(longer)
    ensures var s, t := states[|steps|], more[|longer|];
            && t.issued == 1 && t.client == s.client && t.calls == s.calls && t.current == 0
            && |t.taken| == 1 && t.taken[0].call == 0 && Late() in t.toClient
  {
    var post := Post(0, Letter(0, RequestBytes(FirstRequest())));
    var step := ServerAccept(post, false, 0, Unavailable, Sending(Ok, Ok, Ok));
    RequestReadsBack(FirstRequest());
    Extended(states, steps, step);
    more, longer := states + [Apply(states[|steps|], step)], steps + [step];
  }

  /** `n` calls whose frame the device refuses: each uses up an id. */
  lemma {:induction false} Refused(states: seq<System>, steps: seq<Step>, n: nat)
    returns (more: seq<System>, longer: seq<Step>)
    requires IsRun(states, steps) && SenderTakes(steps)
    requires var s := states[|steps|]; s.client.sealed && !s.client.pending && s.client.maxRequest == 0
    ensures IsRun(more, longer) && SenderTakes(longer)
    ensures var s, t := states[|steps|], more[|longer|];
            && t.issued == s.issued + n && |t.calls| == |s.calls| + n
            && t.taken == s.taken && t.toClient == s.toClient && t.server == s.server
            && t.client.sealed && !t.client.pending && t.client.maxRequest == 0
            && t.client.maxResponse == s.client.maxResponse
    decreases n
  {
    if n == 0 {
      more, longer := states, steps;
    } else {
      more, longer := Refused(states, steps, n - 1);
      Extended(more, longer, Plain(Unavailable));
      more, longer := more + [Apply(more[|longer|], Plain(Unavailable))], longer + [Plain(Unavailable)];
    }
  }

  /** One id more than a cycle: the late response to the first call answers the second. */
  lemma WrongAnswer() returns (states: seq<System>, steps: seq<Step>)
    ensures IsRun(states, steps) && SenderTakes(steps)
    ensures states[|steps|].issued == CYCLE + 1 && !OwnAnswers(states[|steps|])
  {
    states, steps := GivenUp();
    states, steps := Refused(states, steps, CYCLE - 1);
    states, steps := CalledAgain(states, steps);
    states, steps := Mistaken(states, steps);
  }

  lemma CycleCloses()
    ensures IdOf(CYCLE + 1) == 1 && SequenceOf(CYCLE + 1) == 0
  {
  }

  lemma CalledAgain(states: seq<System>, steps: seq<Step>) returns (more: seq<System>, longer: seq<Step>)
    requires IsRun(states, steps) && SenderTakes(steps)
    requires var s := states[|steps|];
             && s.issued == CYCLE && s.client.sealed && !s.client.pending
             && s.client.maxRequest == 0 == s.client.maxResponse
             && |s.calls| >= 1 && |s.taken| == 1 && s.taken[0].call == 0 && Late() in s.toClient
    ensures IsRun(more, longer) && SenderTakes(longer)
    ensures var t := more[|longer|];
            && t.issued == CYCLE + 1 && t.client.sealed && t.client.pending && t.client.maxResponse == 0
            && t.client.id == 1 && t.client.sequence == 0 && t.current == |t.calls| - 1
            && |t.calls| >= 2 && |t.taken| == 1 && t.taken[0].call == 0 && Late() in t.toClient
  {
    RunInv(states, steps, |steps|);
    Called(states[|steps|]);
    CycleCloses();
    Extended(states, steps, Plain(Ok));
    more, longer := states + [Apply(states[|steps|], Plain(Ok))], steps + [Plain(Ok)];
  }

  lemma Mistaken(states: seq<System>, steps: seq<Step>) returns (more: seq<System>, longer: seq<Step>)
    requires IsRun(states, steps) && SenderTakes(steps)
    requires var s := states[|steps|];
             && s.issued == CYCLE + 1 && s.client.sealed && s.client.pending && s.client.maxResponse == 0
             && s.client.id == 1 && s.client.sequence == 0 && s.current == |s.calls| - 1
             && |s.calls| >= 2 && |s.taken| == 1 && s.taken[0].call == 0 && Late() in s.toClient
    ensures IsRun(more, longer) && SenderTakes(longer)
    ensures more[|longer|].issued == CYCLE + 1 && !OwnAnswers(more[|longer|])
  {
    ResponseReadsBack(Response(Unavailable, 1, []), 0);
    var step := ClientAccept(Late());
    Extended(states, steps, step);
    var t := Apply(states[|steps|], step);
    assert t.calls[|t.calls| - 1].outcome == Answered(Unavailable, [], 0);
    assert !OwnAnswer(t, |t.calls| - 1);
    more, longer := states + [t], steps + [step];
  }

  lemma OwnUpToCycle(states: seq<System>, steps: seq<Step>)
    requires IsRun(states, steps) && states[|steps|].issued <= CYCLE
    ensures OwnAnswers(states[|steps|])
  {
    var s := states[|steps|];
    forall i | 0 <= i < |s.calls| && s.calls[i].outcome.Answered? ensures OwnAnswer(s, i) {
      AnswerTheorem(states, steps, |steps|, i);
    }
  }

  /**
   Answers are always the call's own exactly while at most 16 * (2^32 - 1) ids were used; beyond
   that they are not even if the sender takes every message.
   */
  lemma AnswerExactly(limit: nat)
    ensures (forall states: seq<System>, steps: seq<Step> ::
               IsRun(states, steps) && states[|steps|].issued <= limit ==> OwnAnswers(states[|steps|]))
            <==> limit <= CYCLE
    ensures limit <= CYCLE || exists states: seq<System>, steps: seq<Step> ::
              IsRun(states, steps) && SenderTakes(steps) && states[|steps|].issued <= limit
              && !OwnAnswers(states[|steps|])
  {
    if limit <= CYCLE {
      forall states: seq<System>, steps: seq<Step> | IsRun(states, steps) && states[|steps|].issued <= limit
        ensures OwnAnswers(states[|steps|])
      {
        OwnUpToCycle(states, steps);
      }
    } else {
      var states, steps := WrongAnswer();
    }
  }
}
