/**
 A client and a server joined by reliable paths that may deliver any message begun on them, at
 any time, any number of times, or never. Messages carry the index of the call or request
 that caused them; only the history uses it.
 */
module CanRpcRun {
  import opened Bytes
  import opened RpcPayload
  import opened CanRpc

  datatype Outcome =
    | Refused
    | Waiting
    | Answered(status: Status, body: seq<Byte>, answerer: nat)   // by the server's request of that number
    | Ended(status: Status)                                // timed out, or the peer was reset

  /** `issue` counts the request ids given out up to this call. */
  datatype Call = Call(request: Request, sequence: nat, issue: nat, outcome: Outcome)

  /** A request the server took up, in which epoch, and what it began to answer. */
  datatype Taken = Taken(call: nat, request: Request, sequence: nat, epoch: nat, answers: seq<Answer>)

  datatype Answer = Answer(status: Status, body: seq<Byte>, id: nat, epoch: nat)

  datatype Post = Post(cause: nat, letter: Letter)

  datatype System = System(
    client: Client, server: Server,
    calls: seq<Call>, current: nat, issued: nat,
    taken: seq<Taken>, epoch: nat, running: bool,
    toServer: set<Post>, toClient: set<Post>)

  datatype Step =
    | ClientCall(attempt: Attempt)
    | ClientAccept(post: Post)
    | ClientPoll(now: nat, retry: Status, pump: Status)
    | ClientReset
    | ServerAccept(post: Post, senderBusy: bool, time: nat, backend: Status, sending: Sending)
    | ServerComplete(status: Status, body: seq<Byte>, sending: Sending)
    | ServerReset

  ghost predicate Enabled(s: System, step: Step) {
    match step
    case ClientCall(a) => a.deadline <= U64_MAX
    case ClientAccept(post) => post in s.toClient
    case ServerAccept(post, _, _, _, _) => post in s.toServer
    case ServerComplete(_, _, _) => s.running
    case _ => true
  }

  /** A completion callback ends the current call. */
  function Finish(s: System, client: Client, notice: Notice, outcome: Outcome): System {
    if notice.Quiet? || s.current >= |s.calls| then s.(client := client)
    else s.(client := client, calls := s.calls[s.current := s.calls[s.current].(outcome := outcome)])
  }

  function Placed(s: System, a: Attempt): System {
    var (client, status, letter) := s.client.CallAsync(a);
    var ids := s.issued + if s.client.Refusal(a).None? then 1 else 0;
    if letter.None? then s.(client := client, issued := ids)
    else
      var outcome := if status == Ok then Waiting else Refused;
      s.(client := client, issued := ids,
         calls := s.calls + [Call(Request(client.id, a.deadline, a.body), client.sequence, ids, outcome)],
         current := |s.calls|,
         toServer := s.toServer + {Post(|s.calls|, letter.value)})
  }

  function Answering(s: System, server: Server, letter: Option<Letter>, status: Status, body: seq<Byte>): System {
    if letter.None? || s.taken == [] then s.(server := server)
    else
      var last := |s.taken| - 1;
      var answer := Answer(status, body, server.id, s.epoch);
      s.(server := server,
         taken := s.taken[last := s.taken[last].(answers := s.taken[last].answers + [answer])],
         toClient := s.toClient + {Post(last, letter.value)})
  }

  function Arrived(s: System, step: Step): System
    requires step.ServerAccept?
  {
    var m := step.post.letter;
    var (server, status, letter) := s.server.Accept(m, step.senderBusy, step.time, step.backend, step.sending);
    if s.server.Unusable(m, step.senderBusy).Some? then s.(server := server)
    else
      var request := ParseRequest(m.payload).value;
      var late := request.deadline != 0 && step.time >= request.deadline;
      var t := s.(taken := s.taken + [Taken(step.post.cause, request, m.sequence, s.epoch, [])],
                  running := !late && step.backend == Ok);
      Answering(t, server, letter, if late then Timeout else step.backend, [])
  }

  function Heard(s: System, post: Post): System {
    var (client, _, notice) := s.client.Accept(post.letter);
    Finish(s, client, notice,
           if notice.Notify? then Answered(notice.status, notice.body, post.cause) else Waiting)
  }

  function Apply(s: System, step: Step): System
    requires Enabled(s, step)
  {
    match step
    case ClientCall(a) => Placed(s, a)
    case ClientAccept(post) => Heard(s, post)
    case ClientPoll(now, retry, pump) =>
      var (client, _, notice) := s.client.Poll(now, retry, pump);
      Finish(s, client, notice, Ended(Timeout))
    case ClientReset =>
      var (client, notice) := s.client.ResetPeer();
      Finish(s, client, notice, Ended(Unavailable))
    case ServerAccept(_, _, _, _, _) => Arrived(s, step)
    case ServerComplete(status, body, e) =>
      var (server, letter) := s.server.Complete(status, body, e);
      Answering(s.(running := false), server, letter, status, body)
    case ServerReset => s.(server := s.server.ResetPeer(), epoch := s.epoch + 1)
  }

  /* ---------------------------------------------------------------- invariant */

  function Accepted(calls: seq<Call>): nat {
    if calls == [] then 0
    else Accepted(calls[..|calls| - 1]) + if calls[|calls| - 1].outcome.Refused? then 0 else 1
  }

  function Completed(calls: seq<Call>): nat {
    if calls == [] then 0
    else
      var last := calls[|calls| - 1].outcome;
      Completed(calls[..|calls| - 1]) + if last.Refused? || last.Waiting? then 0 else 1
  }

  ghost predicate ClientInv(s: System) {
    && s.client.nextId <= U32_MAX && s.client.id <= U32_MAX
    && s.client.accepted == Accepted(s.calls) && s.client.completed == Completed(s.calls)
    && (forall i :: 0 <= i < |s.calls| ==> (s.calls[i].outcome.Waiting? <==> s.client.pending && i == s.current))
    && (s.client.pending ==>
          && s.current < |s.calls|
          && s.calls[s.current].request.id == s.client.id && s.calls[s.current].sequence == s.client.sequence)
    && (forall i :: 0 <= i < |s.calls| ==> s.calls[i].request.Typed())
  }

  /** The request id and the sequence of the n-th id given out. */
  function IdOf(issue: nat): nat {
    if issue == 0 then 0 else (issue - 1) % U32_MAX + 1
  }

  function SequenceOf(issue: nat): nat {
    if issue == 0 then 0 else (issue - 1) % 16
  }

  /** Ids and sequences are given out in step, each once per call. */
  ghost predicate IdInv(s: System) {
    && s.client.nextId == IdOf(s.issued) && s.client.nextSequence == s.issued % 16
    && (forall i :: 0 <= i < |s.calls| ==>
          && 1 <= s.calls[i].issue <= s.issued
          && s.calls[i].request.id == IdOf(s.calls[i].issue) && s.calls[i].sequence == SequenceOf(s.calls[i].issue))
    && (forall i, j :: 0 <= i < j < |s.calls| ==> s.calls[i].issue < s.calls[j].issue)
  }

  /** Every message in transit was begun for the call or request it names. */
  ghost predicate PostInv(s: System) {
    && (forall p :: p in s.toServer ==>
          && p.cause < |s.calls|
          && p.letter == Letter(s.calls[p.cause].sequence, RequestBytes(s.calls[p.cause].request)))
    && (forall p :: p in s.toClient ==>
          && p.cause < |s.taken| && |s.taken[p.cause].answers| == 1
          && var answer := s.taken[p.cause].answers[0];
             && Sendable(Response(answer.status, answer.id, answer.body), s.server.maxResponse)
             && p.letter == Letter(s.taken[p.cause].sequence,
                                   ResponseBytes(Response(answer.status, answer.id, answer.body))))
  }

  ghost predicate TakenInv(s: System, j: nat)
    requires j < |s.taken|
  {
    var t := s.taken[j];
    && t.call < |s.calls| && t.request == s.calls[t.call].request && t.sequence == s.calls[t.call].sequence
    && |t.answers| <= 1 && t.epoch <= s.epoch
    && (|t.answers| == 1 ==> t.answers[0].id == t.request.id && t.answers[0].epoch == t.epoch)
  }

  ghost predicate ServerInv(s: System) {
    && s.client.maxResponse == s.server.maxResponse
    && (forall j :: 0 <= j < |s.taken| ==> TakenInv(s, j))
    && (s.server.drop ==> s.server.active)
    && (s.running <==> s.server.active)
    && (s.server.active ==>
          && s.taken != []
          && var t := s.taken[|s.taken| - 1];
             t.answers == [] && t.request.id == s.server.id && t.sequence == s.server.sequence
             && (t.epoch == s.epoch <==> !s.server.drop))
  }

  ghost predicate AnswerInv(s: System, i: nat)
    requires i < |s.calls|
  {
    var c := s.calls[i];
    c.outcome.Answered? ==>
      && c.outcome.answerer < |s.taken|
      && var t := s.taken[c.outcome.answerer];
         && t.request.id == c.request.id && t.sequence == c.sequence
         && |t.answers| == 1
         && t.answers[0].status == c.outcome.status && t.answers[0].body == c.outcome.body
  }

  ghost predicate Inv(s: System) {
    && ClientInv(s) && IdInv(s) && PostInv(s) && ServerInv(s)
    && (forall i :: 0 <= i < |s.calls| ==> AnswerInv(s, i))
  }

  /* -------------------------------------------------------------- preservation */

  lemma AppendCall(calls: seq<Call>, c: Call)
    ensures Accepted(calls + [c]) == Accepted(calls) + if c.outcome.Refused? then 0 else 1
    ensures Completed(calls + [c]) == Completed(calls) + if c.outcome.Refused? || c.outcome.Waiting? then 0 else 1
  {
    assert (calls + [c])[..|calls|] == calls;
  }

  lemma {:induction false} EndCall(calls: seq<Call>, k: nat, outcome: Outcome)
    requires k < |calls| && calls[k].outcome.Waiting? && !outcome.Waiting? && !outcome.Refused?
    ensures Accepted(calls[k := calls[k].(outcome := outcome)]) == Accepted(calls)
    ensures Completed(calls[k := calls[k].(outcome := outcome)]) == Completed(calls) + 1
  {
    var n := |calls| - 1;
    var ended := calls[k := calls[k].(outcome := outcome)];
    if k < n {
      EndCall(calls[..n], k, outcome);
      assert ended[..n] == calls[..n][k := calls[k].(outcome := outcome)];
    } else {
      assert ended[..n] == calls[..n];
    }
  }

  lemma NextIssue(c: Client, issued: nat)
    requires c.nextId == IdOf(issued) && c.nextSequence == issued % 16
    ensures c.FreshId() == IdOf(issued + 1) && c.nextSequence == SequenceOf(issued + 1)
    ensures (c.nextSequence + 1) % 16 == (issued + 1) % 16
  {
    NextId(c, issued);
  }

  lemma NextId(c: Client, issued: nat)
    requires c.nextId == IdOf(issued)
    ensures c.FreshId() == IdOf(issued + 1)
  {
    FreshIs(c);
    if issued > 0 { Round(issued - 1); }
  }

  lemma FreshIs(c: Client)
    requires c.nextId <= U32_MAX
    ensures c.FreshId() == if c.nextId == U32_MAX then 1 else c.nextId + 1
  {
  }

  lemma Round(n: nat)
    ensures (n + 1) % U32_MAX == if n % U32_MAX == U32_MAX - 1 then 0 else n % U32_MAX + 1
  {
    var q, r := n / U32_MAX, n % U32_MAX;
    assert n == U32_MAX * q + r;
  }

  /** A call that reached the sender is added to the history. */
  ghost predicate Adds(s: System, client: Client, c: Call, t: System) {
    && t == s.(client := client, issued := s.issued + 1, calls := s.calls + [c], current := |s.calls|,
               toServer := s.toServer + {Post(|s.calls|, Letter(c.sequence, RequestBytes(c.request)))})
    && client.pending == c.outcome.Waiting? && (c.outcome.Waiting? || c.outcome.Refused?)
    && client.id == client.nextId == c.request.id == s.client.FreshId() && client.sequence == c.sequence
    && c.sequence == s.client.nextSequence && client.nextSequence == (s.client.nextSequence + 1) % 16
    && c.issue == s.issued + 1
    && client.accepted == s.client.accepted + (if client.pending then 1 else 0)
    && client.completed == s.client.completed && client.maxResponse == s.client.maxResponse
    && c.request.Typed()
  }

  lemma AddsClient(s: System, client: Client, c: Call, t: System)
    requires ClientInv(s) && !s.client.pending && Adds(s, client, c, t)
    ensures ClientInv(t)
  {
    AppendCall(s.calls, c);
  }

  lemma AddsIds(s: System, client: Client, c: Call, t: System)
    requires IdInv(s) && Adds(s, client, c, t)
    ensures IdInv(t)
  {
    NextIssue(s.client, s.issued);
  }

  lemma AddsPosts(s: System, client: Client, c: Call, t: System)
    requires PostInv(s) && Adds(s, client, c, t)
    ensures PostInv(t)
  {
  }

  lemma PlacedInv(s: System, client: Client, c: Call, t: System)
    requires Inv(s) && !s.client.pending && Adds(s, client, c, t)
    ensures Inv(t)
  {
    AddsClient(s, client, c, t);
    AddsIds(s, client, c, t);
    AddsPosts(s, client, c, t);
    forall j | 0 <= j < |t.taken| ensures TakenInv(t, j) { assert TakenInv(s, j); }
    forall i | 0 <= i < |t.calls| ensures AnswerInv(t, i) {
      if i < |s.calls| { assert AnswerInv(s, i); }
    }
  }

  /** A call refused before the sender took it leaves no trace but an id. */
  lemma TurnedAwayInv(s: System, client: Client, t: System)
    requires Inv(s) && t == s.(client := client, issued := t.issued)
    requires client.accepted == s.client.accepted && client.completed == s.client.completed
    requires client.maxResponse == s.client.maxResponse && client.pending == s.client.pending
    requires || (t.issued == s.issued && client.nextId == s.client.nextId && client.id == s.client.id
                 && client.sequence == s.client.sequence && client.nextSequence == s.client.nextSequence)
             || (t.issued == s.issued + 1 && client.nextId == client.id == s.client.FreshId() && !client.pending
                 && client.nextSequence == (s.client.nextSequence + 1) % 16)
    ensures Inv(t)
  {
    NextIssue(s.client, s.issued);
    forall j | 0 <= j < |t.taken| ensures TakenInv(t, j) { assert TakenInv(s, j); }
    forall i | 0 <= i < |t.calls| ensures AnswerInv(t, i) { assert AnswerInv(s, i); }
  }

  lemma CallInv(s: System, step: Step)
    requires Inv(s) && step.ClientCall? && Enabled(s, step)
    ensures Inv(Apply(s, step))
  {
    if s.client.CallAsync(step.attempt).2.None? { NoMessageInv(s, step.attempt); } else { MessageInv(s, step.attempt); }
  }

  lemma NoMessageInv(s: System, a: Attempt)
    requires Inv(s) && s.client.CallAsync(a).2.None?
    ensures Inv(Placed(s, a))
  {
    TurnedAwayInv(s, s.client.CallAsync(a).0, Placed(s, a));
  }

  lemma MessageInv(s: System, a: Attempt)
    requires Inv(s) && Enabled(s, ClientCall(a)) && s.client.CallAsync(a).2.Some?
    ensures Inv(Placed(s, a))
  {
    var t := Placed(s, a);
    PlacedInv(s, s.client.CallAsync(a).0, t.calls[|s.calls|], t);
  }

  lemma FinishClient(s: System, client: Client, notice: Notice, outcome: Outcome)
    requires ClientInv(s) && IdInv(s) && s.client.pending && notice.Notify?
    requires client == s.client.(pending := false, completed := s.client.completed + 1, timeouts := client.timeouts)
    requires !outcome.Waiting? && !outcome.Refused?
    ensures ClientInv(Finish(s, client, notice, outcome)) && IdInv(Finish(s, client, notice, outcome))
  {
    EndCall(s.calls, s.current, outcome);
  }

  /** Ending the current call touches nothing else. */
  lemma FinishInv(s: System, client: Client, notice: Notice, outcome: Outcome)
    requires Inv(s) && s.client.pending && notice.Notify?
    requires client == s.client.(pending := false, completed := s.client.completed + 1, timeouts := client.timeouts)
    requires !outcome.Waiting? && !outcome.Refused?
    requires AnswerInv(s.(calls := s.calls[s.current := s.calls[s.current].(outcome := outcome)]), s.current)
    ensures Inv(Finish(s, client, notice, outcome))
  {
    var t := Finish(s, client, notice, outcome);
    FinishClient(s, client, notice, outcome);
    forall j | 0 <= j < |t.taken| ensures TakenInv(t, j) { assert TakenInv(s, j); }
    forall i | 0 <= i < |t.calls| ensures AnswerInv(t, i) {
      if i != s.current { assert AnswerInv(s, i); }
    }
  }

  /** A client step that completes nothing only counts. */
  lemma CountInv(s: System, client: Client)
    requires Inv(s)
    requires client == s.client.(decodeFailures := client.decodeFailures, sendFailures := client.sendFailures)
    ensures Inv(s.(client := client))
  {
    var t := s.(client := client);
    forall j | 0 <= j < |t.taken| ensures TakenInv(t, j) { assert TakenInv(s, j); }
    forall i | 0 <= i < |t.calls| ensures AnswerInv(t, i) { assert AnswerInv(s, i); }
  }

  lemma AcceptInv(s: System, step: Step)
    requires Inv(s) && step.ClientAccept? && Enabled(s, step)
    ensures Inv(Apply(s, step))
  {
    var p := step.post;
    var (client, status, notice) := s.client.Accept(p.letter);
    if notice.Quiet? {
      CountInv(s, client);
    } else {
      var t := s.taken[p.cause];
      assert TakenInv(s, p.cause);
      var answer := t.answers[0];
      ResponseReadsBack(Response(answer.status, answer.id, answer.body), s.client.maxResponse);
      FinishInv(s, client, notice, Answered(notice.status, notice.body, p.cause));
    }
  }

  lemma PollInv(s: System, step: Step)
    requires Inv(s) && (step.ClientPoll? || step.ClientReset?) && Enabled(s, step)
    ensures Inv(Apply(s, step))
  {
    if step.ClientPoll? {
      var (client, _, notice) := s.client.Poll(step.now, step.retry, step.pump);
      if notice.Quiet? { CountInv(s, client); } else { FinishInv(s, client, notice, Ended(Timeout)); }
    } else {
      var (client, notice) := s.client.ResetPeer();
      if notice.Quiet? { CountInv(s, client); } else { FinishInv(s, client, notice, Ended(Unavailable)); }
    }
  }

  /** A server step that begins no response and takes up nothing. */
  lemma ServerKeeps(s: System, t: System)
    requires Inv(s)
    requires t == s.(server := t.server, running := t.running, epoch := t.epoch) && s.epoch <= t.epoch
    requires t.server.maxResponse == s.server.maxResponse
    requires ServerInv(t)
    ensures Inv(t)
  {
    forall i | 0 <= i < |t.calls| ensures AnswerInv(t, i) { assert AnswerInv(s, i); }
  }

  lemma ServerResetInv(s: System, step: Step)
    requires Inv(s) && step.ServerReset? && Enabled(s, step)
    ensures Inv(Apply(s, step))
  {
    var t := Apply(s, step);
    forall j | 0 <= j < |t.taken| ensures TakenInv(t, j) { assert TakenInv(s, j); }
    if s.server.active { assert TakenInv(s, |s.taken| - 1); }
    ServerKeeps(s, t);
  }

  /** The request last taken up is answered. */
  lemma AnsweringInv(s: System, server: Server, letter: Option<Letter>, status: Status, body: seq<Byte>)
    requires Inv(s) && s.taken != [] && !s.running && letter.Some?
    requires !server.active && !server.drop && server.maxResponse == s.server.maxResponse
    requires var last := s.taken[|s.taken| - 1];
             && last.answers == [] && last.epoch == s.epoch && last.request.id == server.id
             && letter.value == Letter(last.sequence, ResponseBytes(Response(status, server.id, body)))
    requires Sendable(Response(status, server.id, body), server.maxResponse)
    ensures Inv(Answering(s, server, letter, status, body))
  {
    var t := Answering(s, server, letter, status, body);
    var last := |s.taken| - 1;
    assert forall p :: p in s.toClient ==> p.cause != last;
    forall j | 0 <= j < |t.taken| ensures TakenInv(t, j) { assert TakenInv(s, j); }
    forall i | 0 <= i < |t.calls| ensures AnswerInv(t, i) { assert AnswerInv(s, i); }
  }

  lemma SilentInv(s: System, server: Server)
    requires Inv(s) && !s.running && !server.active && !server.drop && server.maxResponse == s.server.maxResponse
    ensures Inv(s.(server := server))
  {
    var t := s.(server := server);
    forall j | 0 <= j < |t.taken| ensures TakenInv(t, j) { assert TakenInv(s, j); }
    ServerKeeps(s, t);
  }

  lemma ServerCompleteInv(s: System, step: Step)
    requires Inv(s) && step.ServerComplete? && Enabled(s, step)
    ensures Inv(Apply(s, step))
  {
    var idle := s.(running := false, server := s.server.(active := false, drop := false));
    forall j | 0 <= j < |idle.taken| ensures TakenInv(idle, j) { assert TakenInv(s, j); }
    ServerKeeps(s, idle);
    var (server, letter) := s.server.Complete(step.status, step.body, step.sending);
    if letter.None? {
      SilentInv(idle, server);
    } else {
      AnsweringInv(idle, server, letter, step.status, step.body);
    }
  }

  /** A request is taken up. */
  lemma TakeUpInv(s: System, server: Server, t: System, cause: nat)
    requires Inv(s) && !s.server.active && cause < |s.calls|
    requires var c := s.calls[cause];
             t == s.(server := server, running := server.active,
                     taken := s.taken + [Taken(cause, c.request, c.sequence, s.epoch, [])])
    requires server.maxResponse == s.server.maxResponse && !server.drop
    requires server.id == s.calls[cause].request.id && server.sequence == s.calls[cause].sequence
    ensures Inv(t)
  {
    forall j | 0 <= j < |t.taken| ensures TakenInv(t, j) {
      if j < |s.taken| { assert TakenInv(s, j); }
    }
    forall i | 0 <= i < |t.calls| ensures AnswerInv(t, i) { assert AnswerInv(s, i); }
  }

  /** What the server does with a request it takes up. */
  lemma TakenUp(server: Server, m: Letter, time: nat, backend: Status, e: Sending)
    requires server.Unusable(m, false).None?
    ensures var request := ParseRequest(m.payload).value;
            var late := request.deadline != 0 && time >= request.deadline;
            var answer := Response(if late then Timeout else backend, request.id, []);
            var (next, _, letter) := server.Accept(m, false, time, backend, e);
            && next.id == request.id && next.sequence == m.sequence
            && next.maxResponse == server.maxResponse && next.drop == server.drop
            && (next.active <==> !late && backend == Ok)
            && (letter.Some? ==> !next.active && letter.value == Letter(m.sequence, ResponseBytes(answer))
                                 && Sendable(answer, server.maxResponse))
  {
  }

  lemma UnusableInv(s: System, step: Step)
    requires Inv(s) && step.ServerAccept? && Enabled(s, step)
    requires s.server.Unusable(step.post.letter, step.senderBusy).Some?
    ensures Inv(Apply(s, step))
  {
    var t := Apply(s, step);
    forall j | 0 <= j < |t.taken| ensures TakenInv(t, j) { assert TakenInv(s, j); }
    ServerKeeps(s, t);
  }

  lemma UsableInv(s: System, step: Step)
    requires Inv(s) && step.ServerAccept? && Enabled(s, step)
    requires s.server.Unusable(step.post.letter, step.senderBusy).None?
    ensures Inv(Apply(s, step))
  {
    var m, cause := step.post.letter, step.post.cause;
    var c := s.calls[cause];
    RequestReadsBack(c.request);
    TakenUp(s.server, m, step.time, step.backend, step.sending);
    var (server, _, letter) := s.server.Accept(m, false, step.time, step.backend, step.sending);
    var late := c.request.deadline != 0 && step.time >= c.request.deadline;
    var verdict := if late then Timeout else step.backend;
    var up := s.(server := server, running := server.active,
                 taken := s.taken + [Taken(cause, c.request, c.sequence, s.epoch, [])]);
    assert Apply(s, step) == Answering(up, server, letter, verdict, []);
    AnsweredInv(s, server, up, cause, letter, verdict);
  }

  /** A request is taken up and, unless it runs, answered at once. */
  lemma AnsweredInv(s: System, server: Server, up: System, cause: nat, letter: Option<Letter>, verdict: Status)
    requires Inv(s) && !s.server.active && cause < |s.calls|
    requires var c := s.calls[cause];
             && up == s.(server := server, running := server.active,
                         taken := s.taken + [Taken(cause, c.request, c.sequence, s.epoch, [])])
             && server.id == c.request.id && server.sequence == c.sequence
             && (letter.Some? ==>
                   && !server.active && Sendable(Response(verdict, c.request.id, []), server.maxResponse)
                   && letter.value == Letter(c.sequence, ResponseBytes(Response(verdict, c.request.id, []))))
    requires server.maxResponse == s.server.maxResponse && !server.drop
    ensures Inv(Answering(up, server, letter, verdict, []))
  {
    TakeUpInv(s, server, up, cause);
    if letter.Some? { AnsweringInv(up, server, letter, verdict, []); }
  }

  lemma StepInv(s: System, step: Step)
    requires Inv(s) && Enabled(s, step)
    ensures Inv(Apply(s, step))
  {
    match step
    case ClientCall(_) => CallInv(s, step);
    case ClientAccept(_) => AcceptInv(s, step);
    case ClientPoll(_, _, _) => PollInv(s, step);
    case ClientReset => PollInv(s, step);
    case ServerAccept(post, senderBusy, _, _, _) =>
      if s.server.Unusable(post.letter, senderBusy).Some? { UnusableInv(s, step); } else { UsableInv(s, step); }
    case ServerComplete(_, _, _) => ServerCompleteInv(s, step);
    case ServerReset => ServerResetInv(s, step);
  }

  /* ------------------------------------------------------------- whole runs */

  ghost predicate Initial(s: System) {
    && !s.client.pending && s.client.nextId == 0 && s.client.id == 0 && s.client.nextSequence == 0
    && s.client.accepted == s.client.completed == 0
    && s.client.maxResponse == s.server.maxResponse
    && !s.server.active && !s.server.drop && !s.running
    && s.calls == [] && s.taken == [] && s.issued == 0
    && s.toServer == {} && s.toClient == {}
  }

  ghost predicate IsRun(states: seq<System>, steps: seq<Step>) {
    && |states| == |steps| + 1
    && Initial(states[0])
    && forall k :: 0 <= k < |steps| ==>
         Enabled(states[k], steps[k]) && states[k + 1] == Apply(states[k], steps[k])
  }

  lemma {:induction false} RunInv(states: seq<System>, steps: seq<Step>, k: nat)
    requires IsRun(states, steps) && k < |states|
    ensures Inv(states[k])
  {
    if k > 0 {
      RunInv(states, steps, k - 1);
      StepInv(states[k - 1], steps[k - 1]);
    }
  }

  lemma {:induction false} Balance(calls: seq<Call>, pending: bool, current: nat)
    requires forall i :: 0 <= i < |calls| ==> (calls[i].outcome.Waiting? <==> pending && i == current)
    ensures Accepted(calls) == Completed(calls) + if pending && current < |calls| then 1 else 0
  {
    if calls != [] { Balance(calls[..|calls| - 1], pending, current); }
  }

  lemma OutcomeStep(s: System, step: Step, i: nat)
    requires Inv(s) && Enabled(s, step) && i < |s.calls| && !s.calls[i].outcome.Waiting?
    ensures i < |Apply(s, step).calls| && Apply(s, step).calls[i] == s.calls[i]
  {
  }

  /** A call refused is never completed, and a call completed is never completed again. */
  lemma {:induction false} OutcomesFinal(states: seq<System>, steps: seq<Step>, k: nat, j: nat, i: nat)
    requires IsRun(states, steps) && k <= j < |states|
    requires i < |states[k].calls| && !states[k].calls[i].outcome.Waiting?
    ensures i < |states[j].calls| && states[j].calls[i] == states[k].calls[i]
    decreases j
  {
    if k < j {
      OutcomesFinal(states, steps, k, j - 1, i);
      RunInv(states, steps, j - 1);
      OutcomeStep(states[j - 1], steps[j - 1], i);
    }
  }

  /** The client's books balance: accepted calls are completed, but for the one pending. */
  lemma ClientTheorem(states: seq<System>, steps: seq<Step>, k: nat)
    requires IsRun(states, steps) && k < |states|
    ensures states[k].client.accepted == states[k].client.completed + if states[k].client.pending then 1 else 0
    ensures states[k].client.accepted == Accepted(states[k].calls)
    ensures states[k].client.completed == Completed(states[k].calls)
  {
    RunInv(states, steps, k);
    Balance(states[k].calls, states[k].client.pending, states[k].current);
  }

  /**
   An id and a sequence come back together only after 16 * (2^32 - 1) ids, since 2^32 - 1 is odd.
   */
  lemma PairsDiffer(a: nat, b: nat)
    requires 1 <= a < b <= 16 * U32_MAX
    ensures IdOf(a) != IdOf(b) || SequenceOf(a) != SequenceOf(b)
  {
    if IdOf(a) == IdOf(b) {
      var k := (b - 1) / U32_MAX - (a - 1) / U32_MAX;
      assert b - a == U32_MAX * k && 1 <= k <= 15;
      assert (15 * k) % 16 != 0;
    }
  }

  /** The answer is the one begun for that very call's request. */
  ghost predicate OwnAnswer(s: System, i: nat)
    requires i < |s.calls|
  {
    s.calls[i].outcome.Answered? ==>
      && s.calls[i].outcome.answerer < |s.taken|
      && s.taken[s.calls[i].outcome.answerer].call == i
      && s.taken[s.calls[i].outcome.answerer].request == s.calls[i].request
  }

  ghost predicate OwnAnswers(s: System) {
    forall i :: 0 <= i < |s.calls| ==> OwnAnswer(s, i)
  }

  /**
   An answered call was answered by the server with one response, begun for a request with its id
   and sequence; while at most 16 * (2^32 - 1) ids were used, for that very call's request.
   */
  lemma AnswerTheorem(states: seq<System>, steps: seq<Step>, k: nat, i: nat)
    requires IsRun(states, steps) && k < |states| && i < |states[k].calls|
    requires states[k].calls[i].outcome.Answered?
    ensures var c := states[k].calls[i];
            && c.outcome.answerer < |states[k].taken|
            && var t := states[k].taken[c.outcome.answerer];
               && t.request.id == c.request.id && t.sequence == c.sequence
               && |t.answers| == 1
               && t.answers[0] == Answer(c.outcome.status, c.outcome.body, c.request.id, t.epoch)
               && (states[k].issued <= 16 * U32_MAX ==> t.call == i && t.request == c.request)
  {
    RunInv(states, steps, k);
    var s := states[k];
    assert AnswerInv(s, i);
    var t := s.taken[s.calls[i].outcome.answerer];
    assert TakenInv(s, s.calls[i].outcome.answerer);
    if s.issued <= 16 * U32_MAX {
      if t.call < i { PairsDiffer(s.calls[t.call].issue, s.calls[i].issue); }
      if i < t.call { PairsDiffer(s.calls[i].issue, s.calls[t.call].issue); }
    }
  }

  /**
   The server begins at most one response for a request it took up, with that request's id,
   and none after a reset of the peer.
   */
  lemma ServerTheorem(states: seq<System>, steps: seq<Step>, k: nat, j: nat)
    requires IsRun(states, steps) && k < |states| && j < |states[k].taken|
    ensures var t := states[k].taken[j];
            && |t.answers| <= 1
            && (|t.answers| == 1 ==> t.answers[0].id == t.request.id && t.answers[0].epoch == t.epoch)
  {
    RunInv(states, steps, k);
    assert TakenInv(states[k], j);
  }

  /** The reliable path hands up every message at most once. */
  ghost predicate HandedUpOnce(steps: seq<Step>) {
    forall k, l :: 0 <= k < l < |steps| && steps[k].ServerAccept? && steps[l].ServerAccept? ==>
      steps[k].post != steps[l].post
  }

  /** Call `c` was taken up when the server was handed its message, in one of the first `k` steps. */
  ghost predicate Handed(steps: seq<Step>, k: nat, c: nat) {
    exists l :: 0 <= l < k && l < |steps| && steps[l].ServerAccept? && steps[l].post.cause == c
  }

  /** What a step may do to the requests taken up. */
  ghost predicate Grows(s: System, step: Step, t: System) {
    && |s.taken| <= |t.taken| <= |s.taken| + 1
    && (forall j :: 0 <= j < |s.taken| ==> t.taken[j].call == s.taken[j].call)
    && (|t.taken| > |s.taken| ==> step.ServerAccept? && t.taken[|s.taken|].call == step.post.cause)
  }

  lemma TakenGrows(s: System, step: Step)
    requires Enabled(s, step)
    ensures s.toServer <= Apply(s, step).toServer && Grows(s, step, Apply(s, step))
  {
  }

  lemma {:induction false} PostsStay(states: seq<System>, steps: seq<Step>, k: nat, l: nat)
    requires IsRun(states, steps) && k <= l < |states|
    ensures states[k].toServer <= states[l].toServer
    decreases l
  {
    if k < l {
      PostsStay(states, steps, k, l - 1);
      TakenGrows(states[l - 1], steps[l - 1]);
    }
  }

  /** There is one message per call. */
  lemma OneMessagePerCall(states: seq<System>, steps: seq<Step>, l: nat, k: nat)
    requires IsRun(states, steps) && l < k < |steps| && steps[l].ServerAccept? && steps[k].ServerAccept?
    requires steps[l].post.cause == steps[k].post.cause
    ensures steps[l].post == steps[k].post
  {
    RunInv(states, steps, k);
    PostsStay(states, steps, l, k);
    assert Enabled(states[l], steps[l]) && Enabled(states[k], steps[k]);
    assert steps[l].post in states[k].toServer;
  }

  lemma NotHandedAgain(states: seq<System>, steps: seq<Step>, k: nat)
    requires IsRun(states, steps) && HandedUpOnce(steps) && k < |steps| && steps[k].ServerAccept?
    ensures !Handed(steps, k, steps[k].post.cause)
  {
    forall l | 0 <= l < k && steps[l].ServerAccept? ensures steps[l].post.cause != steps[k].post.cause {
      if steps[l].post.cause == steps[k].post.cause { OneMessagePerCall(states, steps, l, k); }
    }
  }

  ghost predicate TakenOnce(s: System) {
    forall i, j :: 0 <= i < j < |s.taken| ==> s.taken[i].call != s.taken[j].call
  }

  lemma {:induction false} TakenOnceRun(states: seq<System>, steps: seq<Step>, k: nat)
    requires IsRun(states, steps) && HandedUpOnce(steps) && k < |states|
    ensures TakenOnce(states[k])
    ensures forall j :: 0 <= j < |states[k].taken| ==> Handed(steps, k, states[k].taken[j].call)
  {
    if k > 0 {
      TakenOnceRun(states, steps, k - 1);
      TakenGrows(states[k - 1], steps[k - 1]);
      if steps[k - 1].ServerAccept? { NotHandedAgain(states, steps, k - 1); }
      TakenOnceStep(states[k - 1], steps, k - 1, states[k]);
    }
  }

  lemma TakenOnceStep(s: System, steps: seq<Step>, k: nat, t: System)
    requires k < |steps| && Grows(s, steps[k], t) && TakenOnce(s)
    requires forall j :: 0 <= j < |s.taken| ==> Handed(steps, k, s.taken[j].call)
    requires steps[k].ServerAccept? ==> !Handed(steps, k, steps[k].post.cause)
    ensures TakenOnce(t)
    ensures forall j :: 0 <= j < |t.taken| ==> Handed(steps, k + 1, t.taken[j].call)
  {
    forall j | 0 <= j < |t.taken| ensures Handed(steps, k + 1, t.taken[j].call) {
      if j < |s.taken| { assert Handed(steps, k, s.taken[j].call); }
    }
  }

  /** How many responses were begun for call `c` by the first `n` requests taken up. */
  ghost function AnswersTo(taken: seq<Taken>, n: nat, c: nat): nat
    requires n <= |taken|
  {
    if n == 0 then 0 else AnswersTo(taken, n - 1, c) + if taken[n - 1].call == c then |taken[n - 1].answers| else 0
  }

  lemma {:induction false} AtMostOneAnswer(s: System, n: nat, c: nat)
    requires n <= |s.taken| && TakenOnce(s) && forall j :: 0 <= j < |s.taken| ==> |s.taken[j].answers| <= 1
    ensures AnswersTo(s.taken, n, c) <= 1
    ensures (forall j :: 0 <= j < n ==> s.taken[j].call != c) ==> AnswersTo(s.taken, n, c) == 0
  {
    if n > 0 { AtMostOneAnswer(s, n - 1, c); }
  }

  /**
   If the reliable path hands up every message at most once, a client call is taken up at most
   once and at most one response is begun for it.
   */
  lemma OncePerCall(states: seq<System>, steps: seq<Step>, k: nat, c: nat)
    requires IsRun(states, steps) && HandedUpOnce(steps) && k < |states|
    ensures forall i, j :: 0 <= i < j < |states[k].taken| ==>
              !(states[k].taken[i].call == c && states[k].taken[j].call == c)
    ensures AnswersTo(states[k].taken, |states[k].taken|, c) <= 1
  {
    TakenOnceRun(states, steps, k);
    forall j | 0 <= j < |states[k].taken| ensures |states[k].taken[j].answers| <= 1 {
      ServerTheorem(states, steps, k, j);
    }
    AtMostOneAnswer(states[k], |states[k].taken|, c);
  }
}
