/**
 Remote calls over two reliable CAN paths, requests one way and responses the other: client and
 server give their messages to the senders, and are handed what the receivers deliver, or drop
 it. Within the bounds in which the paths are safe this is a run of CanRpcRun.
 */
module CanRpcPath {
  import opened Bytes
  import opened CanProtocol
  import opened RpcPayload
  import opened CanRpc
  import opened CanRpcRun
  import Path = ReliableRun

  /**
   `out` carries requests and `back` responses; a message has the number of its call's id. Of what
   the receivers delivered, the first `served` and `heard` messages have been handed on or dropped.
   */
  datatype Joint = Joint(rpc: System, out: Path.System, back: Path.System, served: nat, heard: nat)

  /** How a message is begun. */
  datatype Settings = Settings(now: U64, timeout: U64, retries: nat)

  datatype Event =
    | Call(attempt: Attempt, begin: Settings)
    | Poll(now: nat, retry: Status, pump: Status)
    | OutStep(step: Path.Step)
    | BackStep(step: Path.Step)
    | Serve(i: nat, call: nat, senderBusy: bool, time: nat, backend: Status, sending: Sending, begin: Settings)
    | Complete(status: Status, body: seq<Byte>, sending: Sending, begin: Settings)
    | Hear(i: nat, request: nat)

  /** The request of call `c` is message `number`. */
  ghost predicate Numbered(s: System, c: nat, number: nat) {
    c < |s.calls| && s.calls[c].issue == number + 1
  }

  /** And the response to the request the server took up as number `t`. */
  ghost predicate Responds(s: System, t: nat, number: nat) {
    t < |s.taken| && Numbered(s, s.taken[t].call, number) && |s.taken[t].answers| == 1
  }

  function Begin(number: nat, payload: seq<Byte>, b: Settings): Path.Step {
    Path.Begin(number, payload, b.now, b.timeout, b.retries)
  }

  /** The sender of the path takes the message. */
  ghost predicate Takes(p: Path.System, number: nat, payload: seq<Byte>, b: Settings) {
    && DecodeId(p.id).Some?
    && var address := DecodeId(p.id).value;
       p.sender.Begin(address.route, address.priority, number % 16, payload, b.now, b.timeout, b.retries).1 == Ok
  }

  /** The step of CanRpcRun an event is, given what the receivers delivered. */
  ghost function StepOf(j: Joint, e: Event): Step
    requires !e.OutStep? && !e.BackStep?
    requires e.Serve? ==> e.i < |j.out.delivered|
    requires e.Hear? ==> e.i < |j.back.delivered|
  {
    match e
    case Call(a, _) => ClientCall(a)
    case Poll(now, retry, pump) => ClientPoll(now, retry, pump)
    case Serve(i, c, busy, time, backend, sending, _) =>
      ServerAccept(Post(c, LetterOf(j.out.delivered[i])), busy, time, backend, sending)
    case Complete(status, body, sending, _) => ServerComplete(status, body, sending)
    case Hear(i, t) => ClientAccept(Post(t, LetterOf(j.back.delivered[i])))
  }

  /** What the receiver hands up: the low bits of the number, and the bytes. */
  function LetterOf(d: Path.Delivery): Letter {
    Letter(d.number % 16, d.payload)
  }

  /** The message a step gives to a sender, if any. */
  function Given(s: System, step: Step): Option<Letter> {
    match step
    case ClientCall(a) => s.client.CallAsync(a).2
    case ServerAccept(post, busy, time, backend, sending) =>
      if s.server.Unusable(post.letter, busy).Some? then None
      else s.server.Accept(post.letter, busy, time, backend, sending).2
    case ServerComplete(status, body, sending) => s.server.Complete(status, body, sending).1
    case _ => None
  }

  /** The number of the call whose request was taken up last. */
  ghost function LastNumber(s: System): int
    requires s.taken != []
  {
    var c := s.taken[|s.taken| - 1].call;
    if c < |s.calls| then s.calls[c].issue - 1 else 0
  }

  ghost function ResponseNumber(j: Joint, e: Event): int {
    if e.Serve? && e.i < |j.out.delivered| then j.out.delivered[e.i].number
    else if j.rpc.taken == [] then 0
    else LastNumber(j.rpc)
  }

  ghost predicate Enabled(b: Path.Bounds, j: Joint, e: Event) {
    match e
    case Call(a, begin) =>
      && a.deadline <= U64_MAX
      && var letter := Given(j.rpc, ClientCall(a));
         letter.Some? ==> Takes(j.out, j.rpc.issued, letter.value.payload, begin)
    case Poll(_, _, _) => true
    case OutStep(step) => !step.Begin? && j.out.sender.Valid() && Path.Enabled(b, j.out, step)
    case BackStep(step) => !step.Begin? && j.back.sender.Valid() && Path.Enabled(b, j.back, step)
    case Serve(i, c, _, _, _, _, begin) =>
      && j.served <= i < |j.out.delivered| && Numbered(j.rpc, c, j.out.delivered[i].number)
      && ResponseTaken(j, e, begin)
    case Complete(_, _, _, begin) => j.rpc.running && ResponseTaken(j, e, begin)
    case Hear(i, t) => j.heard <= i < |j.back.delivered| && Responds(j.rpc, t, j.back.delivered[i].number)
  }

  ghost predicate ResponseTaken(j: Joint, e: Event, begin: Settings)
    requires e.Serve? || e.Complete?
    requires e.Serve? ==> e.i < |j.out.delivered|
  {
    var letter := Given(j.rpc, StepOf(j, e));
    letter.Some? ==> ResponseNumber(j, e) >= 0 && Takes(j.back, ResponseNumber(j, e), letter.value.payload, begin)
  }

  /** The step of client or server, whether or not its message is one CanRpcRun has in transit. */
  ghost function Moved(s: System, step: Step): System {
    match step
    case ClientAccept(post) => Heard(s, post)
    case ServerAccept(_, _, _, _, _) => Arrived(s, step)
    case ServerComplete(_, _, _) => if s.running then CanRpcRun.Apply(s, step) else s
    case ClientCall(a) => Placed(s, a)
    case _ => CanRpcRun.Apply(s, step)
  }

  ghost function Began(p: Path.System, number: int, letter: Option<Letter>, b: Settings): Path.System {
    if letter.None? || number < 0 || !p.sender.Valid() then p
    else Path.Apply(p, Begin(number, letter.value.payload, b))
  }

  ghost function Apply(b: Path.Bounds, j: Joint, e: Event): Joint
    requires Enabled(b, j, e)
  {
    match e
    case OutStep(step) => j.(out := Path.Apply(j.out, step))
    case BackStep(step) => j.(back := Path.Apply(j.back, step))
    case Call(a, begin) =>
      j.(rpc := Moved(j.rpc, StepOf(j, e)), out := Began(j.out, j.rpc.issued, Given(j.rpc, StepOf(j, e)), begin))
    case Poll(_, _, _) => j.(rpc := Moved(j.rpc, StepOf(j, e)))
    case Serve(i, _, _, _, _, _, begin) =>
      j.(rpc := Moved(j.rpc, StepOf(j, e)), served := i + 1,
         back := Began(j.back, ResponseNumber(j, e), Given(j.rpc, StepOf(j, e)), begin))
    case Complete(_, _, _, begin) =>
      j.(rpc := Moved(j.rpc, StepOf(j, e)),
         back := Began(j.back, ResponseNumber(j, e), Given(j.rpc, StepOf(j, e)), begin))
    case Hear(i, _) => j.(rpc := Moved(j.rpc, StepOf(j, e)), heard := i + 1)
  }

  /* ---------------------------------------------------------------- invariant */

  /** Every request made and every response begun is in transit in the sense of CanRpcRun. */
  ghost predicate AllPosted(s: System) {
    && (forall c :: 0 <= c < |s.calls| ==> RequestPosted(s, c))
    && (forall t :: 0 <= t < |s.taken| ==> ResponsePosted(s, t))
  }

  ghost predicate RequestPosted(s: System, c: nat)
    requires c < |s.calls|
  {
    Post(c, RequestLetter(s.calls[c].sequence, s.calls[c].request)) in s.toServer
  }

  ghost predicate ResponsePosted(s: System, t: nat)
    requires t < |s.taken|
  {
    |s.taken[t].answers| == 1 ==> Post(t, Letter(s.taken[t].sequence, AnswerBytes(s.taken[t]))) in s.toClient
  }

  function RequestLetter(sequence: nat, request: Request): Letter {
    Letter(sequence, RequestBytes(request))
  }

  function AnswerBytes(t: Taken): seq<Byte>
    requires |t.answers| == 1
  {
    ResponseBytes(Response(t.answers[0].status, t.answers[0].id, t.answers[0].body))
  }

  ghost predicate TakenInOrder(s: System) {
    forall i, j :: 0 <= i < j < |s.taken| ==> s.taken[i].call < s.taken[j].call
  }

  /** Message `n` of the path out is the request of a call. */
  ghost predicate IsRequest(j: Joint, n: nat)
    requires n in j.out.given
  {
    exists c: nat :: Numbered(j.rpc, c, n) && j.out.given[n] == RequestBytes(j.rpc.calls[c].request)
  }

  ghost predicate IsResponse(j: Joint, n: nat)
    requires n in j.back.given
  {
    exists t: nat :: Responds(j.rpc, t, n) && j.back.given[n] == AnswerBytes(j.rpc.taken[t])
  }

  /** A request taken up was handed on before. */
  ghost predicate WasServed(j: Joint, t: nat)
    requires t < |j.rpc.taken|
  {
    exists i :: 0 <= i < j.served && i < |j.out.delivered| && Numbered(j.rpc, j.rpc.taken[t].call, j.out.delivered[i].number)
  }

  ghost predicate Linked(j: Joint) {
    && (forall n :: n in j.out.given ==> IsRequest(j, n))
    && (forall n :: n in j.back.given ==> IsResponse(j, n))
    && (forall t :: 0 <= t < |j.rpc.taken| ==> WasServed(j, t))
  }

  ghost predicate Inv(j: Joint) {
    && CanRpcRun.Inv(j.rpc) && Path.Inv(j.out) && Path.Inv(j.back)
    && AllPosted(j.rpc) && TakenInOrder(j.rpc) && Linked(j) && j.served <= |j.out.delivered|
  }

  /* ------------------------------------------------------------- what stays */

  /** Calls and requests taken up keep what was sent; only outcomes and answers are added. */
  ghost predicate Keeps(s: System, t: System) {
    && |s.calls| <= |t.calls| && |s.taken| <= |t.taken|
    && (forall c :: 0 <= c < |s.calls| ==>
          && t.calls[c].request == s.calls[c].request && t.calls[c].issue == s.calls[c].issue
          && t.calls[c].sequence == s.calls[c].sequence)
    && (forall k :: 0 <= k < |s.taken| ==>
          && t.taken[k].call == s.taken[k].call && t.taken[k].sequence == s.taken[k].sequence
          && (|s.taken[k].answers| == 1 ==> t.taken[k].answers == s.taken[k].answers))
  }

  lemma AnsweringKeeps(s: System, server: Server, letter: Option<Letter>, status: Status, body: seq<Byte>)
    requires s.taken != [] ==> |s.taken[|s.taken| - 1].answers| != 1
    ensures Keeps(s, Answering(s, server, letter, status, body))
  {
  }

  lemma ArrivedKeeps(s: System, step: Step)
    requires step.ServerAccept?
    ensures Keeps(s, Arrived(s, step))
  {
    var m := step.post.letter;
    if s.server.Unusable(m, step.senderBusy).None? {
      var (server, _, letter) := s.server.Accept(m, step.senderBusy, step.time, step.backend, step.sending);
      var request := ParseRequest(m.payload).value;
      var late := request.deadline != 0 && step.time >= request.deadline;
      var t := s.(taken := s.taken + [Taken(step.post.cause, request, m.sequence, s.epoch, [])],
                  running := !late && step.backend == Ok);
      AnsweringKeeps(t, server, letter, if late then Timeout else step.backend, []);
    }
  }

  lemma StepKeeps(s: System, step: Step)
    requires CanRpcRun.Inv(s) && CanRpcRun.Enabled(s, step)
    ensures Keeps(s, CanRpcRun.Apply(s, step))
  {
    match step
    case ServerAccept(_, _, _, _, _) => ArrivedKeeps(s, step);
    case ServerComplete(status, body, sending) =>
      var (server, letter) := s.server.Complete(status, body, sending);
      AnsweringKeeps(s.(running := false), server, letter, status, body);
    case ClientCall(a) => PlacedKeeps(s, a);
    case _ => FinishKeeps(s, CanRpcRun.Apply(s, step));
  }

  lemma PlacedKeeps(s: System, a: Attempt)
    ensures Keeps(s, Placed(s, a))
  {
  }

  lemma FinishKeeps(s: System, t: System)
    requires t.taken == s.taken
    requires t.calls == s.calls || exists k, outcome ::
               0 <= k < |s.calls| && t.calls == s.calls[k := s.calls[k].(outcome := outcome)]
    ensures Keeps(s, t)
  {
  }

  /**
   A step gives nothing to a sender, and adds no call and no answer; or it gives the request of a
   new call, or the answer to the request taken up last.
   */
  ghost predicate Gives(s: System, t: System, call: bool, letter: Option<Letter>) {
    && Keeps(s, t)
    && if letter.None? then
         && |t.calls| == |s.calls| && t.toServer == s.toServer && t.toClient == s.toClient
         && forall k :: 0 <= k < |t.taken| && |t.taken[k].answers| == 1 ==> k < |s.taken| && |s.taken[k].answers| == 1
       else if call then
         && |t.calls| == |s.calls| + 1 && t.taken == s.taken
         && t.toServer == s.toServer + {Post(|s.calls|, letter.value)} && t.toClient == s.toClient
         && t.calls[|s.calls|].issue == s.issued + 1
         && letter.value == RequestLetter(t.calls[|s.calls|].sequence, t.calls[|s.calls|].request)
       else
         && |t.calls| == |s.calls| && t.taken != [] && |s.taken| <= |t.taken| <= |s.taken| + 1
         && t.toServer == s.toServer && t.toClient == s.toClient + {Post(|t.taken| - 1, letter.value)}
         && (forall k :: 0 <= k < |t.taken| - 1 && |t.taken[k].answers| == 1 ==>
               k < |s.taken| && |s.taken[k].answers| == 1)
         && |t.taken[|t.taken| - 1].answers| == 1
         && letter.value == Letter(t.taken[|t.taken| - 1].sequence, AnswerBytes(t.taken[|t.taken| - 1]))
  }

  lemma StepGives(s: System, step: Step)
    requires CanRpcRun.Inv(s) && CanRpcRun.Enabled(s, step)
    ensures Gives(s, CanRpcRun.Apply(s, step), step.ClientCall?, Given(s, step))
  {
    StepKeeps(s, step);
    match step
    case ServerAccept(_, _, _, _, _) => AcceptGives(s, step);
    case ServerComplete(_, _, _) => CompleteGives(s, step);
    case ClientCall(_) => CallGives(s, step);
    case _ => QuietGives(s, step);
  }

  lemma AcceptGives(s: System, step: Step)
    requires CanRpcRun.Inv(s) && step.ServerAccept? && CanRpcRun.Enabled(s, step)
    requires Keeps(s, CanRpcRun.Apply(s, step))
    ensures Gives(s, CanRpcRun.Apply(s, step), false, Given(s, step))
  {
    if Given(s, step).Some? { GivenAtOnce(s, step); } else { NothingGiven(s, step); }
  }

  lemma QuietGives(s: System, step: Step)
    requires CanRpcRun.Inv(s) && CanRpcRun.Enabled(s, step) && Keeps(s, CanRpcRun.Apply(s, step))
    requires step.ClientAccept? || step.ClientPoll? || step.ClientReset? || step.ServerReset?
    ensures Gives(s, CanRpcRun.Apply(s, step), false, None)
  {
  }

  lemma CallGives(s: System, step: Step)
    requires CanRpcRun.Inv(s) && step.ClientCall? && CanRpcRun.Enabled(s, step)
    requires Keeps(s, CanRpcRun.Apply(s, step))
    ensures Gives(s, CanRpcRun.Apply(s, step), true, Given(s, step))
  {
  }

  lemma CompleteGives(s: System, step: Step)
    requires CanRpcRun.Inv(s) && step.ServerComplete? && CanRpcRun.Enabled(s, step)
    requires Keeps(s, CanRpcRun.Apply(s, step))
    ensures Gives(s, CanRpcRun.Apply(s, step), false, Given(s, step))
  {
    CanRpcRun.StepInv(s, step);
  }

  lemma GivenAtOnce(s: System, step: Step)
    requires CanRpcRun.Inv(s) && step.ServerAccept? && CanRpcRun.Enabled(s, step) && Given(s, step).Some?
    ensures var t, letter := CanRpcRun.Apply(s, step), Given(s, step).value;
            && t.calls == s.calls && |t.taken| == |s.taken| + 1
            && t.toServer == s.toServer && t.toClient == s.toClient + {Post(|s.taken|, letter)}
            && |t.taken[|s.taken|].answers| == 1
            && letter == Letter(t.taken[|s.taken|].sequence, AnswerBytes(t.taken[|s.taken|]))
  {
    TakenUp(s.server, step.post.letter, step.time, step.backend, step.sending);
  }

  lemma NothingGiven(s: System, step: Step)
    requires CanRpcRun.Inv(s) && step.ServerAccept? && CanRpcRun.Enabled(s, step) && Given(s, step).None?
    ensures var t := CanRpcRun.Apply(s, step);
            && |t.calls| == |s.calls| && t.toServer == s.toServer && t.toClient == s.toClient
            && forall k :: 0 <= k < |t.taken| && |t.taken[k].answers| == 1 ==> k < |s.taken| && |s.taken[k].answers| == 1
  {
  }

  lemma KeptPost(s: System, t: System, k: nat)
    requires Keeps(s, t) && s.toClient <= t.toClient && k < |s.taken| && |s.taken[k].answers| == 1
    requires ResponsePosted(s, k)
    ensures ResponsePosted(t, k)
  {
    assert t.taken[k].answers == s.taken[k].answers;
    assert AnswerBytes(t.taken[k]) == AnswerBytes(s.taken[k]);
  }

  lemma KeptRequest(s: System, t: System, c: nat)
    requires Keeps(s, t) && s.toServer <= t.toServer && c < |s.calls| && RequestPosted(s, c)
    ensures RequestPosted(t, c)
  {
  }

  lemma RequestsPosted(s: System, t: System, call: bool, letter: Option<Letter>)
    requires AllPosted(s) && Gives(s, t, call, letter)
    ensures forall c :: 0 <= c < |t.calls| ==> RequestPosted(t, c)
  {
    forall c | 0 <= c < |t.calls| ensures RequestPosted(t, c) {
      if c < |s.calls| { KeptRequest(s, t, c); } else { NewRequest(s, t, call, letter, c); }
    }
  }

  lemma NewRequest(s: System, t: System, call: bool, letter: Option<Letter>, c: nat)
    requires Gives(s, t, call, letter) && |s.calls| <= c < |t.calls|
    ensures RequestPosted(t, c)
  {
    assert letter.Some? && call && c == |s.calls|;
    assert Post(c, letter.value) in t.toServer;
  }

  lemma ResponsesPosted(s: System, t: System, call: bool, letter: Option<Letter>)
    requires AllPosted(s) && Gives(s, t, call, letter)
    ensures forall k :: 0 <= k < |t.taken| ==> ResponsePosted(t, k)
  {
    forall k | 0 <= k < |t.taken| ensures ResponsePosted(t, k) {
      if k < |s.taken| && |s.taken[k].answers| == 1 {
        KeptPost(s, t, k);
      } else if |t.taken[k].answers| == 1 {
        NewPost(s, t, call, letter, k);
      }
    }
  }

  lemma NewPost(s: System, t: System, call: bool, letter: Option<Letter>, k: nat)
    requires Gives(s, t, call, letter) && k < |t.taken| && |t.taken[k].answers| == 1
    requires !(k < |s.taken| && |s.taken[k].answers| == 1)
    ensures ResponsePosted(t, k)
  {
    assert letter.Some? && !call && k == |t.taken| - 1;
  }

  lemma PostedStep(s: System, t: System, call: bool, letter: Option<Letter>)
    requires AllPosted(s) && Gives(s, t, call, letter)
    ensures AllPosted(t)
  {
    RequestsPosted(s, t, call, letter);
    ResponsesPosted(s, t, call, letter);
  }

  /* ---------------------------------------------------------------- the paths */

  lemma PathKeeps(p: Path.System, step: Path.Step)
    requires p.sender.Valid() && !step.Begin?
    ensures Path.Apply(p, step).given == p.given
    ensures p.delivered <= Path.Apply(p, step).delivered
  {
  }

  /** A message with the highest number yet, taken by the sender. */
  lemma PathBegins(b: Path.Bounds, p: Path.System, number: nat, payload: seq<Byte>, settings: Settings)
    requires Path.Inv(p) && Path.Tight(b) && Takes(p, number, payload, settings)
    requires forall n :: n in p.given ==> n < number
    ensures var q := Path.Apply(p, Begin(number, payload, settings));
            && Path.Inv(q) && q.given == p.given[number := payload] && q.delivered == p.delivered
  {
    Path.StepInv(b, p, Begin(number, payload, settings));
  }

  /* ---------------------------------------------- what is handed on was in transit */

  lemma IssueOrder(s: System, c: nat, d: nat)
    requires IdInv(s) && c < |s.calls| && d < |s.calls|
    ensures s.calls[c].issue < s.calls[d].issue <==> c < d
    ensures s.calls[c].issue == s.calls[d].issue <==> c == d
  {
    assert c < d || c == d || d < c;
  }

  /** What the receiver of requests delivered is the request of the call with that number. */
  lemma DeliveredRequest(j: Joint, i: nat, c: nat)
    requires Inv(j) && i < |j.out.delivered| && Numbered(j.rpc, c, j.out.delivered[i].number)
    ensures Post(c, LetterOf(j.out.delivered[i])) in j.rpc.toServer
    ensures j.out.delivered[i].payload == RequestBytes(j.rpc.calls[c].request)
  {
    GivenRequest(j, j.out.delivered[i].number, c);
    RequestInTransit(j.rpc, c, j.out.delivered[i]);
  }

  lemma RequestInTransit(s: System, c: nat, d: Path.Delivery)
    requires IdInv(s) && Numbered(s, c, d.number) && RequestPosted(s, c)
    requires d.payload == RequestBytes(s.calls[c].request)
    ensures Post(c, LetterOf(d)) in s.toServer
  {
    assert s.calls[c].sequence == SequenceOf(s.calls[c].issue);
    assert LetterOf(d) == RequestLetter(s.calls[c].sequence, s.calls[c].request);
  }

  lemma GivenRequest(j: Joint, n: nat, c: nat)
    requires IdInv(j.rpc) && Numbered(j.rpc, c, n) && n in j.out.given && IsRequest(j, n)
    ensures j.out.given[n] == RequestBytes(j.rpc.calls[c].request)
  {
    var d: nat :| Numbered(j.rpc, d, n) && j.out.given[n] == RequestBytes(j.rpc.calls[d].request);
    IssueOrder(j.rpc, c, d);
  }

  /** There is such a call. */
  lemma RequestHasCall(j: Joint, i: nat) returns (c: nat)
    requires Inv(j) && i < |j.out.delivered|
    ensures Numbered(j.rpc, c, j.out.delivered[i].number)
  {
    var n := j.out.delivered[i].number;
    assert IsRequest(j, n);
    c :| Numbered(j.rpc, c, n);
  }

  lemma DeliveredResponse(j: Joint, i: nat, t: nat)
    requires Inv(j) && i < |j.back.delivered| && Responds(j.rpc, t, j.back.delivered[i].number)
    ensures Post(t, LetterOf(j.back.delivered[i])) in j.rpc.toClient
    ensures j.back.delivered[i].payload == AnswerBytes(j.rpc.taken[t])
  {
    var n := j.back.delivered[i].number;
    assert IsResponse(j, n);
    var u: nat :| Responds(j.rpc, u, n) && j.back.given[n] == AnswerBytes(j.rpc.taken[u]);
    IssueOrder(j.rpc, j.rpc.taken[t].call, j.rpc.taken[u].call);
    SameTaken(j.rpc, t, u);
    assert TakenInv(j.rpc, t);
    assert ResponsePosted(j.rpc, t);
  }

  lemma SameTaken(s: System, t: nat, u: nat)
    requires TakenInOrder(s) && t < |s.taken| && u < |s.taken| && s.taken[t].call == s.taken[u].call
    ensures t == u
  {
    assert t < u || t == u || u < t;
  }

  lemma ResponseHasRequest(j: Joint, i: nat) returns (t: nat)
    requires Inv(j) && i < |j.back.delivered|
    ensures Responds(j.rpc, t, j.back.delivered[i].number)
  {
    var n := j.back.delivered[i].number;
    assert IsResponse(j, n);
    t :| Responds(j.rpc, t, n);
  }

  /** Every event of client or server is a step CanRpcRun allows. */
  lemma EventIsStep(b: Path.Bounds, j: Joint, e: Event)
    requires Inv(j) && Enabled(b, j, e) && !e.OutStep? && !e.BackStep?
    ensures CanRpcRun.Enabled(j.rpc, StepOf(j, e))
    ensures Apply(b, j, e).rpc == CanRpcRun.Apply(j.rpc, StepOf(j, e))
  {
    match e
    case Serve(i, c, _, _, _, _, _) => DeliveredRequest(j, i, c);
    case Hear(i, t) => DeliveredResponse(j, i, t);
    case _ =>
  }

  /* --------------------------------------------------------- numbers only grow */

  lemma RequestNumberIsNew(j: Joint)
    requires Inv(j)
    ensures forall n :: n in j.out.given ==> n < j.rpc.issued
  {
    forall n | n in j.out.given ensures n < j.rpc.issued { assert IsRequest(j, n); }
  }

  /** A response to a request served later has a higher number than any before. */
  lemma ServedNumberIsNew(j: Joint, i: nat)
    requires Inv(j) && j.served <= i < |j.out.delivered|
    ensures forall n :: n in j.back.given ==> n < j.out.delivered[i].number
    ensures forall t, c: nat :: 0 <= t < |j.rpc.taken| && Numbered(j.rpc, c, j.out.delivered[i].number) ==>
              j.rpc.taken[t].call < c
  {
    forall t, c: nat | 0 <= t < |j.rpc.taken| && Numbered(j.rpc, c, j.out.delivered[i].number)
      ensures j.rpc.taken[t].call < c
    {
      assert WasServed(j, t);
      IssueOrder(j.rpc, j.rpc.taken[t].call, c);
    }
    forall n | n in j.back.given ensures n < j.out.delivered[i].number {
      assert IsResponse(j, n);
      var t: nat :| Responds(j.rpc, t, n);
      assert WasServed(j, t);
    }
  }

  lemma RunningIsLast(s: System)
    requires CanRpcRun.Inv(s) && s.running
    ensures s.taken != [] && s.taken[|s.taken| - 1].answers == []
    ensures LastNumber(s) >= 0 && Numbered(s, s.taken[|s.taken| - 1].call, LastNumber(s))
  {
    assert TakenInv(s, |s.taken| - 1);
  }

  lemma AnsweredBefore(s: System, t: nat, n: nat)
    requires CanRpcRun.Inv(s) && TakenInOrder(s) && Responds(s, t, n)
    requires s.taken[|s.taken| - 1].answers == []
    requires Numbered(s, s.taken[|s.taken| - 1].call, LastNumber(s))
    ensures n < LastNumber(s)
  {
    IssueOrder(s, s.taken[t].call, s.taken[|s.taken| - 1].call);
  }

  /** So has the response to the request that is running. */
  lemma RunningNumberIsNew(j: Joint)
    requires Inv(j) && j.rpc.running
    ensures j.rpc.taken != [] && LastNumber(j.rpc) >= 0
    ensures Numbered(j.rpc, j.rpc.taken[|j.rpc.taken| - 1].call, LastNumber(j.rpc))
    ensures forall n :: n in j.back.given ==> n < LastNumber(j.rpc)
  {
    RunningIsLast(j.rpc);
    forall n | n in j.back.given ensures n < LastNumber(j.rpc) {
      assert IsResponse(j, n);
      var t: nat :| Responds(j.rpc, t, n);
      AnsweredBefore(j.rpc, t, n);
    }
  }

  /* ----------------------------------------------------- every event keeps it */

  /** What was said of messages stays true of what is added to. */
  lemma RequestStays(j: Joint, k: Joint, n: nat)
    requires Keeps(j.rpc, k.rpc) && n in j.out.given && n in k.out.given && k.out.given[n] == j.out.given[n]
    requires IsRequest(j, n)
    ensures IsRequest(k, n)
  {
    var c: nat :| Numbered(j.rpc, c, n) && j.out.given[n] == RequestBytes(j.rpc.calls[c].request);
    assert Numbered(k.rpc, c, n);
  }

  lemma ResponseStays(j: Joint, k: Joint, n: nat)
    requires CanRpcRun.Inv(j.rpc) && Keeps(j.rpc, k.rpc)
    requires n in j.back.given && n in k.back.given && k.back.given[n] == j.back.given[n] && IsResponse(j, n)
    ensures IsResponse(k, n)
  {
    var t: nat :| Responds(j.rpc, t, n) && j.back.given[n] == AnswerBytes(j.rpc.taken[t]);
    assert k.rpc.taken[t].answers == j.rpc.taken[t].answers;
    assert Responds(k.rpc, t, n) && AnswerBytes(k.rpc.taken[t]) == AnswerBytes(j.rpc.taken[t]);
  }

  lemma ServedStays(j: Joint, k: Joint, t: nat)
    requires Keeps(j.rpc, k.rpc) && j.served <= k.served && j.out.delivered <= k.out.delivered
    requires t < |j.rpc.taken| && WasServed(j, t)
    ensures WasServed(k, t)
  {
    var i :| 0 <= i < j.served && i < |j.out.delivered| && Numbered(j.rpc, j.rpc.taken[t].call, j.out.delivered[i].number);
    assert Numbered(k.rpc, k.rpc.taken[t].call, k.out.delivered[i].number);
  }

  /** The links after an event, where those of what it added are given. */
  lemma LinkedStays(j: Joint, k: Joint)
    requires Inv(j) && Keeps(j.rpc, k.rpc) && j.served <= k.served && j.out.delivered <= k.out.delivered
    requires forall n :: n in k.out.given ==> (n in j.out.given && k.out.given[n] == j.out.given[n]) || IsRequest(k, n)
    requires forall n :: n in k.back.given ==> (n in j.back.given && k.back.given[n] == j.back.given[n]) || IsResponse(k, n)
    requires forall t :: |j.rpc.taken| <= t < |k.rpc.taken| ==> WasServed(k, t)
    ensures Linked(k)
  {
    forall n | n in k.out.given ensures IsRequest(k, n) {
      if n in j.out.given && k.out.given[n] == j.out.given[n] { RequestStays(j, k, n); }
    }
    forall n | n in k.back.given ensures IsResponse(k, n) {
      if n in j.back.given && k.back.given[n] == j.back.given[n] { ResponseStays(j, k, n); }
    }
    forall t | 0 <= t < |k.rpc.taken| ensures WasServed(k, t) {
      if t < |j.rpc.taken| { ServedStays(j, k, t); }
    }
  }

  lemma KeepsSelf(s: System)
    ensures Keeps(s, s)
  {
  }

  lemma PathEventInv(b: Path.Bounds, j: Joint, e: Event)
    requires Inv(j) && Path.Tight(b) && Enabled(b, j, e) && (e.OutStep? || e.BackStep?)
    ensures Inv(Apply(b, j, e))
  {
    var k := Apply(b, j, e);
    KeepsSelf(j.rpc);
    if e.OutStep? {
      Path.StepInv(b, j.out, e.step);
      PathKeeps(j.out, e.step);
    } else {
      Path.StepInv(b, j.back, e.step);
      PathKeeps(j.back, e.step);
    }
    LinkedStays(j, k);
  }

  /** An event of client or server: the part that concerns neither path. */
  lemma RpcEventInv(b: Path.Bounds, j: Joint, e: Event)
    requires Inv(j) && Enabled(b, j, e) && !e.OutStep? && !e.BackStep?
    ensures var k := Apply(b, j, e);
            CanRpcRun.Inv(k.rpc) && AllPosted(k.rpc) && Gives(j.rpc, k.rpc, e.Call?, Given(j.rpc, StepOf(j, e)))
  {
    EventIsStep(b, j, e);
    CanRpcRun.StepInv(j.rpc, StepOf(j, e));
    StepGives(j.rpc, StepOf(j, e));
    PostedStep(j.rpc, Apply(b, j, e).rpc, e.Call?, Given(j.rpc, StepOf(j, e)));
  }

  lemma CallEventInv(b: Path.Bounds, j: Joint, e: Event)
    requires Inv(j) && Path.Tight(b) && Enabled(b, j, e) && e.Call?
    ensures Inv(Apply(b, j, e))
  {
    var k, letter := Apply(b, j, e), Given(j.rpc, StepOf(j, e));
    RpcEventInv(b, j, e);
    SameRequests(b, j, e);
    if letter.Some? {
      RequestNumberIsNew(j);
      PathBegins(b, j.out, j.rpc.issued, letter.value.payload, e.begin);
      assert Numbered(k.rpc, |j.rpc.calls|, j.rpc.issued);
      assert IsRequest(k, j.rpc.issued);
    }
    LinkedStays(j, k);
  }

  /** Only a request handed to the server is taken up. */
  lemma SameRequests(b: Path.Bounds, j: Joint, e: Event)
    requires Inv(j) && Enabled(b, j, e) && !e.OutStep? && !e.BackStep? && !e.Serve?
    ensures var k := Apply(b, j, e);
            |k.rpc.taken| == |j.rpc.taken| && TakenInOrder(k.rpc)
  {
    EventIsStep(b, j, e);
    TakenGrows(j.rpc, StepOf(j, e));
  }

  lemma ClientEventInv(b: Path.Bounds, j: Joint, e: Event)
    requires Inv(j) && Enabled(b, j, e) && (e.Poll? || e.Hear?)
    ensures Inv(Apply(b, j, e))
  {
    RpcEventInv(b, j, e);
    SameRequests(b, j, e);
    LinkedStays(j, Apply(b, j, e));
  }

  /** A response given to the sender of the path back, under a new number. */
  lemma ResponseLinks(b: Path.Bounds, j: Joint, k: Joint, number: nat, payload: seq<Byte>, begin: Settings)
    requires Path.Inv(j.back) && Path.Tight(b) && Takes(j.back, number, payload, begin)
    requires forall n :: n in j.back.given ==> n < number
    requires k.back == Path.Apply(j.back, Begin(number, payload, begin))
    requires k.rpc.taken != [] && Responds(k.rpc, |k.rpc.taken| - 1, number)
    requires payload == AnswerBytes(k.rpc.taken[|k.rpc.taken| - 1])
    ensures Path.Inv(k.back)
    ensures forall n :: n in k.back.given ==> (n in j.back.given && k.back.given[n] == j.back.given[n]) || IsResponse(k, n)
  {
    PathBegins(b, j.back, number, payload, begin);
    assert IsResponse(k, number);
  }

  lemma CompleteEventInv(b: Path.Bounds, j: Joint, e: Event)
    requires Inv(j) && Path.Tight(b) && Enabled(b, j, e) && e.Complete?
    ensures Inv(Apply(b, j, e))
  {
    RpcEventInv(b, j, e);
    SameRequests(b, j, e);
    RunningNumberIsNew(j);
    CompleteLinks(b, j, Apply(b, j, e), Given(j.rpc, StepOf(j, e)), e.begin);
  }

  lemma CompleteLinks(b: Path.Bounds, j: Joint, k: Joint, letter: Option<Letter>, begin: Settings)
    requires Inv(j) && Path.Tight(b) && j.rpc.taken != [] && LastNumber(j.rpc) >= 0
    requires CanRpcRun.Inv(k.rpc) && AllPosted(k.rpc) && TakenInOrder(k.rpc) && |k.rpc.taken| == |j.rpc.taken|
    requires Gives(j.rpc, k.rpc, false, letter)
    requires Numbered(j.rpc, j.rpc.taken[|j.rpc.taken| - 1].call, LastNumber(j.rpc))
    requires forall n :: n in j.back.given ==> n < LastNumber(j.rpc)
    requires letter.Some? ==> Takes(j.back, LastNumber(j.rpc), letter.value.payload, begin)
    requires k == j.(rpc := k.rpc, back := Began(j.back, LastNumber(j.rpc), letter, begin))
    ensures Inv(k)
  {
    if letter.Some? { ResponseLinks(b, j, k, LastNumber(j.rpc), letter.value.payload, begin); }
    LinkedStays(j, k);
  }

  /** A request that is taken up is the one just handed on, and its call comes after the others. */
  lemma ServeTakes(b: Path.Bounds, j: Joint, e: Event)
    requires Inv(j) && Enabled(b, j, e) && e.Serve?
    ensures var k := Apply(b, j, e);
            && Grows(j.rpc, StepOf(j, e), k.rpc) && TakenInOrder(k.rpc)
            && (Given(j.rpc, StepOf(j, e)).Some? ==> |k.rpc.taken| == |j.rpc.taken| + 1)
  {
    EventIsStep(b, j, e);
    TakenGrows(j.rpc, StepOf(j, e));
    ServedNumberIsNew(j, e.i);
    OrderGrows(j, Apply(b, j, e).rpc, StepOf(j, e), e.i, e.call);
    if Given(j.rpc, StepOf(j, e)).Some? { GivenAtOnce(j.rpc, StepOf(j, e)); }
  }

  lemma OrderGrows(j: Joint, t: System, step: Step, i: nat, call: nat)
    requires TakenInOrder(j.rpc) && Grows(j.rpc, step, t) && step.ServerAccept? && step.post.cause == call
    requires forall k :: 0 <= k < |j.rpc.taken| ==> j.rpc.taken[k].call < call
    ensures TakenInOrder(t)
  {
  }

  lemma ServeEventInv(b: Path.Bounds, j: Joint, e: Event)
    requires Inv(j) && Path.Tight(b) && Enabled(b, j, e) && e.Serve?
    ensures Inv(Apply(b, j, e))
  {
    ServeHandsOn(b, j, e);
    var k, letter := Apply(b, j, e), Given(j.rpc, StepOf(j, e));
    if letter.Some? {
      ServedNumberIsNew(j, e.i);
      ServeBegins(b, j, e);
      AnsweredLinks(b, j, k, e.i, e.call, letter.value, e.begin);
    } else {
      SilentLinks(j, k, e.i, e.call);
    }
  }

  lemma ServeHandsOn(b: Path.Bounds, j: Joint, e: Event)
    requires Inv(j) && Enabled(b, j, e) && e.Serve?
    ensures var k, letter := Apply(b, j, e), Given(j.rpc, StepOf(j, e));
            && HandsOn(j, k, e.i, e.call) && Gives(j.rpc, k.rpc, false, letter)
            && (letter.Some? ==> |k.rpc.taken| == |j.rpc.taken| + 1) && (letter.None? ==> k.back == j.back)
  {
    RpcEventInv(b, j, e);
    ServeTakes(b, j, e);
  }

  lemma ServeBegins(b: Path.Bounds, j: Joint, e: Event)
    requires Enabled(b, j, e) && e.Serve? && Given(j.rpc, StepOf(j, e)).Some?
    ensures var number, letter := j.out.delivered[e.i].number, Given(j.rpc, StepOf(j, e));
            && Takes(j.back, number, letter.value.payload, e.begin)
            && Apply(b, j, e).back == Began(j.back, number, letter, e.begin)
  {
  }

  /** What handing on message `i` makes of client and server. */
  ghost predicate HandsOn(j: Joint, k: Joint, i: nat, call: nat) {
    && CanRpcRun.Inv(k.rpc) && AllPosted(k.rpc) && TakenInOrder(k.rpc) && Keeps(j.rpc, k.rpc)
    && j.served <= i < |j.out.delivered| && Numbered(j.rpc, call, j.out.delivered[i].number)
    && |j.rpc.taken| <= |k.rpc.taken| <= |j.rpc.taken| + 1
    && (|k.rpc.taken| > |j.rpc.taken| ==> k.rpc.taken[|j.rpc.taken|].call == call)
    && k.out == j.out && k.served == i + 1
  }

  lemma NewlyServed(j: Joint, k: Joint, i: nat, call: nat)
    requires HandsOn(j, k, i, call)
    ensures forall t :: |j.rpc.taken| <= t < |k.rpc.taken| ==> WasServed(k, t)
  {
    assert Numbered(k.rpc, call, k.out.delivered[i].number);
  }

  lemma SilentLinks(j: Joint, k: Joint, i: nat, call: nat)
    requires Inv(j) && HandsOn(j, k, i, call) && k.back == j.back
    ensures Inv(k)
  {
    NewlyServed(j, k, i, call);
    LinkedStays(j, k);
  }

  lemma AnsweredLinks(b: Path.Bounds, j: Joint, k: Joint, i: nat, call: nat, letter: Letter, begin: Settings)
    requires Inv(j) && Path.Tight(b) && HandsOn(j, k, i, call) && Gives(j.rpc, k.rpc, false, Some(letter))
    requires |k.rpc.taken| == |j.rpc.taken| + 1
    requires forall n :: n in j.back.given ==> n < j.out.delivered[i].number
    requires Takes(j.back, j.out.delivered[i].number, letter.payload, begin)
    requires k.back == Began(j.back, j.out.delivered[i].number, Some(letter), begin)
    ensures Inv(k)
  {
    assert Numbered(k.rpc, call, j.out.delivered[i].number);
    ResponseLinks(b, j, k, j.out.delivered[i].number, letter.payload, begin);
    NewlyServed(j, k, i, call);
    LinkedStays(j, k);
  }

  lemma EventInv(b: Path.Bounds, j: Joint, e: Event)
    requires Inv(j) && Path.Tight(b) && Enabled(b, j, e)
    ensures Inv(Apply(b, j, e))
  {
    match e
    case Call(_, _) => CallEventInv(b, j, e);
    case Serve(_, _, _, _, _, _, _) => ServeEventInv(b, j, e);
    case Complete(_, _, _, _) => CompleteEventInv(b, j, e);
    case OutStep(_) => PathEventInv(b, j, e);
    case BackStep(_) => PathEventInv(b, j, e);
    case _ => ClientEventInv(b, j, e);
  }

  /* ------------------------------------------------------------- whole runs */

  ghost predicate Initial(j: Joint) {
    CanRpcRun.Initial(j.rpc) && Path.Initial(j.out) && Path.Initial(j.back) && j.served == j.heard == 0
  }

  ghost predicate IsJointRun(b: Path.Bounds, states: seq<Joint>, events: seq<Event>) {
    && |states| == |events| + 1
    && Initial(states[0])
    && forall k :: 0 <= k < |events| ==> Next(b, states[k], events[k], states[k + 1])
  }

  ghost predicate Next(b: Path.Bounds, j: Joint, e: Event, k: Joint) {
    Enabled(b, j, e) && k == Apply(b, j, e)
  }

  lemma NextInv(b: Path.Bounds, j: Joint, e: Event, k: Joint)
    requires Inv(j) && Path.Tight(b) && Next(b, j, e, k)
    ensures Inv(k)
  {
    EventInv(b, j, e);
  }

  /** Refinement: what client and server did over the paths is a run of CanRpcRun. */
  ghost predicate Refines(j: Joint) {
    exists rpc: seq<System>, steps: seq<Step> :: EndsIn(rpc, steps, j.rpc)
  }

  ghost predicate EndsIn(rpc: seq<System>, steps: seq<Step>, s: System) {
    IsRun(rpc, steps) && rpc[|steps|] == s
  }

  lemma InitialRefines(j: Joint)
    requires Initial(j)
    ensures Inv(j) && Refines(j)
  {
    Path.InitialInv(j.out);
    Path.InitialInv(j.back);
    assert EndsIn([j.rpc], [], j.rpc);
  }

  lemma NextRefines(b: Path.Bounds, j: Joint, e: Event, k: Joint)
    requires Path.Tight(b) && Inv(j) && Refines(j) && Next(b, j, e, k)
    ensures Inv(k) && Refines(k)
  {
    NextInv(b, j, e, k);
    var rpc, steps :| EndsIn(rpc, steps, j.rpc);
    rpc, steps := ExtendedBy(b, j, e, k, rpc, steps);
    assert EndsIn(rpc, steps, k.rpc);
  }

  lemma RefinementTheorem(b: Path.Bounds, states: seq<Joint>, events: seq<Event>, k: nat)
    requires Path.Tight(b) && IsJointRun(b, states, events) && k < |states|
    ensures Inv(states[k]) && Refines(states[k])
  {
    InitialRefines(states[0]);
    forall j, e, l | InvRefines(j) && Next(b, j, e, l) ensures InvRefines(l) { NextRefines(b, j, e, l); }
    Along(states, events, (j, e, l) => Next(b, j, e, l), InvRefines, k);
  }

  ghost predicate InvRefines(j: Joint) {
    Inv(j) && Refines(j)
  }

  /** What holds at first and is kept by every step holds all along. */
  lemma {:induction false} Along<S(!new), E(!new)>(
    states: seq<S>, events: seq<E>, next: (S, E, S) -> bool, good: S -> bool, k: nat)
    requires |states| == |events| + 1 && k < |states| && good(states[0])
    requires forall i :: 0 <= i < |events| ==> next(states[i], events[i], states[i + 1])
    requires forall j, e, l :: good(j) && next(j, e, l) ==> good(l)
    ensures good(states[k])
  {
    if k == 0 {
    } else {
      Along(states, events, next, good, k - 1);
      assert next(states[k - 1], events[k - 1], states[k]);
    }
  }

  lemma Extended(states: seq<System>, steps: seq<Step>, step: Step)
    requires IsRun(states, steps) && CanRpcRun.Enabled(states[|steps|], step)
    ensures IsRun(states + [CanRpcRun.Apply(states[|steps|], step)], steps + [step])
  {
    var more, longer := states + [CanRpcRun.Apply(states[|steps|], step)], steps + [step];
    forall k | 0 <= k < |longer|
      ensures CanRpcRun.Enabled(more[k], longer[k]) && more[k + 1] == CanRpcRun.Apply(more[k], longer[k])
    {
      if k < |steps| { assert CanRpcRun.Enabled(states[k], steps[k]) && states[k + 1] == CanRpcRun.Apply(states[k], steps[k]); }
    }
  }

  lemma ExtendedBy(b: Path.Bounds, j: Joint, e: Event, k: Joint, rpc: seq<System>, steps: seq<Step>)
    returns (more: seq<System>, longer: seq<Step>)
    requires Inv(j) && Next(b, j, e, k) && IsRun(rpc, steps) && rpc[|steps|] == j.rpc
    ensures IsRun(more, longer) && more[|longer|] == k.rpc
  {
    more, longer := rpc, steps;
    if !e.OutStep? && !e.BackStep? {
      EventIsStep(b, j, e);
      Extended(rpc, steps, StepOf(j, e));
      more, longer := rpc + [CanRpcRun.Apply(j.rpc, StepOf(j, e))], steps + [StepOf(j, e)];
    }
  }

  /**
   End to end: over reliable paths within their bounds, the server takes up the client's calls in
   the order they were made, each at most once and with exactly the bytes it was made with, and
   begins at most one response for each; an answered call got the one response begun for it, byte
   for byte, while at most 16 * (2^32 - 1) ids were used.
   */
  lemma PathTheorem(b: Path.Bounds, states: seq<Joint>, events: seq<Event>, k: nat, c: nat)
    requires Path.Tight(b) && IsJointRun(b, states, events) && k < |states|
    ensures var s := states[k].rpc;
            && TakenInOrder(s)
            && (forall t :: 0 <= t < |s.taken| ==>
                  s.taken[t].call < |s.calls| && s.taken[t].request == s.calls[s.taken[t].call].request)
            && AnswersTo(s.taken, |s.taken|, c) <= 1
            && (c < |s.calls| && s.calls[c].outcome.Answered? && s.issued <= 16 * U32_MAX ==> RoundTrip(s, c))
  {
    RefinementTheorem(b, states, events, k);
    var s := states[k].rpc;
    forall t | 0 <= t < |s.taken|
      ensures s.taken[t].call < |s.calls| && s.taken[t].request == s.calls[s.taken[t].call].request
      ensures |s.taken[t].answers| <= 1
    {
      assert TakenInv(s, t);
    }
    AtMostOneAnswer(s, |s.taken|, c);
    if c < |s.calls| && s.calls[c].outcome.Answered? && s.issued <= 16 * U32_MAX {
      var rpc, steps :| EndsIn(rpc, steps, s);
      AnswerTheorem(rpc, steps, |steps|, c);
    }
  }

  /** The call was answered with the response the server began for that very call's request. */
  ghost predicate RoundTrip(s: System, c: nat)
    requires c < |s.calls| && s.calls[c].outcome.Answered?
  {
    var outcome := s.calls[c].outcome;
    && outcome.answerer < |s.taken|
    && var t := s.taken[outcome.answerer];
       && t.call == c && t.request == s.calls[c].request && |t.answers| == 1
       && t.answers[0].status == outcome.status && t.answers[0].body == outcome.body
  }
}
