/**
 What the reliable receiver makes of the frames of one message, fed to it in order, whatever state
 it is in: which messages it hands up, acknowledges, refuses or gives up.
 */
module ReliableFeed {
  import opened Bytes
  import opened CanProtocol
  import opened Fragments
  import opened ReliablePath

  /** What event `i` makes of a receiver, and the reply. */
  type Reaction = (Receiver, nat) -> (Receiver, Reply)

  /** The receiver after the events from `first` up to `n`, and all its replies. */
  ghost function After(react: Reaction, r: Receiver, first: nat, n: nat): (result: (Receiver, seq<Reply>))
    requires first <= n
    ensures |result.1| == n - first
    decreases n
  {
    if n == first then (r, [])
    else
      var (before, replies) := After(react, r, first, n - 1);
      var (after, reply) := react(before, n - 1);
      (after, replies + [reply])
  }

  function Quiet(): Reply {
    Reply(Unavailable, None, None)
  }

  function Quiets(n: nat): (replies: seq<Reply>)
    ensures |replies| == n && forall i :: 0 <= i < n ==> replies[i] == Quiet()
  {
    seq(n, _ => Quiet())
  }

  lemma OneMore(react: Reaction, r: Receiver, first: nat, n: nat, before: Receiver, replies: seq<Reply>)
    requires first < n && After(react, r, first, n - 1) == (before, replies)
    ensures After(react, r, first, n) == (react(before, n - 1).0, replies + [react(before, n - 1).1])
  {
  }

  lemma Then(react: Reaction, r: Receiver, first: nat, n: nat, before: Receiver, replies: seq<Reply>,
             after: Receiver, reply: Reply)
    requires first < n && After(react, r, first, n - 1) == (before, replies) && react(before, n - 1) == (after, reply)
    ensures After(react, r, first, n) == (after, replies + [reply])
  {
  }

  lemma FirstOne(react: Reaction, r: Receiver, first: nat)
    ensures After(react, r, first, first + 1) == (react(r, first).0, [react(r, first).1])
  {
    OneMore(react, r, first, first + 1, r, []);
    assert [] + [react(r, first).1] == [react(r, first).1];
  }

  lemma QuietMore(n: nat)
    ensures Quiets(n) + [Quiet()] == Quiets(n + 1)
  {
  }

  /** Events that change nothing. */
  lemma {:induction false} NothingHappens(react: Reaction, r: Receiver, first: nat, n: nat)
    requires first <= n && forall i :: first <= i < n ==> react(r, i) == (r, Quiet())
    ensures After(react, r, first, n) == (r, Quiets(n - first))
    decreases n
  {
    if first < n {
      NothingHappens(react, r, first, n - 1);
      OneMore(react, r, first, n, r, Quiets(n - 1 - first));
      QuietMore(n - 1 - first);
    }
  }

  /** Events that lead from state to state. */
  lemma {:induction false} Chain(react: Reaction, state: nat -> Receiver, first: nat, n: nat)
    requires first <= n && forall i :: first <= i < n ==> react(state(i), i) == (state(i + 1), Quiet())
    ensures After(react, state(first), first, n) == (state(n), Quiets(n - first))
    decreases n
  {
    if first < n {
      Chain(react, state, first, n - 1);
      Then(react, state(first), first, n, state(n - 1), Quiets(n - 1 - first), state(n), Quiet());
      QuietMore(n - 1 - first);
    }
  }

  /** What every event keeps. */
  lemma {:induction false} Kept(react: Reaction, good: (Receiver, nat) -> bool, r: Receiver, first: nat, n: nat)
    requires first <= n && good(r, first)
    requires forall q, i :: first <= i < n && good(q, i) ==> react(q, i).1 == Quiet() && good(react(q, i).0, i + 1)
    ensures After(react, r, first, n).1 == Quiets(n - first) && good(After(react, r, first, n).0, n)
    decreases n
  {
    if first < n {
      Kept(react, good, r, first, n - 1);
      var before := After(react, r, first, n - 1).0;
      OneMore(react, r, first, n, before, Quiets(n - 1 - first));
      QuietMore(n - 1 - first);
    }
  }

  /** What happens first is all that matters. */
  lemma {:induction false} SameStart(react: Reaction, r: Receiver, q: Receiver, first: nat, n: nat)
    requires first < n && react(r, first) == react(q, first)
    ensures After(react, r, first, n) == After(react, q, first, n)
    decreases n
  {
    if first + 1 == n {
      FirstOne(react, r, first);
      FirstOne(react, q, first);
    } else {
      SameStart(react, r, q, first, n - 1);
    }
  }

  /** One part after the other. */
  lemma {:induction false} Joined(react: Reaction, r: Receiver, first: nat, m: nat, n: nat,
                                  middle: Receiver, some: seq<Reply>, after: Receiver, more: seq<Reply>)
    requires first <= m <= n && After(react, r, first, m) == (middle, some)
    requires After(react, middle, m, n) == (after, more)
    ensures After(react, r, first, n) == (after, some + more)
    decreases n
  {
    if m == n {
      assert some + [] == some;
    } else {
      var (before, fewer) := After(react, middle, m, n - 1);
      var reply := react(before, n - 1).1;
      Joined(react, r, first, m, n - 1, middle, some, before, fewer);
      Then(react, r, first, n, before, some + fewer, after, reply);
      assert some + fewer + [reply] == some + (fewer + [reply]);
    }
  }

  lemma QuietParts(react: Reaction, r: Receiver, m: nat, n: nat, middle: Receiver)
    requires m <= n && After(react, r, 0, m) == (middle, Quiets(m)) && After(react, middle, m, n).1 == Quiets(n - m)
    ensures After(react, r, 0, n).1 == Quiets(n)
  {
    Joined(react, r, 0, m, n, middle, Quiets(m), After(react, middle, m, n).0, Quiets(n - m));
    assert Quiets(m) + Quiets(n - m) == Quiets(n);
  }

  /* ------------------------------------------------------------------- feeding */

  /** A message a receiver of that size can take. */
  datatype Sent = Sent(id: nat, sequence: nat, payload: seq<Byte>) {
    predicate Fits(maximum: nat) {
      0 < Count(payload) <= MAXIMUM_FRAGMENTS && |payload| <= maximum && DecodeId(id).Some? && sequence < 16
    }

    function Whole(): Message
      requires DecodeId(id).Some?
    {
      Message(DecodeId(id).value.route, sequence, payload)
    }

    function Frame(i: nat): CanFrame
      requires i < Count(payload) <= MAXIMUM_FRAGMENTS
    {
      DataFrame(id, sequence, payload, i)
    }

    /** The fragments with these indices. */
    ghost function Parts(have: set<nat>): map<nat, seq<Byte>> {
      map i | i in have && i < Count(payload) :: Piece(payload, i)
    }

    ghost predicate Complete(have: set<nat>) {
      forall i :: 0 <= i < Count(payload) ==> i in have
    }
  }

  /** The receiver is assembling the message, and holds the fragments with these indices. */
  ghost function Holding(r: Receiver, m: Sent, have: set<nat>, deadline: U64): Receiver
    requires DecodeId(m.id).Some?
  {
    r.(assembly := Some(Assembly(m.id, DecodeId(m.id).value.route, m.sequence, Count(m.payload), m.Parts(have), deadline)))
  }

  /** The message is done with. */
  function Done(r: Receiver, m: Sent): Receiver {
    r.(assembly := None, last := Some(Finished(m.id, m.sequence)))
  }

  /** It is acknowledged, and handed up unless it is the message handed up last. */
  function Conclusion(r: Receiver, m: Sent): Reply
    requires DecodeId(m.id).Some?
  {
    var ack := Some(CanFrame(m.id, [0x90 + m.sequence % 16]));
    if r.last == Some(Finished(m.id, m.sequence)) then Reply(Unavailable, None, ack)
    else Reply(Ok, Some(m.Whole()), ack)
  }

  lemma ParsesFrame(r: Receiver, m: Sent, i: nat)
    requires m.Fits(r.maximum) && i < Count(m.payload)
    ensures Parse(m.Frame(i), r.maximum) ==
            Some(Fragment(DecodeId(m.id).value.route, m.sequence, i, Count(m.payload), Piece(m.payload, i)))
    ensures m.Frame(i).id == m.id
  {
    ParseDataFrame(m.id, m.sequence, m.payload, i, r.maximum);
  }

  lemma OnePartMore(m: Sent, have: set<nat>, i: nat)
    requires i < Count(m.payload)
    ensures m.Parts(have)[i := Piece(m.payload, i)] == m.Parts(have + {i})
    ensures i in m.Parts(have) <==> i in have
    ensures Covers(m.Parts(have), Count(m.payload)) <==> m.Complete(have)
  {
    if Covers(m.Parts(have), Count(m.payload)) {
      forall j | 0 <= j < Count(m.payload) ensures j in have { assert j in m.Parts(have); }
    }
  }

  /** A fragment of the message being assembled. */
  lemma StoresAgain(r: Receiver, m: Sent, have: set<nat>, deadline: U64, i: nat, now: Option<U64>)
    requires m.Fits(r.maximum) && i < Count(m.payload) && i in have
    ensures Holding(r, m, have, deadline).AcceptFrame(m.Frame(i), now) == (Holding(r, m, have, deadline), Quiet())
  {
    ParsesFrame(r, m, i);
  }

  lemma StoresMore(r: Receiver, m: Sent, have: set<nat>, deadline: U64, i: nat, now: Option<U64>)
    requires m.Fits(r.maximum) && i < Count(m.payload) && i !in have && !m.Complete(have + {i})
    ensures Holding(r, m, have, deadline).AcceptFrame(m.Frame(i), now) == (Holding(r, m, have + {i}, deadline), Quiet())
  {
    ParsesFrame(r, m, i);
    OnePartMore(m, have, i);
    OnePartMore(m, have + {i}, i);
  }

  lemma StoresLast(r: Receiver, m: Sent, have: set<nat>, deadline: U64, i: nat, now: Option<U64>)
    requires m.Fits(r.maximum) && i < Count(m.payload) && i !in have && m.Complete(have + {i})
    ensures Holding(r, m, have, deadline).AcceptFrame(m.Frame(i), now) == (Done(r, m), Conclusion(r, m))
  {
    ParsesFrame(r, m, i);
    OnePartMore(m, have, i);
    OnePartMore(m, have + {i}, i);
    JoinIsPayload(m.payload, m.Parts(have + {i}));
  }

  /* ------------------------------------------------------------- which are begun */

  /** Nothing is being assembled that is as new as the message: nothing at all, something else, or 1 to 7 before it. */
  predicate Replaces(r: Receiver, m: Sent) {
    r.assembly.None? || r.assembly.value.id != m.id || 1 <= (m.sequence - r.assembly.value.sequence) % 16 <= 7
  }

  /** The message looks older than the one handed up last. */
  predicate Stale(r: Receiver, m: Sent) {
    r.last.Some? && r.last.value.id == m.id && (m.sequence - r.last.value.sequence) % 16 > 7
  }

  /** The message looks older than the one being assembled. */
  predicate Behind(r: Receiver, m: Sent) {
    r.assembly.Some? && r.assembly.value.id == m.id && (m.sequence - r.assembly.value.sequence) % 16 > 7
  }

  function DeadlineAt(r: Receiver, now: Option<U64>): U64 {
    if now.Some? && r.timeout != 0 then SaturatingAdd(now.value, r.timeout) else 0
  }

  lemma Begins(r: Receiver, m: Sent, i: nat, now: Option<U64>)
    requires m.Fits(r.maximum) && i < Count(m.payload) && Replaces(r, m) && !Stale(r, m)
    ensures r.AcceptFrame(m.Frame(i), now) == Holding(r, m, {}, DeadlineAt(r, now)).AcceptFrame(m.Frame(i), now)
  {
    ParsesFrame(r, m, i);
    Window(r, m);
    assert m.Parts({}) == map[];
  }

  /** What the receiver decides before it takes a fragment of another message. */
  lemma Window(r: Receiver, m: Sent)
    ensures Replaces(r, m) ==>
              && (r.assembly.Some? ==> r.assembly.value.id != m.id || r.assembly.value.sequence != m.sequence)
              && r.Prepare(m.id, m.sequence) == (r.(assembly := None), if Stale(r, m) then Unavailable else Ok)
    ensures Behind(r, m) ==> r.assembly.value.sequence != m.sequence && r.Prepare(m.id, m.sequence) == (r, Unavailable)
  {
  }

  lemma RefusesBehind(r: Receiver, m: Sent, i: nat, now: Option<U64>)
    requires m.Fits(r.maximum) && i < Count(m.payload) && Behind(r, m)
    ensures r.AcceptFrame(m.Frame(i), now) == (r, Quiet())
  {
    ParsesFrame(r, m, i);
    Window(r, m);
  }

  lemma RefusesStale(r: Receiver, m: Sent, i: nat, now: Option<U64>)
    requires m.Fits(r.maximum) && i < Count(m.payload) && Replaces(r, m) && Stale(r, m)
    ensures r.AcceptFrame(m.Frame(i), now) == (r.(assembly := None), Quiet())
  {
    ParsesFrame(r, m, i);
    Window(r, m);
  }

  /* ------------------------------------------------------------------ whole messages */

  /** The events are the frames of a message, in order. */
  ghost function Feeding(m: Sent): Reaction
    requires Count(m.payload) <= MAXIMUM_FRAGMENTS
  {
    (r: Receiver, i: nat) => if i < Count(m.payload) then r.AcceptFrame(m.Frame(i), None) else (r, Quiet())
  }

  ghost function Fed(r: Receiver, m: Sent): (Receiver, seq<Reply>)
    requires Count(m.payload) <= MAXIMUM_FRAGMENTS
  {
    After(Feeding(m), r, 0, Count(m.payload))
  }

  function Range(first: nat, n: nat): (range: set<nat>)
    ensures forall i :: i in range <==> first <= i < n
  {
    if n <= first then {} else Range(first, n - 1) + {n - 1}
  }

  lemma RangeMore(have: set<nat>, first: nat, n: nat)
    requires first <= n
    ensures have + Range(first, n) + {n} == have + Range(first, n + 1)
    ensures have + Range(first, first) == have
  {
  }

  lemma GathersOne(r: Receiver, m: Sent, have: set<nat>, gap: nat, i: nat)
    requires m.Fits(r.maximum) && i < Count(m.payload) && gap < Count(m.payload) && gap != i && gap !in have
    ensures Feeding(m)(Holding(r, m, have, 0), i) == (Holding(r, m, have + {i}, 0), Quiet())
  {
    assert gap !in have + {i};
    if i in have {
      StoresAgain(r, m, have, 0, i, None);
      assert have + {i} == have;
    } else {
      StoresMore(r, m, have, 0, i, None);
    }
  }

  /** While a fragment is missing the receiver gathers. */
  lemma Gathers(r: Receiver, m: Sent, have: set<nat>, gap: nat, first: nat, n: nat)
    requires m.Fits(r.maximum) && first <= n <= Count(m.payload)
    requires gap < Count(m.payload) && gap !in have && !(first <= gap < n)
    ensures After(Feeding(m), Holding(r, m, have, 0), first, n) ==
            (Holding(r, m, have + Range(first, n), 0), Quiets(n - first))
  {
    var state := (i: nat) => Holding(r, m, have + Range(first, i), 0);
    forall i | first <= i < n ensures Feeding(m)(state(i), i) == (state(i + 1), Quiet()) {
      RangeMore(have, first, i);
      GathersOne(r, m, have + Range(first, i), gap, i);
    }
    RangeMore(have, first, first);
    Chain(Feeding(m), state, first, n);
  }

  lemma CompletesOne(r: Receiver, m: Sent, have: set<nat>, gap: nat)
    requires m.Fits(r.maximum) && gap < Count(m.payload) && gap !in have && m.Complete(have + {gap})
    ensures Feeding(m)(Holding(r, m, have, 0), gap) == (Done(r, m), Conclusion(r, m))
  {
    StoresLast(r, m, have, 0, gap, None);
  }

  /** The frame that fills the last gap completes it. */
  lemma Completes(r: Receiver, m: Sent, have: set<nat>, first: nat, gap: nat)
    requires m.Fits(r.maximum) && first <= gap < Count(m.payload) && gap !in have
    requires m.Complete(have + Range(first, gap + 1))
    ensures After(Feeding(m), Holding(r, m, have, 0), first, gap + 1) ==
            (Done(r, m), Quiets(gap - first) + [Conclusion(r, m)])
  {
    RangeMore(have, first, gap);
    var before := have + Range(first, gap);
    assert gap !in before;
    Gathers(r, m, have, gap, first, gap);
    CompletesOne(r, m, before, gap);
    Then(Feeding(m), Holding(r, m, have, 0), first, gap + 1, Holding(r, m, before, 0), Quiets(gap - first),
         Done(r, m), Conclusion(r, m));
  }

  /** Beginning anew is as good as having begun with nothing. */
  lemma BeginsAnew(r: Receiver, m: Sent, first: nat, n: nat)
    requires m.Fits(r.maximum) && first < n <= Count(m.payload) && Replaces(r, m) && !Stale(r, m)
    ensures After(Feeding(m), r, first, n) == After(Feeding(m), Holding(r, m, {}, 0), first, n)
  {
    Begins(r, m, first, None);
    SameStart(Feeding(m), r, Holding(r, m, {}, 0), first, n);
  }

  /**
   What becomes of a message whose frames arrive in order, in whatever state the receiver is, unless
   it is already assembling it. If something newer is being assembled that stays and the message
   is refused. Otherwise what is being assembled is dropped; the message is refused if it looks
   older than the last one handed up, and else handed up with its bytes and acknowledged with its
   last frame, or only acknowledged if it was that one.
   */
  lemma FeedTheorem(r: Receiver, m: Sent)
    requires m.Fits(r.maximum) && (Replaces(r, m) || Behind(r, m))
    ensures var n := Count(m.payload);
            Fed(r, m) == if Behind(r, m) then (r, Quiets(n))
                         else if Stale(r, m) then (r.(assembly := None), Quiets(n))
                         else (Done(r, m), Quiets(n - 1) + [Conclusion(r, m)])
  {
    var n := Count(m.payload);
    if Behind(r, m) {
      forall i | 0 <= i < n ensures Feeding(m)(r, i) == (r, Quiet()) { RefusesBehind(r, m, i, None); }
      NothingHappens(Feeding(m), r, 0, n);
    } else if Stale(r, m) {
      StaleFed(r, m);
    } else {
      BeginsAnew(r, m, 0, n);
      Completes(r, m, {}, 0, n - 1);
    }
  }

  lemma StaleFed(r: Receiver, m: Sent)
    requires m.Fits(r.maximum) && Replaces(r, m) && Stale(r, m)
    ensures Fed(r, m) == (r.(assembly := None), Quiets(Count(m.payload)))
  {
    var n, cleared := Count(m.payload), r.(assembly := None);
    FirstStale(r, m);
    StaleRest(cleared, m);
    Joined(Feeding(m), r, 0, 1, n, cleared, [Quiet()], cleared, Quiets(n - 1));
    assert [Quiet()] + Quiets(n - 1) == Quiets(n);
  }

  lemma FirstStale(r: Receiver, m: Sent)
    requires m.Fits(r.maximum) && Replaces(r, m) && Stale(r, m)
    ensures After(Feeding(m), r, 0, 1) == (r.(assembly := None), [Quiet()])
  {
    RefusesStale(r, m, 0, None);
    FirstOne(Feeding(m), r, 0);
  }

  lemma StaleRest(r: Receiver, m: Sent)
    requires m.Fits(r.maximum) && r.assembly.None? && Stale(r, m)
    ensures After(Feeding(m), r, 1, Count(m.payload)) == (r, Quiets(Count(m.payload) - 1))
  {
    forall i | 1 <= i < Count(m.payload) ensures Feeding(m)(r, i) == (r, Quiet()) { RefusesStale(r, m, i, None); }
    NothingHappens(Feeding(m), r, 1, Count(m.payload));
  }

  /**
   A retransmission fills the gaps: if the receiver is assembling the message and holds any of its
   fragments, `gap` being the last one missing, it concludes with that frame; the frames after it
   begin the message once more.
   */
  lemma ResumeTheorem(r: Receiver, m: Sent, have: set<nat>, gap: nat)
    requires m.Fits(r.maximum) && gap < Count(m.payload) && gap !in have
    requires forall i :: gap < i < Count(m.payload) ==> i in have
    ensures var n := Count(m.payload);
            Fed(Holding(r, m, have, 0), m) ==
              (Again(r, m, gap), Quiets(gap) + [Conclusion(r, m)] + Quiets(n - gap - 1))
  {
    var n := Count(m.payload);
    Completes(r, m, have, 0, gap);
    BeginsOnceMore(r, m, gap);
    Joined(Feeding(m), Holding(r, m, have, 0), 0, gap + 1, n, Done(r, m), Quiets(gap) + [Conclusion(r, m)],
           Again(r, m, gap), Quiets(n - gap - 1));
  }

  /** The receiver that has begun the message once more, with the frames after `gap`. */
  ghost function Again(r: Receiver, m: Sent, gap: nat): Receiver
    requires DecodeId(m.id).Some?
  {
    var n := Count(m.payload);
    if gap + 1 == n then Done(r, m) else Holding(Done(r, m), m, Range(gap + 1, n), 0)
  }

  lemma MayBeginAgain(r: Receiver, m: Sent)
    ensures Replaces(Done(r, m), m) && !Stale(Done(r, m), m)
  {
  }

  lemma BeginsOnceMore(r: Receiver, m: Sent, gap: nat)
    requires m.Fits(r.maximum) && gap < Count(m.payload)
    ensures var n := Count(m.payload);
            After(Feeding(m), Done(r, m), gap + 1, n) == (Again(r, m, gap), Quiets(n - gap - 1))
  {
    var n := Count(m.payload);
    if gap + 1 < n {
      MayBeginAgain(r, m);
      BeginsAnew(Done(r, m), m, gap + 1, n);
      assert {} + Range(gap + 1, n) == Range(gap + 1, n);
      Gathers(Done(r, m), m, {}, gap, gap + 1, n);
    }
  }

  /** A frame that is malformed, or disagrees with the message being assembled, changes nothing. */
  lemma InvalidKeeps(r: Receiver, frame: CanFrame, now: Option<U64>)
    requires r.AcceptFrame(frame, now).1.status == InvalidArgument
    ensures r.AcceptFrame(frame, now) == (r, Reply(InvalidArgument, None, None))
  {
  }

  lemma DisagreementKept(r: Receiver, m: Sent, i: nat, now: Option<U64>)
    requires m.Fits(r.maximum) && i < Count(m.payload) && r.assembly.Some?
    requires r.assembly.value.id == m.id && r.assembly.value.sequence == m.sequence
    requires r.assembly.value.count != Count(m.payload)
    ensures r.AcceptFrame(m.Frame(i), now) == (r, Reply(InvalidArgument, None, None))
  {
    ParsesFrame(r, m, i);
  }

  /* ----------------------------------------------------------------- by numbers */

  /** The message is handed up whole, with an acknowledgement. */
  function HandedUp(m: Sent): Reply
    requires DecodeId(m.id).Some? && m.sequence < 16
  {
    Reply(Ok, Some(m.Whole()), Some(CanFrame(m.id, [0x90 + m.sequence])))
  }

  ghost predicate HandsUp(r: Receiver, m: Sent)
    requires m.Fits(r.maximum)
  {
    Fed(r, m).1[Count(m.payload) - 1] == HandedUp(m)
  }

  lemma HandsUpExactly(r: Receiver, m: Sent)
    requires m.Fits(r.maximum) && (Replaces(r, m) || Behind(r, m))
    ensures HandsUp(r, m) <==> Replaces(r, m) && !Stale(r, m) && r.last != Some(Finished(m.id, m.sequence))
    ensures Fed(r, m).0.assembly == if Replaces(r, m) then None else r.assembly
    ensures !HandsUp(r, m) ==> forall i :: 0 <= i < Count(m.payload) ==> Fed(r, m).1[i].message.None?
  {
    FeedTheorem(r, m);
    NotBoth(r, m);
    var quiet := Behind(r, m) || Stale(r, m);
    ConcludesUp(r, m);
    LastReply(Fed(r, m).1, Count(m.payload), Conclusion(r, m), quiet);
  }

  lemma ConcludesUp(r: Receiver, m: Sent)
    requires m.Fits(r.maximum)
    ensures Conclusion(r, m) == HandedUp(m) <==> r.last != Some(Finished(m.id, m.sequence))
    ensures Conclusion(r, m).message.None? <==> r.last == Some(Finished(m.id, m.sequence))
    ensures Quiet() != HandedUp(m)
  {
  }

  lemma LastReply(replies: seq<Reply>, n: nat, last: Reply, quiet: bool)
    requires n > 0 && replies == if quiet then Quiets(n) else Quiets(n - 1) + [last]
    ensures |replies| == n && replies[n - 1] == if quiet then Quiet() else last
    ensures quiet || last.message.None? ==> forall i :: 0 <= i < n ==> replies[i].message.None?
  {
  }

  lemma NotBoth(r: Receiver, m: Sent)
    ensures !(Replaces(r, m) && Behind(r, m))
  {
  }

  /** Four bits tell how far apart two messages are, within 8 behind and 15 ahead. */
  lemma Distance(base: nat, number: nat)
    requires base - 8 <= number <= base + 15
    ensures 1 <= (number % 16 - base % 16) % 16 <= 7 <==> Ahead(base, number)
    ensures number % 16 == base % 16 <==> number == base
  {
    Low(number, base);
  }

  lemma Low(a: nat, b: nat)
    ensures (a % 16 - b % 16) % 16 == (a - b) % 16
    ensures a % 16 == b % 16 <==> (a - b) % 16 == 0
  {
  }

  /**
   All frames of a message sent again, of any length, after message `base` was completed: the
   message is handed up a second time exactly if it is more than 8 messages old.
   */
  lemma RedeliveryExactly(r: Receiver, m: Sent, base: nat, number: nat)
    requires m.Fits(r.maximum) && r.assembly.None? && r.last == Some(Finished(m.id, base % 16))
    requires base - 16 < number <= base && m.sequence == number % 16
    ensures HandsUp(r, m) <==> base - number > 8
    ensures !HandsUp(r, m) ==> forall i :: 0 <= i < Count(m.payload) ==> Fed(r, m).1[i].message.None?
  {
    LooksOld(base, number);
    HandsUpExactly(r, m);
  }

  lemma LooksOld(base: nat, number: nat)
    requires base - 16 < number <= base
    ensures (number % 16 - base % 16) % 16 > 7 <==> 1 <= base - number <= 8
    ensures number % 16 == base % 16 <==> number == base
  {
    Low(number, base);
  }

  /** Message `number` looks newer than message `base`. */
  predicate Ahead(base: nat, number: nat) {
    base < number <= base + 7
  }

  /**
   A message left half received, `active`, does not stand in the way of the next ones. Of messages
   with the same id, from 8 before it to 15 after it, exactly the next seven replace it; of these
   exactly those are handed up that look newer than the last one handed up, `base`, if that one
   had the same id. What is behind leaves it as it was.
   */
  lemma SupersedesExactly(r: Receiver, m: Sent, active: nat, base: nat, number: nat)
    requires m.Fits(r.maximum) && m.sequence == number % 16
    requires r.assembly.Some? && r.assembly.value.id == m.id && r.assembly.value.sequence == active % 16
    requires active - 8 <= number <= active + 15 && number != active
    requires r.last.Some? && r.last.value.id == m.id ==>
               r.last.value.sequence == base % 16 && base - 8 <= number <= base + 15
    ensures HandsUp(r, m) <==> Ahead(active, number) && (r.last.Some? && r.last.value.id == m.id ==> Ahead(base, number))
    ensures Fed(r, m).0.assembly == if Ahead(active, number) then None else r.assembly
  {
    ReplacesAhead(r, m, active, number);
    NewerAhead(r, m, base, number);
    HandsUpExactly(r, m);
  }

  lemma ReplacesAhead(r: Receiver, m: Sent, active: nat, number: nat)
    requires r.assembly.Some? && r.assembly.value.id == m.id
    requires r.assembly.value.sequence == active % 16 && m.sequence == number % 16
    requires active - 8 <= number <= active + 15 && number != active
    ensures Replaces(r, m) <==> Ahead(active, number)
    ensures Replaces(r, m) || Behind(r, m)
  {
    Distance(active, number);
  }

  lemma NewerAhead(r: Receiver, m: Sent, base: nat, number: nat)
    requires m.sequence == number % 16
    requires r.last.Some? && r.last.value.id == m.id ==>
               r.last.value.sequence == base % 16 && base - 8 <= number <= base + 15
    ensures !Stale(r, m) && r.last != Some(Finished(m.id, m.sequence)) <==>
            (r.last.Some? && r.last.value.id == m.id ==> Ahead(base, number))
  {
    if r.last.Some? && r.last.value.id == m.id { Distance(base, number); }
  }

  /** A message with another id always replaces what is being assembled. */
  lemma OtherIdReplaces(r: Receiver, m: Sent)
    requires m.Fits(r.maximum) && r.assembly.Some? && r.assembly.value.id != m.id
    ensures Fed(r, m).0.assembly == None
    requires r.last.Some? ==> r.last.value.sequence < 16
    ensures HandsUp(r, m) <==>
            (r.last.Some? && r.last.value.id == m.id ==> 1 <= (m.sequence - r.last.value.sequence) % 16 <= 7)
  {
    if r.last.Some? { ZeroOrMore(r.last.value.sequence, m.sequence); }
    HandsUpExactly(r, m);
  }

  lemma ZeroOrMore(a: nat, b: nat)
    requires a < 16 && b < 16
    ensures (b - a) % 16 == 0 <==> a == b
  {
  }
}
