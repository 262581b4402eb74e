/**
 The request-body limit as a state machine between a client and an arbitrary downstream application,
 which may catch the overflow, ignore it, answer anyway, receive again or let it propagate.
 */
module BodyLimit {
  import opened Options

  /** What the client sends: a piece of the body, or something else. */
  datatype Inbound = Chunk(body: seq<bv8>) | Other

  /** What the application sends. */
  datatype Message = Start(status: int) | Body(data: seq<bv8>) | Misc

  /** What the client is sent: a message passed on, or one of the two that make the refusal. */
  datatype Outbound = Forwarded(m: Message) | Start413 | Body413

  const REFUSAL: seq<Outbound> := [Start413, Body413]

  /** The counters of one request, and everything handed to the application and to the client so far. */
  datatype State = State(received: int, started: bool, overflow: bool, handed: seq<Inbound>, sent: seq<Outbound>)

  const INITIAL := State(0, false, false, [], [])

  /** Counts a piece; beyond the limit the application gets the sentinel instead of the piece. */
  function Receive(s: State, limit: int, m: Inbound): (State, bool) {
    match m
    case Other => (s.(handed := s.handed + [m]), true)
    case Chunk(body) =>
      var total := s.received + |body|;
      if total > limit then (s.(received := total, overflow := s.overflow || !s.started), false)
      else (s.(received := total, handed := s.handed + [m]), true)
  }

  /** Forwards a message, unless the overflow came first: then one refusal replaces everything. */
  function Send(s: State, m: Message): State {
    if s.overflow then
      if s.started then s else s.(started := true, sent := s.sent + REFUSAL)
    else s.(started := s.started || m.Start?, sent := s.sent + [Forwarded(m)])
  }

  /** The application returned, let the sentinel out, or raised something else. */
  datatype Ending = Returned | SentinelRaised | OtherRaised

  /** After the application: an escaped sentinel becomes the refusal, unless a response had begun. */
  function Finish(s: State, e: Ending): State {
    if e.SentinelRaised? && !s.started then s.(sent := s.sent + REFUSAL) else s
  }

  class Middleware {
    const limit: int
    var received: int
    var started: bool
    var overflow: bool
    var handed: seq<Inbound>
    var sent: seq<Outbound>

    constructor (limit: int)
      ensures this.limit == limit && Current() == INITIAL
    {
      this.limit := limit;
      received, started, overflow, handed, sent := 0, false, false, [], [];
    }

    function Current(): State
      reads this
    {
      State(received, started, overflow, handed, sent)
    }

    /** The wrapped receive: hands the message on, or raises the sentinel. */
    method CountingReceive(m: Inbound) returns (raised: bool)
      modifies this
      ensures (Current(), !raised) == Receive(old(Current()), limit, m)
    {
      if m.Chunk? {
        received := received + |m.body|;
        if received > limit {
          if !started { overflow := true; }
          return true;
        }
      }
      handed := handed + [m];
      raised := false;
    }

    /** The wrapped send. */
    method WatchingSend(m: Message)
      modifies this
      ensures Current() == Send(old(Current()), m)
    {
      if overflow {
        if !started {
          started := true;
          Reject();
        }
        return;
      }
      if m.Start? { started := true; }
      sent := sent + [Forwarded(m)];
    }

    /** What runs after the application: true when the exception is raised on. */
    method Conclude(e: Ending) returns (raisedOn: bool)
      modifies this
      ensures Current() == Finish(old(Current()), e)
      ensures raisedOn <==> e.OtherRaised? || (e.SentinelRaised? && old(started))
    {
      if e.SentinelRaised? {
        if started { return true; }
        Reject();
        return false;
      }
      raisedOn := e.OtherRaised?;
    }

    method Reject()
      modifies this`sent
      ensures sent == old(sent) + REFUSAL
    {
      sent := sent + [Start413];
      sent := sent + [Body413];
    }
  }

  // ----- whole requests against any application

  /** What the application does next: receive the client's next message, or send. */
  datatype Action = Receives(m: Inbound) | Sends(message: Message)

  function After(s: State, limit: int, a: Action): State {
    match a
    case Receives(m) => Receive(s, limit, m).0
    case Sends(message) => Send(s, message)
  }

  function StateAfter(actions: seq<Action>, limit: int): State {
    if actions == [] then INITIAL
    else After(StateAfter(actions[..|actions| - 1], limit), limit, actions[|actions| - 1])
  }

  /** What the client sees of a whole request: a truthful oversized length is refused before the application runs. */
  function Request(declared: Option<int>, actions: seq<Action>, e: Ending, limit: int): seq<Outbound> {
    if declared.Some? && declared.value > limit then REFUSAL else Finish(StateAfter(actions, limit), e).sent
  }

  function Bytes(ms: seq<Inbound>): nat {
    if ms == [] then 0
    else
      var last := ms[|ms| - 1];
      Bytes(ms[..|ms| - 1]) + if last.Chunk? then |last.body| else 0
  }

  lemma BytesGrow(ms: seq<Inbound>, m: Inbound)
    ensures Bytes(ms + [m]) == Bytes(ms) + if m.Chunk? then |m.body| else 0
  {
    assert (ms + [m])[..|ms|] == ms;
  }

  /** While the limit holds every byte received was handed on; beyond it nothing more ever is. */
  lemma {:induction false} HandedBytes(actions: seq<Action>, limit: int)
    ensures var s := StateAfter(actions, limit);
            && s.received >= 0
            && (s.received <= limit ==> Bytes(s.handed) == s.received)
            && (limit >= 0 ==> Bytes(s.handed) <= limit)
            && (limit < 0 ==> Bytes(s.handed) == 0)
  {
    if actions != [] {
      var s := StateAfter(actions[..|actions| - 1], limit);
      var a := actions[|actions| - 1];
      HandedBytes(actions[..|actions| - 1], limit);
      if a.Receives? { BytesGrow(s.handed, a.m); }
    }
  }

  /** The body bytes handed to the application never exceed the limit, whatever it does. */
  lemma HandedNeverExceedsLimit(actions: seq<Action>, limit: nat)
    ensures Bytes(StateAfter(actions, limit).handed) <= limit
  {
    HandedBytes(actions, limit);
  }

  // ----- a request within the limit is passed on untouched

  /** What the client sent, and what the application sent, in order. */
  function FromClient(actions: seq<Action>): seq<Inbound> {
    if actions == [] then []
    else FromClient(actions[..|actions| - 1]) +
         (match actions[|actions| - 1] case Receives(m) => [m] case Sends(_) => [])
  }

  function FromApplication(actions: seq<Action>): seq<Outbound> {
    if actions == [] then []
    else FromApplication(actions[..|actions| - 1]) +
         (match actions[|actions| - 1] case Receives(_) => [] case Sends(m) => [Forwarded(m)])
  }

  function Piece(a: Action): nat { if a.Receives? && a.m.Chunk? then |a.m.body| else 0 }

  lemma ClientStep(actions: seq<Action>)
    requires actions != []
    ensures var init, a := actions[..|actions| - 1], actions[|actions| - 1];
            && FromClient(actions) == FromClient(init) + (if a.Receives? then [a.m] else [])
            && Bytes(FromClient(actions)) == Bytes(FromClient(init)) + Piece(a)
  {
    var init, a := actions[..|actions| - 1], actions[|actions| - 1];
    hide Bytes;
    if a.Receives? { BytesGrow(FromClient(init), a.m); } else { assert FromClient(init) + [] == FromClient(init); }
  }

  /** The body bytes the client has sent, counted as they come. */
  lemma {:induction false} CountsEveryByte(actions: seq<Action>, limit: int)
    ensures StateAfter(actions, limit).received == Bytes(FromClient(actions))
  {
    hide Bytes, FromClient;
    if actions != [] {
      CountsEveryByte(actions[..|actions| - 1], limit);
      ClientStep(actions);
    } else {
      NothingCame();
    }
  }

  lemma NothingCame()
    ensures Bytes(FromClient([])) == 0 && FromClient([]) == [] && FromApplication([]) == []
  {}

  /** As long as the bytes sent stay within the limit, the application is handed exactly what the client sent. */
  lemma {:induction false} WithinLimitIsHandedOn(actions: seq<Action>, limit: int)
    requires Bytes(FromClient(actions)) <= limit
    ensures StateAfter(actions, limit).handed == FromClient(actions) && !StateAfter(actions, limit).overflow
  {
    if actions != [] {
      hide Bytes, FromClient;
      var init := actions[..|actions| - 1];
      ClientStep(actions);
      WithinLimitIsHandedOn(init, limit);
      CountsEveryByte(init, limit);
    }
  }

  /** Without an overflow before the response, the client is sent exactly what the application sent. */
  lemma {:induction false} WithoutOverflowIsForwarded(actions: seq<Action>, limit: int)
    requires !StateAfter(actions, limit).overflow
    ensures StateAfter(actions, limit).sent == FromApplication(actions)
    ensures StateAfter(actions, limit).started <==> exists i :: 0 <= i < |actions| && Begins(actions[i])
  {
    if actions != [] {
      var init, a := actions[..|actions| - 1], actions[|actions| - 1];
      assert !StateAfter(init, limit).overflow;
      WithoutOverflowIsForwarded(init, limit);
      assert FromApplication(init) + [] == FromApplication(init);
      assert forall i :: 0 <= i < |init| ==> init[i] == actions[i];
    }
  }

  /** The application begins its response. */
  predicate Begins(a: Action) { a.Sends? && a.message.Start? }

  lemma OverflowStep(actions: seq<Action>, limit: nat)
    requires actions != [] && !StateAfter(actions[..|actions| - 1], limit).overflow
    requires !TooMuchBefore(actions, |actions| - 1, limit)
    ensures StateAfter(actions, limit).overflow <==> TooMuchBefore(actions, |actions|, limit)
  {
    hide Bytes, FromClient;
    var init := actions[..|actions| - 1];
    ClientStep(actions);
    CountsEveryByte(init, limit);
    WithoutOverflowIsForwarded(init, limit);
    assert actions[..|actions|] == actions;
    assert forall i :: 0 <= i < |init| ==> init[i] == actions[i];
  }

  /** The limiter sees an overflow exactly when the bytes exceed the limit at some moment before the response begins. */
  lemma {:induction false} OverflowExactly(actions: seq<Action>, limit: nat)
    ensures StateAfter(actions, limit).overflow <==> exists k :: 0 <= k <= |actions| && TooMuchBefore(actions, k, limit)
  {
    hide Bytes, FromClient;
    if actions == [] {
      NothingCame();
      assert actions[..0] == [];
    } else {
      var init := actions[..|actions| - 1];
      OverflowExactly(init, limit);
      forall k | 0 <= k <= |init| ensures TooMuchBefore(init, k, limit) <==> TooMuchBefore(actions, k, limit) {
        assert init[..k] == actions[..k];
        assert forall i :: 0 <= i < k ==> init[i] == actions[i];
      }
      hide TooMuchBefore;
      if !StateAfter(init, limit).overflow { OverflowStep(actions, limit); } else { OverflowLasts(actions, limit); }
    }
  }

  lemma OverflowLasts(actions: seq<Action>, limit: nat)
    requires actions != [] && StateAfter(actions[..|actions| - 1], limit).overflow
    ensures StateAfter(actions, limit).overflow
  {}

  /** After k actions more than the limit has come in and no response has begun. */
  ghost predicate TooMuchBefore(actions: seq<Action>, k: nat, limit: nat)
    requires k <= |actions|
  {
    Bytes(FromClient(actions[..k])) > limit && forall i :: 0 <= i < k ==> !Begins(actions[i])
  }

  /** The application is handed the sentinel instead of a piece exactly when that piece exceeds the limit. */
  lemma SentinelExactly(actions: seq<Action>, limit: int, m: Inbound)
    ensures var before, (after, passed) := StateAfter(actions, limit), Receive(StateAfter(actions, limit), limit, m);
            && (passed <==> m.Other? || Bytes(FromClient(actions + [Receives(m)])) <= limit)
            && after.handed == (if passed then before.handed + [m] else before.handed) && after.sent == before.sent
  {
    CountsEveryByte(actions, limit);
    assert (actions + [Receives(m)])[..|actions|] == actions;
    BytesGrow(FromClient(actions), m);
  }

  /** An honest request within the limit: the application gets all of it, the client all of the answer. */
  lemma HonestRequestIsUntouched(declared: Option<int>, actions: seq<Action>, e: Ending, limit: nat)
    requires Bytes(FromClient(actions)) <= limit && !e.SentinelRaised?
    requires declared.Some? ==> declared.value <= limit
    ensures Request(declared, actions, e, limit) == FromApplication(actions)
    ensures StateAfter(actions, limit).handed == FromClient(actions)
  {
    WithinLimitIsHandedOn(actions, limit);
    WithoutOverflowIsForwarded(actions, limit);
  }

  /** A declared length beyond the limit is refused at once, whatever the application would have done. */
  lemma OversizedDeclarationIsRefused(length: int, actions: seq<Action>, e: Ending, limit: nat)
    requires length > limit
    ensures Request(Some(length), actions, e, limit) == [Start413, Body413]
  {}

  // ----- refusals

  /** How many refusals a log of messages holds. */
  function Refusals(sent: seq<Outbound>): nat {
    if sent == [] then 0 else Refusals(sent[..|sent| - 1]) + if sent[|sent| - 1].Start413? then 1 else 0
  }

  /** A response start, forwarded or of the refusal. */
  predicate IsStart(o: Outbound) { o.Start413? || (o.Forwarded? && o.m.Start?) }

  lemma {:induction false} RefusalsAdd(xs: seq<Outbound>, ys: seq<Outbound>)
    ensures Refusals(xs + ys) == Refusals(xs) + Refusals(ys)
  {
    if ys == [] {
      assert xs + ys == xs;
    } else {
      RefusalsAdd(xs, ys[..|ys| - 1]);
      assert (xs + ys)[..|xs + ys| - 1] == xs + ys[..|ys| - 1];
    }
  }

  lemma RefusalsOfOne(m: Outbound)
    ensures Refusals([m]) == if m.Start413? then 1 else 0
    ensures Refusals(REFUSAL) == 1
  {
    assert [m][..0] == [];
    assert REFUSAL[..1] == [Start413];
  }

  /** No message is a response start. */
  ghost predicate NoStart(sent: seq<Outbound>) { forall i :: 0 <= i < |sent| ==> !IsStart(sent[i]) }

  /**
   What holds at every moment: without an overflow before the response nothing was refused and started
   says whether a start went out; with one, either nothing started yet, or exactly the refusal was sent
   behind messages that start no response, and nothing after it.
   */
  ghost predicate Invariant(s: State) {
    && (!s.overflow ==> Refusals(s.sent) == 0 && (!s.started ==> NoStart(s.sent)))
    && (s.overflow && !s.started ==> NoStart(s.sent) && Refusals(s.sent) == 0)
    && (s.overflow && s.started ==> Refused(s.sent))
  }

  /** Ends in the refusal, with no response start before it. */
  ghost predicate Refused(sent: seq<Outbound>) {
    |sent| >= 2 && sent[|sent| - 2..] == REFUSAL && NoStart(sent[..|sent| - 2])
  }

  lemma RefusedByNow(sent: seq<Outbound>)
    requires NoStart(sent)
    ensures Refused(sent + REFUSAL)
  {
    assert (sent + REFUSAL)[..|sent|] == sent;
    assert (sent + REFUSAL)[|sent|..] == REFUSAL;
  }

  lemma {:induction false} AlwaysInvariant(actions: seq<Action>, limit: int)
    ensures Invariant(StateAfter(actions, limit))
  {
    if actions != [] {
      var init, a := actions[..|actions| - 1], actions[|actions| - 1];
      AlwaysInvariant(init, limit);
      StepInvariant(StateAfter(init, limit), limit, a);
    }
  }

  lemma StepInvariant(s: State, limit: int, a: Action)
    requires Invariant(s)
    ensures Invariant(After(s, limit, a))
  {
    if a.Sends? {
      if s.overflow {
        if !s.started { RefusedByNow(s.sent); }
      } else {
        RefusalsAdd(s.sent, [Forwarded(a.message)]);
        RefusalsOfOne(Forwarded(a.message));
      }
    }
  }

  /** An overflow met before any response start: from then on the client is sent the refusal once, or nothing. */
  lemma OverflowShowsOnlyRefusal(actions: seq<Action>, k: nat, e: Ending, limit: int)
    requires k <= |actions|
    requires StateAfter(actions[..k], limit).overflow && !StateAfter(actions[..k], limit).started
    ensures var before := StateAfter(actions[..k], limit).sent;
            var all := Finish(StateAfter(actions, limit), e).sent;
            NoStart(before) && (all == before || all == before + REFUSAL)
    ensures e.SentinelRaised? ==>
              Finish(StateAfter(actions, limit), e).sent == StateAfter(actions[..k], limit).sent + REFUSAL
  {
    AlwaysInvariant(actions[..k], limit);
    OverflowStays(actions, k, limit);
  }

  lemma AfterOverflow(s: State, limit: int, a: Action)
    requires s.overflow
    ensures var t := After(s, limit, a);
            && t.overflow && (t.started <==> s.started || a.Sends?)
            && t.sent == if t.started && !s.started then s.sent + REFUSAL else s.sent
  {}

  lemma {:induction false} OverflowStays(actions: seq<Action>, k: nat, limit: int)
    requires k <= |actions| && StateAfter(actions[..k], limit).overflow && !StateAfter(actions[..k], limit).started
    ensures var before, s := StateAfter(actions[..k], limit), StateAfter(actions, limit);
            s.overflow && s.sent == if s.started then before.sent + REFUSAL else before.sent
    ensures StateAfter(actions, limit).started <==> exists i :: k <= i < |actions| && actions[i].Sends?
    decreases |actions|
  {
    if k == |actions| {
      assert actions[..k] == actions;
    } else {
      var init := actions[..|actions| - 1];
      assert init[..k] == actions[..k];
      OverflowStays(init, k, limit);
      hide After;
      AfterOverflow(StateAfter(init, limit), limit, actions[|actions| - 1]);
      assert forall i :: k <= i < |init| ==> init[i] == actions[i];
    }
  }

  lemma RefusedHasStart(sent: seq<Outbound>)
    ensures Refused(sent) ==> !NoStart(sent)
  {
    if Refused(sent) { assert IsStart(sent[|sent| - 2..][0]); }
  }

  /**
   After such an overflow the client gets the refusal if and only if the application sends something or
   lets the sentinel out. An application that catches it and returns silently leaves the client without one.
   */
  lemma RefusalShownExactly(actions: seq<Action>, k: nat, e: Ending, limit: int)
    requires k <= |actions|
    requires StateAfter(actions[..k], limit).overflow && !StateAfter(actions[..k], limit).started
    ensures Refused(Finish(StateAfter(actions, limit), e).sent) <==>
              e.SentinelRaised? || exists i :: k <= i < |actions| && actions[i].Sends?
  {
    AlwaysInvariant(actions[..k], limit);
    OverflowStays(actions, k, limit);
    var before := StateAfter(actions[..k], limit).sent;
    RefusedByNow(before);
    RefusedHasStart(before);
  }

  /** The client never sees two refusals, nor a refusal behind a forwarded response start, nor anything behind one. */
  lemma AtMostOneRefusal(declared: Option<int>, actions: seq<Action>, e: Ending, limit: int)
    ensures var sent := Request(declared, actions, e, limit);
            Refusals(sent) == 0 || Refused(sent)
  {
    AlwaysInvariant(actions, limit);
    var s := StateAfter(actions, limit);
    if e.SentinelRaised? && !s.started { RefusedByNow(s.sent); }
    assert Refused(REFUSAL) by { RefusedByNow([]); assert [] + REFUSAL == REFUSAL; }
  }
}
