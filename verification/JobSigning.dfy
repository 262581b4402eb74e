/** Signed jobs: dispatchers sign, workers verify and reserve the nonce, over whole runs of both. */
module JobSigning {
  import opened Options
  import opened Replay

  datatype Job = Job(body: string, isObject: bool)

  /** A timestamp as text may read as a moment, as a moment without a time zone, or not at all. */
  datatype Stamp = At(t: real) | NoZone(t: real) | Unreadable

  /** What is signed: the whole job and the envelope around it. */
  datatype Message = Message(job: Job, issued: Stamp, expires: Stamp, nonce: Nonce)

  /** A signature verifies the one message it was made for. */
  datatype Signature = Signature(of: Message) | Garbage

  datatype Envelope = Malformed | Envelope(job: Job, issued: Stamp, expires: Stamp, nonce: Nonce, sig: Signature)

  datatype Reason =
    | MalformedEnvelope | BadTimestamps | Expired | IssuedInFuture | BadSignature | StoreUnavailable | Replayed | MalformedJob

  /** Crashed stands for an exception that is not the verification error. */
  datatype Verdict = Accepted(job: Job) | Refused(reason: Reason) | Crashed

  const MAX_FUTURE_SKEW: real := 60.0

  /** Signed messages are those the dispatcher signed: signatures cannot be forged. */
  predicate SignatureHolds(signed: set<Message>, sig: Signature, m: Message) { sig == Signature(m) && m in signed }

  function MessageOf(e: Envelope): Message
    requires e.Envelope?
  {
    Message(e.job, e.issued, e.expires, e.nonce)
  }

  /** int(max(1, expires - now)). */
  function ReservationTime(expires: real, now: real): (ttl: nat)
    ensures ttl >= 1
    ensures expires - now >= 1.0 ==> expires - now - 1.0 < ttl as real <= expires - now
    ensures expires - now < 2.0 ==> ttl == 1
  {
    if expires - now <= 1.0 then 1 else (expires - now).Floor
  }

  /** The checks up to the nonce: the reason to stop, or none. */
  function Screen(signed: set<Message>, e: Envelope, now: real): Option<Verdict> {
    if e.Malformed? then Some(Refused(MalformedEnvelope))
    else if e.expires.Unreadable? || e.issued.Unreadable? then Some(Refused(BadTimestamps))
    else if e.expires.NoZone? then Some(Crashed)
    else if now > e.expires.t then Some(Refused(Expired))
    else if e.issued.NoZone? then Some(Crashed)
    else if e.issued.t > now + MAX_FUTURE_SKEW then Some(Refused(IssuedInFuture))
    else if !SignatureHolds(signed, e.sig, MessageOf(e)) then Some(Refused(BadSignature))
    else None
  }

  /** The verdict on an envelope, and the store it leaves; without the store nothing is trusted. */
  function Verify(signed: set<Message>, seen: Seen, e: Envelope, now: real, storeUp: bool): (Seen, Verdict) {
    match Screen(signed, e, now)
    case Some(v) => (seen, v)
    case None =>
      if !storeUp then (seen, Refused(StoreUnavailable))
      else
        var (next, isNew) := Reserve(seen, e.nonce, ReservationTime(e.expires.t, now), now);
        if !isNew then (next, Refused(Replayed))
        else if !e.job.isObject then (next, Refused(MalformedJob))
        else (next, Accepted(e.job))
  }

  /** A readable envelope whose expiry has no time zone, or whose issue has none and whose expiry has not passed. */
  predicate LacksZone(e: Envelope, now: real) {
    e.Envelope? && !e.issued.Unreadable? && (e.expires.NoZone? || (e.expires.At? && e.issued.NoZone? && now <= e.expires.t))
  }

  /** Exactly these raise something other than the verification error, signed or not; nothing is reserved then. */
  lemma CrashesExactly(signed: set<Message>, seen: Seen, e: Envelope, now: real, storeUp: bool)
    ensures var (next, v) := Verify(signed, seen, e, now, storeUp);
            (v.Crashed? <==> LacksZone(e, now)) && (v.Crashed? ==> next == seen)
  {}

  /** A properly signed job whose expiry names no time zone crashes its verification at any time. */
  lemma SignedWithoutZoneCrashes(job: Job, issued: real, expires: real, nonce: Nonce, now: real)
    ensures var m := Message(job, At(issued), NoZone(expires), nonce);
            Verify({m}, map[], Envelope(job, m.issued, m.expires, nonce, Signature(m)), now, true).1.Crashed?
  {
    var m := Message(job, At(issued), NoZone(expires), nonce);
    CrashesExactly({m}, map[], Envelope(job, m.issued, m.expires, nonce, Signature(m)), now, true);
  }

  /** The shared store that all workers reserve nonces in. */
  class SharedStore {
    var seen: Seen

    constructor ()
      ensures seen == map[]
    {
      seen := map[];
    }

    /** One atomic reservation. */
    method SetIfAbsent(n: Nonce, ttl: nat, now: real) returns (isNew: bool)
      modifies this
      ensures (seen, isNew) == Reserve(old(seen), n, ttl, now)
    {
      isNew := !(n in seen && seen[n] > now);
      if isNew { seen := seen[n := now + ttl as real]; }
    }
  }

  /** The checks in order; only an envelope that passes them all reserves its nonce. */
  method VerifyJob(signed: set<Message>, store: SharedStore, e: Envelope, now: real, storeUp: bool) returns (v: Verdict)
    modifies store
    ensures (store.seen, v) == Verify(signed, old(store.seen), e, now, storeUp)
  {
    if e.Malformed? { return Refused(MalformedEnvelope); }
    if e.expires.Unreadable? || e.issued.Unreadable? { return Refused(BadTimestamps); }
    if e.expires.NoZone? { return Crashed; }
    if now > e.expires.t { return Refused(Expired); }
    if e.issued.NoZone? { return Crashed; }
    if e.issued.t > now + MAX_FUTURE_SKEW { return Refused(IssuedInFuture); }
    if !SignatureHolds(signed, e.sig, MessageOf(e)) { return Refused(BadSignature); }
    var ttl := ReservationTime(e.expires.t, now);
    if !storeUp { return Refused(StoreUnavailable); }
    var isNew := store.SetIfAbsent(e.nonce, ttl, now);
    if !isNew { return Refused(Replayed); }
    if !e.job.isObject { return Refused(MalformedJob); }
    v := Accepted(e.job);
  }

  /** What the dispatcher makes of a job. */
  function Sign(job: Job, ttl: int, nonce: Nonce, now: real): Envelope {
    var issued, expires := At(now), At(now + ttl as real);
    Envelope(job, issued, expires, nonce, Signature(Message(job, issued, expires, nonce)))
  }

  // ----- runs of dispatchers and workers over one store and one clock

  datatype Event =
    | Signs(job: Job, ttl: int, nonce: Nonce, now: real)
    | Verifies(worker: nat, envelope: Envelope, now: real, storeUp: bool)

  datatype World = World(signed: set<Message>, seen: Seen)

  function After(w: World, ev: Event): World {
    match ev
    case Signs(job, ttl, nonce, now) => w.(signed := w.signed + {MessageOf(Sign(job, ttl, nonce, now))})
    case Verifies(_, e, now, storeUp) => w.(seen := Verify(w.signed, w.seen, e, now, storeUp).0)
  }

  function WorldAfter(run: seq<Event>): World {
    if run == [] then World({}, map[]) else After(WorldAfter(run[..|run| - 1]), run[|run| - 1])
  }

  /** The verdict of event i of the run. */
  function VerdictAt(run: seq<Event>, i: nat): Verdict
    requires i < |run| && run[i].Verifies?
  {
    var w := WorldAfter(run[..i]);
    Verify(w.signed, w.seen, run[i].envelope, run[i].now, run[i].storeUp).1
  }

  ghost predicate AcceptedAt(run: seq<Event>, i: nat, n: Nonce) {
    i < |run| && run[i].Verifies? && VerdictAt(run, i).Accepted? && run[i].envelope.nonce == n
  }

  ghost predicate ClockForward(run: seq<Event>) { forall i, j :: 0 <= i < j < |run| ==> run[i].now <= run[j].now }

  /** The dispatcher never draws a nonce twice. */
  ghost predicate FreshNonces(run: seq<Event>) {
    forall i, j :: 0 <= i < j < |run| && run[i].Signs? && run[j].Signs? ==> run[i].nonce != run[j].nonce
  }

  // ----- authenticity

  lemma {:induction false} SignedByDispatcher(run: seq<Event>, m: Message)
    ensures m in WorldAfter(run).signed <==>
              exists j :: 0 <= j < |run| && run[j].Signs?
                          && m == MessageOf(Sign(run[j].job, run[j].ttl, run[j].nonce, run[j].now))
  {
    if run != [] {
      var init, last := run[..|run| - 1], run[|run| - 1];
      SignedByDispatcher(init, m);
      assert forall j :: 0 <= j < |init| ==> init[j] == run[j];
    }
  }

  /** An accepted job was signed by the dispatcher before, with that nonce and that expiry, and has not expired. */
  lemma AcceptedWasSigned(run: seq<Event>, i: nat, n: Nonce) returns (j: nat)
    requires AcceptedAt(run, i, n)
    ensures j < i && run[j].Signs? && run[j].nonce == n && VerdictAt(run, i) == Accepted(run[j].job)
    ensures run[i].envelope.expires == At(run[j].now + run[j].ttl as real) && run[i].now <= run[i].envelope.expires.t
  {
    var m := MessageOf(run[i].envelope);
    SignedByDispatcher(run[..i], m);
    j :| 0 <= j < i && run[..i][j].Signs?
         && m == MessageOf(Sign(run[..i][j].job, run[..i][j].ttl, run[..i][j].nonce, run[..i][j].now));
  }

  /** A job just signed is accepted anywhere within its lifetime, if its nonce is free and the store answers. */
  lemma SignedJobIsAccepted(signed: set<Message>, seen: Seen, job: Job, ttl: int, nonce: Nonce, now: real, later: real)
    requires job.isObject && !Taken(seen, nonce, later)
    requires MessageOf(Sign(job, ttl, nonce, now)) in signed
    ensures Verify(signed, seen, Sign(job, ttl, nonce, now), later, true).1 == Accepted(job)
       <==> now - 60.0 <= later <= now + ttl as real
  {}

  // ----- a reservation keeps its nonce until it expires

  /** Event i reserved nonce n: its envelope passed every check and the nonce was free. */
  ghost predicate ReservedAt(run: seq<Event>, i: nat, n: Nonce) {
    i < |run| && run[i].Verifies? && run[i].storeUp && run[i].envelope.Envelope? && run[i].envelope.nonce == n
    && Screen(WorldAfter(run[..i]).signed, run[i].envelope, run[i].now).None?
    && !Taken(WorldAfter(run[..i]).seen, n, run[i].now)
  }

  lemma AcceptedReserves(run: seq<Event>, i: nat, n: Nonce)
    requires AcceptedAt(run, i, n)
    ensures ReservedAt(run, i, n) && run[i].envelope.expires.At? && run[i].now <= run[i].envelope.expires.t
  {}

  function TimeOf(ev: Event): real
    requires ev.Verifies? && ev.envelope.Envelope? && !ev.envelope.expires.Unreadable?
  {
    ReservationTime(ev.envelope.expires.t, ev.now) as real
  }

  /** Until it expires the nonce stays taken, whatever else happens. */
  lemma {:induction false} StaysTaken(run: seq<Event>, i: nat, n: Nonce)
    requires ReservedAt(run, i, n) && ClockForward(run)
    ensures var until := run[i].now + TimeOf(run[i]);
            n in WorldAfter(run).seen && WorldAfter(run).seen[n] >= until
  {
    var init, last := run[..|run| - 1], run[|run| - 1];
    var until := run[i].now + TimeOf(run[i]);
    if i < |init| {
      assert init[..i] == run[..i] && init[i] == run[i];
      StaysTaken(init, i, n);
      KeepsTaken(WorldAfter(init), last, n, until);
    }
  }

  lemma KeepsTaken(w: World, ev: Event, n: Nonce, until: real)
    requires n in w.seen && w.seen[n] >= until
    ensures n in After(w, ev).seen && After(w, ev).seen[n] >= until
  {}

  /** Two acceptances of one nonce are at least the reservation time of the first apart. */
  lemma ReplaysAreApart(run: seq<Event>, i: nat, j: nat, n: Nonce)
    requires ClockForward(run) && i < j && ReservedAt(run, i, n) && ReservedAt(run, j, n)
    ensures run[j].now >= run[i].now + TimeOf(run[i])
  {
    var past := run[..j];
    assert past[..i] == run[..i] && past[i] == run[i];
    StaysTaken(past, i, n);
  }

  // ----- with fresh nonces: at most two acceptances, the second in the last second

  lemma SameMessage(run: seq<Event>, i: nat, j: nat, n: Nonce)
    requires FreshNonces(run) && AcceptedAt(run, i, n) && AcceptedAt(run, j, n)
    ensures run[i].envelope.expires == run[j].envelope.expires && VerdictAt(run, i) == VerdictAt(run, j)
  {
    var a := AcceptedWasSigned(run, i, n);
    var b := AcceptedWasSigned(run, j, n);
    assert a == b;
  }

  /** A second acceptance falls into the last second of validity, and needs the first a second before the end. */
  lemma SecondIsInLastSecond(run: seq<Event>, i: nat, j: nat, n: Nonce)
    requires ClockForward(run) && FreshNonces(run) && i < j && AcceptedAt(run, i, n) && AcceptedAt(run, j, n)
    ensures var expires := run[i].envelope.expires.t;
            expires - 1.0 < run[j].now <= expires && expires - run[i].now >= 1.0
  {
    AcceptedReserves(run, i, n);
    AcceptedReserves(run, j, n);
    SameMessage(run, i, j, n);
    ReplaysAreApart(run, i, j, n);
  }

  /** No nonce is ever accepted three times. */
  lemma NeverThreeTimes(run: seq<Event>, i: nat, j: nat, k: nat, n: Nonce)
    requires ClockForward(run) && FreshNonces(run) && i < j < k
    requires AcceptedAt(run, i, n) && AcceptedAt(run, j, n)
    ensures !AcceptedAt(run, k, n)
  {
    if AcceptedAt(run, k, n) {
      SecondIsInLastSecond(run, i, j, n);
      SecondIsInLastSecond(run, j, k, n);
      SameMessage(run, i, j, n);
    }
  }

  // ----- only what the dispatcher signed uses up a nonce, so a genuine job gets through

  /** An envelope that changes the store was signed, is unexpired, and found its nonce free: a forged one never does. */
  lemma OnlySignedReserves(signed: set<Message>, seen: Seen, e: Envelope, now: real, storeUp: bool)
    requires Verify(signed, seen, e, now, storeUp).0 != seen
    ensures storeUp && e.Envelope? && MessageOf(e) in signed && e.sig == Signature(MessageOf(e))
    ensures e.expires.At? && now <= e.expires.t && !Taken(seen, e.nonce, now)
  {}

  /** Every nonce in the store was reserved by an event of the run. */
  lemma {:induction false} SeenWasReserved(run: seq<Event>, n: Nonce) returns (k: nat)
    requires n in WorldAfter(run).seen
    ensures k < |run| && ReservedAt(run, k, n)
  {
    var init, last := run[..|run| - 1], run[|run| - 1];
    if n in WorldAfter(init).seen {
      k := SeenWasReserved(init, n);
      assert run[..k] == init[..k] && run[k] == init[k];
    } else {
      k := |init|;
      var w := WorldAfter(init);
      OnlySignedReserves(w.signed, w.seen, last.envelope, last.now, last.storeUp);
    }
  }

  /** Event i made the envelope, with a nonce never used for another; so what reserved the nonce is that envelope. */
  lemma ReservedBySame(run: seq<Event>, i: nat, k: nat)
    requires FreshNonces(run) && i < |run| && run[i].Signs? && ReservedAt(run, k, run[i].nonce)
    ensures run[k].envelope == Sign(run[i].job, run[i].ttl, run[i].nonce, run[i].now)
  {
    var e := run[k].envelope;
    SignedByDispatcher(run[..k], MessageOf(e));
    var j :| 0 <= j < k && run[..k][j].Signs?
             && MessageOf(e) == MessageOf(Sign(run[..k][j].job, run[..k][j].ttl, run[..k][j].nonce, run[..k][j].now));
    assert run[j].nonce == run[i].nonce;
    assert i == j;
  }

  /** An event that verified the given envelope while the store answered. */
  predicate Presents(ev: Event, e: Envelope) { ev.Verifies? && ev.storeUp && ev.envelope == e }

  /**
   A job of the dispatcher is accepted within its lifetime, whatever forgeries and other jobs came before it,
   unless its own envelope was verified before.
   */
  lemma GenuineJobIsAccepted(run: seq<Event>, i: nat, j: nat)
    requires ClockForward(run) && FreshNonces(run) && i < j < |run| && run[i].Signs? && run[i].job.isObject
    requires Presents(run[j], Sign(run[i].job, run[i].ttl, run[i].nonce, run[i].now))
    requires run[j].now <= run[i].now + run[i].ttl as real
    requires forall k :: 0 <= k < j ==> !Presents(run[k], run[j].envelope)
    ensures VerdictAt(run, j) == Accepted(run[i].job)
  {
    var past, n := run[..j], run[i].nonce;
    var w := WorldAfter(past);
    assert past[i] == run[i];
    SignedByDispatcher(past, MessageOf(run[j].envelope));
    if n in w.seen {
      var k := SeenWasReserved(past, n);
      assert past[..k] == run[..k] && past[k] == run[k];
      ReservedBySame(run, i, k);
    } else {
      SignedJobIsAccepted(w.signed, w.seen, run[i].job, run[i].ttl, n, run[i].now, run[j].now);
    }
  }

  // ----- why an envelope is refused

  /** The first check that fails names the reason. */
  lemma ReasonsExactly(signed: set<Message>, seen: Seen, e: Envelope, now: real, storeUp: bool)
    requires e.Envelope? && e.issued.At? && e.expires.At?
    ensures var v := Verify(signed, seen, e, now, storeUp).1;
            var genuine := MessageOf(e) in signed && e.sig == Signature(MessageOf(e));
            && (v == Refused(Expired) <==> now > e.expires.t)
            && (v == Refused(IssuedInFuture) <==> now <= e.expires.t && e.issued.t > now + 60.0)
            && (v == Refused(BadSignature) <==> e.issued.t - 60.0 <= now <= e.expires.t && !genuine)
            && (v == Refused(StoreUnavailable) <==> e.issued.t - 60.0 <= now <= e.expires.t && genuine && !storeUp)
            && (v == Refused(Replayed) <==>
                  e.issued.t - 60.0 <= now <= e.expires.t && genuine && storeUp && Taken(seen, e.nonce, now))
  {}

  // ----- single use holds exactly for jobs accepted in their last second

  /** Straight after an acceptance, the same envelope is accepted again exactly in this interval. */
  lemma ReplayAcceptedWhen(signed: set<Message>, seen: Seen, e: Envelope, now: real, later: real)
    requires Verify(signed, seen, e, now, true).1.Accepted? && now <= later
    ensures Verify(signed, Verify(signed, seen, e, now, true).0, e, later, true).1.Accepted? <==>
              now + ReservationTime(e.expires.t, now) as real <= later <= e.expires.t
  {}

  /** An accepted envelope can be replayed at some later moment if and only if a second or more of its life was left. */
  lemma SingleUseExactly(signed: set<Message>, seen: Seen, e: Envelope, now: real)
    requires Verify(signed, seen, e, now, true).1.Accepted?
    ensures (exists later: real :: now <= later && Verify(signed, Verify(signed, seen, e, now, true).0, e, later, true).1.Accepted?)
       <==> e.expires.t - now >= 1.0
  {
    var after := Verify(signed, seen, e, now, true).0;
    var first := now + ReservationTime(e.expires.t, now) as real;
    if e.expires.t - now >= 1.0 {
      ReplayAcceptedWhen(signed, seen, e, now, first);
      assert Verify(signed, after, e, first, true).1.Accepted?;
    } else {
      forall later: real | now <= later ensures !Verify(signed, after, e, later, true).1.Accepted? {
        ReplayAcceptedWhen(signed, seen, e, now, later);
      }
    }
  }

  /** Signed at 0 for 300 seconds, accepted at 0.5 and, by another worker, again at 299.7. */
  lemma ReplayInLastSecond(job: Job, n: Nonce)
    requires job.isObject
    ensures var e := Sign(job, 300, n, 0.0);
            var run := [Signs(job, 300, n, 0.0), Verifies(1, e, 0.5, true), Verifies(2, e, 299.7, true)];
            AcceptedAt(run, 1, n) && AcceptedAt(run, 2, n)
  {
    var e := Sign(job, 300, n, 0.0);
    var run := [Signs(job, 300, n, 0.0), Verifies(1, e, 0.5, true), Verifies(2, e, 299.7, true)];
    assert run[..1] == [run[0]] && run[..2] == [run[0], run[1]];
    var w1 := After(World({}, map[]), run[0]);
    assert WorldAfter(run[..1]) == w1 by { assert run[..1][..0] == []; }
    assert WorldAfter(run[..2]) == After(w1, run[1]) by { assert run[..2][..1] == run[..1]; }
    SignedJobIsAccepted(w1.signed, w1.seen, job, 300, n, 0.0, 0.5);
    assert ReservationTime(300.0, 0.5) == 299;
    ReplayAcceptedWhen(w1.signed, w1.seen, e, 0.5, 299.7);
  }
}
