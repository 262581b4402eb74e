/** Single-use nonce reservation: the shared store, and the process-local fallback that sweeps itself. */
module Replay {

  datatype Nonce = Nonce(text: string)

  /** Until when each nonce is taken. */
  type Seen = map<Nonce, real>

  const LOCAL_MAX: nat := 20_000

  predicate Taken(seen: Seen, n: Nonce, now: real) { n in seen && seen[n] > now }

  /** SET key NX EX ttl as one atomic step: true on first use, until the entry expires. */
  function Reserve(seen: Seen, n: Nonce, ttl: nat, now: real): (Seen, bool) {
    if Taken(seen, n, now) then (seen, false) else (seen[n := now + ttl as real], true)
  }

  function Swept(seen: Seen, now: real): Seen { map n | n in seen && seen[n] > now :: seen[n] }

  /** The local store: the same answer, after sweeping expired entries when it has grown large. */
  function ReserveLocal(seen: Seen, n: Nonce, ttl: nat, now: real): (Seen, bool) {
    Reserve(if |seen| > LOCAL_MAX then Swept(seen, now) else seen, n, ttl, now)
  }

  class LocalStore {
    var seen: Seen

    constructor ()
      ensures seen == map[]
    {
      seen := map[];
    }

    method ReserveNonce(n: Nonce, ttl: nat, now: real) returns (isNew: bool)
      modifies this
      ensures (seen, isNew) == ReserveLocal(old(seen), n, ttl, now)
    {
      if |seen| > LOCAL_MAX { Sweep(now); }
      if n in seen && seen[n] > now { return false; }
      seen := seen[n := now + ttl as real];
      isNew := true;
    }

    /** Deletes the expired entries one by one. */
    method Sweep(now: real)
      modifies this
      ensures seen == Swept(old(seen), now)
    {
      var todo := seen.Keys;
      while todo != {}
        invariant todo <= old(seen).Keys
        invariant forall n :: n in seen <==> n in old(seen) && (n in todo || old(seen)[n] > now)
        invariant forall n :: n in seen ==> seen[n] == old(seen)[n]
        decreases todo
      {
        var n :| n in todo;
        if seen[n] <= now { seen := seen - {n}; }
        todo := todo - {n};
      }
    }
  }

  /** The two stores hold the same unexpired entries. */
  ghost predicate Agree(shared: Seen, local: Seen, now: real) {
    forall n :: (Taken(shared, n, now) <==> Taken(local, n, now))
                && (Taken(shared, n, now) ==> shared[n] == local[n])
  }

  lemma AgreeLater(shared: Seen, local: Seen, now: real, later: real)
    requires Agree(shared, local, now) && now <= later
    ensures Agree(shared, local, later)
  {
    forall n ensures (Taken(shared, n, later) <==> Taken(local, n, later))
                  && (Taken(shared, n, later) ==> shared[n] == local[n])
    {
      assert Taken(shared, n, later) ==> Taken(shared, n, now);
      assert Taken(local, n, later) ==> Taken(local, n, now);
    }
  }

  /** One reservation: sweeping changes neither the answer nor what stays reserved. */
  lemma LocalAgrees(shared: Seen, local: Seen, n: Nonce, ttl: nat, now: real)
    requires Agree(shared, local, now)
    ensures Reserve(shared, n, ttl, now).1 == ReserveLocal(local, n, ttl, now).1
    ensures Agree(Reserve(shared, n, ttl, now).0, ReserveLocal(local, n, ttl, now).0, now)
  {
    assert Taken(shared, n, now) <==> Taken(local, n, now);
    var s', l' := Reserve(shared, n, ttl, now).0, ReserveLocal(local, n, ttl, now).0;
    forall m ensures (Taken(s', m, now) <==> Taken(l', m, now)) && (Taken(s', m, now) ==> s'[m] == l'[m]) {
      assert Taken(shared, m, now) <==> Taken(local, m, now);
    }
  }

  // ----- whole runs of reservations

  datatype Attempt = Attempt(nonce: Nonce, ttl: nat, now: real)

  function SharedAfter(run: seq<Attempt>): (Seen, seq<bool>) {
    if run == [] then (map[], [])
    else
      var (seen, answers) := SharedAfter(run[..|run| - 1]);
      var a := run[|run| - 1];
      var (next, isNew) := Reserve(seen, a.nonce, a.ttl, a.now);
      (next, answers + [isNew])
  }

  function LocalAfter(run: seq<Attempt>): (Seen, seq<bool>) {
    if run == [] then (map[], [])
    else
      var (seen, answers) := LocalAfter(run[..|run| - 1]);
      var a := run[|run| - 1];
      var (next, isNew) := ReserveLocal(seen, a.nonce, a.ttl, a.now);
      (next, answers + [isNew])
  }

  ghost predicate ClockForward(run: seq<Attempt>) { forall i, j :: 0 <= i < j < |run| ==> run[i].now <= run[j].now }

  /** Within one process the fallback answers every attempt of every run as the shared store would. */
  lemma {:induction false} LocalRefinesShared(run: seq<Attempt>)
    requires ClockForward(run)
    ensures LocalAfter(run).1 == SharedAfter(run).1
    ensures run != [] ==> Agree(SharedAfter(run).0, LocalAfter(run).0, run[|run| - 1].now)
  {
    hide Agree, ReserveLocal, Reserve;
    if run != [] {
      var init, a := run[..|run| - 1], run[|run| - 1];
      LocalRefinesShared(init);
      var shared, local := SharedAfter(init).0, LocalAfter(init).0;
      if init == [] { NothingAgrees(a.now); } else { AgreeLater(shared, local, init[|init| - 1].now, a.now); }
      LocalAgrees(shared, local, a.nonce, a.ttl, a.now);
    }
  }

  lemma NothingAgrees(now: real)
    ensures Agree(map[], map[], now)
  {}
}
