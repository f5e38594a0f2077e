// The update queue of the fuzzy storage worker (src/fuzzy_storage.c): batches sent to the backend,
// retried, and given up after too many failures in a row.
module FuzzyUpdates {

  type Update(==, !new)

  /** struct rspamd_updates_cbdata: the updates of one transaction. */
  datatype Batch = Batch(items: seq<Update>, final: bool)

  /** How often an update is in a queue. */
  ghost function Queued(u: Update, items: seq<Update>): nat {
    multiset(items)[u]
  }

  /** How often an update is in a batch the backend has not answered yet. */
  ghost function Flying(u: Update, batches: seq<Batch>): nat {
    if batches == [] then 0 else Flying(u, batches[..|batches| - 1]) + Queued(u, batches[|batches| - 1].items)
  }

  function Without(batches: seq<Batch>, i: nat): seq<Batch>
    requires i < |batches|
  {
    batches[..i] + batches[i + 1..]
  }

  lemma QueuedBoth(u: Update, a: seq<Update>, b: seq<Update>)
    ensures Queued(u, a + b) == Queued(u, a) + Queued(u, b)
  {
  }

  lemma FlyingMore(u: Update, batches: seq<Batch>, b: Batch)
    ensures Flying(u, batches + [b]) == Flying(u, batches) + Queued(u, b.items)
  {
    assert (batches + [b])[..|batches|] == batches;
  }

  lemma {:induction false} FlyingLess(u: Update, batches: seq<Batch>, i: nat)
    requires i < |batches|
    ensures Flying(u, batches) == Flying(u, Without(batches, i)) + Queued(u, batches[i].items)
  {
    var n := |batches| - 1;
    if i == n {
      assert Without(batches, i) == batches[..n];
    } else {
      FlyingLess(u, batches[..n], i);
      assert batches[..n][i] == batches[i];
      assert Without(batches, i) == Without(batches[..n], i) + [batches[n]];
      FlyingMore(u, Without(batches[..n], i), batches[n]);
    }
  }

  /**
   * What can happen to the queue.  A signal tells the worker to terminate, and it goes on until
   * something breaks its event loop.
   */
  datatype Event = Arrives(update: Update) | Syncs | Answers(batch: nat, success: bool) | Terminates | Breaks

  function Arrivals(events: seq<Event>): seq<Update> {
    if events == [] then [] else (if events[0].Arrives? then [events[0].update] else []) + Arrivals(events[1..])
  }

  /** Answer k of the backend and the n after it were failures. */
  ghost predicate FailedRow(answers: seq<bool>, n: nat, k: nat) {
    k + n < |answers| && forall i | k <= i <= k + n :: !answers[i]
  }

  /** The backend's only answer is that the oldest batch went through. */
  const ONE_SUCCESS: seq<Event> := [Answers(0, true)]

  /** The backend does nothing but answer. */
  predicate OnlyAnswers(events: seq<Event>) {
    forall i | 0 <= i < |events| :: events[i].Answers?
  }

  /** What the events of a live worker change. */
  datatype Ledger = Ledger(pending: seq<Update>, batches: seq<Batch>, failed: nat, running: bool, stopped: bool,
    accepted: seq<Update>, committed: seq<Update>, discarded: seq<Update>, answers: seq<bool>, attempts: nat)

  /**
   * An answer to a batch that is no longer in flight: a success commits it; the failure that is one too many
   * gives it up; any other puts it back, and a final one out again with all that is pending.
   */
  ghost function Answered(maxfail: nat, s: Ledger, b: Batch, success: bool): Ledger {
    var heard := s.(answers := s.answers + [success]);
    if success then
      heard.(committed := s.committed + b.items, failed := 0, stopped := s.stopped || b.final || !s.running)
    else if s.failed == maxfail then
      heard.(discarded := s.discarded + b.items, failed := 0, stopped := s.stopped || b.final || !s.running)
    else if b.final then
      heard.(failed := s.failed + 1, pending := [], batches := s.batches + [Batch(s.pending + b.items, true)],
             attempts := s.attempts + 1)
    else heard.(failed := s.failed + 1, pending := s.pending + b.items)
  }

  ghost function After(maxfail: nat, s: Ledger, e: Event): Ledger {
    match e
    case Arrives(u) => s.(pending := s.pending + [u], accepted := s.accepted + [u])
    case Syncs => s.(pending := [], batches := s.batches + if s.pending == [] then [] else [Batch(s.pending, false)])
    case Terminates => s.(running := false)
    case Breaks => s.(running := false, stopped := true)
    case Answers(k, success) =>
      if k < |s.batches| then Answered(maxfail, s.(batches := Without(s.batches, k)), s.batches[k], success) else s
  }

  ghost function AfterAll(maxfail: nat, s: Ledger, events: seq<Event>): Ledger {
    if events == [] then s
    else After(maxfail, AfterAll(maxfail, s, events[..|events| - 1]), events[|events| - 1])
  }

  /** Everything pending goes out in a final batch, and another event loop begins, if anything is. */
  ghost function Begun(s: Ledger): Ledger {
    if s.pending == [] then s
    else
      s.(stopped := false, pending := [], batches := s.batches + [Batch(s.pending, true)], attempts := s.attempts + 1)
  }

  /** A batch of the last sync is in flight. */
  ghost predicate HasFinal(batches: seq<Batch>) {
    exists i | 0 <= i < |batches| :: batches[i].final
  }

  /** No batch of the last sync is or was in flight. */
  ghost predicate NoneFinal(s: Ledger) {
    s.attempts == 0 && !HasFinal(s.batches)
  }

  /** As long as the last sync goes on, each failed attempt has raised the counter and was followed by one more. */
  ghost predicate Ending(maxfail: nat, s: Ledger, finals: nat, failed0: nat) {
    && s.attempts + failed0 <= maxfail + 1
    && (!s.stopped ==> HasFinal(s.batches) && s.attempts == finals + 1 && finals + failed0 <= s.failed)
  }

  /** Nothing but the batch of the last sync is left, and that only as long as the sync goes on. */
  ghost predicate OnlyLast(s: Ledger) {
    s.pending == [] && if s.stopped then s.batches == [] else |s.batches| == 1 && s.batches[0].final
  }

  /** A live worker has no final batch, and stops only when it was told to terminate. */
  lemma LivesOn(maxfail: nat, s: Ledger, e: Event)
    requires NoneFinal(s) && (s.stopped ==> !s.running)
    ensures var t := After(maxfail, s, e); NoneFinal(t) && (t.stopped ==> !t.running)
  {
  }

  /** Whether this answers a batch of the last sync. */
  ghost predicate Final(s: Ledger, e: Event) {
    e.Answers? && e.batch < |s.batches| && s.batches[e.batch].final
  }

  /** One turn of the last sync. */
  lemma EndsOn(maxfail: nat, s: Ledger, e: Event, finals: nat, failed0: nat)
    requires Ending(maxfail, s, finals, failed0) && !s.stopped && !s.running && s.failed <= maxfail
    ensures Ending(maxfail, After(maxfail, s, e), finals + if Final(s, e) then 1 else 0, failed0)
  {
    var t := After(maxfail, s, e);
    var k :| 0 <= k < |s.batches| && s.batches[k].final;
    if e.Answers? && e.batch < |s.batches| {
      FinalStays(s.batches, e.batch, k);
      if Final(s, e) && !t.stopped {
        assert t.batches[|t.batches| - 1].final;
      }
    } else {
      assert s.batches <= t.batches && t.batches[k].final;
    }
  }

  lemma FinalStays(batches: seq<Batch>, i: nat, k: nat)
    requires i < |batches| && k < |batches| && batches[k].final
    ensures HasFinal(Without(batches, i)) || batches[i].final
  {
    if k != i {
      assert Without(batches, i)[if k < i then k else k - 1].final;
    }
  }

  lemma StaysAlone(maxfail: nat, s: Ledger, e: Event)
    requires OnlyLast(s) && !s.stopped && e.Answers?
    ensures OnlyLast(After(maxfail, s, e))
  {
  }

  lemma AfterOneMore(maxfail: nat, s: Ledger, events: seq<Event>, n: nat)
    requires n < |events|
    ensures AfterAll(maxfail, s, events[..n + 1]) == After(maxfail, AfterAll(maxfail, s, events[..n]), events[n])
  {
    assert events[..n + 1][..n] == events[..n];
  }

  /** The worker's queue, with a record of every update and of every answer of the backend. */
  class Updater {
    const maxfail: nat
    var pending: seq<Update>
    var failed: nat
    var running: bool
    var freed: bool
    var stopped: bool
    var batches: seq<Batch>
    ghost var accepted: seq<Update>
    ghost var committed: seq<Update>
    ghost var discarded: seq<Update>
    ghost var lost: seq<Update>
    ghost var answers: seq<bool>
    ghost var attempts: nat

    ghost function Now(): Ledger
      reads `pending, `batches, `failed, `running, `stopped, `accepted, `committed, `discarded, `answers, `attempts
    {
      Ledger(pending, batches, failed, running, stopped, accepted, committed, discarded, answers, attempts)
    }

    /** An update is as often in the queue, in flight, committed, given up or lost as it was accepted. */
    ghost predicate Tallied(u: Update, extra: seq<Update>)
      reads `pending, `batches, `accepted, `committed, `discarded, `lost
    {
      Queued(u, accepted)
          == Queued(u, committed) + Queued(u, discarded) + Queued(u, lost) + Queued(u, pending) + Flying(u, batches)
              + Queued(u, extra)
    }

    /** All updates are accounted for, those of one answered batch apart. */
    ghost predicate Conserved(extra: seq<Update>)
      reads `pending, `batches, `accepted, `committed, `discarded, `lost
    {
      forall u {:trigger Tallied(u, extra)} :: Tallied(u, extra)
    }

    /** The counter is the number of failures in a row up to now. */
    ghost predicate Streak()
      reads `failed, `answers
    {
      failed <= maxfail && failed <= |answers| && forall k | |answers| - failed <= k < |answers| :: !answers[k]
    }

    /** Nothing was ever given up without more failures in a row than are allowed. */
    ghost predicate Justified()
      reads `discarded, `answers
    {
      discarded != [] ==> exists k: nat :: FailedRow(answers, maxfail, k)
    }

    ghost predicate Valid()
      reads this
    {
      Conserved([]) && Streak() && Loaded() && Justified() && (freed ==> pending == []) && (!freed ==> lost == [])
    }

    constructor (maxfail: nat)
      ensures Valid() && this.maxfail == maxfail && failed == 0 && running && !freed && !stopped
      ensures batches == [] && pending == [] && attempts == 0 && accepted == [] && committed == []
    {
      this.maxfail := maxfail;
      pending, failed, running, freed, stopped, batches := [], 0, true, false, false, [];
      accepted, committed, discarded, lost, answers, attempts := [], [], [], [], [], 0;
      new;
      forall u ensures Tallied(u, []) {
      }
    }

    /** A command that changes the storage is queued. */
    method Accept(u: Update)
      requires Valid() && !freed
      modifies `pending, `accepted
      ensures Valid() && pending == old(pending) + [u] && accepted == old(accepted) + [u]
    {
      assert Conserved([]);
      label before:
      pending, accepted := pending + [u], accepted + [u];
      forall v ensures Tallied(v, []) {
        assert old@before(Tallied(v, []));
        QueuedBoth(v, old(pending), [u]);
        QueuedBoth(v, old(accepted), [u]);
      }
    }

    /**
     * rspamd_fuzzy_process_updates_queue: everything pending becomes one batch; a last sync with nothing
     * to do ends the loop.
     */
    method Process(final: bool) returns (sent: bool)
      requires Conserved([])
      modifies `pending, `batches, `stopped, `attempts
      ensures Conserved([]) && pending == [] && sent == (old(pending) != [])
      ensures batches == old(batches) + if sent then [Batch(old(pending), final)] else []
      ensures stopped == (old(stopped) || (final && !sent))
      ensures attempts == old(attempts) + if sent && final then 1 else 0
    {
      sent := false;
      if |pending| > 0 {
        batches := batches + [Batch(pending, final)];
        pending := [];
        attempts := attempts + if final then 1 else 0;
        sent := true;
        forall u ensures Tallied(u, []) {
          assert old(Tallied(u, []));
          FlyingMore(u, old(batches), Batch(old(pending), final));
        }
      } else if final {
        stopped := true;
      }
    }

    /** A transaction went through. */
    method Succeed(b: Batch)
      requires Conserved(b.items)
      modifies `failed, `stopped, `committed
      ensures Conserved([]) && failed == 0 && committed == old(committed) + b.items
      ensures stopped == (old(stopped) || b.final || !running)
    {
      committed := committed + b.items;
      failed := 0;
      if b.final || !running {
        stopped := true;
      }
      forall u ensures Tallied(u, []) {
        assert old(Tallied(u, b.items));
        QueuedBoth(u, old(committed), b.items);
      }
    }

    /** The updates of a batch are given up after too many failures. */
    method Discard(b: Batch)
      requires Conserved(b.items)
      modifies `failed, `stopped, `discarded
      ensures Conserved([]) && failed == 0 && discarded == old(discarded) + b.items
      ensures stopped == (old(stopped) || b.final || !running)
    {
      discarded := discarded + b.items;
      failed := 0;
      if b.final || !running {
        stopped := true;
      }
      forall u ensures Tallied(u, []) {
        assert old(Tallied(u, b.items));
        QueuedBoth(u, old(discarded), b.items);
      }
    }

    /**
     * The updates of a failed batch go back to the queue, and out again at once when the worker is on
     * its last sync.
     */
    method Retry(b: Batch)
      requires Conserved(b.items)
      modifies `stopped, `pending, `batches, `attempts
      ensures Conserved([])
      ensures !b.final ==> pending == old(pending) + b.items && batches == old(batches)
      ensures b.final ==> pending == [] && batches == old(batches) +
                          if old(pending) + b.items == [] then [] else [Batch(old(pending) + b.items, true)]
      ensures attempts == old(attempts) + |batches| - |old(batches)| && (old(stopped) ==> stopped)
      ensures b.items != [] ==> stopped == old(stopped)
    {
      pending := pending + b.items;
      forall u ensures Tallied(u, []) {
        assert old(Tallied(u, b.items));
        QueuedBoth(u, old(pending), b.items);
      }
      if b.final {
        var sent := Process(b.final);
      }
    }

    /** A batch that fails after the queue was freed has nowhere to go. */
    method Lose(b: Batch)
      requires Conserved(b.items)
      modifies `lost
      ensures Conserved([]) && lost == old(lost) + b.items
    {
      lost := lost + b.items;
      forall u ensures Tallied(u, []) {
        assert old(Tallied(u, b.items));
        QueuedBoth(u, old(lost), b.items);
      }
    }

    /** A batch is answered: it leaves the flight, its updates in no place yet. */
    method Land(i: nat) returns (b: Batch)
      requires Conserved([]) && i < |batches|
      modifies `batches
      ensures b == old(batches)[i] && Conserved(b.items) && batches == Without(old(batches), i)
    {
      b := batches[i];
      batches := Without(batches, i);
      forall u ensures Tallied(u, b.items) {
        assert old(Tallied(u, []));
        FlyingLess(u, old(batches), i);
      }
    }

    /** The last failures, one more than allowed, came in a row. */
    ghost predicate GivenUp()
      reads `answers
    {
      maxfail < |answers| && forall k | |answers| - maxfail - 1 <= k < |answers| :: !answers[k]
    }

    /** rspamd_fuzzy_updates_cb for a failed batch. */
    method Fail(b: Batch)
      requires Conserved(b.items) && failed <= maxfail && b.items != []
      modifies `failed, `stopped, `pending, `batches, `discarded, `lost, `attempts
      ensures Conserved([])
      ensures failed == if old(failed) == maxfail then 0 else old(failed) + 1
      ensures discarded == old(discarded) + if old(failed) == maxfail then b.items else []
      ensures lost == old(lost) + if old(failed) < maxfail && freed then b.items else []
      ensures Requeued(b, !freed && old(failed) < maxfail, old(pending), old(batches), old(attempts))
      ensures stopped == (old(stopped) || (old(failed) == maxfail && (b.final || !running)))
    {
      failed := failed + 1;
      if failed > maxfail {
        Discard(b);
      } else if !freed {
        Retry(b);
      } else {
        Lose(b);
      }
    }

    /** A batch's updates went back to the queue, and out again if the batch was the final one. */
    ghost predicate Requeued(b: Batch, back: bool, pending0: seq<Update>, batches0: seq<Batch>, attempts0: nat)
      reads `pending, `batches, `attempts
    {
      if back && b.final then
        pending == [] && batches == batches0 + [Batch(pending0 + b.items, true)] && attempts == attempts0 + 1
      else
        pending == pending0 + (if back then b.items else []) && batches == batches0 && attempts == attempts0
    }

    /** Every batch holds something. */
    ghost predicate Loaded()
      reads `batches
    {
      forall i | 0 <= i < |batches| :: batches[i].items != []
    }

    /** rspamd_fuzzy_updates_cb: the backend answers batch i. */
    method Answer(i: nat, success: bool)
      requires Valid() && i < |batches|
      modifies this
      ensures Valid() && unchanged(`accepted) && unchanged(`running) && unchanged(`freed)
              && answers == old(answers) + [success]
      ensures committed == old(committed) + if success then old(batches)[i].items else []
      ensures discarded == old(discarded) + if !success && old(failed) == maxfail then old(batches)[i].items else []
      ensures !success && old(failed) == maxfail ==> GivenUp()
      ensures failed == if success || old(failed) == maxfail then 0 else old(failed) + 1
      ensures Requeued(old(batches)[i], !success && !freed
              && old(failed) < maxfail, old(pending), Without(old(batches), i), old(attempts))
      ensures stopped == (old(stopped) || ((success || old(failed) == maxfail) && (old(batches)[i].final || !running)))
    {
      var b := Land(i);
      answers := answers + [success];
      if success {
        Succeed(b);
      } else {
        Fail(b);
      }
      StillJustified(old(answers), success, old(failed), old(discarded), b);
    }

    /** Giving up needs the failures that led to it. */
    lemma StillJustified(before: seq<bool>, success: bool, failed0: nat, discarded0: seq<Update>, b: Batch)
      requires answers == before + [success] && failed0 <= maxfail && failed0 <= |before|
      requires forall k | |before| - failed0 <= k < |before| :: !before[k]
      requires discarded0 != [] ==> exists k: nat :: FailedRow(before, maxfail, k)
      requires discarded == discarded0 + if !success && failed0 == maxfail then b.items else []
      ensures Justified()
    {
      if discarded0 != [] {
        var k: nat :| FailedRow(before, maxfail, k);
        assert FailedRow(answers, maxfail, k);
      } else if !success && failed0 == maxfail {
        assert FailedRow(answers, maxfail, |before| - maxfail);
      }
    }

    /** The queue is freed when the worker ends: what is still in it is lost. */
    method Free()
      requires Valid() && !freed
      modifies `pending, `lost, `freed
      ensures Valid() && freed && lost == old(pending)
    {
      assert Conserved([]);
      lost, pending, freed := pending, [], true;
      forall u ensures Tallied(u, []) {
        assert old(Tallied(u, []));
      }
    }

    /** rspamd_fuzzy_storage_periodic_callback. */
    method Sync()
      requires Valid() && !freed
      modifies `pending, `batches, `stopped, `attempts
      ensures Valid() && attempts == old(attempts) && stopped == old(stopped) && pending == []
      ensures batches == old(batches) + if old(pending) == [] then [] else [Batch(old(pending), false)]
    {
      if |pending| > 0 {
        var sent := Process(false);
      }
    }

    /** A signal tells the worker to terminate. */
    method Terminate()
      requires Valid()
      modifies `running
      ensures Valid() && !running
    {
      running := false;
    }

    /** The event loop is broken because the worker wants to die. */
    method Break()
      requires Valid()
      modifies `running, `stopped
      ensures Valid() && !running && stopped
    {
      running, stopped := false, true;
    }

    /** One turn of the worker's event loop. */
    method Live(e: Event)
      requires Valid() && !freed
      modifies this
      ensures Valid() && !freed && Now() == After(maxfail, old(Now()), e)
    {
      match e
      case Arrives(u) => Accept(u);
      case Syncs => Sync();
      case Terminates => Terminate();
      case Breaks => Break();
      case Answers(k, success) =>
        if k < |batches| {
          Answer(k, success);
        }
    }

    /**
     * The life of the worker until its event loop is broken, by something that tells it to terminate too: each
     * event has its effect, in order.
     */
    method Run(events: seq<Event>) returns (n: nat)
      requires Valid() && !freed && NoneFinal(Now()) && !stopped
      modifies this
      ensures Valid() && !freed && NoneFinal(Now()) && (stopped ==> !running)
      ensures n <= |events| && (!stopped ==> n == |events|) && accepted == old(accepted) + Arrivals(events[..n])
      ensures Now() == AfterAll(maxfail, old(Now()), events[..n])
    {
      n := 0;
      ghost var first := Now();
      assert events[..0] == [];
      while n < |events| && !stopped
        invariant n <= |events| && Valid() && !freed && NoneFinal(Now()) && (stopped ==> !running)
        invariant Now() == AfterAll(maxfail, first, events[..n])
        decreases |events| - n
      {
        AfterOneMore(maxfail, first, events, n);
        LivesOn(maxfail, Now(), events[n]);
        Live(events[n]);
        n := n + 1;
      }
      AfterAllArrivals(maxfail, first, events[..n]);
    }

    /** One turn of the event loop of the last sync. */
    method Turn(e: Event, finals: nat, ghost failed0: nat) returns (more: nat)
      requires Valid() && !freed && !running && !stopped && Ending(maxfail, Now(), finals, failed0)
      modifies this
      ensures Valid() && !freed && !running && Ending(maxfail, Now(), more, failed0)
      ensures more == finals + if Final(old(Now()), e) then 1 else 0
      ensures Now() == After(maxfail, old(Now()), e)
    {
      more := finals + if e.Answers? && e.batch < |batches| && batches[e.batch].final then 1 else 0;
      EndsOn(maxfail, Now(), e, finals, failed0);
      Live(e);
    }

    /** Everything pending goes out in a final batch, and another event loop begins. */
    method StartLastSync()
      requires Valid() && !freed && pending != []
      modifies `pending, `batches, `stopped, `attempts
      ensures Valid() && !stopped && pending == [] && batches == old(batches) + [Batch(old(pending), true)]
              && attempts == old(attempts) + 1
    {
      stopped := false;
      var sent := Process(true);
    }

    /**
     * The last sync of a terminating worker, in an event loop of its own that runs until it is broken.
     * It makes a bounded number of attempts; and with no other batch in flight and nothing but answers
     * of the backend, every update is committed or given up when it ends.  Answers alone can cut it short,
     * a final batch still in flight, if and only if something was pending and another batch unanswered.
     */
    method FinalSync(events: seq<Event>) returns (finals: nat, n: nat)
      requires Valid() && !freed && !running && stopped && NoneFinal(Now())
      modifies this
      ensures Valid() && !freed && !running && attempts + old(failed) <= maxfail + 1
      ensures old(pending) != [] && !stopped ==> HasFinal(batches) && finals + old(failed) <= maxfail
      ensures old(pending) == [] ==> unchanged(`pending) && unchanged(`batches) && unchanged(`stopped) && n == 0
      ensures n <= |events| && (old(pending) != [] && !stopped ==> n == |events|)
              && accepted == old(accepted) + Arrivals(events[..n])
      ensures old(batches) == [] && OnlyAnswers(events) && stopped ==> pending == [] && batches == []
      ensures OnlyAnswers(events) && stopped && HasFinal(batches) ==> old(pending) != [] && old(batches) != []
      ensures old(pending) != [] && old(batches) != [] && events == ONE_SUCCESS ==>
                stopped && HasFinal(batches) && n == 1
      ensures Now() == AfterAll(maxfail, Begun(old(Now())), events[..n])
    {
      finals, n := 0, 0;
      ghost var first := Begun(Now());
      NoEvents(maxfail, first, events);
      if |pending| > 0 {
        StartLastSync();
        assert batches[|batches| - 1].final;
        assert Now() == first;
        finals, n := LastLoop(events, old(failed));
        LoopEnds(maxfail, old(Now()), events, n, Now());
      }
    }

    /** The event loop of the last sync. */
    method LastLoop(events: seq<Event>, ghost failed0: nat) returns (finals: nat, n: nat)
      requires Valid() && !freed && !running && !stopped && Ending(maxfail, Now(), 0, failed0)
      modifies this
      ensures Valid() && !freed && !running && Ending(maxfail, Now(), finals, failed0)
      ensures n <= |events| && (!stopped ==> n == |events|) && (n == 0 ==> events == [])
      ensures Now() == AfterAll(maxfail, old(Now()), events[..n])
      ensures old(OnlyLast(Now())) && OnlyAnswers(events) ==> OnlyLast(Now())
    {
      finals, n := 0, 0;
      ghost var first := Now();
      assert events[..0] == [];
      while n < |events| && !stopped
        invariant n <= |events| && Valid() && !freed && !running && Ending(maxfail, Now(), finals, failed0)
        invariant Now() == AfterAll(maxfail, first, events[..n]) && (n == 0 ==> !stopped)
        invariant OnlyLast(first) && OnlyAnswers(events) ==> OnlyLast(Now())
        decreases |events| - n
      {
        AfterOneMore(maxfail, first, events, n);
        if OnlyLast(first) && OnlyAnswers(events) {
          StaysAlone(maxfail, Now(), events[n]);
        }
        finals := Turn(events[n], finals, failed0);
        n := n + 1;
      }
    }
  }

  /** With another batch unanswered, its success ends the last sync. */
  lemma OneSuccess(maxfail: nat, s: Ledger, n: nat, t: Ledger)
    requires s.pending != [] && s.batches != [] && !s.running && 0 < n <= 1
    requires t == AfterAll(maxfail, Begun(s), ONE_SUCCESS[..n])
    ensures t.stopped && HasFinal(t.batches)
  {
    var first := Begun(s);
    assert ONE_SUCCESS[..0] == [];
    AfterOneMore(maxfail, first, ONE_SUCCESS, 0);
    LastStays(first.batches, 0);
    assert t.batches[|first.batches| - 2].final;
  }

  lemma NoEvents(maxfail: nat, s: Ledger, events: seq<Event>)
    ensures AfterAll(maxfail, s, events[..0]) == s && Arrivals(events[..0]) == []
  {
  }

  /** What the event loop of the last sync leaves behind. */
  lemma LoopEnds(maxfail: nat, s: Ledger, events: seq<Event>, n: nat, t: Ledger)
    requires s.pending != [] && !s.running && n <= |events| && (n == 0 ==> events == []) && !HasFinal(s.batches)
    requires t == AfterAll(maxfail, Begun(s), events[..n])
    requires OnlyLast(Begun(s)) && OnlyAnswers(events) ==> OnlyLast(t)
    ensures t.accepted == s.accepted + Arrivals(events[..n])
    ensures s.batches == [] && OnlyAnswers(events) && t.stopped ==> t.pending == [] && t.batches == []
    ensures s.batches != [] && events == ONE_SUCCESS ==> t.stopped && HasFinal(t.batches) && n == 1
  {
    AfterAllArrivals(maxfail, Begun(s), events[..n]);
    if s.batches == [] {
      assert Begun(s).batches == [Batch(s.pending, true)];
    }
    if s.batches != [] && events == ONE_SUCCESS {
      OneSuccess(maxfail, s, n, t);
    }
  }

  lemma LastStays(batches: seq<Batch>, i: nat)
    requires i + 1 < |batches|
    ensures |Without(batches, i)| == |batches| - 1 && Without(batches, i)[|batches| - 2] == batches[|batches| - 1]
  {
  }

  lemma {:induction false} ArrivalsMore(events: seq<Event>, n: nat)
    requires n < |events|
    ensures Arrivals(events[..n + 1]) == Arrivals(events[..n]) + if events[n].Arrives? then [events[n].update] else []
  {
    if n > 0 {
      ArrivalsMore(events[1..], n - 1);
      assert events[..n + 1][1..] == events[1..][..n] && events[..n][1..] == events[1..][..n - 1];
    }
  }

  lemma AcceptsArrivals(maxfail: nat, s: Ledger, e: Event)
    ensures After(maxfail, s, e).accepted == s.accepted + if e.Arrives? then [e.update] else []
  {
  }

  /** What arrives is accepted, and nothing else. */
  lemma {:induction false} AfterAllArrivals(maxfail: nat, s: Ledger, events: seq<Event>)
    ensures AfterAll(maxfail, s, events).accepted == s.accepted + Arrivals(events)
    ensures AfterAll(maxfail, s, []) == s
  {
    if events != [] {
      var n := |events| - 1;
      AfterAllArrivals(maxfail, s, events[..n]);
      AcceptsArrivals(maxfail, AfterAll(maxfail, s, events[..n]), events[n]);
      ArrivalsMore(events, n);
      assert events[..n + 1] == events;
    }
  }

  /** Every update that arrived is as often committed, given up, lost or in flight. */
  ghost predicate Accounted(w: Updater)
    reads w
  {
    forall u {:trigger Queued(u, w.accepted)} ::
      Queued(u, w.accepted)
          == Queued(u, w.committed) + Queued(u, w.discarded) + Queued(u, w.lost) + Flying(u, w.batches)
  }

  lemma ValidAccounted(w: Updater)
    requires w.Valid() && w.pending == []
    ensures Accounted(w)
  {
    forall u
      ensures Queued(u, w.accepted)
              == Queued(u, w.committed) + Queued(u, w.discarded) + Queued(u, w.lost) + Flying(u, w.batches)
    {
      assert w.Tallied(u, []);
    }
  }

  /**
   * A worker's whole life: its event loop, the last sync in a loop of its own, and the queue freed.
   * In every history that ends, no update vanishes, only more failures in a row than allowed make it
   * give one up, and it tries no more often than that to write the last ones.  If the second loop only has
   * answers, nothing is lost; and whatever the answers, nothing is left in flight, if and only if no batch was
   * unanswered when the first loop was broken: with one, a single success ends it all too early.
   */
  method Life(maxfail: nat, main: seq<Event>, last: seq<Event>)
    returns (w: Updater, broken: bool, ended: bool, idle: bool, n: nat, k: nat)
    ensures w.Valid() && w.maxfail == maxfail && n <= |main| && k <= |last|
    ensures w.accepted == Arrivals(main[..n]) + Arrivals(last[..k])
    ensures w.discarded != [] ==> exists i: nat :: FailedRow(w.answers, maxfail, i)
    ensures w.attempts <= maxfail + 1
    ensures ended ==> w.freed && !w.running && w.pending == [] && Accounted(w)
    ensures ended && idle && OnlyAnswers(last) ==> w.lost == [] && w.batches == []
    ensures broken && !idle && last == ONE_SUCCESS ==> ended && w.batches != []
  {
    w := new Updater(maxfail);
    n := w.Run(main);
    broken, ended, idle, k := w.stopped, false, w.batches == [], 0;
    assert last[..0] == [];
    if w.stopped {
      ended, k := Finish(w, last);
    }
  }

  /** The end of a worker: the last sync, and the queue freed when that is over. */
  method Finish(w: Updater, last: seq<Event>) returns (ended: bool, k: nat)
    requires w.Valid() && !w.freed && !w.running && w.stopped && NoneFinal(w.Now())
    modifies w
    ensures w.Valid() && k <= |last| && w.accepted == old(w.accepted) + Arrivals(last[..k])
    ensures w.attempts <= w.maxfail + 1
    ensures ended ==> w.freed && !w.running && w.pending == [] && Accounted(w)
    ensures ended && old(w.batches) == [] && OnlyAnswers(last) ==> w.lost == [] && w.batches == []
    ensures old(w.batches) != [] && last == ONE_SUCCESS ==> ended && w.batches != []
  {
    var finals;
    finals, k := w.FinalSync(last);
    ended := w.stopped;
    if ended {
      w.Free();
      ValidAccounted(w);
    }
  }

  /** The answer to an older batch ends the last sync, and the last updates stay unanswered. */
  method LastSyncCutShort(u: Update) returns (w: Updater)
    ensures w.Valid() && w.stopped && HasFinal(w.batches)
  {
    w := new Updater(1);
    w.Accept(u);
    assert w.pending == [u];
    w.Sync();
    w.Accept(u);
    w.Break();
    var finals, n := w.FinalSync(ONE_SUCCESS);
  }

  /** A last sync begun while an ordinary batch is still in flight. */
  method LastSyncBesideAnother(u: Update) returns (w: Updater)
    ensures fresh(w) && w.Valid() && w.maxfail == 1 && w.running && !w.freed && !w.stopped && w.failed == 0
    ensures w.pending == [] && w.batches == [Batch([u], false), Batch([u], true)] && w.attempts == 1
  {
    w := new Updater(1);
    w.Accept(u);
    assert w.pending == [u];
    w.Sync();
    w.Accept(u);
    assert w.pending == [u];
    var sent := w.Process(true);
  }

  /**
   * A worker that still counted as running could make one attempt more: another batch's success resets
   * the counter and the loop goes on.
   */
  method RunningWorkerTriesOnceMore(u: Update) returns (w: Updater)
    ensures w.running && !w.stopped && w.attempts == w.maxfail + 2
  {
    w := LastSyncBesideAnother(u);
    w.Answer(1, false);
    w.Answer(0, true);
    w.Answer(0, false);
  }
}
