/**
 * The older detector engine of event/DetectorImpl.kt, modelled sequentially.
 *
 * As in the newer engine, a detector keeps a table of pending entries, each with a response
 * channel (an id; `closed` and `inbox` as in module Trials). The differences:
 *  - every entry waits on one trial basis, and a firing of a trial skips the entries of other
 *    bases without answering them;
 *  - an entry whose synchronous evaluation fails is answered `null` during the scan;
 *  - the launched evaluations race for an AtomicBoolean gate: only the first to finish
 *    (`compareAndSet(false, true)`) answers its entry, with its awaited value even when that is
 *    `null`, and runs the event when it is not.
 */
module LegacyDetection {
  import opened Wrappers
  import opened Scheduling
  import opened Trials

  /** A pending detection or request: `basis` is the id of the trial basis it waits on. */
  datatype TrialEntry<T> = TrialEntry(isRequest: bool, input: Option<T>, basis: nat, channel: nat)

  /**
   * A trial's result supplier: a detector trial's is given the entry's input, a requester
   * trial's also whether the entry is a request.
   */
  datatype Supplier<!T, R> =
    | DetectorSupplier(supplyIn: Option<T> -> Outcome<R>)
    | RequesterSupplier(supplyRequestIn: (Option<T>, bool) -> Outcome<R>)

  datatype Kind = Detector | Requester

  /** An evaluation launched by a firing: the channel of its entry and the value it awaited. */
  datatype Spawn<R> = Spawn(channel: nat, awaited: Option<R>)

  /** One firing: the index of the trial that fired, its supplier and the scheduler's picks. */
  datatype Firing<!T, R> = Firing(trial: nat, supplier: Supplier<T, R>, picks: seq<nat>)

  // ---------------------------------------------------------------------------------------
  // One firing, as functions of the table before it

  /**
   * `runTests` of both subclasses for an entry, or for the default entry (`None`): the supplier
   * sees the entry's input, and a requester's supplier whether the entry is a request.
   */
  function RunTests<T, R>(supplier: Supplier<T, R>, entry: Option<TrialEntry<T>>): Outcome<R>
  {
    var input := if entry.Some? then entry.value.input else None;
    match supplier
    case DetectorSupplier(supplyIn) => supplyIn(input)
    case RequesterSupplier(supplyRequestIn) => supplyRequestIn(input, entry.Some? && entry.value.isRequest)
  }

  /** The default entry has no input and is no request; a detector's supplier ignores the request flag. */
  lemma DefaultEntryArguments<T, R>(supplier: Supplier<T, R>, e: TrialEntry<T>)
    ensures supplier.DetectorSupplier? ==> RunTests(supplier, None) == supplier.supplyIn(None)
    ensures supplier.RequesterSupplier? ==> RunTests(supplier, None) == supplier.supplyRequestIn(None, false)
    ensures supplier.DetectorSupplier? ==>
              RunTests(supplier, Some(e)) == RunTests(supplier, Some(e.(isRequest := !e.isRequest)))
  {
  }

  predicate ChannelsDistinct<T>(entries: seq<TrialEntry<T>>)
  {
    forall i, j :: 0 <= i < j < |entries| ==> entries[i].channel != entries[j].channel
  }

  /** The table after a scan: the entries whose channel is still open, in their order. */
  function Prune<T>(entries: seq<TrialEntry<T>>, closed: set<nat>): (kept: seq<TrialEntry<T>>)
    ensures |kept| <= |entries|
  {
    if entries == [] then []
    else
      var last := entries[|entries| - 1];
      Prune(entries[..|entries| - 1], closed) + (if last.channel in closed then [] else [last])
  }

  /** The entries a firing of a trial with `basis` evaluates: open, and waiting on that basis. */
  function Considered<T>(entries: seq<TrialEntry<T>>, closed: set<nat>, basis: nat): seq<TrialEntry<T>>
  {
    if entries == [] then []
    else
      var last := entries[|entries| - 1];
      Considered(entries[..|entries| - 1], closed, basis) +
      (if last.channel !in closed && last.basis == basis then [last] else [])
  }

  /** The `null`s the scan sends to channel c: one per considered entry of c whose evaluation failed. */
  function NullSends<T, R>(considered: seq<TrialEntry<T>>, supplier: Supplier<T, R>, c: nat): seq<Option<R>>
  {
    if considered == [] then []
    else
      var last := considered[|considered| - 1];
      NullSends(considered[..|considered| - 1], supplier, c) + NullSend(last, supplier, c)
  }

  /** What the scan sends to channel c for one considered entry: `null` when it is c's entry and failed. */
  function NullSend<T, R>(e: TrialEntry<T>, supplier: Supplier<T, R>, c: nat): seq<Option<R>>
  {
    if e.channel == c && RunTests(supplier, Some(e)).Fail? then [None] else []
  }

  /** The inbox after the scan answers one considered entry: `null` is sent to it when its evaluation failed. */
  function AnswerFailure<T, R>(inbox: map<nat, seq<Option<R>>>, e: TrialEntry<T>, supplier: Supplier<T, R>): map<nat, seq<Option<R>>>
  {
    if RunTests(supplier, Some(e)).Fail? then inbox[e.channel := Received(inbox, e.channel) + [None]] else inbox
  }

  /** The inbox after the scan has answered the failed evaluations of `considered`, in order. */
  function AnswerFailures<T, R>(inbox: map<nat, seq<Option<R>>>, considered: seq<TrialEntry<T>>, supplier: Supplier<T, R>)
    : map<nat, seq<Option<R>>>
  {
    if considered == [] then inbox
    else AnswerFailure(AnswerFailures(inbox, considered[..|considered| - 1], supplier), considered[|considered| - 1], supplier)
  }

  /** The evaluations the scan launches, in table order: the considered entries whose evaluation did not fail. */
  function Spawned<T, R>(considered: seq<TrialEntry<T>>, supplier: Supplier<T, R>): seq<Spawn<R>>
  {
    if considered == [] then []
    else
      var last := considered[|considered| - 1];
      Spawned(considered[..|considered| - 1], supplier) + Launch(last, supplier)
  }

  /** What evaluating one considered entry launches: nothing when it failed, else one evaluation. */
  function Launch<T, R>(e: TrialEntry<T>, supplier: Supplier<T, R>): seq<Spawn<R>>
  {
    match RunTests(supplier, Some(e))
    case Fail => []
    case Deferred(awaited) => [Spawn(e.channel, awaited)]
  }

  /** The launched evaluation that passes the gate: the first to finish, if any was launched. */
  function Winner<R>(spawned: seq<Spawn<R>>, picks: seq<nat>): Option<Spawn<R>>
  {
    if spawned == [] then None else Some(spawned[FiringOrder(picks, |spawned|)[0]])
  }

  /** What the winner sends to channel c. */
  function WinnerSend<R>(winner: Option<Spawn<R>>, c: nat): seq<Option<R>>
  {
    if winner.Some? && winner.value.channel == c then [winner.value.awaited] else []
  }

  /** The inbox after the winner answers its entry with its awaited value. */
  function AnswerWinner<R>(inbox: map<nat, seq<Option<R>>>, winner: Option<Spawn<R>>): map<nat, seq<Option<R>>>
  {
    if winner.Some? then inbox[winner.value.channel := Received(inbox, winner.value.channel) + [winner.value.awaited]]
    else inbox
  }

  /** The event's runs for a firing of a non-empty table: the winner's awaited value, if non-null. */
  function WinnerEvent<R>(winner: Option<Spawn<R>>): seq<R>
  {
    if winner.Some? then Emitted(winner.value.awaited) else []
  }

  // ---------------------------------------------------------------------------------------
  // Waiting on a channel, as functions of the table when the wait begins

  /** Everything one firing of a trial with `basis` sends to channel c: its `null`s, then the winner's value. */
  function FiringSends<T, R>(entries: seq<TrialEntry<T>>, closed: set<nat>, basis: nat, supplier: Supplier<T, R>,
                             picks: seq<nat>, c: nat): seq<Option<R>>
  {
    var cs := Considered(entries, closed, basis);
    NullSends(cs, supplier, c) + WinnerSend(Winner(Spawned(cs, supplier), picks), c)
  }

  /**
   * What channel c is sent during one receive over the firings of `window`, each firing of
   * trial k on basis `bases[k]`: the sends of the first firing that sends c anything, or
   * nothing when no firing of the window does. A firing of no trial (an index past `bases`)
   * sends nothing.
   */
  function WindowSends<T, R>(entries: seq<TrialEntry<T>>, closed: set<nat>, bases: seq<nat>,
                             window: seq<Firing<T, R>>, c: nat): seq<Option<R>>
  {
    if window == [] then []
    else
      var f := window[0];
      var sends := if f.trial < |bases| then FiringSends(entries, closed, bases[f.trial], f.supplier, f.picks, c) else [];
      if sends != [] then sends else WindowSends(entries, closed, bases, window[1..], c)
  }

  /** What one receive returns: the first value sent, or `null` when the timeout comes first. */
  function Got<R>(sends: seq<Option<R>>): Option<R>
  {
    if sends == [] then None else sends[0]
  }

  /**
   * The result of waiting on channel c attempt by attempt, one window per attempt: the value
   * of the first attempt that receives a non-null value, or `null` when every attempt ends
   * with `null`.
   */
  function Awaited<T, R>(entries: seq<TrialEntry<T>>, closed: set<nat>, bases: seq<nat>,
                         windows: seq<seq<Firing<T, R>>>, c: nat): Option<R>
  {
    if windows == [] then None
    else
      var got := Got(WindowSends(entries, closed, bases, windows[0], c));
      if got.Some? then got else Awaited(entries, closed, bases, windows[1..], c)
  }

  // ---------------------------------------------------------------------------------------
  // The detail's state across a wait

  /** What firings change in a detector: the table, every channel's history and the event log. */
  datatype DetailState<T, R> = DetailState(entries: seq<TrialEntry<T>>, inbox: map<nat, seq<Option<R>>>, events: seq<R>)

  /**
   * The state after one firing on trials with `bases`: with an empty table the event runs
   * with the default entry's awaited value, if non-null; otherwise the scan prunes the table,
   * answers the failed evaluations with `null`, the winner answers its entry and the event runs
   * with the winner's value, if non-null. A firing of no trial changes nothing.
   */
  function AfterFiring<T, R>(s: DetailState<T, R>, closed: set<nat>, bases: seq<nat>, f: Firing<T, R>): DetailState<T, R>
  {
    if f.trial >= |bases| then s
    else if s.entries == [] then DetailState([], s.inbox, s.events + Emitted(Response(RunTests(f.supplier, None))))
    else
      var cs := Considered(s.entries, closed, bases[f.trial]);
      var winner := Winner(Spawned(cs, f.supplier), f.picks);
      DetailState(Prune(s.entries, closed), AnswerWinner(AnswerFailures(s.inbox, cs, f.supplier), winner),
                  s.events + WinnerEvent(winner))
  }

  /**
   * The state after a receive on channel c over the firings of `window`: the firings run up
   * to and including the first that sends c anything.
   */
  function AfterReceive<T, R>(s: DetailState<T, R>, closed: set<nat>, bases: seq<nat>,
                              window: seq<Firing<T, R>>, c: nat): DetailState<T, R>
    decreases |window|
  {
    if window == [] then s
    else
      var f := window[0];
      var next := AfterFiring(s, closed, bases, f);
      var sends := if f.trial < |bases| then FiringSends(Prune(s.entries, closed), closed, bases[f.trial], f.supplier, f.picks, c) else [];
      if sends != [] then next else AfterReceive(next, closed, bases, window[1..], c)
  }

  /**
   * The state after waiting on channel c attempt by attempt, one window per attempt: the
   * receives run up to and including the first that gets a non-null value.
   */
  function AfterAwait<T, R>(s: DetailState<T, R>, closed: set<nat>, bases: seq<nat>,
                            windows: seq<seq<Firing<T, R>>>, c: nat): DetailState<T, R>
    decreases |windows|
  {
    if windows == [] then s
    else
      var next := AfterReceive(s, closed, bases, windows[0], c);
      if Got(WindowSends(Prune(s.entries, closed), closed, bases, windows[0], c)).Some? then next
      else AfterAwait(next, closed, bases, windows[1..], c)
  }

  // ---------------------------------------------------------------------------------------
  // Properties of a firing

  /** A scan keeps exactly the entries whose channel is open. */
  lemma {:induction false} PruneKeepsExactlyOpen<T>(entries: seq<TrialEntry<T>>, closed: set<nat>, e: TrialEntry<T>)
    ensures e in Prune(entries, closed) <==> e in entries && e.channel !in closed
  {
    if entries != [] {
      var init := entries[..|entries| - 1];
      PruneKeepsExactlyOpen(init, closed, e);
      assert entries == init + [entries[|entries| - 1]];
    }
  }

  /** A firing evaluates exactly the open entries of its trial's basis. */
  lemma {:induction false} ConsideredExactly<T>(entries: seq<TrialEntry<T>>, closed: set<nat>, basis: nat, e: TrialEntry<T>)
    ensures e in Considered(entries, closed, basis) <==> e in entries && e.channel !in closed && e.basis == basis
  {
    if entries != [] {
      var init := entries[..|entries| - 1];
      ConsideredExactly(init, closed, basis, e);
      assert entries == init + [entries[|entries| - 1]];
    }
  }

  /** Pruning keeps the channels of the table distinct. */
  lemma {:induction false} PruneDistinct<T>(entries: seq<TrialEntry<T>>, closed: set<nat>)
    requires ChannelsDistinct(entries)
    ensures ChannelsDistinct(Prune(entries, closed))
  {
    if entries != [] {
      var init := entries[..|entries| - 1];
      var last := entries[|entries| - 1];
      assert ChannelsDistinct(init);
      PruneDistinct(init, closed);
      forall e | e in Prune(init, closed) ensures e.channel != last.channel {
        PruneKeepsExactlyOpen(init, closed, e);
      }
    }
  }

  /** The considered entries have distinct channels. */
  lemma {:induction false} ConsideredDistinct<T>(entries: seq<TrialEntry<T>>, closed: set<nat>, basis: nat)
    requires ChannelsDistinct(entries)
    ensures ChannelsDistinct(Considered(entries, closed, basis))
  {
    if entries != [] {
      var init := entries[..|entries| - 1];
      var last := entries[|entries| - 1];
      assert ChannelsDistinct(init);
      ConsideredDistinct(init, closed, basis);
      forall e | e in Considered(init, closed, basis) ensures e.channel != last.channel {
        ConsideredExactly(init, closed, basis, e);
      }
    }
  }

  /** The scan keeps the table's channels distinct and below `bound`, and launches only open channels below it. */
  lemma ScanBounds<T, R>(orig: seq<TrialEntry<T>>, closed: set<nat>, basis: nat, supplier: Supplier<T, R>, bound: nat)
    requires ChannelsDistinct(orig)
    requires forall k :: 0 <= k < |orig| ==> orig[k].channel < bound
    ensures ChannelsDistinct(Prune(orig, closed))
    ensures forall k :: 0 <= k < |Prune(orig, closed)| ==> Prune(orig, closed)[k].channel < bound
    ensures forall k :: 0 <= k < |Considered(orig, closed, basis)| ==> Considered(orig, closed, basis)[k].channel < bound
    ensures forall k :: 0 <= k < |Spawned(Considered(orig, closed, basis), supplier)| ==>
              && Spawned(Considered(orig, closed, basis), supplier)[k].channel !in closed
              && Spawned(Considered(orig, closed, basis), supplier)[k].channel < bound
  {
    PruneDistinct(orig, closed);
    var kept := Prune(orig, closed);
    forall k | 0 <= k < |kept| ensures kept[k].channel < bound {
      PruneKeepsExactlyOpen(orig, closed, kept[k]);
    }
    var considered := Considered(orig, closed, basis);
    forall k | 0 <= k < |considered| ensures considered[k].channel < bound {
      ConsideredExactly(orig, closed, basis, considered[k]);
    }
    var spawned := Spawned(Considered(orig, closed, basis), supplier);
    forall k | 0 <= k < |spawned| ensures spawned[k].channel !in closed && spawned[k].channel < bound {
      SpawnedFromConsidered(Considered(orig, closed, basis), supplier, k);
      var e :| e in Considered(orig, closed, basis) && e.channel == spawned[k].channel &&
               RunTests(supplier, Some(e)) == Deferred(spawned[k].awaited);
      ConsideredExactly(orig, closed, basis, e);
    }
  }

  /** During the scan the entry at the cursor is the next entry of the original table. */
  lemma ScanAt<T>(orig: seq<TrialEntry<T>>, j: nat, closed: set<nat>, table: seq<TrialEntry<T>>)
    requires j < |orig| && table == Prune(orig[..j], closed) + orig[j..]
    ensures |Prune(orig[..j], closed)| < |table| && table[|Prune(orig[..j], closed)|] == orig[j]
  {
  }

  /** The table prefix up to j + 1, as Prune computes it from the prefix up to j. */
  lemma PruneNext<T>(orig: seq<TrialEntry<T>>, j: nat, closed: set<nat>)
    requires j < |orig|
    ensures Prune(orig[..j + 1], closed) == Prune(orig[..j], closed) + (if orig[j].channel in closed then [] else [orig[j]])
  {
    assert orig[..j + 1][..j] == orig[..j];
  }

  /** A closed entry at the cursor is removed from the table. */
  lemma ScanDrop<T>(orig: seq<TrialEntry<T>>, j: nat, closed: set<nat>, table: seq<TrialEntry<T>>, i: nat)
    requires j < |orig| && table == Prune(orig[..j], closed) + orig[j..]
    requires i == |Prune(orig[..j], closed)| && orig[j].channel in closed
    ensures i < |table|
    ensures table[..i] + table[i + 1..] == Prune(orig[..j + 1], closed) + orig[j + 1..]
    ensures i == |Prune(orig[..j + 1], closed)|
  {
    PruneNext(orig, j, closed);
    assert orig[j..] == [orig[j]] + orig[j + 1..];
    assert table[..i] == Prune(orig[..j], closed);
    assert table[i + 1..] == orig[j + 1..];
  }

  /** An open entry at the cursor stays in the table and the cursor moves past it. */
  lemma ScanKeep<T>(orig: seq<TrialEntry<T>>, j: nat, closed: set<nat>, table: seq<TrialEntry<T>>, i: nat)
    requires j < |orig| && table == Prune(orig[..j], closed) + orig[j..]
    requires i == |Prune(orig[..j], closed)| && orig[j].channel !in closed
    ensures table == Prune(orig[..j + 1], closed) + orig[j + 1..]
    ensures i + 1 == |Prune(orig[..j + 1], closed)|
  {
    PruneNext(orig, j, closed);
    assert orig[j..] == [orig[j]] + orig[j + 1..];
    assert table == (Prune(orig[..j], closed) + [orig[j]]) + orig[j + 1..];
  }

  /** The considered entries of the prefix up to j + 1, from those of the prefix up to j. */
  lemma ConsideredNext<T>(orig: seq<TrialEntry<T>>, j: nat, closed: set<nat>, basis: nat)
    requires j < |orig|
    ensures orig[j].channel !in closed && orig[j].basis == basis ==>
              Considered(orig[..j + 1], closed, basis) == Considered(orig[..j], closed, basis) + [orig[j]]
    ensures orig[j].channel in closed || orig[j].basis != basis ==>
              Considered(orig[..j + 1], closed, basis) == Considered(orig[..j], closed, basis)
  {
    assert orig[..j + 1][..j] == orig[..j];
    assert Considered(orig[..j], closed, basis) + [] == Considered(orig[..j], closed, basis);
  }

  /**
   * One open entry of the scan: what considering it (when it waits on `basis`) answers and
   * launches extends the answers and launches of the entries before it.
   */
  lemma ConsiderStep<T, R>(orig: seq<TrialEntry<T>>, j: nat, closed: set<nat>, basis: nat, supplier: Supplier<T, R>,
                           before: map<nat, seq<Option<R>>>, mid: map<nat, seq<Option<R>>>, after: map<nat, seq<Option<R>>>,
                           spawned: seq<Spawn<R>>, launched: seq<Spawn<R>>)
    requires j < |orig| && orig[j].channel !in closed
    requires mid == AnswerFailures(before, Considered(orig[..j], closed, basis), supplier)
    requires after == if orig[j].basis == basis then AnswerFailure(mid, orig[j], supplier) else mid
    requires spawned == Spawned(Considered(orig[..j], closed, basis), supplier)
    requires launched == if orig[j].basis == basis then Launch(orig[j], supplier) else []
    ensures after == AnswerFailures(before, Considered(orig[..j + 1], closed, basis), supplier)
    ensures spawned + launched == Spawned(Considered(orig[..j + 1], closed, basis), supplier)
  {
    var e := orig[j];
    var cs := Considered(orig[..j], closed, basis);
    ConsideredNext(orig, j, closed, basis);
    if e.basis == basis {
      var next := cs + [e];
      assert next[..|next| - 1] == cs && next[|next| - 1] == e;
    } else {
      assert spawned + [] == spawned;
    }
  }

  /** Each channel of the answered inbox holds what it held before, then the scan's `null`s for it. */
  lemma {:induction false} AnswerFailuresReceived<T, R>(inbox: map<nat, seq<Option<R>>>, considered: seq<TrialEntry<T>>,
                                                        supplier: Supplier<T, R>, c: nat)
    ensures Received(AnswerFailures(inbox, considered, supplier), c) == Received(inbox, c) + NullSends(considered, supplier, c)
  {
    if considered == [] {
      assert Received(inbox, c) + [] == Received(inbox, c);
    } else {
      var init := considered[..|considered| - 1];
      var last := considered[|considered| - 1];
      AnswerFailuresReceived(inbox, init, supplier, c);
      assert (Received(inbox, c) + NullSends(init, supplier, c)) + NullSend(last, supplier, c)
          == Received(inbox, c) + (NullSends(init, supplier, c) + NullSend(last, supplier, c));
    }
  }

  /** Each channel's responses from one firing of a non-empty table: the scan's `null`s for it, then the winner's answer. */
  lemma FiringReceived<T, R>(inbox: map<nat, seq<Option<R>>>, considered: seq<TrialEntry<T>>, supplier: Supplier<T, R>,
                             winner: Option<Spawn<R>>, c: nat)
    ensures Received(AnswerWinner(AnswerFailures(inbox, considered, supplier), winner), c) ==
            Received(inbox, c) + NullSends(considered, supplier, c) + WinnerSend(winner, c)
  {
    AnswerFailuresReceived(inbox, considered, supplier, c);
    var scanned := AnswerFailures(inbox, considered, supplier);
    assert Received(AnswerWinner(scanned, winner), c) == Received(scanned, c) + WinnerSend(winner, c);
  }

  /** Answering adds no channel beyond those of the considered entries. */
  lemma {:induction false} AnswerFailuresKeys<T, R>(inbox: map<nat, seq<Option<R>>>, considered: seq<TrialEntry<T>>,
                                                    supplier: Supplier<T, R>, bound: nat)
    requires forall c :: c in inbox ==> c < bound
    requires forall k :: 0 <= k < |considered| ==> considered[k].channel < bound
    ensures forall c :: c in AnswerFailures(inbox, considered, supplier) ==> c < bound
  {
    if considered != [] {
      AnswerFailuresKeys(inbox, considered[..|considered| - 1], supplier, bound);
    }
  }

  /** Every launched evaluation comes from a considered entry and carries that entry's awaited value. */
  lemma {:induction false} SpawnedFromConsidered<T, R>(considered: seq<TrialEntry<T>>, supplier: Supplier<T, R>, k: nat)
    requires k < |Spawned(considered, supplier)|
    ensures exists e :: e in considered && e.channel == Spawned(considered, supplier)[k].channel &&
                        RunTests(supplier, Some(e)) == Deferred(Spawned(considered, supplier)[k].awaited)
  {
    var init := considered[..|considered| - 1];
    var last := considered[|considered| - 1];
    assert considered == init + [last];
    if k < |Spawned(init, supplier)| {
      SpawnedFromConsidered(init, supplier, k);
      var e :| e in init && e.channel == Spawned(init, supplier)[k].channel &&
               RunTests(supplier, Some(e)) == Deferred(Spawned(init, supplier)[k].awaited);
      assert e in considered;
    } else {
      assert last in considered;
    }
  }

  /** A channel without a considered entry is sent nothing by the scan and answered by no launched evaluation. */
  lemma {:induction false} NoEntryNoSends<T, R>(considered: seq<TrialEntry<T>>, supplier: Supplier<T, R>, c: nat)
    requires forall e :: e in considered ==> e.channel != c
    ensures NullSends(considered, supplier, c) == []
    ensures forall k :: 0 <= k < |Spawned(considered, supplier)| ==> Spawned(considered, supplier)[k].channel != c
  {
    forall k | 0 <= k < |Spawned(considered, supplier)| ensures Spawned(considered, supplier)[k].channel != c {
      SpawnedFromConsidered(considered, supplier, k);
    }
    if considered != [] {
      var init := considered[..|considered| - 1];
      assert considered == init + [considered[|considered| - 1]];
      NoEntryNoSends(init, supplier, c);
    }
  }

  /**
   * With distinct channels, the scan sends at most one `null` to a channel, and none to a
   * channel that a launched evaluation answers.
   */
  lemma {:induction false} NullSendsOfChannel<T, R>(considered: seq<TrialEntry<T>>, supplier: Supplier<T, R>, c: nat)
    requires ChannelsDistinct(considered)
    ensures |NullSends(considered, supplier, c)| <= 1
    ensures NullSends(considered, supplier, c) != [] ==>
              forall k :: 0 <= k < |Spawned(considered, supplier)| ==> Spawned(considered, supplier)[k].channel != c
  {
    if considered != [] {
      var init := considered[..|considered| - 1];
      var last := considered[|considered| - 1];
      assert considered == init + [last];
      assert ChannelsDistinct(init);
      if last.channel == c {
        forall e | e in init ensures e.channel != c {
          var i :| 0 <= i < |init| && init[i] == e;
          assert considered[i] == e;
        }
        NoEntryNoSends(init, supplier, c);
      } else {
        NullSendsOfChannel(init, supplier, c);
      }
    }
  }

  /** The launched evaluations answer distinct channels. */
  lemma {:induction false} SpawnedDistinct<T, R>(considered: seq<TrialEntry<T>>, supplier: Supplier<T, R>)
    requires ChannelsDistinct(considered)
    ensures var sp := Spawned(considered, supplier);
            forall i, j :: 0 <= i < j < |sp| ==> sp[i].channel != sp[j].channel
  {
    if considered != [] {
      var init := considered[..|considered| - 1];
      var last := considered[|considered| - 1];
      assert considered == init + [last];
      assert ChannelsDistinct(init);
      SpawnedDistinct(init, supplier);
      forall e | e in init ensures e.channel != last.channel {
        var i :| 0 <= i < |init| && init[i] == e;
        assert considered[i] == e;
      }
      var before := Spawned(init, supplier);
      forall k | 0 <= k < |before| ensures before[k].channel != last.channel {
        SpawnedFromConsidered(init, supplier, k);
        var e :| e in init && e.channel == before[k].channel &&
                 RunTests(supplier, Some(e)) == Deferred(before[k].awaited);
      }
      var sp := Spawned(considered, supplier);
      forall i, j | 0 <= i < j < |sp| ensures sp[i].channel != sp[j].channel {
        assert sp[i] == before[i];
        if j < |before| {
          assert sp[j] == before[j];
        }
      }
    }
  }

  /** A channel receives at most one response per firing, from the scan or from the winner. */
  lemma AtMostOneResponsePerFiring<T, R>(entries: seq<TrialEntry<T>>, closed: set<nat>, basis: nat,
                                         supplier: Supplier<T, R>, picks: seq<nat>, c: nat)
    requires ChannelsDistinct(entries)
    ensures |FiringSends(entries, closed, basis, supplier, picks, c)| <= 1
  {
    var cs := Considered(entries, closed, basis);
    ConsideredDistinct(entries, closed, basis);
    NullSendsOfChannel(cs, supplier, c);
  }

  /**
   * Within one firing only the winner's entry is answered by a launched evaluation: every other
   * launched evaluation sends nothing.
   */
  lemma OnlyWinnerAnswers<T, R>(entries: seq<TrialEntry<T>>, closed: set<nat>, basis: nat,
                                supplier: Supplier<T, R>, picks: seq<nat>)
    requires ChannelsDistinct(entries)
    ensures var sp := Spawned(Considered(entries, closed, basis), supplier);
            forall m :: 0 <= m < |sp| ==>
              (WinnerSend(Winner(sp, picks), sp[m].channel) != [] <==> m == FiringOrder(picks, |sp|)[0])
  {
    ConsideredDistinct(entries, closed, basis);
    SpawnedDistinct(Considered(entries, closed, basis), supplier);
  }

  /** Any launched evaluation can be the winner: some scheduling lets it finish first. */
  lemma EveryEvaluationCanWin<R>(spawned: seq<Spawn<R>>, m: nat) returns (picks: seq<nat>)
    requires m < |spawned|
    ensures Winner(spawned, picks) == Some(spawned[m])
  {
    var all := Range(|spawned|);
    var order := [m] + Without(all, m);
    assert multiset(order) == multiset{m} + multiset(Without(all, m));
    picks := EveryOrderIsReachable(order, all);
    assert FiringOrder(picks, |spawned|) == order;
  }

  /**
   * The gate goes to the first finisher even when it awaited `null`: then no event runs, although
   * another launched evaluation awaited a value. Unlike in the newer engine, whether the event
   * runs depends on the scheduling.
   */
  lemma NullWinnerSuppressesEvent<R>(c1: nat, c2: nat, v: R) returns (lost: seq<nat>, won: seq<nat>)
    ensures WinnerEvent(Winner([Spawn(c1, None), Spawn(c2, Some(v))], lost)) == []
    ensures WinnerSend(Winner([Spawn(c1, None), Spawn(c2, Some(v))], lost), c1) == [None]
    ensures WinnerEvent(Winner([Spawn(c1, None), Spawn(c2, Some(v))], won)) == [v]
  {
    var sp := [Spawn(c1, None), Spawn(c2, Some(v))];
    lost := EveryEvaluationCanWin(sp, 0);
    won := EveryEvaluationCanWin(sp, 1);
  }

  // ---------------------------------------------------------------------------------------
  // Properties of waiting

  /** A scan keeps exactly the open entries, for all entries at once. */
  lemma PruneMembers<T>(entries: seq<TrialEntry<T>>, closed: set<nat>)
    ensures forall x :: x in Prune(entries, closed) <==> x in entries && x.channel !in closed
  {
    forall x ensures x in Prune(entries, closed) <==> x in entries && x.channel !in closed {
      PruneKeepsExactlyOpen(entries, closed, x);
    }
  }

  /**
   * What a firing's handler leaves in channel c's inbox is what c had plus what the firing
   * sends c on the table the scan leaves; an empty table sends nothing.
   */
  lemma FiredReceived<T, R>(inbox: map<nat, seq<Option<R>>>, table: seq<TrialEntry<T>>, closed: set<nat>, basis: nat,
                            supplier: Supplier<T, R>, picks: seq<nat>, c: nat)
    ensures table == [] ==> FiringSends(Prune(table, closed), closed, basis, supplier, picks, c) == []
    ensures table != [] ==>
              var cs := Considered(table, closed, basis);
              Received(AnswerWinner(AnswerFailures(inbox, cs, supplier), Winner(Spawned(cs, supplier), picks)), c) ==
              Received(inbox, c) + FiringSends(Prune(table, closed), closed, basis, supplier, picks, c)
  {
    if table == [] {
      assert Considered(Prune(table, closed), closed, basis) == [];
    } else {
      FiredNonEmptyReceived(inbox, table, closed, basis, supplier, picks, c);
    }
  }

  /** FiredReceived for a non-empty table. */
  lemma FiredNonEmptyReceived<T, R>(inbox: map<nat, seq<Option<R>>>, table: seq<TrialEntry<T>>, closed: set<nat>, basis: nat,
                                    supplier: Supplier<T, R>, picks: seq<nat>, c: nat)
    ensures var cs := Considered(table, closed, basis);
            Received(AnswerWinner(AnswerFailures(inbox, cs, supplier), Winner(Spawned(cs, supplier), picks)), c) ==
            Received(inbox, c) + FiringSends(Prune(table, closed), closed, basis, supplier, picks, c)
  {
    var cs := Considered(table, closed, basis);
    var winner := Winner(Spawned(cs, supplier), picks);
    ConsideredOfPrune(table, closed, basis);
    assert FiringSends(Prune(table, closed), closed, basis, supplier, picks, c) ==
           NullSends(cs, supplier, c) + WinnerSend(winner, c);
    FiringReceived(inbox, cs, supplier, winner, c);
    ConcatAssociative(Received(inbox, c), NullSends(cs, supplier, c), WinnerSend(winner, c));
  }

  /** Pruning twice keeps what pruning once keeps: a scan of a scanned table removes nothing. */
  lemma {:induction false} PruneIdempotent<T>(entries: seq<TrialEntry<T>>, closed: set<nat>)
    ensures Prune(Prune(entries, closed), closed) == Prune(entries, closed)
  {
    if entries != [] {
      var init := entries[..|entries| - 1];
      var last := entries[|entries| - 1];
      var p := Prune(init, closed);
      PruneIdempotent(init, closed);
      if last.channel in closed {
        assert Prune(entries, closed) == p + [] == p;
      } else {
        assert Prune(entries, closed) == p + [last];
        assert (p + [last])[..|p + [last]| - 1] == p;
      }
    }
  }

  /** A firing evaluates the same entries of a table as of the table its scan leaves. */
  lemma {:induction false} ConsideredOfPrune<T>(entries: seq<TrialEntry<T>>, closed: set<nat>, basis: nat)
    ensures Considered(Prune(entries, closed), closed, basis) == Considered(entries, closed, basis)
  {
    if entries != [] {
      var init := entries[..|entries| - 1];
      var last := entries[|entries| - 1];
      var p := Prune(init, closed);
      ConsideredOfPrune(init, closed, basis);
      if last.channel in closed {
        assert Prune(entries, closed) == p + [] == p;
      } else {
        assert Prune(entries, closed) == p + [last];
        assert (p + [last])[..|p + [last]| - 1] == p;
      }
    }
  }

  /** A receive gets at most one response: the firing that sends c anything sends it one value. */
  lemma {:induction false} WindowSendsAtMostOne<T, R>(entries: seq<TrialEntry<T>>, closed: set<nat>, bases: seq<nat>,
                                                      window: seq<Firing<T, R>>, c: nat)
    requires ChannelsDistinct(entries)
    ensures |WindowSends(entries, closed, bases, window, c)| <= 1
  {
    if window != [] {
      var f := window[0];
      if f.trial < |bases| {
        AtMostOneResponsePerFiring(entries, closed, bases[f.trial], f.supplier, f.picks, c);
      }
      WindowSendsAtMostOne(entries, closed, bases, window[1..], c);
    }
  }

  /** A non-null result of waiting is what one attempt received, every earlier attempt receiving `null`. */
  lemma {:induction false} AwaitedAttempt<T, R>(entries: seq<TrialEntry<T>>, closed: set<nat>, bases: seq<nat>,
                                                windows: seq<seq<Firing<T, R>>>, c: nat) returns (w: nat)
    requires Awaited(entries, closed, bases, windows, c).Some?
    ensures w < |windows|
    ensures Awaited(entries, closed, bases, windows, c) == Got(WindowSends(entries, closed, bases, windows[w], c))
    ensures forall v :: 0 <= v < w ==> Got(WindowSends(entries, closed, bases, windows[v], c)) == None
  {
    var rest := windows[1..];
    if Got(WindowSends(entries, closed, bases, windows[0], c)).Some? {
      w := 0;
    } else {
      assert Awaited(entries, closed, bases, windows, c) == Awaited(entries, closed, bases, rest, c);
      var w1 := AwaitedAttempt(entries, closed, bases, rest, c);
      w := w1 + 1;
      assert forall v :: 0 < v <= w ==> windows[v] == rest[v - 1] by {
        assert forall v :: 0 < v < |windows| ==> windows[v] == rest[v - 1];
      }
    }
  }

  /** A firing of a one-entry table on its entry's basis sends that entry exactly what its evaluation gives. */
  lemma OneEntryFiring<T, R>(e: TrialEntry<T>, closed: set<nat>, supplier: Supplier<T, R>, picks: seq<nat>)
    requires e.channel !in closed
    ensures FiringSends([e], closed, e.basis, supplier, picks, e.channel) ==
            match RunTests(supplier, Some(e))
            case Fail => [None]
            case Deferred(awaited) => [awaited]
  {
    assert [e][..0] == [];
    assert Considered([e], closed, e.basis) == [e];
    assert NullSends([e], supplier, e.channel) == NullSend(e, supplier, e.channel);
    assert Spawned([e], supplier) == Launch(e, supplier);
    if RunTests(supplier, Some(e)).Deferred? {
      assert FiringOrder(picks, 1)[0] == 0;
    }
  }

  /** A receive by the only entry over one firing on its basis gets what the evaluation awaits, `null` if it failed. */
  lemma OneEntryReceive<T, R>(e: TrialEntry<T>, closed: set<nat>, bases: seq<nat>, f: Firing<T, R>)
    requires e.channel !in closed && f.trial < |bases| && bases[f.trial] == e.basis
    ensures Got(WindowSends([e], closed, bases, [f], e.channel)) == Response(RunTests(f.supplier, Some(e)))
  {
    OneEntryFiring(e, closed, f.supplier, f.picks);
    assert [f][1..] == [];
  }

  /** The state after a receive from firing k on: firing k, then the rest from k + 1 unless firing k sent c anything. */
  lemma AfterReceiveStep<T, R>(s: DetailState<T, R>, closed: set<nat>, bases: seq<nat>,
                               window: seq<Firing<T, R>>, k: nat, c: nat)
    requires k < |window| && window[k].trial < |bases|
    ensures var f := window[k];
            var next := AfterFiring(s, closed, bases, f);
            var sends := FiringSends(Prune(s.entries, closed), closed, bases[f.trial], f.supplier, f.picks, c);
            AfterReceive(s, closed, bases, window[k..], c) ==
            if sends != [] then next else AfterReceive(next, closed, bases, window[k + 1..], c)
  {
    assert window[k..][0] == window[k] && window[k..][1..] == window[k + 1..];
  }

  /** The state after waiting from attempt k on: attempt k, then the rest unless attempt k got a value. */
  lemma AfterAwaitStep<T, R>(s: DetailState<T, R>, closed: set<nat>, bases: seq<nat>,
                             windows: seq<seq<Firing<T, R>>>, k: nat, c: nat)
    requires k < |windows|
    ensures var next := AfterReceive(s, closed, bases, windows[k], c);
            AfterAwait(s, closed, bases, windows[k..], c) ==
            if Got(WindowSends(Prune(s.entries, closed), closed, bases, windows[k], c)).Some? then next
            else AfterAwait(next, closed, bases, windows[k + 1..], c)
  {
    assert windows[k..][0] == windows[k] && windows[k..][1..] == windows[k + 1..];
  }

  /**
   * During a receive on channel c, c is sent exactly the window's sends on the table as the
   * scan leaves it: the scans of the window's firings all leave the same table.
   */
  lemma {:induction false} ReceiveHistory<T, R>(s: DetailState<T, R>, closed: set<nat>, bases: seq<nat>,
                                               window: seq<Firing<T, R>>, c: nat)
    ensures Received(AfterReceive(s, closed, bases, window, c).inbox, c) ==
            Received(s.inbox, c) + WindowSends(Prune(s.entries, closed), closed, bases, window, c)
    decreases |window|
  {
    if window == [] {
      assert Received(s.inbox, c) + [] == Received(s.inbox, c);
    } else {
      var f := window[0];
      var table := Prune(s.entries, closed);
      if f.trial >= |bases| {
        ReceiveHistory(s, closed, bases, window[1..], c);
      } else {
        var next := AfterFiring(s, closed, bases, f);
        var sends := FiringSends(table, closed, bases[f.trial], f.supplier, f.picks, c);
        FiredReceived(s.inbox, s.entries, closed, bases[f.trial], f.supplier, f.picks, c);
        assert Received(next.inbox, c) == Received(s.inbox, c) + sends;
        if sends == [] {
          PruneIdempotent(s.entries, closed);
          assert Prune(next.entries, closed) == table;
          ReceiveHistory(next, closed, bases, window[1..], c);
          assert Received(s.inbox, c) + [] == Received(s.inbox, c);
        }
      }
    }
  }

  /** A channel closed before a firing receives nothing from it. */
  lemma FiringLeavesClosed<T, R>(s: DetailState<T, R>, closed: set<nat>, bases: seq<nat>, f: Firing<T, R>, c: nat)
    requires c in closed
    ensures Received(AfterFiring(s, closed, bases, f).inbox, c) == Received(s.inbox, c)
  {
    if f.trial < |bases| && s.entries != [] {
      var cs := Considered(s.entries, closed, bases[f.trial]);
      var spawned := Spawned(cs, f.supplier);
      var winner := Winner(spawned, f.picks);
      forall e | e in cs ensures e.channel != c {
        ConsideredExactly(s.entries, closed, bases[f.trial], e);
      }
      NoEntryNoSends(cs, f.supplier, c);
      assert WinnerSend(winner, c) == [];
      FiringReceived(s.inbox, cs, f.supplier, winner, c);
    }
  }

  /** A channel closed before a receive on another channel receives nothing during it. */
  lemma {:induction false} ReceiveLeavesClosed<T, R>(s: DetailState<T, R>, closed: set<nat>, bases: seq<nat>,
                                                     window: seq<Firing<T, R>>, c: nat, d: nat)
    requires d in closed
    ensures Received(AfterReceive(s, closed, bases, window, c).inbox, d) == Received(s.inbox, d)
    decreases |window|
  {
    if window != [] {
      FiringLeavesClosed(s, closed, bases, window[0], d);
      ReceiveLeavesClosed(AfterFiring(s, closed, bases, window[0]), closed, bases, window[1..], c, d);
    }
  }

  /** A channel closed before a wait on another channel receives nothing during it. */
  lemma {:induction false} AwaitLeavesClosed<T, R>(s: DetailState<T, R>, closed: set<nat>, bases: seq<nat>,
                                                   windows: seq<seq<Firing<T, R>>>, c: nat, d: nat)
    requires d in closed
    ensures Received(AfterAwait(s, closed, bases, windows, c).inbox, d) == Received(s.inbox, d)
    decreases |windows|
  {
    if windows != [] {
      ReceiveLeavesClosed(s, closed, bases, windows[0], c, d);
      AwaitLeavesClosed(AfterReceive(s, closed, bases, windows[0], c), closed, bases, windows[1..], c, d);
    }
  }

  /** Waiting from attempt k: attempt k's value if it got one, else waiting from attempt k + 1. */
  lemma AwaitedStep<T, R>(entries: seq<TrialEntry<T>>, closed: set<nat>, bases: seq<nat>,
                          windows: seq<seq<Firing<T, R>>>, k: nat, c: nat)
    requires k < |windows|
    ensures var got := Got(WindowSends(entries, closed, bases, windows[k], c));
            Awaited(entries, closed, bases, windows[k..], c) ==
            if got.Some? then got else Awaited(entries, closed, bases, windows[k + 1..], c)
  {
    assert windows[k..][0] == windows[k] && windows[k..][1..] == windows[k + 1..];
  }

  /** Waiting with a first window: that window's receive if it got a value, else waiting with the rest. */
  lemma AwaitedCons<T, R>(entries: seq<TrialEntry<T>>, closed: set<nat>, bases: seq<nat>,
                          window: seq<Firing<T, R>>, rest: seq<seq<Firing<T, R>>>, c: nat)
    ensures var got := Got(WindowSends(entries, closed, bases, window, c));
            Awaited(entries, closed, bases, [window] + rest, c) ==
            if got.Some? then got else Awaited(entries, closed, bases, rest, c)
  {
    assert ([window] + rest)[0] == window;
    assert ([window] + rest)[1..] == rest;
  }

  /** Waiting over three windows: the first non-null of the three receives. */
  lemma AwaitedOfThree<T, R>(entries: seq<TrialEntry<T>>, closed: set<nat>, bases: seq<nat>,
                             w1: seq<Firing<T, R>>, w2: seq<Firing<T, R>>, w3: seq<Firing<T, R>>, c: nat)
    ensures var g1 := Got(WindowSends(entries, closed, bases, w1, c));
            var g2 := Got(WindowSends(entries, closed, bases, w2, c));
            var g3 := Got(WindowSends(entries, closed, bases, w3, c));
            Awaited(entries, closed, bases, [w1, w2, w3], c) == if g1.Some? then g1 else if g2.Some? then g2 else g3
  {
    assert [w1, w2, w3] == [w1] + [w2, w3] && [w2, w3] == [w2] + [w3] && [w3] == [w3] + [];
    AwaitedCons(entries, closed, bases, w3, [], c);
    AwaitedCons(entries, closed, bases, w2, [w3], c);
    AwaitedCons(entries, closed, bases, w1, [w2, w3], c);
  }

  /**
   * One pending entry whose trial fails twice and then succeeds with r1, with one firing per
   * attempt and three attempts: the caller gets r1, not `null`.
   */
  lemma ThirdAttemptSucceeds<T, R>(e: TrialEntry<T>, closed: set<nat>, bases: seq<nat>,
                                   f1: Firing<T, R>, f2: Firing<T, R>, f3: Firing<T, R>, r1: R)
    requires e.channel !in closed
    requires f1.trial < |bases| && f2.trial < |bases| && f3.trial < |bases|
    requires bases[f1.trial] == e.basis && bases[f2.trial] == e.basis && bases[f3.trial] == e.basis
    requires RunTests(f1.supplier, Some(e)).Fail? && RunTests(f2.supplier, Some(e)).Fail?
    requires RunTests(f3.supplier, Some(e)) == Deferred(Some(r1))
    ensures Awaited([e], closed, bases, [[f1], [f2], [f3]], e.channel) == Some(r1)
  {
    OneEntryReceive(e, closed, bases, f1);
    OneEntryReceive(e, closed, bases, f2);
    OneEntryReceive(e, closed, bases, f3);
    AwaitedOfThree([e], closed, bases, [f1], [f2], [f3], e.channel);
  }

  /** A one-winner gate: `AtomicBoolean` with `compareAndSet`. */
  class AtomicBoolean {
    var value: bool

    constructor (initial: bool)
      ensures value == initial
    {
      value := initial;
    }

    method CompareAndSet(expected: bool, update: bool) returns (ok: bool)
      modifies this
      ensures ok <==> old(value) == expected
      ensures value == if ok then update else old(value)
    {
      ok := value == expected;
      if ok {
        value := update;
      }
    }
  }

  // ---------------------------------------------------------------------------------------
  // State

  /** DetectorDetail: the table of entries of a detector or requester and its trials' bases. */
  class DetectorDetail<T(==), R(==)> {
    const kind: Kind
    /** `trials[k].basis` for every trial k. */
    const bases: seq<nat>
    /** The `synchronizedLinkedList` of pending entries. */
    var entries: seq<TrialEntry<T>>
    /** Channels closed for send. */
    var closed: set<nat>
    /** Everything sent to each channel, in order. */
    var inbox: map<nat, seq<Option<R>>>
    /** The values the detector's event has run with. */
    var events: seq<R>
    /** The id the next channel gets. */
    var nextChannel: nat

    ghost predicate Valid()
      reads this
    {
      && ChannelsDistinct(entries)
      && (forall i :: 0 <= i < |entries| ==> entries[i].channel < nextChannel)
      && (forall c :: c in inbox ==> c < nextChannel)
      && (forall c :: c in closed ==> c < nextChannel)
    }

    /** The supplier type of the trials matches the subclass: a detector's or a requester's. */
    predicate Fits(supplier: Supplier<T, R>)
    {
      supplier.DetectorSupplier? <==> kind == Detector
    }

    /** A firing of one of this detector's trials. */
    predicate Admissible(f: Firing<T, R>)
    {
      f.trial < |bases| && Fits(f.supplier)
    }

    constructor (kind: Kind, bases: seq<nat>)
      ensures Valid()
      ensures this.kind == kind && this.bases == bases
      ensures entries == [] && closed == {} && inbox == map[] && events == [] && nextChannel == 0
    {
      this.kind := kind;
      this.bases := bases;
      entries := [];
      closed := {};
      inbox := map[];
      events := [];
      nextChannel := 0;
    }

    /** The responses channel c has been sent. */
    function Queue(c: nat): seq<Option<R>>
      reads this
    {
      Received(inbox, c)
    }

    /** What firings change: the table, every channel's history and the event log. */
    function State(): DetailState<T, R>
      reads this
    {
      DetailState(entries, inbox, events)
    }

    /** `entries += TrialEntry(isRequest, input, basis, responses)` with a fresh channel. */
    method Register(input: Option<T>, basis: nat, isRequest: bool) returns (ch: nat)
      requires Valid()
      modifies this
      ensures Valid()
      ensures ch == old(nextChannel) && nextChannel == ch + 1
      ensures entries == old(entries) + [TrialEntry(isRequest, input, basis, ch)]
      ensures closed == old(closed) && inbox == old(inbox) && events == old(events)
      ensures ch !in closed && Queue(ch) == []
    {
      ch := nextChannel;
      entries := entries + [TrialEntry(isRequest, input, basis, ch)];
      nextChannel := nextChannel + 1;
    }

    /** `responses.close()`. */
    method Close(ch: nat)
      requires Valid() && ch < nextChannel
      modifies this
      ensures Valid()
      ensures closed == old(closed) + {ch}
      ensures entries == old(entries) && inbox == old(inbox) && events == old(events)
      ensures nextChannel == old(nextChannel)
    {
      closed := closed + {ch};
    }

    /** `responses.send(v)` on an open channel: the value is delivered to the receiver. */
    method Send(c: nat, v: Option<R>)
      requires c !in closed
      modifies this`inbox
      ensures inbox == old(inbox)[c := Received(old(inbox), c) + [v]]
    {
      inbox := inbox[c := Queue(c) + [v]];
    }

    /**
     * The firing handler of `onEnable` for one firing of trial `trial`: with an empty table the
     * default entry is evaluated and the event runs with its awaited value, if non-null, without
     * a gate; otherwise the scan prunes closed entries, skips those of other bases, answers
     * failed evaluations with `null` and launches the others, and the first launched evaluation
     * to finish passes the gate, answers its entry and runs the event with a non-null value.
     */
    method Fire(trial: nat, supplier: Supplier<T, R>, picks: seq<nat>)
      requires Valid() && trial < |bases| && Fits(supplier)
      modifies this
      ensures Valid()
      ensures entries == Prune(old(entries), closed)
      ensures closed == old(closed) && nextChannel == old(nextChannel)
      ensures old(entries) == [] ==>
                inbox == old(inbox) && events == old(events) + Emitted(Response(RunTests(supplier, None)))
      ensures old(entries) != [] ==>
                var cs := Considered(old(entries), closed, bases[trial]);
                var winner := Winner(Spawned(cs, supplier), picks);
                && inbox == AnswerWinner(AnswerFailures(old(inbox), cs, supplier), winner)
                && events == old(events) + WinnerEvent(winner)
    {
      if entries == [] {
        var response := RunTests(supplier, None);
        match response {
          case Fail =>
          case Deferred(awaited) =>
            if awaited.Some? {
              events := events + [awaited.value];
            }
        }
      } else {
        var spawned := Scan(bases[trial], supplier);
        var order := FiringOrder(picks, |spawned|);
        Race(spawned, order);
      }
    }

    /**
     * The scan of a non-empty table through its iterator: closed entries are removed, entries of
     * other bases are skipped, failed evaluations are answered `null`, and the others are launched.
     */
    method Scan(basis: nat, supplier: Supplier<T, R>) returns (spawned: seq<Spawn<R>>)
      requires Valid() && Fits(supplier)
      modifies this`entries, this`inbox
      ensures Valid()
      ensures entries == Prune(old(entries), closed)
      ensures inbox == AnswerFailures(old(inbox), Considered(old(entries), closed, basis), supplier)
      ensures spawned == Spawned(Considered(old(entries), closed, basis), supplier)
      ensures forall k :: 0 <= k < |spawned| ==> spawned[k].channel !in closed && spawned[k].channel < nextChannel
    {
      var table;
      table, spawned := Iterate(basis, supplier);
      ScanBounds(entries, closed, basis, supplier, nextChannel);
      AnswerFailuresKeys(old(inbox), Considered(entries, closed, basis), supplier, nextChannel);
      entries := table;
    }

    /**
     * The loop over the table's iterator: returns the table with the closed entries removed.
     */
    method Iterate(basis: nat, supplier: Supplier<T, R>) returns (table: seq<TrialEntry<T>>, spawned: seq<Spawn<R>>)
      modifies this`inbox
      ensures table == Prune(entries, closed)
      ensures inbox == AnswerFailures(old(inbox), Considered(entries, closed, basis), supplier)
      ensures spawned == Spawned(Considered(entries, closed, basis), supplier)
    {
      spawned := [];
      ghost var j := 0;
      table := entries;
      var i := 0;
      while i < |table|
        invariant 0 <= j <= |entries|
        invariant table == Prune(entries[..j], closed) + entries[j..]
        invariant i == |Prune(entries[..j], closed)|
        invariant inbox == AnswerFailures(old(inbox), Considered(entries[..j], closed, basis), supplier)
        invariant spawned == Spawned(Considered(entries[..j], closed, basis), supplier)
        decreases |entries| - j
      {
        ScanAt(entries, j, closed, table);
        var entry := table[i];
        assert entry == entries[j];
        if entry.channel in closed {
          ScanDrop(entries, j, closed, table, i);
          ConsideredNext(entries, j, closed, basis);
          table := table[..i] + table[i + 1..];
        } else {
          ScanKeep(entries, j, closed, table, i);
          spawned := ConsiderAt(entry, j, basis, supplier, old(inbox), spawned);
          i := i + 1;
        }
        j := j + 1;
      }
      assert entries[..j] == entries && entries[j..] == [];
      assert Prune(entries, closed) + [] == Prune(entries, closed);
    }

    /** Considers the open entry at position j of the table and adds its launched evaluation. */
    method ConsiderAt(entry: TrialEntry<T>, ghost j: nat, basis: nat, supplier: Supplier<T, R>, ghost before: map<nat, seq<Option<R>>>,
                      spawned: seq<Spawn<R>>) returns (spawned': seq<Spawn<R>>)
      requires j < |entries| && entry == entries[j] && entry.channel !in closed
      requires inbox == AnswerFailures(before, Considered(entries[..j], closed, basis), supplier)
      requires spawned == Spawned(Considered(entries[..j], closed, basis), supplier)
      modifies this`inbox
      ensures inbox == AnswerFailures(before, Considered(entries[..j + 1], closed, basis), supplier)
      ensures spawned' == Spawned(Considered(entries[..j + 1], closed, basis), supplier)
    {
      ghost var mid := inbox;
      var launched := Consider(entry, basis, supplier);
      ConsiderStep(entries, j, closed, basis, supplier, before, mid, inbox, spawned, launched);
      spawned' := spawned + launched;
    }

    /**
     * One open entry of the scan: skipped when it waits on another basis; else `getResponse(entry)`,
     * answering the entry `null` at once when the evaluation failed and launching it otherwise.
     */
    method Consider(entry: TrialEntry<T>, basis: nat, supplier: Supplier<T, R>) returns (launched: seq<Spawn<R>>)
      requires entry.channel !in closed
      modifies this`inbox
      ensures launched == if entry.basis == basis then Launch(entry, supplier) else []
      ensures inbox == if entry.basis == basis then AnswerFailure(old(inbox), entry, supplier) else old(inbox)
    {
      launched := [];
      if entry.basis == basis {
        var response := RunTests(supplier, Some(entry));
        match response
        case Fail =>
          Send(entry.channel, None);
        case Deferred(awaited) =>
          launched := [Spawn(entry.channel, awaited)];
      }
    }

    /**
     * The launched evaluations finish in `order` (the scheduler's choice); each tries the gate,
     * and only the one that passes answers its entry and runs the event with a non-null value.
     */
    method Race(spawned: seq<Spawn<R>>, order: seq<nat>)
      requires Valid()
      requires forall k :: 0 <= k < |spawned| ==> spawned[k].channel !in closed && spawned[k].channel < nextChannel
      requires forall k :: 0 <= k < |order| ==> order[k] < |spawned|
      modifies this`inbox, this`events
      ensures Valid()
      ensures var winner := if order == [] then None else Some(spawned[order[0]]);
              && inbox == AnswerWinner(old(inbox), winner)
              && events == old(events) + WinnerEvent(winner)
    {
      var successful := new AtomicBoolean(false);
      for i := 0 to |order|
        invariant successful.value <==> i > 0
        invariant i == 0 ==> inbox == old(inbox) && events == old(events)
        invariant i > 0 ==> inbox == old(inbox)[spawned[order[0]].channel := Received(old(inbox), spawned[order[0]].channel) + [spawned[order[0]].awaited]]
        invariant i > 0 ==> events == old(events) + Emitted(spawned[order[0]].awaited)
        invariant Valid()
      {
        var task := spawned[order[i]];
        var passed := successful.CompareAndSet(false, true);
        if passed {
          Send(task.channel, task.awaited);
          if task.awaited.Some? {
            events := events + [task.awaited.value];
          }
        }
      }
    }

    /**
     * One `withTimeoutOrNull(timeoutDuration) { responses.receive() }` on channel ch while the
     * firings of `window` happen: it ends with the first response the channel gets (possibly
     * `null`), or with `null` when the window ends first. Firings after the response are not run.
     */
    method Receive(ch: nat, window: seq<Firing<T, R>>) returns (got: Option<R>)
      requires Valid() && ch !in closed && ch < nextChannel
      requires forall k :: 0 <= k < |window| ==> Admissible(window[k])
      modifies this
      ensures Valid()
      ensures closed == old(closed) && nextChannel == old(nextChannel)
      ensures Prune(entries, closed) == Prune(old(entries), closed)
      ensures Queue(ch) == old(Queue(ch)) + WindowSends(Prune(old(entries), closed), closed, bases, window, ch)
      ensures got == Got(WindowSends(Prune(old(entries), closed), closed, bases, window, ch))
      ensures State() == AfterReceive(old(State()), closed, bases, window, ch)
      ensures forall x :: x in entries ==> x in old(entries)
      ensures forall x :: x in old(entries) && x.channel !in closed ==> x in entries
    {
      ghost var table := Prune(entries, closed);
      ghost var before := Queue(ch);
      ghost var target := AfterReceive(State(), closed, bases, window, ch);
      var seen := |Queue(ch)|;
      got := None;
      var k := 0;
      while k < |window|
        invariant Valid() && k <= |window|
        invariant closed == old(closed) && nextChannel == old(nextChannel)
        invariant Prune(entries, closed) == table
        invariant Queue(ch) == before && got == None && seen == |before|
        invariant target == AfterReceive(State(), closed, bases, window[k..], ch)
        invariant forall x :: x in entries ==> x in old(entries)
        invariant forall x :: x in old(entries) && x.channel !in closed ==> x in entries
      {
        var arrived := ReceiveFiring(ch, window, k);
        if arrived {
          got := Queue(ch)[seen];
          ReceiveHistory(old(State()), closed, bases, window, ch);
          return;
        }
        k := k + 1;
      }
      assert window[k..] == [];
      ReceiveHistory(old(State()), closed, bases, window, ch);
    }

    /**
     * Firing k of a receive's window on channel ch: whether ch was sent anything, and the
     * state the receive goes on from (or ends in, when it was).
     */
    method ReceiveFiring(ch: nat, window: seq<Firing<T, R>>, k: nat) returns (arrived: bool)
      requires Valid() && ch !in closed && ch < nextChannel && k < |window| && Admissible(window[k])
      modifies this
      ensures Valid()
      ensures closed == old(closed) && nextChannel == old(nextChannel)
      ensures Prune(entries, closed) == Prune(old(entries), closed)
      ensures forall x :: x in entries ==> x in old(entries)
      ensures forall x :: x in old(entries) && x.channel !in closed ==> x in entries
      ensures arrived <==> |Queue(ch)| > |old(Queue(ch))|
      ensures !arrived ==> Queue(ch) == old(Queue(ch))
      ensures AfterReceive(old(State()), closed, bases, window[k..], ch) ==
              if arrived then State() else AfterReceive(State(), closed, bases, window[k + 1..], ch)
    {
      ghost var before := Queue(ch);
      var seen := |Queue(ch)|;
      AfterReceiveStep(State(), closed, bases, window, k, ch);
      FireWhileWaiting(ch, window[k]);
      arrived := |Queue(ch)| > seen;
      if !arrived {
        assert Queue(ch) == before + [];
      }
    }

    /**
     * One firing while the owner of channel ch waits: the state moves on by that firing, ch is
     * sent what the firing sends it on the table as the scan leaves it, and a scan of the table
     * afterwards leaves the same table.
     */
    method FireWhileWaiting(ch: nat, f: Firing<T, R>)
      requires Valid() && ch !in closed && ch < nextChannel && Admissible(f)
      modifies this
      ensures Valid()
      ensures State() == AfterFiring(old(State()), closed, bases, f)
      ensures closed == old(closed) && nextChannel == old(nextChannel)
      ensures Prune(entries, closed) == Prune(old(entries), closed)
      ensures Queue(ch) == old(Queue(ch)) + FiringSends(Prune(old(entries), closed), closed, bases[f.trial], f.supplier, f.picks, ch)
      ensures forall x :: x in entries ==> x in old(entries)
      ensures forall x :: x in old(entries) && x.channel !in closed ==> x in entries
    {
      ghost var table := entries;
      PruneIdempotent(table, closed);
      FiredReceived(inbox, table, closed, bases[f.trial], f.supplier, f.picks, ch);
      Fire(f.trial, f.supplier, f.picks);
      PruneMembers(table, closed);
    }

    /**
     * `addAndAwait(input, basis, isRequest, attempt)` where the attempt function runs the block
     * once per window (`attempt` retries until a non-null result or until its budget, here the
     * number of windows, is spent): registers exactly one entry, receives on its channel, and
     * closes the channel after the attempts whatever the result. The result is what waiting
     * on the table with the new entry gives.
     */
    method AddAndAwait(input: Option<T>, basis: nat, isRequest: bool, windows: seq<seq<Firing<T, R>>>) returns (final: Option<R>)
      requires Valid()
      requires forall w, k :: 0 <= w < |windows| && 0 <= k < |windows[w]| ==> Admissible(windows[w][k])
      modifies this
      ensures Valid()
      ensures var e := TrialEntry(isRequest, input, basis, old(nextChannel));
              && e in entries
              && (forall x :: x in entries ==> x in old(entries) || x == e)
              && closed == old(closed) + {e.channel}
              && |Queue(e.channel)| <= |windows|
              && final == FirstNonNull(Queue(e.channel))
              && final == Awaited(Prune(old(entries) + [e], old(closed)), old(closed), bases, windows, e.channel)
      ensures var e := TrialEntry(isRequest, input, basis, old(nextChannel));
              && State() == AfterAwait(DetailState(old(entries) + [e], old(inbox), old(events)), old(closed), bases, windows, e.channel)
              && nextChannel == old(nextChannel) + 1
    {
      var ch := Register(input, basis, isRequest);
      final := AwaitOn(ch, windows);
      Close(ch);
    }

    /**
     * The attempts of `addAndAwait` on channel ch, one receive per window, until one receives
     * a non-null value: the result is what waiting on the table gives, and the first non-null
     * response ch got.
     */
    method AwaitOn(ch: nat, windows: seq<seq<Firing<T, R>>>) returns (final: Option<R>)
      requires Valid() && ch !in closed && ch < nextChannel && Queue(ch) == []
      requires forall w, k :: 0 <= w < |windows| && 0 <= k < |windows[w]| ==> Admissible(windows[w][k])
      modifies this
      ensures Valid()
      ensures closed == old(closed) && nextChannel == old(nextChannel)
      ensures forall x :: x in entries ==> x in old(entries)
      ensures forall x :: x in old(entries) && x.channel !in closed ==> x in entries
      ensures |Queue(ch)| <= |windows|
      ensures final == FirstNonNull(Queue(ch))
      ensures final == Awaited(Prune(old(entries), closed), closed, bases, windows, ch)
      ensures State() == AfterAwait(old(State()), closed, bases, windows, ch)
    {
      ghost var table := Prune(entries, closed);
      PruneDistinct(entries, closed);
      final := None;
      var k := 0;
      while k < |windows|
        invariant Valid() && k <= |windows|
        invariant closed == old(closed) && nextChannel == old(nextChannel)
        invariant forall x :: x in entries ==> x in old(entries)
        invariant forall x :: x in old(entries) && x.channel !in closed ==> x in entries
        invariant Prune(entries, closed) == table
        invariant |Queue(ch)| <= k
        invariant final == None && FirstNonNull(Queue(ch)) == None
        invariant Awaited(table, closed, bases, windows, ch) == Awaited(table, closed, bases, windows[k..], ch)
        invariant AfterAwait(old(State()), closed, bases, windows, ch) == AfterAwait(State(), closed, bases, windows[k..], ch)
      {
        ghost var queued := Queue(ch);
        AwaitedStep(table, closed, bases, windows, k, ch);
        AfterAwaitStep(State(), closed, bases, windows, k, ch);
        var got := Receive(ch, windows[k]);
        Attempted(queued, WindowSends(table, closed, bases, windows[k], ch), table, windows[k], ch);
        if got.Some? {
          final := got;
          break;
        }
        k := k + 1;
      }
    }

    /** One attempt of `addAndAwait` adds at most one response, and the first non-null so far is its value. */
    lemma Attempted(queued: seq<Option<R>>, sent: seq<Option<R>>, table: seq<TrialEntry<T>>, window: seq<Firing<T, R>>, ch: nat)
      requires ChannelsDistinct(table) && sent == WindowSends(table, closed, bases, window, ch)
      requires FirstNonNull(queued) == None
      ensures |sent| <= 1
      ensures FirstNonNull(queued + sent) == Got(sent)
    {
      WindowSendsAtMostOne(table, closed, bases, window, ch);
      FirstNonNullAppend(queued, sent);
      if sent != [] {
        assert sent == [sent[0]];
      }
    }

    /**
     * `detectFrom` (one attempt per window until the timeout) and `checkNextFrom` (`attempts`
     * tries) register a detection (isRequest false) on `basis`, defaulting to the first trial's
     * basis; `trials[0]` throws when there is no trial.
     */
    method AddDetectAndAwait(input: Option<T>, basis: Option<nat>, windows: seq<seq<Firing<T, R>>>)
      returns (r: Result<Option<R>, string>)
      requires Valid()
      requires forall w, k :: 0 <= w < |windows| && 0 <= k < |windows[w]| ==> Admissible(windows[w][k])
      modifies this
      ensures Valid()
      ensures DefaultBasis(basis, bases).None? <==> r.Failure?
      ensures r.Failure? ==> entries == old(entries) && closed == old(closed) && inbox == old(inbox) && events == old(events)
      ensures r.Success? ==>
                var e := TrialEntry(false, input, DefaultBasis(basis, bases).value, old(nextChannel));
                && e in entries && closed == old(closed) + {e.channel}
                && (forall x :: x in entries ==> x in old(entries) || x == e)
                && |Queue(e.channel)| <= |windows|
                && r.value == FirstNonNull(Queue(e.channel))
                && r.value == Awaited(Prune(old(entries) + [e], old(closed)), old(closed), bases, windows, e.channel)
                && State() == AfterAwait(DetailState(old(entries) + [e], old(inbox), old(events)), old(closed), bases, windows, e.channel)
                && nextChannel == old(nextChannel) + 1
    {
      var b := DefaultBasis(basis, bases);
      if b.None? {
        r := Failure("IndexOutOfBoundsException");
      } else {
        var final := AddAndAwait(input, b.value, false, windows);
        r := Success(final);
      }
    }

    /** `checkNextFrom(input, basis, attempts)`: `attempts` tries, one per window. */
    method CheckNextFrom(input: Option<T>, basis: Option<nat>, attempts: nat, windows: seq<seq<Firing<T, R>>>)
      returns (r: Result<Option<R>, string>)
      requires Valid() && |windows| == attempts
      requires forall w, k :: 0 <= w < |windows| && 0 <= k < |windows[w]| ==> Admissible(windows[w][k])
      modifies this
      ensures Valid()
      ensures DefaultBasis(basis, bases).None? <==> r.Failure?
      ensures r.Success? ==>
                var e := TrialEntry(false, input, DefaultBasis(basis, bases).value, old(nextChannel));
                && e in entries && e.channel in closed && |Queue(e.channel)| <= attempts
                && r.value == FirstNonNull(Queue(e.channel))
                && r.value == Awaited(Prune(old(entries) + [e], old(closed)), old(closed), bases, windows, e.channel)
                && State() == AfterAwait(DetailState(old(entries) + [e], old(inbox), old(events)), old(closed), bases, windows, e.channel)
                && closed == old(closed) + {e.channel} && nextChannel == old(nextChannel) + 1
      ensures r.Failure? ==> State() == old(State()) && closed == old(closed)
    {
      r := AddDetectAndAwait(input, basis, windows);
    }
  }

  /** `basis ?: trials[0].basis`: None when there is no basis and no trial to take one from. */
  function DefaultBasis(basis: Option<nat>, bases: seq<nat>): (b: Option<nat>)
    ensures basis.Some? ==> b == basis
    ensures basis.None? && bases != [] ==> b == Some(bases[0])
    ensures b.None? <==> basis.None? && bases == []
  {
    if basis.Some? then basis
    else if bases == [] then None
    else Some(bases[0])
  }

  /** TrialRequester: a requester's table and its primary trial's `start`. */
  class LegacyRequester<T(==), R(==)> {
    const detail: DetectorDetail<T, R>
    /** `trials[0].start`. */
    const start: T -> Option<R>
    /** How often `start` has been called. */
    var startCalls: nat

    ghost predicate Valid()
      reads this, detail
    {
      detail.Valid() && detail.kind == Requester && |detail.bases| > 0
    }

    /** `init { require(trials.isNotEmpty()) }`. */
    constructor (bases: seq<nat>, start: T -> Option<R>)
      requires |bases| > 0
      ensures Valid() && fresh(detail)
      ensures detail.bases == bases && detail.entries == [] && detail.events == []
      ensures this.start == start && startCalls == 0
    {
      detail := new DetectorDetail(Requester, bases);
      this.start := start;
      startCalls := 0;
    }

    /**
     * `requestFrom(input)`: registers a request (isRequest true) on the first trial's basis;
     * the first attempt calls `start(input)` and returns its non-null result without waiting,
     * every later attempt (and the first when `start` gives `null`) receives; a final `null`
     * throws "Requester trial failed".
     */
    method RequestFrom(input: T, windows: seq<seq<Firing<T, R>>>) returns (r: Result<R, string>)
      requires Valid()
      requires forall w, k :: 0 <= w < |windows| && 0 <= k < |windows[w]| ==> detail.Admissible(windows[w][k])
      modifies this, detail
      ensures Valid()
      ensures startCalls == old(startCalls) + (if windows == [] then 0 else 1)
      ensures var ch := old(detail.nextChannel);
              var started := if windows == [] then None else start(input);
              && TrialEntry(true, Some(input), detail.bases[0], ch) in detail.entries
              && detail.closed == old(detail.closed) + {ch}
              && (started.Some? ==> r == Success(started.value) && detail.Queue(ch) == [])
              && (started.None? ==>
                    var e := TrialEntry(true, Some(input), detail.bases[0], ch);
                    var awaited := Awaited(Prune(old(detail.entries) + [e], old(detail.closed)), old(detail.closed),
                                           detail.bases, windows, ch);
                    r == match awaited
                         case Some(v) => Success(v)
                         case None => Failure("Requester trial failed"))
      ensures var ch := old(detail.nextChannel);
              var started := if windows == [] then None else start(input);
              var registered := DetailState(old(detail.entries) + [TrialEntry(true, Some(input), detail.bases[0], ch)],
                                            old(detail.inbox), old(detail.events));
              && detail.State() == (if started.Some? then registered
                                    else AfterAwait(registered, old(detail.closed), detail.bases, windows, ch))
              && detail.nextChannel == ch + 1
    {
      var ch := detail.Register(Some(input), detail.bases[0], true);
      var final := Await(ch, input, windows);
      detail.Close(ch);
      r := if final.Some? then Success(final.value) else Failure("Requester trial failed");
    }

    /**
     * The attempts of `requestFrom` on the request's channel ch: the first calls `start(input)`
     * and ends with its non-null result, every later one (and the first when `start` gives
     * `null`) receives; the result is the first non-null value, or `null`.
     */
    method Await(ch: nat, input: T, windows: seq<seq<Firing<T, R>>>) returns (final: Option<R>)
      requires Valid() && ch !in detail.closed && ch < detail.nextChannel && detail.Queue(ch) == []
      requires TrialEntry(true, Some(input), detail.bases[0], ch) in detail.entries
      requires forall w, k :: 0 <= w < |windows| && 0 <= k < |windows[w]| ==> detail.Admissible(windows[w][k])
      modifies this, detail
      ensures Valid()
      ensures detail.closed == old(detail.closed) && detail.nextChannel == old(detail.nextChannel)
      ensures TrialEntry(true, Some(input), detail.bases[0], ch) in detail.entries
      ensures startCalls == old(startCalls) + (if windows == [] then 0 else 1)
      ensures var started := if windows == [] then None else start(input);
              && (started.Some? ==> final == started && detail.Queue(ch) == [])
              && (started.None? ==>
                    final == Awaited(Prune(old(detail.entries), old(detail.closed)), old(detail.closed), detail.bases, windows, ch))
              && detail.State() == if started.Some? then old(detail.State())
                                   else AfterAwait(old(detail.State()), old(detail.closed), detail.bases, windows, ch)
    {
      // The first attempt finds `started` false and calls `start`; when that gives null it
      // receives, as every later attempt does: these are the attempts of `addAndAwait`.
      if windows == [] {
        final := None;
        return;
      }
      startCalls := startCalls + 1;
      final := start(input);
      if final.None? {
        final := detail.AwaitOn(ch, windows);
      }
    }
  }

  /** `requester(trials)`: fails the `require` when there is no trial. */
  method NewRequester<T(==), R(==)>(bases: seq<nat>, start: T -> Option<R>) returns (r: Option<LegacyRequester<T, R>>)
    ensures r.None? <==> bases == []
    ensures r.Some? ==> fresh(r.value) && fresh(r.value.detail) && r.value.Valid() && r.value.detail.bases == bases
  {
    if bases == [] {
      r := None;
    } else {
      var requester := new LegacyRequester(bases, start);
      r := Some(requester);
    }
  }
}
