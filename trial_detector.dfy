/**
 * The trial-based detector and requester of event/trial/DetectorImpl.kt, modelled sequentially.
 *
 * A detector keeps a table of pending entries. Each entry owns a response channel; the channel
 * is an id, `closed` holds the ids closed for send and `inbox` holds, per channel, every response
 * sent to it in order. Each firing of a trial scans the table, evaluates every open entry (or one
 * default entry when the table is empty), lets the launched evaluations finish in an order chosen
 * by the scheduler oracle of module Scheduling, and publishes the first non-null result through
 * the detector's event. The published values are the log `events`.
 */
module TrialDetection {
  import opened Wrappers
  import opened Scheduling
  import opened Trials

  /**
   * A trial's result supplier, reduced to what it does with one entry:
   * `supplier(input, isRequest, hidden)`. The third argument is the `hidden` flag that the
   * entry's TrialScope exposes.
   */
  type Supplier<!T, R> = (Option<T>, bool, bool) -> Outcome<R>

  /** A pending detection or request, with the id of its response channel. */
  datatype DetectEntry<T> = DetectEntry(isRequest: bool, input: Option<T>, channel: nat, hidden: bool)

  /** One evaluation launched by a firing: the channel it answers (None for the default entry). */
  datatype Job<R> = Job(channel: Option<nat>, outcome: Outcome<R>)

  datatype Kind = Detector | Requester

  /** One element of a trial's result stream, with the scheduler's picks for its race. */
  datatype Firing<!T, R> = Firing(supplier: Supplier<T, R>, picks: seq<nat>)

  /** What can happen while a request waits: a firing, or a notification of the lifecycle. */
  datatype WaitEvent<!T, R> = Fired(firing: Firing<T, R>) | LifecycleNotified

  /** How a request ends: with a value, by timeout, or cancelled by its lifecycle. */
  datatype RequestResult<R> = Resolved(value: R) | TimedOut | Cancelled

  // ---------------------------------------------------------------------------------------
  // Text

  /** `toString`: "$name detector" or "$name requester". */
  function ToString(name: string, kind: Kind): (s: string)
    ensures |s| == |name| + (if kind == Detector then 9 else 10)
    ensures s[..|name|] == name
    ensures s[|name|] == ' '
    ensures s[|name| + 1] == (if kind == Detector then 'd' else 'r')
    ensures s[|name|..] == if kind == Detector then " detector" else " requester"
  {
    name + (if kind == Detector then " detector" else " requester")
  }

  /** A detector's name and kind can be read back from its `toString`. */
  lemma ToStringInjective(name1: string, kind1: Kind, name2: string, kind2: Kind)
    requires ToString(name1, kind1) == ToString(name2, kind2)
    ensures name1 == name2 && kind1 == kind2
  {
    // Different kinds are told apart by the character after the name and a blank: "d" or "r".
    var s := ToString(name1, kind1);
    if kind1 == kind2 {
      assert name1 == s[..|name1|] == name2;
    }
  }

  /**
   * `debugString(input, hidden)`: "$this (" then "hidden " exactly when hidden is true, then
   * "explicit entry with input $input" or, without an input, "default entry", then ")".
   * `self` is the detector's `toString` and `show` renders an input.
   */
  function DebugString<T>(self: string, show: T -> string, input: Option<T>, hidden: Option<bool>): (s: string)
    ensures |s| > |self| + 2
    ensures s[..|self| + 2] == self + " ("
    ensures s[|s| - 1] == ')'
    ensures s[|self| + 2] == 'h' <==> hidden == Some(true)
    ensures var at := |self| + 2 + (if hidden == Some(true) then 7 else 0);
            at < |s| && (s[at] == 'd' <==> input.None?)
    ensures var at := |self| + 2 + (if hidden == Some(true) then 7 else 0);
            && at < |s|
            && s[|self| + 2..at] == (if hidden == Some(true) then "hidden " else "")
            && s[at..|s| - 1] == (if input.Some? then "explicit entry with input " + show(input.value) else "default entry")
  {
    var hiddenString := if hidden == Some(true) then "hidden " else "";
    var entryString := if input.Some? then "explicit entry with input " + show(input.value) else "default entry";
    self + " (" + hiddenString + entryString + ")"
  }

  /**
   * Two debug strings of one detector agree on whether the entry is hidden and whether it is the
   * default one; when inputs are rendered distinctly, they agree on the input too.
   */
  lemma DebugStringDeterminesFlags<T>(self: string, show: T -> string,
                                      input1: Option<T>, hidden1: Option<bool>,
                                      input2: Option<T>, hidden2: Option<bool>)
    requires DebugString(self, show, input1, hidden1) == DebugString(self, show, input2, hidden2)
    ensures (hidden1 == Some(true)) == (hidden2 == Some(true))
    ensures input1.None? == input2.None?
    ensures (forall a, b :: show(a) == show(b) ==> a == b) ==> input1 == input2
  {
    var s := DebugString(self, show, input1, hidden1);
    assert (hidden1 == Some(true)) == (s[|self| + 2] == 'h') == (hidden2 == Some(true));
    var at := |self| + 2 + (if hidden1 == Some(true) then 7 else 0);
    if input1.Some? && input2.Some? {
      var prefix := "explicit entry with input ";
      var e1 := prefix + show(input1.value);
      var e2 := prefix + show(input2.value);
      assert e1 == s[at..|s| - 1] == e2;
      assert show(input1.value) == e1[|prefix|..] == e2[|prefix|..] == show(input2.value);
    }
  }

  // ---------------------------------------------------------------------------------------
  // One firing, as functions of the table before it

  predicate ChannelsDistinct<T>(entries: seq<DetectEntry<T>>)
  {
    forall i, j :: 0 <= i < j < |entries| ==> entries[i].channel != entries[j].channel
  }

  /** The table after a scan: the entries whose channel is still open, in their order. */
  function Prune<T>(entries: seq<DetectEntry<T>>, closed: set<nat>): (kept: seq<DetectEntry<T>>)
    ensures |kept| <= |entries|
  {
    if entries == [] then []
    else
      var last := entries[|entries| - 1];
      Prune(entries[..|entries| - 1], closed) + (if last.channel in closed then [] else [last])
  }

  /** The synchronous part of `considerEntry`: the supplier's outcome for an entry or the default entry. */
  function Evaluate<T, R>(entry: Option<DetectEntry<T>>, supplier: Supplier<T, R>): Job<R>
  {
    match entry
    case None => Job(None, supplier(None, false, false))
    case Some(e) => Job(Some(e.channel), supplier(e.input, e.isRequest, e.hidden))
  }

  /** The evaluations a firing launches: the default entry when the table is empty, else one per open entry. */
  function Launched<T, R>(entries: seq<DetectEntry<T>>, closed: set<nat>, supplier: Supplier<T, R>): (jobs: seq<Job<R>>)
  {
    if entries == [] then [Evaluate(None, supplier)] else Evaluations(Prune(entries, closed), supplier)
  }

  /** One evaluation per entry, in table order. */
  function Evaluations<T, R>(kept: seq<DetectEntry<T>>, supplier: Supplier<T, R>): (jobs: seq<Job<R>>)
    ensures |jobs| == |kept|
    ensures forall k :: 0 <= k < |kept| ==> jobs[k] == Evaluate(Some(kept[k]), supplier)
  {
    seq(|kept|, k requires 0 <= k < |kept| => Evaluate(Some(kept[k]), supplier))
  }

  /** The responses the jobs finishing in `order` send to channel c. */
  function SentTo<R>(jobs: seq<Job<R>>, order: seq<nat>, c: nat): seq<Option<R>>
    requires forall k :: 0 <= k < |order| ==> order[k] < |jobs|
  {
    if order == [] then []
    else
      var job := jobs[order[|order| - 1]];
      SentTo(jobs, order[..|order| - 1], c) + (if job.channel == Some(c) then [Response(job.outcome)] else [])
  }

  /** The value the success context holds: the first non-null awaited value in completion order. */
  function FirstSuccess<R>(jobs: seq<Job<R>>, order: seq<nat>): Option<R>
    requires forall k :: 0 <= k < |order| ==> order[k] < |jobs|
  {
    if order == [] then None
    else if Response(jobs[order[0]].outcome).Some? then Response(jobs[order[0]].outcome)
    else FirstSuccess(jobs, order[1..])
  }

  /** What a waiting request receives: the first non-null response its entry gets, unless the lifecycle ends first. */
  function AwaitDetection<T, R>(input: T, hidden: bool, window: seq<WaitEvent<T, R>>): RequestResult<R>
  {
    if window == [] then TimedOut
    else match window[0]
      case LifecycleNotified => Cancelled
      case Fired(f) =>
        match Response(f.supplier(Some(input), true, hidden))
        case Some(v) => Resolved(v)
        case None => AwaitDetection(input, hidden, window[1..])
  }

  // ---------------------------------------------------------------------------------------
  // The detector's state across firings

  /** What firings change in a detector: the table, every channel's history and the event log. */
  datatype Snapshot<T, R> = Snapshot(entries: seq<DetectEntry<T>>, inbox: map<nat, seq<Option<R>>>, events: seq<R>)

  /**
   * The state after one firing: the table its scan leaves, every launched job's send delivered
   * in completion order, and the event run with the success context, if completed.
   */
  function AfterFiring<T, R>(s: Snapshot<T, R>, closed: set<nat>, f: Firing<T, R>): Snapshot<T, R>
  {
    var jobs := Launched(s.entries, closed, f.supplier);
    var order := FiringOrder(f.picks, |jobs|);
    Snapshot(Prune(s.entries, closed), Deliver(s.inbox, jobs, order), s.events + Emitted(FirstSuccess(jobs, order)))
  }

  /** The state after the firings of a window, one after another. */
  function AfterFirings<T, R>(s: Snapshot<T, R>, closed: set<nat>, window: seq<Firing<T, R>>): Snapshot<T, R>
    decreases |window|
  {
    if window == [] then s else AfterFirings(AfterFiring(s, closed, window[0]), closed, window[1..])
  }

  /**
   * The state after a request with `input` and `hidden` has waited through `window`: the
   * firings run up to the first one that answers the request non-null; a lifecycle
   * notification ends the wait before anything else fires.
   */
  function AfterRequestWait<T, R>(s: Snapshot<T, R>, closed: set<nat>, input: T, hidden: bool,
                                  window: seq<WaitEvent<T, R>>): Snapshot<T, R>
    decreases |window|
  {
    if window == [] then s
    else match window[0]
      case LifecycleNotified => s
      case Fired(f) =>
        var next := AfterFiring(s, closed, f);
        if Response(f.supplier(Some(input), true, hidden)).Some? then next
        else AfterRequestWait(next, closed, input, hidden, window[1..])
  }

  /** The fold over the firings from k on is one firing, then the fold from k + 1 on. */
  lemma AfterFiringsStep<T, R>(s: Snapshot<T, R>, closed: set<nat>, window: seq<Firing<T, R>>, k: nat)
    requires k < |window|
    ensures AfterFirings(s, closed, window[k..]) == AfterFirings(AfterFiring(s, closed, window[k]), closed, window[k + 1..])
  {
    assert window[k..][0] == window[k] && window[k..][1..] == window[k + 1..];
  }

  /**
   * Over a window of firings, every open entry of the table receives exactly its own
   * responses, one per firing, whatever else is waiting.
   */
  lemma {:induction false} OpenEntryHistory<T, R>(s: Snapshot<T, R>, closed: set<nat>, window: seq<Firing<T, R>>, x: DetectEntry<T>)
    requires ChannelsDistinct(s.entries) && x in s.entries && x.channel !in closed
    ensures Received(AfterFirings(s, closed, window).inbox, x.channel) == Received(s.inbox, x.channel) + OwnResponses(x, window)
    decreases |window|
  {
    if window == [] {
      assert Received(s.inbox, x.channel) + [] == Received(s.inbox, x.channel);
    } else {
      var f := window[0];
      var next := AfterFiring(s, closed, f);
      var mine := Response(f.supplier(x.input, x.isRequest, x.hidden));
      OneFiringOwnResponse(s, closed, f, x);
      OpenEntryHistory(next, closed, window[1..], x);
      assert OwnResponses(x, window) == [mine] + OwnResponses(x, window[1..]);
      ConcatAssociative(Received(s.inbox, x.channel), [mine], OwnResponses(x, window[1..]));
    }
  }

  /** One firing: an open entry receives its own response and stays, still distinct, in the table. */
  lemma OneFiringOwnResponse<T, R>(s: Snapshot<T, R>, closed: set<nat>, f: Firing<T, R>, x: DetectEntry<T>)
    requires ChannelsDistinct(s.entries) && x in s.entries && x.channel !in closed
    ensures var next := AfterFiring(s, closed, f);
            && Received(next.inbox, x.channel) == Received(s.inbox, x.channel) + [Response(f.supplier(x.input, x.isRequest, x.hidden))]
            && ChannelsDistinct(next.entries) && x in next.entries
  {
    var jobs := Launched(s.entries, closed, f.supplier);
    DeliverReceived(s.inbox, jobs, FiringOrder(f.picks, |jobs|), x.channel);
    OpenEntryReceivesOwnResponse(s.entries, closed, f.supplier, f.picks, x);
    PruneKeepsExactlyOpen(s.entries, closed, x);
    PruneDistinct(s.entries, closed);
  }

  /** A channel closed before the firings receives nothing from them. */
  lemma {:induction false} ClosedChannelUntouched<T, R>(s: Snapshot<T, R>, closed: set<nat>, window: seq<Firing<T, R>>, c: nat)
    requires c in closed
    ensures Received(AfterFirings(s, closed, window).inbox, c) == Received(s.inbox, c)
    decreases |window|
  {
    if window != [] {
      var f := window[0];
      var jobs := Launched(s.entries, closed, f.supplier);
      DeliverReceived(s.inbox, jobs, FiringOrder(f.picks, |jobs|), c);
      ClosedChannelReceivesNothing(s.entries, closed, f.supplier, f.picks, c);
      ClosedChannelUntouched(AfterFiring(s, closed, f), closed, window[1..], c);
    }
  }

  /** The responses an entry's own evaluations give over the firings of a window. */
  function OwnResponses<T, R>(x: DetectEntry<T>, window: seq<Firing<T, R>>): (rs: seq<Option<R>>)
    ensures |rs| == |window|
    ensures forall k :: 0 <= k < |window| ==> rs[k] == Response(window[k].supplier(x.input, x.isRequest, x.hidden))
  {
    if window == [] then []
    else [Response(window[0].supplier(x.input, x.isRequest, x.hidden))] + OwnResponses(x, window[1..])
  }

  // ---------------------------------------------------------------------------------------
  // Properties of a firing

  /** A scan keeps exactly the entries whose channel is open. */
  lemma {:induction false} PruneKeepsExactlyOpen<T>(entries: seq<DetectEntry<T>>, closed: set<nat>, e: DetectEntry<T>)
    ensures e in Prune(entries, closed) <==> e in entries && e.channel !in closed
  {
    if entries != [] {
      var init := entries[..|entries| - 1];
      PruneKeepsExactlyOpen(init, closed, e);
      assert entries == init + [entries[|entries| - 1]];
    }
  }

  /** A scan keeps the table's order: pruning distributes over concatenation. */
  lemma {:induction false} PruneAppend<T>(a: seq<DetectEntry<T>>, b: seq<DetectEntry<T>>, closed: set<nat>)
    ensures Prune(a + b, closed) == Prune(a, closed) + Prune(b, closed)
  {
    if b == [] {
      assert a + b == a;
    } else {
      var init := b[..|b| - 1];
      PruneAppend(a, init, closed);
      assert (a + b)[..|a + b| - 1] == a + init;
    }
  }

  /** Pruning keeps the channels of the table distinct. */
  lemma {:induction false} PruneDistinct<T>(entries: seq<DetectEntry<T>>, closed: set<nat>)
    requires ChannelsDistinct(entries)
    ensures ChannelsDistinct(Prune(entries, closed))
  {
    if entries != [] {
      var init := entries[..|entries| - 1];
      var last := entries[|entries| - 1];
      assert ChannelsDistinct(init);
      PruneDistinct(init, closed);
      forall e | e in Prune(init, closed) ensures e.channel != last.channel {
        PruneKeepsExactlyOpen(init, closed, e);
      }
    }
  }

  /** During the scan the entry at the cursor is the next entry of the original table. */
  lemma ScanAt<T>(orig: seq<DetectEntry<T>>, j: nat, closed: set<nat>, table: seq<DetectEntry<T>>)
    requires j < |orig| && table == Prune(orig[..j], closed) + orig[j..]
    ensures |Prune(orig[..j], closed)| < |table| && table[|Prune(orig[..j], closed)|] == orig[j]
  {
  }

  /** The pruned prefix up to j + 1, from the pruned prefix up to j. */
  lemma PruneNext<T>(orig: seq<DetectEntry<T>>, j: nat, closed: set<nat>)
    requires j < |orig|
    ensures orig[j].channel in closed ==> Prune(orig[..j + 1], closed) == Prune(orig[..j], closed)
    ensures orig[j].channel !in closed ==> Prune(orig[..j + 1], closed) == Prune(orig[..j], closed) + [orig[j]]
  {
    assert orig[..j + 1][..j] == orig[..j];
    assert Prune(orig[..j], closed) + [] == Prune(orig[..j], closed);
  }

  /** A closed entry at the cursor is removed from the table. */
  lemma ScanDrop<T>(orig: seq<DetectEntry<T>>, j: nat, closed: set<nat>, table: seq<DetectEntry<T>>, i: nat)
    requires j < |orig| && table == Prune(orig[..j], closed) + orig[j..]
    requires i == |Prune(orig[..j], closed)| && orig[j].channel in closed
    ensures i < |table|
    ensures table[..i] + table[i + 1..] == Prune(orig[..j + 1], closed) + orig[j + 1..]
    ensures Prune(orig[..j + 1], closed) == Prune(orig[..j], closed)
    ensures i == |Prune(orig[..j + 1], closed)|
  {
    PruneNext(orig, j, closed);
    assert orig[j..] == [orig[j]] + orig[j + 1..];
    assert table[..i] == Prune(orig[..j], closed);
    assert table[i + 1..] == orig[j + 1..];
  }

  /** An open entry at the cursor stays in the table and the cursor moves past it. */
  lemma ScanKeep<T>(orig: seq<DetectEntry<T>>, j: nat, closed: set<nat>, table: seq<DetectEntry<T>>, i: nat)
    requires j < |orig| && table == Prune(orig[..j], closed) + orig[j..]
    requires i == |Prune(orig[..j], closed)| && orig[j].channel !in closed
    ensures table == Prune(orig[..j + 1], closed) + orig[j + 1..]
    ensures Prune(orig[..j + 1], closed) == Prune(orig[..j], closed) + [orig[j]]
    ensures i + 1 == |Prune(orig[..j + 1], closed)|
  {
    PruneNext(orig, j, closed);
    assert orig[j..] == [orig[j]] + orig[j + 1..];
    assert table == (Prune(orig[..j], closed) + [orig[j]]) + orig[j + 1..];
  }

  /** Evaluating one more kept entry appends its evaluation. */
  lemma EvaluationsAppend<T, R>(kept: seq<DetectEntry<T>>, e: DetectEntry<T>, supplier: Supplier<T, R>)
    ensures Evaluations(kept + [e], supplier) == Evaluations(kept, supplier) + [Evaluate(Some(e), supplier)]
  {
  }

  /** A firing keeps the table's channels distinct and below `bound`, and answers only open channels below it. */
  lemma LaunchedBounds<T, R>(entries: seq<DetectEntry<T>>, closed: set<nat>, supplier: Supplier<T, R>, bound: nat)
    requires ChannelsDistinct(entries)
    requires forall k :: 0 <= k < |entries| ==> entries[k].channel < bound
    ensures ChannelsDistinct(Prune(entries, closed))
    ensures forall k :: 0 <= k < |Prune(entries, closed)| ==> Prune(entries, closed)[k].channel < bound
    ensures forall k :: 0 <= k < |Launched(entries, closed, supplier)| && Launched(entries, closed, supplier)[k].channel.Some? ==>
              && Launched(entries, closed, supplier)[k].channel.value !in closed
              && Launched(entries, closed, supplier)[k].channel.value < bound
  {
    PruneDistinct(entries, closed);
    var kept := Prune(entries, closed);
    forall k | 0 <= k < |kept| ensures kept[k].channel < bound && kept[k].channel !in closed {
      PruneKeepsExactlyOpen(entries, closed, kept[k]);
    }
  }

  /** With a non-empty table no default entry is evaluated, even when every entry is closed. */
  lemma NoDefaultEntryWhenTableNonEmpty<T, R>(entries: seq<DetectEntry<T>>, closed: set<nat>, supplier: Supplier<T, R>)
    requires entries != []
    ensures forall k :: 0 <= k < |Launched(entries, closed, supplier)| ==> Launched(entries, closed, supplier)[k].channel.Some?
    ensures |Launched(entries, closed, supplier)| == |Prune(entries, closed)|
  {
  }

  /** Responses sent to one channel when a single job answers it. */
  lemma {:induction false} SentToSingleJob<R>(jobs: seq<Job<R>>, order: seq<nat>, c: nat, m: nat)
    requires forall k :: 0 <= k < |order| ==> order[k] < |jobs|
    requires m < |jobs| && jobs[m].channel == Some(c)
    requires forall k :: 0 <= k < |jobs| && k != m ==> jobs[k].channel != Some(c)
    ensures SentTo(jobs, order, c) == seq(multiset(order)[m], _ => Response(jobs[m].outcome))
  {
    if order != [] {
      var init := order[..|order| - 1];
      var last := order[|order| - 1];
      var resp := Response(jobs[m].outcome);
      SentToSingleJob(jobs, init, c, m);
      assert order == init + [last];
      var before: multiset<nat> := multiset(init);
      var n := before[m];
      if last == m {
        assert multiset(order)[m] == n + 1;
        assert SentTo(jobs, order, c) == SentTo(jobs, init, c) + [resp];
        assert seq(n + 1, _ => resp) == seq(n, _ => resp) + [resp];
      } else {
        assert multiset(order)[m] == n;
        assert SentTo(jobs, order, c) == SentTo(jobs, init, c) + [];
      }
    }
  }

  /** A channel no job answers receives nothing. */
  lemma {:induction false} SentToNoJob<R>(jobs: seq<Job<R>>, order: seq<nat>, c: nat)
    requires forall k :: 0 <= k < |order| ==> order[k] < |jobs|
    requires forall k :: 0 <= k < |jobs| ==> jobs[k].channel != Some(c)
    ensures SentTo(jobs, order, c) == []
  {
    if order != [] {
      SentToNoJob(jobs, order[..|order| - 1], c);
    }
  }

  /** The inbox after one finished job has sent its response to its entry's channel, if any. */
  function Post<R>(inbox: map<nat, seq<Option<R>>>, job: Job<R>): map<nat, seq<Option<R>>>
  {
    if job.channel.Some? then inbox[job.channel.value := Received(inbox, job.channel.value) + [Response(job.outcome)]]
    else inbox
  }

  /** The inbox after the jobs finishing in `order` have each posted their response. */
  function Deliver<R>(inbox: map<nat, seq<Option<R>>>, jobs: seq<Job<R>>, order: seq<nat>): map<nat, seq<Option<R>>>
    requires forall k :: 0 <= k < |order| ==> order[k] < |jobs|
  {
    if order == [] then inbox
    else Post(Deliver(inbox, jobs, order[..|order| - 1]), jobs[order[|order| - 1]])
  }

  /** Per channel, delivering the jobs appends exactly what they send to that channel. */
  lemma {:induction false} DeliverReceived<R>(inbox: map<nat, seq<Option<R>>>, jobs: seq<Job<R>>, order: seq<nat>, c: nat)
    requires forall k :: 0 <= k < |order| ==> order[k] < |jobs|
    ensures Received(Deliver(inbox, jobs, order), c) == Received(inbox, c) + SentTo(jobs, order, c)
  {
    if order == [] {
      assert Received(inbox, c) + [] == Received(inbox, c);
    } else {
      var init := order[..|order| - 1];
      var job := jobs[order[|order| - 1]];
      var mid := Deliver(inbox, jobs, init);
      DeliverReceived(inbox, jobs, init, c);
      if job.channel == Some(c) {
        assert Received(Post(mid, job), c) == Received(mid, c) + [Response(job.outcome)];
        assert (Received(inbox, c) + SentTo(jobs, init, c)) + [Response(job.outcome)] ==
               Received(inbox, c) + (SentTo(jobs, init, c) + [Response(job.outcome)]);
      } else {
        assert Received(Post(mid, job), c) == Received(mid, c);
        assert SentTo(jobs, order, c) == SentTo(jobs, init, c) + [];
      }
    }
  }

  /**
   * Every open entry receives exactly one response per firing, its own: `null` when its
   * evaluation failed or awaited null, else its own awaited value, whichever job won.
   */
  lemma OpenEntryReceivesOwnResponse<T, R>(entries: seq<DetectEntry<T>>, closed: set<nat>,
                                           supplier: Supplier<T, R>, picks: seq<nat>, e: DetectEntry<T>)
    requires ChannelsDistinct(entries)
    requires e in entries && e.channel !in closed
    ensures var jobs := Launched(entries, closed, supplier);
            SentTo(jobs, FiringOrder(picks, |jobs|), e.channel) == [Response(supplier(e.input, e.isRequest, e.hidden))]
  {
    var kept := Prune(entries, closed);
    var jobs := Evaluations(kept, supplier);
    assert jobs == Launched(entries, closed, supplier);
    PruneKeepsExactlyOpen(entries, closed, e);
    PruneDistinct(entries, closed);
    var m: nat :| m < |kept| && kept[m] == e;
    forall k | 0 <= k < |jobs| && k != m ensures jobs[k].channel != Some(e.channel) {
      assert jobs[k].channel == Some(kept[k].channel);
    }
    var order: seq<nat> := FiringOrder(picks, |jobs|);
    var mine := Response(jobs[m].outcome);
    SentToSingleJob(jobs, order, e.channel, m);
    assert multiset(order)[m] == 1;
    assert seq(1, _ => mine) == [mine];
  }

  /** A channel with no open entry in the table receives nothing from a firing. */
  lemma ClosedChannelReceivesNothing<T, R>(entries: seq<DetectEntry<T>>, closed: set<nat>,
                                           supplier: Supplier<T, R>, picks: seq<nat>, c: nat)
    requires forall e :: e in entries && e.channel == c ==> c in closed
    ensures var jobs := Launched(entries, closed, supplier);
            SentTo(jobs, FiringOrder(picks, |jobs|), c) == []
  {
    var jobs := Launched(entries, closed, supplier);
    var kept := Prune(entries, closed);
    forall k | 0 <= k < |jobs| ensures jobs[k].channel != Some(c) {
      if entries != [] {
        PruneKeepsExactlyOpen(entries, closed, kept[k]);
      }
    }
    SentToNoJob(jobs, FiringOrder(picks, |jobs|), c);
  }

  /** Appending one finished job to the order (the loop step of the race). */
  lemma {:induction false} FirstSuccessAppend<R>(jobs: seq<Job<R>>, order: seq<nat>, k: nat)
    requires forall i :: 0 <= i < |order| ==> order[i] < |jobs|
    requires k < |jobs|
    ensures FirstSuccess(jobs, order + [k]) ==
            if FirstSuccess(jobs, order).Some? then FirstSuccess(jobs, order) else Response(jobs[k].outcome)
  {
    if order != [] {
      assert (order + [k])[1..] == order[1..] + [k];
      FirstSuccessAppend(jobs, order[1..], k);
    }
  }

  /**
   * The success context holds `v` exactly when some job in the order awaited `v` and every job
   * finishing before it yielded null (failed or awaited null).
   */
  lemma {:induction false} FirstSuccessIsFirstNonNull<R>(jobs: seq<Job<R>>, order: seq<nat>, v: R)
    requires forall i :: 0 <= i < |order| ==> order[i] < |jobs|
    ensures FirstSuccess(jobs, order) == Some(v) <==>
            exists k :: 0 <= k < |order| && Response(jobs[order[k]].outcome) == Some(v) &&
                        forall k' :: 0 <= k' < k ==> Response(jobs[order[k']].outcome).None?
  {
    if order != [] {
      FirstSuccessIsFirstNonNull(jobs, order[1..], v);
      if Response(jobs[order[0]].outcome).None? {
        if exists k :: 0 <= k < |order| && Response(jobs[order[k]].outcome) == Some(v) &&
                       forall k' :: 0 <= k' < k ==> Response(jobs[order[k']].outcome).None? {
          var k :| 0 <= k < |order| && Response(jobs[order[k]].outcome) == Some(v) &&
                   forall k' :: 0 <= k' < k ==> Response(jobs[order[k']].outcome).None?;
          assert order[1..][k - 1] == order[k];
          forall k' | 0 <= k' < k - 1 ensures Response(jobs[order[1..][k']].outcome).None? {
            assert order[1..][k'] == order[k' + 1];
          }
        }
        if FirstSuccess(jobs, order[1..]) == Some(v) {
          var k :| 0 <= k < |order| - 1 && Response(jobs[order[1..][k]].outcome) == Some(v) &&
                   forall k' :: 0 <= k' < k ==> Response(jobs[order[1..][k']].outcome).None?;
          forall k' | 0 <= k' < k + 1 ensures Response(jobs[order[k']].outcome).None? {
            if k' > 0 { assert order[k'] == order[1..][k' - 1]; }
          }
        }
      }
    }
  }

  /** The success context is completed iff some job awaited a non-null value, in any completion order. */
  lemma {:induction false} SuccessIffSomeNonNull<R>(jobs: seq<Job<R>>, order: seq<nat>)
    requires forall i :: 0 <= i < |order| ==> order[i] < |jobs|
    ensures FirstSuccess(jobs, order).Some? <==> exists k :: 0 <= k < |order| && Response(jobs[order[k]].outcome).Some?
  {
    if order != [] {
      SuccessIffSomeNonNull(jobs, order[1..]);
      if exists k :: 0 <= k < |order| && Response(jobs[order[k]].outcome).Some? {
        var k :| 0 <= k < |order| && Response(jobs[order[k]].outcome).Some?;
        if k > 0 { assert order[1..][k - 1] == order[k]; }
      }
    }
  }

  /** The event runs for a firing iff some launched evaluation awaits a non-null value: the race decides only which. */
  lemma EventRunsIffSomeEvaluationSucceeds<R>(jobs: seq<Job<R>>, picks: seq<nat>)
    ensures FirstSuccess(jobs, FiringOrder(picks, |jobs|)).Some? <==>
            exists m :: 0 <= m < |jobs| && Response(jobs[m].outcome).Some?
  {
    var order := FiringOrder(picks, |jobs|);
    SuccessIffSomeNonNull(jobs, order);
    if exists m :: 0 <= m < |jobs| && Response(jobs[m].outcome).Some? {
      var m :| 0 <= m < |jobs| && Response(jobs[m].outcome).Some?;
      assert m in multiset(order);
      var k :| 0 <= k < |order| && order[k] == m;
    }
  }

  /** With an empty table exactly one evaluation runs: the default entry, without input, not hidden, not a request. */
  lemma EmptyTableEvaluatesDefaultEntry<T, R>(closed: set<nat>, supplier: Supplier<T, R>, picks: seq<nat>)
    ensures Launched([], closed, supplier) == [Job(None, supplier(None, false, false))]
    ensures FirstSuccess(Launched([], closed, supplier), FiringOrder(picks, 1)) == Response(supplier(None, false, false))
  {
    var order := FiringOrder(picks, 1);
    assert order == [0];
  }

  /** A request resolves to a value only when some firing produced that non-null value for its entry. */
  lemma {:induction false} AwaitDetectionIgnoresNull<T, R>(input: T, hidden: bool, window: seq<WaitEvent<T, R>>, v: R)
    requires AwaitDetection(input, hidden, window) == Resolved(v)
    ensures exists k :: 0 <= k < |window| && window[k].Fired? &&
                        Response(window[k].firing.supplier(Some(input), true, hidden)) == Some(v)
  {
    if window[0].Fired? && Response(window[0].firing.supplier(Some(input), true, hidden)).None? {
      AwaitDetectionIgnoresNull(input, hidden, window[1..], v);
      var k :| 0 <= k < |window| - 1 && window[1..][k].Fired? &&
               Response(window[1..][k].firing.supplier(Some(input), true, hidden)) == Some(v);
      assert window[k + 1] == window[1..][k];
    }
  }

  // ---------------------------------------------------------------------------------------
  // State

  /** CompletableDeferred<R>: a single-assignment cell; only the first `complete` takes effect. */
  class SuccessContext<R> {
    var value: Option<R>

    constructor ()
      ensures value == None
    {
      value := None;
    }

    method Complete(v: R) returns (accepted: bool)
      modifies this
      ensures accepted <==> old(value).None?
      ensures value == if accepted then Some(v) else old(value)
    {
      accepted := value.None?;
      if accepted {
        value := Some(v);
      }
    }
  }

  class TrialDetector<T(==), R(==)> {
    const name: string
    const kind: Kind
    /** The `ConcurrentLinkedQueue` of pending entries. */
    var entries: seq<DetectEntry<T>>
    /** Channels closed for send. */
    var closed: set<nat>
    /** Everything sent to each channel, in order. */
    var inbox: map<nat, seq<Option<R>>>
    /** The values the detector's event has run with. */
    var events: seq<R>
    /** The id the next channel gets. */
    var nextChannel: nat

    ghost predicate Valid()
      reads this
    {
      && ChannelsDistinct(entries)
      && (forall i :: 0 <= i < |entries| ==> entries[i].channel < nextChannel)
      && (forall c :: c in inbox ==> c < nextChannel)
      && (forall c :: c in closed ==> c < nextChannel)
    }

    constructor (name: string, kind: Kind)
      ensures Valid()
      ensures this.name == name && this.kind == kind
      ensures entries == [] && closed == {} && inbox == map[] && events == [] && nextChannel == 0
    {
      this.name := name;
      this.kind := kind;
      entries := [];
      closed := {};
      inbox := map[];
      events := [];
      nextChannel := 0;
    }

    /** The responses channel c has been sent. */
    function Queue(c: nat): seq<Option<R>>
      reads this
    {
      Received(inbox, c)
    }

    /** What firings change: the table, every channel's history and the event log. */
    function State(): Snapshot<T, R>
      reads this
    {
      Snapshot(entries, inbox, events)
    }

    /** `entries += DetectEntry(isRequest, input, responses, hidden)` with a fresh channel. */
    method Register(input: Option<T>, isRequest: bool, hidden: bool) returns (ch: nat)
      requires Valid()
      modifies this
      ensures Valid()
      ensures ch == old(nextChannel) && nextChannel == ch + 1
      ensures entries == old(entries) + [DetectEntry(isRequest, input, ch, hidden)]
      ensures closed == old(closed) && inbox == old(inbox) && events == old(events)
      ensures ch !in closed && Queue(ch) == []
    {
      ch := nextChannel;
      entries := entries + [DetectEntry(isRequest, input, ch, hidden)];
      nextChannel := nextChannel + 1;
    }

    /** `responses.close()`: the entry stays in the table until the next firing prunes it. */
    method Close(ch: nat)
      requires Valid() && ch < nextChannel
      modifies this
      ensures Valid()
      ensures closed == old(closed) + {ch}
      ensures entries == old(entries) && inbox == old(inbox) && events == old(events)
      ensures nextChannel == old(nextChannel)
    {
      closed := closed + {ch};
    }

    /** `trySend` on an unlimited channel: the value is delivered unless the channel is closed. */
    method TrySend(c: nat, v: Option<R>)
      modifies this`inbox
      ensures c !in closed ==> inbox == old(inbox)[c := old(Queue(c)) + [v]]
      ensures c in closed ==> inbox == old(inbox)
    {
      if c !in closed {
        inbox := inbox[c := Queue(c) + [v]];
      }
    }

    /**
     * The firing handler of `onEnable` for one supplier: evaluate the default entry when the
     * table is empty, otherwise prune closed entries and evaluate the open ones; then let the
     * launched evaluations finish in the order the scheduler picks, each sending its response to
     * its own entry and offering a non-null value to the success context; finally run the event
     * with the completed context, if any.
     */
    method Fire(supplier: Supplier<T, R>, picks: seq<nat>)
      requires Valid()
      modifies this
      ensures Valid()
      ensures entries == Prune(old(entries), closed)
      ensures closed == old(closed) && nextChannel == old(nextChannel)
      ensures var jobs := Launched(old(entries), closed, supplier);
              var order := FiringOrder(picks, |jobs|);
              && (forall c :: Queue(c) == old(Queue(c)) + SentTo(jobs, order, c))
              && events == old(events) + Emitted(FirstSuccess(jobs, order))
      ensures State() == AfterFiring(old(State()), closed, Firing(supplier, picks))
    {
      var jobs := Scan(supplier);
      Settle(jobs, picks);
    }

    /**
     * The asynchronous part of a firing: the launched evaluations finish in the scheduler's
     * order, and the event runs with the completed success context, if any.
     */
    method Settle(jobs: seq<Job<R>>, picks: seq<nat>)
      requires Valid() && AnswersOpenChannels(jobs)
      modifies this`inbox, this`events
      ensures Valid()
      ensures var order := FiringOrder(picks, |jobs|);
              && inbox == Deliver(old(inbox), jobs, order)
              && (forall c :: Queue(c) == old(Queue(c)) + SentTo(jobs, order, c))
              && events == old(events) + Emitted(FirstSuccess(jobs, order))
    {
      var order := FiringOrder(picks, |jobs|);
      var success := Race(jobs, order);
      forall c: nat ensures Queue(c) == old(Queue(c)) + SentTo(jobs, order, c) {
        DeliverReceived(old(inbox), jobs, order, c);
      }
      if success.Some? {
        events := events + [success.value];
      }
    }

    /** The evaluations of a firing answer open channels of this detector. */
    ghost predicate AnswersOpenChannels(jobs: seq<Job<R>>)
      reads this
    {
      forall k :: 0 <= k < |jobs| && jobs[k].channel.Some? ==>
        jobs[k].channel.value !in closed && jobs[k].channel.value < nextChannel
    }

    /**
     * The synchronous part of a firing: `considerEntry` for the default entry when the table is
     * empty, then the scan that removes closed entries through the iterator and evaluates the
     * others in table order.
     */
    method Scan(supplier: Supplier<T, R>) returns (jobs: seq<Job<R>>)
      requires Valid()
      modifies this`entries
      ensures Valid()
      ensures entries == Prune(old(entries), closed)
      ensures jobs == Launched(old(entries), closed, supplier)
      ensures AnswersOpenChannels(jobs)
    {
      var table;
      table, jobs := Iterate(supplier);
      LaunchedBounds(entries, closed, supplier, nextChannel);
      entries := table;
    }

    /** The loop over the table's iterator: returns the table without its closed entries. */
    method Iterate(supplier: Supplier<T, R>) returns (table: seq<DetectEntry<T>>, jobs: seq<Job<R>>)
      ensures table == Prune(entries, closed)
      ensures jobs == Launched(entries, closed, supplier)
    {
      jobs := [];
      if entries == [] {
        jobs := [Evaluate(None, supplier)];
      }
      ghost var j := 0;
      table := entries;
      var i := 0;
      while i < |table|
        invariant 0 <= j <= |entries|
        invariant table == Prune(entries[..j], closed) + entries[j..]
        invariant i == |Prune(entries[..j], closed)|
        invariant entries == [] ==> jobs == [Evaluate(None, supplier)]
        invariant entries != [] ==> jobs == Evaluations(Prune(entries[..j], closed), supplier)
        decreases |entries| - j
      {
        ScanAt(entries, j, closed, table);
        var entry := table[i];
        assert entry == entries[j];
        if entry.channel in closed {
          ScanDrop(entries, j, closed, table, i);
          table := table[..i] + table[i + 1..];
        } else {
          ScanKeep(entries, j, closed, table, i);
          EvaluationsAppend(Prune(entries[..j], closed), entry, supplier);
          jobs := jobs + [Evaluate(Some(entry), supplier)];
          i := i + 1;
        }
        j := j + 1;
      }
      assert entries[..j] == entries;
    }

    /**
     * The launched evaluations finish in `order` (the scheduler's choice); each sends its response
     * to its entry (the default entry has none) and completes the success context with a
     * non-null awaited value. Returns what the success context holds at the end.
     */
    method Race(jobs: seq<Job<R>>, order: seq<nat>) returns (success: Option<R>)
      requires Valid() && AnswersOpenChannels(jobs)
      requires forall k :: 0 <= k < |order| ==> order[k] < |jobs|
      modifies this`inbox
      ensures Valid()
      ensures inbox == Deliver(old(inbox), jobs, order)
      ensures success == FirstSuccess(jobs, order)
    {
      var successContext := new SuccessContext<R>();
      for i := 0 to |order|
        invariant inbox == Deliver(old(inbox), jobs, order[..i])
        invariant successContext.value == FirstSuccess(jobs, order[..i])
        invariant Valid()
      {
        Finish(jobs[order[i]], successContext);
        FirstSuccessAppend(jobs, order[..i], order[i]);
        assert order[..i + 1] == order[..i] + [order[i]];
        assert order[..i + 1][..i] == order[..i];
      }
      assert order[..|order|] == order;
      success := successContext.value;
    }

    /**
     * One launched evaluation finishing: it sends its response to its entry, if it has one,
     * and offers a non-null awaited value to the success context.
     */
    method Finish(job: Job<R>, successContext: SuccessContext<R>)
      requires Valid()
      requires job.channel.Some? ==> job.channel.value !in closed && job.channel.value < nextChannel
      modifies this`inbox, successContext
      ensures Valid()
      ensures inbox == Post(old(inbox), job)
      ensures successContext.value ==
              if old(successContext.value).Some? then old(successContext.value) else Response(job.outcome)
    {
      match job.outcome {
        case Fail =>
          if job.channel.Some? {
            TrySend(job.channel.value, None);
          }
        case Deferred(awaited) =>
          if job.channel.Some? {
            TrySend(job.channel.value, awaited);
          }
          if awaited.Some? {
            var _ := successContext.Complete(awaited.value);
          }
      }
    }

    /**
     * One firing while the entry e is waiting: the state moves on by that firing, e stays in
     * the table and receives its own response.
     */
    method FireObserved(e: DetectEntry<T>, f: Firing<T, R>)
      requires Valid() && e in entries && e.channel !in closed
      modifies this
      ensures Valid()
      ensures State() == AfterFiring(old(State()), closed, f)
      ensures e in entries && closed == old(closed) && nextChannel == old(nextChannel)
      ensures Queue(e.channel) == old(Queue(e.channel)) + [Response(f.supplier(e.input, e.isRequest, e.hidden))]
    {
      PruneKeepsExactlyOpen(entries, closed, e);
      OpenEntryReceivesOwnResponse(entries, closed, f.supplier, f.picks, e);
      Fire(f.supplier, f.picks);
    }

    /** The firings of `window` one after another while the entry e is waiting. */
    method Observe(e: DetectEntry<T>, window: seq<Firing<T, R>>)
      requires Valid() && e in entries && e.channel !in closed
      modifies this
      ensures Valid()
      ensures State() == AfterFirings(old(State()), closed, window)
      ensures Queue(e.channel) == old(Queue(e.channel)) + OwnResponses(e, window)
      ensures e in entries && closed == old(closed) && nextChannel == old(nextChannel)
    {
      var k := 0;
      while k < |window|
        invariant Valid() && k <= |window|
        invariant e in entries && closed == old(closed) && nextChannel == old(nextChannel)
        invariant AfterFirings(old(State()), closed, window) == AfterFirings(State(), closed, window[k..])
      {
        AfterFiringsStep(State(), closed, window, k);
        FireObserved(e, window[k]);
        k := k + 1;
      }
      OpenEntryHistory(old(State()), closed, window, e);
    }

    /**
     * Collecting `detect(input, hidden)` while the firings of `window` happen, then stopping:
     * the entry is registered with isRequest false, every response it gets is emitted, and the
     * channel is closed when collection stops.
     */
    method Detect(input: Option<T>, hidden: bool, window: seq<Firing<T, R>>) returns (emitted: seq<Option<R>>)
      requires Valid()
      modifies this
      ensures Valid()
      ensures var e := DetectEntry(false, input, old(nextChannel), hidden);
              && e in entries && e.channel in closed
              && emitted == Queue(e.channel)
              && |emitted| == |window|
              && forall k :: 0 <= k < |window| ==> emitted[k] == Response(window[k].supplier(input, false, hidden))
      ensures var e := DetectEntry(false, input, old(nextChannel), hidden);
              && State() == AfterFirings(Snapshot(old(entries) + [e], old(inbox), old(events)), old(closed), window)
              && closed == old(closed) + {e.channel} && nextChannel == old(nextChannel) + 1
    {
      var ch := Register(input, false, hidden);
      var e := DetectEntry(false, input, ch, hidden);
      Observe(e, window);
      assert Queue(ch) == [] + OwnResponses(e, window);
      emitted := Queue(ch);
      Close(ch);
    }
  }

  /** A TrialDetector whose primary trial can also be started, and which counts its active requests. */
  class TrialRequester<T(==), R(==)> {
    const detector: TrialDetector<T, R>
    /** The primary trial's `start` action. */
    const start: T -> Option<R>
    var activeRequests: int

    ghost predicate Valid()
      reads this, detector
    {
      detector.Valid() && detector.kind == Requester
    }

    constructor (name: string, start: T -> Option<R>)
      ensures Valid() && fresh(detector)
      ensures detector.name == name && detector.entries == [] && detector.events == []
      ensures this.start == start && activeRequests == 0
    {
      detector := new TrialDetector(name, Requester);
      this.start := start;
      activeRequests := 0;
    }

    /**
     * `request(input, hidden)` while the events of `window` happen: registers a request entry,
     * counts itself active, returns a non-null `start(input)` at once, and otherwise waits for
     * the first non-null response to its entry, timing out when the window ends and failing
     * when the lifecycle notifies first. The counter is restored and the entry's channel is
     * closed on every path.
     */
    method Request(input: T, hidden: bool, window: seq<WaitEvent<T, R>>) returns (r: RequestResult<R>)
      requires Valid()
      modifies this, detector
      ensures Valid()
      ensures activeRequests == old(activeRequests)
      ensures r == if start(input).Some? then Resolved(start(input).value) else AwaitDetection(input, hidden, window)
      ensures var e := DetectEntry(true, Some(input), old(detector.nextChannel), hidden);
              && e in detector.entries && e.channel in detector.closed
              && (r.Resolved? && start(input).None? ==> FirstNonNull(detector.Queue(e.channel)) == Some(r.value))
              && (!r.Resolved? ==> FirstNonNull(detector.Queue(e.channel)) == None)
      ensures start(input).Some? ==>
                detector.events == old(detector.events) &&
                detector.entries == old(detector.entries) + [DetectEntry(true, Some(input), old(detector.nextChannel), hidden)]
      ensures var e := DetectEntry(true, Some(input), old(detector.nextChannel), hidden);
              var registered := Snapshot(old(detector.entries) + [e], old(detector.inbox), old(detector.events));
              && detector.State() == (if start(input).Some? then registered
                                      else AfterRequestWait(registered, old(detector.closed), input, hidden, window))
              && detector.closed == old(detector.closed) + {e.channel}
              && detector.nextChannel == old(detector.nextChannel) + 1
    {
      var ch := detector.Register(Some(input), true, hidden);
      var e := DetectEntry(true, Some(input), ch, hidden);
      activeRequests := activeRequests + 1;
      var started := start(input);
      if started.Some? {
        r := Resolved(started.value);
      } else {
        r := AwaitResponse(e, window);
      }
      detector.Close(ch);
      activeRequests := activeRequests - 1;
    }

    /**
     * The waiting part of a request whose `start` gave null: the firings of `window` run
     * until one answers the request entry e non-null, which resolves the request; a lifecycle
     * notification cancels it, and the end of the window times it out.
     */
    method AwaitResponse(e: DetectEntry<T>, window: seq<WaitEvent<T, R>>) returns (r: RequestResult<R>)
      requires detector.Valid() && e.isRequest && e.input.Some?
      requires e in detector.entries && e.channel !in detector.closed && detector.Queue(e.channel) == []
      modifies detector
      ensures detector.Valid()
      ensures e in detector.entries
      ensures detector.closed == old(detector.closed) && detector.nextChannel == old(detector.nextChannel)
      ensures r == AwaitDetection(e.input.value, e.hidden, window)
      ensures detector.State() == AfterRequestWait(old(detector.State()), detector.closed, e.input.value, e.hidden, window)
      ensures r.Resolved? ==> FirstNonNull(detector.Queue(e.channel)) == Some(r.value)
      ensures !r.Resolved? ==> FirstNonNull(detector.Queue(e.channel)) == None
    {
      var input, hidden := e.input.value, e.hidden;
      ghost var result := AwaitDetection(input, hidden, window);
      ghost var target := AfterRequestWait(detector.State(), detector.closed, input, hidden, window);
      r := TimedOut;
      var k := 0;
      while k < |window| && r == TimedOut
        invariant detector.Valid() && k <= |window|
        invariant e in detector.entries
        invariant detector.closed == old(detector.closed) && detector.nextChannel == old(detector.nextChannel)
        invariant r == TimedOut ==> result == AwaitDetection(input, hidden, window[k..])
        invariant r == TimedOut ==> target == AfterRequestWait(detector.State(), detector.closed, input, hidden, window[k..])
        invariant r != TimedOut ==> result == r && target == detector.State()
        invariant FirstNonNull(detector.Queue(e.channel)) == if r.Resolved? then Some(r.value) else None
        decreases |window| - k, if r == TimedOut then 1 else 0
      {
        if window[k].LifecycleNotified? {
          assert window[k..][0] == window[k];
          r := Cancelled;
        } else {
          var got := AwaitFiring(e, window, k);
          if got.Some? {
            r := Resolved(got.value);
          }
          k := k + 1;
        }
      }
    }

    /**
     * Firing k of a request's wait: the first non-null response the request entry e has got,
     * and the result and state the wait goes on from (or ends in, when there is one).
     */
    method AwaitFiring(e: DetectEntry<T>, window: seq<WaitEvent<T, R>>, k: nat) returns (got: Option<R>)
      requires detector.Valid() && e.isRequest && e.input.Some?
      requires e in detector.entries && e.channel !in detector.closed
      requires FirstNonNull(detector.Queue(e.channel)) == None
      requires k < |window| && window[k].Fired?
      modifies detector
      ensures detector.Valid()
      ensures e in detector.entries
      ensures detector.closed == old(detector.closed) && detector.nextChannel == old(detector.nextChannel)
      ensures got == FirstNonNull(detector.Queue(e.channel))
      ensures AwaitDetection(e.input.value, e.hidden, window[k..]) ==
              if got.Some? then Resolved(got.value) else AwaitDetection(e.input.value, e.hidden, window[k + 1..])
      ensures AfterRequestWait(old(detector.State()), detector.closed, e.input.value, e.hidden, window[k..]) ==
              if got.Some? then detector.State()
              else AfterRequestWait(detector.State(), detector.closed, e.input.value, e.hidden, window[k + 1..])
    {
      var f := window[k].firing;
      assert window[k..][0] == window[k] && window[k..][1..] == window[k + 1..];
      ghost var before := detector.Queue(e.channel);
      detector.FireObserved(e, f);
      FirstNonNullAppend(before, [Response(f.supplier(e.input, true, e.hidden))]);
      got := FirstNonNull(detector.Queue(e.channel));
    }
  }
}
