/** What a trial's result supplier produces for one evaluated entry, shared by both detector engines. */
module Trials {
  import opened Wrappers

  /**
   * The synchronous result of supplying an entry: `Fail` when the supplier rejected it (the
   * `nullable { ... }` block yielded `null`), or a deferred value whose awaited result may itself
   * be `null`.
   */
  datatype Outcome<R> = Fail | Deferred(awaited: Option<R>)

  /**
   * The event's runs for one firing whose detection ended with `value`: once with it when it
   * is non-null, else none.
   */
  function Emitted<R>(value: Option<R>): (run: seq<R>)
    ensures |run| <= 1
    ensures run != [] <==> value.Some?
    ensures forall k :: 0 <= k < |run| ==> Some(run[k]) == value
  {
    if value.Some? then [value.value] else []
  }

  /** The response an evaluation produces for its entry: null on failure, else the awaited value. */
  function Response<R>(outcome: Outcome<R>): (r: Option<R>)
    ensures r.Some? <==> outcome.Deferred? && outcome.awaited.Some?
    ensures outcome.Deferred? ==> r == outcome.awaited
  {
    match outcome
    case Fail => None
    case Deferred(awaited) => awaited
  }

  /**
   * A response channel is an id; an inbox maps each id to everything sent to that channel, in
   * order. This is the history of sends to channel c.
   */
  function Received<R>(inbox: map<nat, seq<Option<R>>>, c: nat): seq<Option<R>>
  {
    if c in inbox then inbox[c] else []
  }

  /** The first non-null element of a response stream (Kotlin's `filterNotNull().first()`). */
  function FirstNonNull<R>(s: seq<Option<R>>): (r: Option<R>)
    ensures r.Some? ==> Some(r.value) in s
    ensures r.None? <==> forall k :: 0 <= k < |s| ==> s[k].None?
  {
    if s == [] then None
    else if s[0].Some? then s[0]
    else FirstNonNull(s[1..])
  }

  /** Appending to a stream does not change an already present first non-null element. */
  lemma {:induction false} FirstNonNullAppend<R>(s: seq<Option<R>>, t: seq<Option<R>>)
    ensures FirstNonNull(s + t) == if FirstNonNull(s).Some? then FirstNonNull(s) else FirstNonNull(t)
  {
    if s != [] {
      assert (s + t)[0] == s[0];
      assert (s + t)[1..] == s[1..] + t;
      FirstNonNullAppend(s[1..], t);
    } else {
      assert s + t == t;
    }
  }

  /** Concatenation is associative. */
  lemma ConcatAssociative<X>(a: seq<X>, b: seq<X>, c: seq<X>)
    ensures a + b + c == a + (b + c)
  {
  }
}
