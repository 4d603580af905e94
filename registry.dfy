/** The client counter (Program.clientCount). Every session increments it once
    when its loop starts and decrements it once when its loop ends; sessions
    run on their own threads, so the counter sees an interleaved history of
    starts and ends, each applied atomically. */
module Registry {

  /** A session's increment (Opened) or decrement (Closed) of the counter. */
  datatype Event = Opened(session: nat) | Closed(session: nat)

  /** One atomic counter update. */
  function Apply(count: int, e: Event): int
  {
    match e
    case Opened(_) => count + 1
    case Closed(_) => count - 1
  }

  /** The counter after a history of updates, starting from zero. */
  function CountAfter(h: seq<Event>): int
  {
    if h == [] then 0 else Apply(CountAfter(h[..|h| - 1]), h[|h| - 1])
  }

  /** The sessions that have started. */
  function Started(h: seq<Event>): set<nat>
  {
    if h == [] then {}
    else Started(h[..|h| - 1]) + if h[|h| - 1].Opened? then {h[|h| - 1].session} else {}
  }

  /** The sessions that have finished. */
  function Finished(h: seq<Event>): set<nat>
  {
    if h == [] then {}
    else Finished(h[..|h| - 1]) + if h[|h| - 1].Closed? then {h[|h| - 1].session} else {}
  }

  /** A history HandleClient can produce: a session starts at most once, and
      ends at most once, after it started. */
  predicate WellFormed(h: seq<Event>)
  {
    h == [] ||
    (var prefix, last := h[..|h| - 1], h[|h| - 1];
     WellFormed(prefix) &&
     match last
     case Opened(id) => id !in Started(prefix)
     case Closed(id) => id in Started(prefix) && id !in Finished(prefix))
  }

  /** One more update: the counter moves by it, and the history stays one
      that sessions can produce when a new session opens or an open session
      closes. */
  lemma CountAfterExtend(h: seq<Event>, e: Event)
    requires WellFormed(h)
    ensures CountAfter(h + [e]) == Apply(CountAfter(h), e)
    ensures Started(h + [e]) == Started(h) + if e.Opened? then {e.session} else {}
    ensures Finished(h + [e]) == Finished(h) + if e.Closed? then {e.session} else {}
    ensures e.Opened? ==> (WellFormed(h + [e]) <==> e.session !in Started(h))
    ensures e.Closed? ==> (WellFormed(h + [e]) <==> e.session in Started(h) && e.session !in Finished(h))
  {
    assert (h + [e])[..|h|] == h;
  }

  /** Taking away a subset takes away exactly its size. */
  lemma SubsetDifferenceSize(s: set<nat>, f: set<nat>)
    requires f <= s
    ensures |s - f| == |s| - |f|
  {
    assert s == (s - f) + f;
    assert (s - f) * f == {};
  }

  /** Open sessions: after M sessions started and N of them finished, the
      counter reads the number of sessions still open (so it is never
      negative). */
  lemma {:induction false} CountIsOpenSessions(h: seq<Event>)
    requires WellFormed(h)
    ensures Finished(h) <= Started(h)
    ensures CountAfter(h) == |Started(h) - Finished(h)|
  {
    if h != [] {
      var prefix := h[..|h| - 1];
      CountIsOpenSessions(prefix);
      LastStep(h);
    }
  }

  /** How the last update of a well-formed history moves the started and
      finished sets and the counter. */
  lemma LastStep(h: seq<Event>)
    requires h != [] && WellFormed(h)
    ensures var prefix, last := h[..|h| - 1], h[|h| - 1];
      var s, f := Started(prefix), Finished(prefix);
      match last
      case Opened(id) =>
        id !in s && Started(h) == s + {id} && Finished(h) == f && CountAfter(h) == CountAfter(prefix) + 1
      case Closed(id) =>
        id in s && id !in f && Started(h) == s && Finished(h) == f + {id} && CountAfter(h) == CountAfter(prefix) - 1
  {
  }

  /** After M sessions started and N of them finished, the counter reads
      M - N. */
  lemma CountIsStartedMinusFinished(h: seq<Event>)
    requires WellFormed(h)
    ensures CountAfter(h) == |Started(h)| - |Finished(h)| >= 0
  {
    CountIsOpenSessions(h);
    SubsetDifferenceSize(Started(h), Finished(h));
  }
}
