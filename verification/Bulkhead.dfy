/** The bulkhead object, and what holds when a woken waiter may resume late. */
module Bulkheads {
  import opened Results

  type Call = nat

  /** The running calls, the waiters, and the waiters that were woken but have not resumed yet. */
  datatype Hall = Hall(active: nat, waiting: seq<Call>, woken: seq<Call>)

  datatype Limits = Limits(maxConcurrent: nat, maxQueue: nat)

  datatype Admission = Started | Queued | Rejected

  // ----- steps ----------------------------------------------------------------------------

  /** What happens at the bulkhead between two awaits. Woken waiters resume in the order in which they were woken. */
  datatype Event = Arrive(call: Call) | Resume | Finish

  predicate Enabled(h: Hall, e: Event) {
    match e
    case Arrive(_) => true
    case Resume => h.woken != []
    case Finish => h.active > 0
  }

  function Admitted(l: Limits, h: Hall): Admission {
    if h.active < l.maxConcurrent then Started else if |h.waiting| < l.maxQueue then Queued else Rejected
  }

  function Step(l: Limits, h: Hall, e: Event): Hall
    requires Enabled(h, e)
  {
    match e
    case Arrive(call) =>
      (match Admitted(l, h)
       case Started => h.(active := h.active + 1)
       case Queued => h.(waiting := h.waiting + [call])
       case Rejected => h)
    case Resume => h.(active := h.active + 1, woken := h.woken[1..])
    case Finish =>
      if h.waiting == [] then h.(active := h.active - 1)
      else Hall(h.active - 1, h.waiting[1..], h.woken + [h.waiting[0]])
  }

  class Bulkhead {
    var active: nat
    var waiters: seq<Call>
    const limits: Limits

    constructor (maxConcurrent: int, maxQueue: int)
      ensures limits.maxConcurrent >= 1 && active == 0 && waiters == []
      ensures maxConcurrent >= 1 ==> limits.maxConcurrent == maxConcurrent
      ensures maxQueue >= 0 ==> limits.maxQueue == maxQueue
    {
      active, waiters := 0, [];
      limits := Limits(if maxConcurrent < 1 then 1 else maxConcurrent, if maxQueue < 0 then 0 else maxQueue);
    }

    /** The object together with the waiters that are woken, which only the event loop knows. */
    ghost function Model(woken: seq<Call>): Hall reads this { Hall(active, waiters, woken) }

    /** `execute` up to its first await: the call starts, waits, or is rejected. */
    method Begin(call: Call, ghost woken: seq<Call>) returns (r: Admission)
      modifies this
      ensures r == Admitted(limits, old(Model(woken)))
      ensures Model(woken) == Step(limits, old(Model(woken)), Arrive(call))
    {
      if active >= limits.maxConcurrent {
        if |waiters| >= limits.maxQueue { return Rejected; }
        waiters := waiters + [call];
        return Queued;
      }
      active := active + 1;
      return Started;
    }

    /** A waiter goes on behind its await. */
    method Continue(ghost woken: seq<Call>)
      requires woken != []
      modifies this
      ensures Model(woken[1..]) == Step(limits, old(Model(woken)), Resume)
    {
      active := active + 1;
    }

    /** The guarded function has ended; the next waiter is woken. */
    method Leave(ghost woken: seq<Call>) returns (next: Option<Call>)
      requires active > 0
      modifies this
      ensures Model(match next case None => woken case Some(c) => woken + [c])
              == Step(limits, old(Model(woken)), Finish)
    {
      active := active - 1;
      if |waiters| == 0 { return None; }
      next := Some(waiters[0]);
      waiters := waiters[1..];
    }
  }

  // ----- runs -----------------------------------------------------------------------------

  const EMPTY := Hall(0, [], [])

  /** `events` can happen one after the other from `h`. */
  ghost predicate Possible(l: Limits, h: Hall, events: seq<Event>)
    decreases |events|
  {
    events == [] || (Enabled(h, events[0]) && Possible(l, Step(l, h, events[0]), events[1..]))
  }

  ghost function After(l: Limits, h: Hall, events: seq<Event>): Hall
    requires Possible(l, h, events)
    decreases |events|
  {
    if events == [] then h else After(l, Step(l, h, events[0]), events[1..])
  }

  /** The queue is bounded, and while somebody waits all places are taken or promised. */
  ghost predicate NobodyStranded(l: Limits, h: Hall) {
    && |h.waiting| <= l.maxQueue
    && (h.waiting != [] ==> h.active + |h.woken| >= l.maxConcurrent)
  }

  /** Over every interleaving, late resumptions included. */
  lemma {:induction false} QueueIsServed(l: Limits, h: Hall, events: seq<Event>)
    requires NobodyStranded(l, h) && Possible(l, h, events)
    ensures NobodyStranded(l, After(l, h, events))
    decreases |events|
  {
    if events != [] { QueueIsServed(l, Step(l, h, events[0]), events[1..]); }
  }

  /** These calls arrive one after the other. */
  function Coming(calls: seq<Call>): (events: seq<Event>)
    ensures |events| == |calls| && forall i | 0 <= i < |calls| :: events[i] == Arrive(calls[i])
  {
    seq(|calls|, i requires 0 <= i < |calls| => Arrive(calls[i]))
  }

  function Least(a: int, b: int): int { if a < b then a else b }

  /** The first of these calls take the free places, the next ones the free places of the queue in their order. */
  function Filled(l: Limits, h: Hall, calls: seq<Call>): Hall
    requires h.active <= l.maxConcurrent && |h.waiting| <= l.maxQueue
  {
    var started := Least(|calls|, l.maxConcurrent - h.active);
    var queued := Least(|calls| - started, l.maxQueue - |h.waiting|);
    Hall(h.active + started, h.waiting + calls[started..started + queued], h.woken)
  }

  lemma FilledStep(l: Limits, h: Hall, calls: seq<Call>)
    requires h.active <= l.maxConcurrent && |h.waiting| <= l.maxQueue && calls != []
    requires h.waiting != [] ==> h.active == l.maxConcurrent
    ensures var next := Step(l, h, Arrive(calls[0]));
            && next.active <= l.maxConcurrent && |next.waiting| <= l.maxQueue
            && (next.waiting != [] ==> next.active == l.maxConcurrent)
            && Filled(l, next, calls[1..]) == Filled(l, h, calls)
  {
    if h.active < l.maxConcurrent {
      FilledByStart(l, h, calls);
    } else if |h.waiting| < l.maxQueue {
      FilledByQueue(l, h, calls);
    }
    hide Least;
  }

  lemma FilledByStart(l: Limits, h: Hall, calls: seq<Call>)
    requires h.active < l.maxConcurrent && h.waiting == [] && calls != []
    ensures Filled(l, h.(active := h.active + 1), calls[1..]) == Filled(l, h, calls)
  {
    var started := Least(|calls|, l.maxConcurrent - h.active);
    SliceOfTail(calls, started, started + Least(|calls| - started, l.maxQueue));
  }

  lemma FilledByQueue(l: Limits, h: Hall, calls: seq<Call>)
    requires h.active == l.maxConcurrent && |h.waiting| < l.maxQueue && calls != []
    ensures Filled(l, h.(waiting := h.waiting + [calls[0]]), calls[1..]) == Filled(l, h, calls)
  {
    var queued := Least(|calls|, l.maxQueue - |h.waiting|);
    assert [calls[0]] + calls[1..][0..queued - 1] == calls[0..queued];
    assert h.waiting + [calls[0]] + calls[1..][0..queued - 1] == h.waiting + ([calls[0]] + calls[1..][0..queued - 1]);
  }

  lemma SliceOfTail(calls: seq<Call>, i: nat, j: nat)
    requires 0 < i <= j <= |calls|
    ensures calls[1..][i - 1..j - 1] == calls[i..j]
  {
  }

  /** Of calls that arrive while none ends exactly these are taken, and all others rejected. */
  lemma {:induction false} ArrivalsFill(l: Limits, h: Hall, calls: seq<Call>)
    requires h.active <= l.maxConcurrent && |h.waiting| <= l.maxQueue
    requires h.waiting != [] ==> h.active == l.maxConcurrent
    ensures Possible(l, h, Coming(calls)) && After(l, h, Coming(calls)) == Filled(l, h, calls)
    decreases |calls|
  {
    hide Step, Filled;
    if calls == [] {
      NothingFilled(l, h);
    } else {
      var events := Coming(calls);
      assert events[1..] == Coming(calls[1..]) && events[0] == Arrive(calls[0]);
      FilledStep(l, h, calls);
      ArrivalsFill(l, Step(l, h, events[0]), calls[1..]);
    }
  }

  lemma NothingFilled(l: Limits, h: Hall)
    requires h.active <= l.maxConcurrent && |h.waiting| <= l.maxQueue
    ensures Filled(l, h, []) == h
  {
    assert h.waiting + [][0..0] == h.waiting;
  }

  /** Calls that run or are about to. */
  function Load(h: Hall): nat { h.active + |h.woken| }

  /** No call arrives while a woken waiter has not resumed. */
  ghost predicate ResumedFirst(l: Limits, h: Hall, events: seq<Event>)
    requires Possible(l, h, events)
    decreases |events|
  {
    events == []
    || ((events[0].Arrive? ==> h.woken == []) && ResumedFirst(l, Step(l, h, events[0]), events[1..]))
  }

  /** If woken waiters resume before any new arrival, the limit is kept. */
  lemma {:induction false} LimitIsKept(l: Limits, h: Hall, events: seq<Event>)
    requires Possible(l, h, events) && ResumedFirst(l, h, events) && Load(h) <= l.maxConcurrent
    ensures Load(After(l, h, events)) <= l.maxConcurrent
    decreases |events|
  {
    if events != [] { LimitIsKept(l, Step(l, h, events[0]), events[1..]); }
  }

  // ----- the cap ----------------------------------------------------------------------------

  /** Without a queue nobody waits, so nobody resumes into a taken place. */
  lemma {:induction false} NoQueueKeepsCap(l: Limits, h: Hall, events: seq<Event>)
    requires l.maxQueue == 0 && h.waiting == [] && h.woken == [] && h.active <= l.maxConcurrent
    requires Possible(l, h, events)
    ensures After(l, h, events).active <= l.maxConcurrent
    decreases |events|
  {
    if events != [] { NoQueueKeepsCap(l, Step(l, h, events[0]), events[1..]); }
  }

  lemma OneBefore(l: Limits, h: Hall, e: Event, rest: seq<Event>)
    requires Enabled(h, e) && Possible(l, Step(l, h, e), rest)
    ensures Possible(l, h, [e] + rest) && After(l, h, [e] + rest) == After(l, Step(l, h, e), rest)
  {
    assert ([e] + rest)[1..] == rest;
  }

  /** All woken waiters resume. */
  lemma {:induction false} ResumeAll(l: Limits, h: Hall) returns (events: seq<Event>)
    ensures Possible(l, h, events) && After(l, h, events) == Hall(h.active + |h.woken|, h.waiting, [])
    decreases |h.woken|
  {
    events := [];
    if h.woken != [] {
      var rest := ResumeAll(l, Step(l, h, Resume));
      OneBefore(l, h, Resume, rest);
      events := [Resume] + rest;
    }
  }

  /** With all places taken: a call queues, one ends and wakes it, and another takes the place; `more` times. */
  lemma {:induction false} Overrun(l: Limits, h: Hall, more: nat) returns (events: seq<Event>)
    requires l.maxConcurrent >= 1 && l.maxQueue >= 1 && h.active == l.maxConcurrent && h.waiting == []
    ensures Possible(l, h, events) && After(l, h, events).active == l.maxConcurrent + |h.woken| + more
    decreases more
  {
    if more == 0 {
      events := ResumeAll(l, h);
    } else {
      var queued := Step(l, h, Arrive(0));
      var woken := Step(l, queued, Finish);
      var taken := Step(l, woken, Arrive(0));
      assert taken == Hall(l.maxConcurrent, [], h.woken + [0]);
      var rest := Overrun(l, taken, more - 1);
      OneBefore(l, woken, Arrive(0), rest);
      OneBefore(l, queued, Finish, [Arrive(0)] + rest);
      OneBefore(l, h, Arrive(0), [Finish] + ([Arrive(0)] + rest));
      events := [Arrive(0)] + ([Finish] + ([Arrive(0)] + rest));
    }
  }

  lemma {:induction false} FillAndOverrun(l: Limits, h: Hall, more: nat) returns (events: seq<Event>)
    requires l.maxConcurrent >= 1 && l.maxQueue >= 1
    requires h.active <= l.maxConcurrent && h.waiting == [] && h.woken == []
    ensures Possible(l, h, events) && After(l, h, events).active == l.maxConcurrent + more
    decreases l.maxConcurrent - h.active
  {
    if h.active == l.maxConcurrent {
      events := Overrun(l, h, more);
    } else {
      var rest := FillAndOverrun(l, Step(l, h, Arrive(0)), more);
      OneBefore(l, h, Arrive(0), rest);
      events := [Arrive(0)] + rest;
    }
  }

  /** The cap on concurrent calls is kept in every interleaving if and only if the bulkhead has no queue. */
  lemma CapIsKeptExactly(l: Limits)
    requires l.maxConcurrent >= 1
    ensures (forall events | Possible(l, EMPTY, events) :: After(l, EMPTY, events).active <= l.maxConcurrent)
            <==> l.maxQueue == 0
  {
    if l.maxQueue == 0 {
      forall events | Possible(l, EMPTY, events) ensures After(l, EMPTY, events).active <= l.maxConcurrent {
        NoQueueKeepsCap(l, EMPTY, events);
      }
    } else {
      var events := FillAndOverrun(l, EMPTY, 1);
      assert After(l, EMPTY, events).active == l.maxConcurrent + 1;
    }
  }

  /** With a queue there is no other bound either: late resumptions pile up to any number of running calls. */
  lemma QueueHasNoCap(l: Limits, n: nat)
    requires l.maxConcurrent >= 1 && l.maxQueue >= 1
    ensures exists events :: Possible(l, EMPTY, events) && After(l, EMPTY, events).active >= n
  {
    var events := FillAndOverrun(l, EMPTY, n);
  }

  /** One place and one waiter: a call arrives between the wake-up of the waiter and its resumption. */
  lemma LimitCanBeExceeded()
    ensures var l := Limits(1, 1);
            var events := [Arrive(0), Arrive(1), Finish, Arrive(2), Resume];
            Possible(l, EMPTY, events) && After(l, EMPTY, events) == Hall(2, [], [])
  {
    var l := Limits(1, 1);
    var h2 := Hall(1, [1], []);
    assert Step(l, EMPTY, Arrive(0)) == Hall(1, [], []) && Step(l, Hall(1, [], []), Arrive(1)) == h2;
    assert Step(l, h2, Finish) == Hall(0, [], [1]) && Step(l, Hall(0, [], [1]), Arrive(2)) == Hall(1, [], [1]);
    assert Step(l, Hall(1, [], [1]), Resume) == Hall(2, [], []);
    hide Step;
    OneBefore(l, Hall(1, [], [1]), Resume, []);
    OneBefore(l, Hall(0, [], [1]), Arrive(2), [Resume] + []);
    OneBefore(l, h2, Finish, [Arrive(2)] + ([Resume] + []));
    OneBefore(l, Hall(1, [], []), Arrive(1), [Finish] + ([Arrive(2)] + ([Resume] + [])));
    OneBefore(l, EMPTY, Arrive(0), [Arrive(1)] + ([Finish] + ([Arrive(2)] + ([Resume] + []))));
    assert [Arrive(0)] + ([Arrive(1)] + ([Finish] + ([Arrive(2)] + ([Resume] + []))))
        == [Arrive(0), Arrive(1), Finish, Arrive(2), Resume];
  }

  // ----- order ----------------------------------------------------------------------------

  /** The call that a step accepts, and the call that it starts. */
  function AcceptedBy(l: Limits, h: Hall, e: Event): seq<Call> {
    if e.Arrive? && Admitted(l, h) != Rejected then [e.call] else []
  }

  function StartedBy(l: Limits, h: Hall, e: Event): seq<Call>
    requires Enabled(h, e)
  {
    match e
    case Arrive(call) => if Admitted(l, h) == Started then [call] else []
    case Resume => [h.woken[0]]
    case Finish => []
  }

  /** The calls that were accepted, in order of arrival. */
  ghost function Accepted(l: Limits, h: Hall, events: seq<Event>): seq<Call>
    requires Possible(l, h, events)
    decreases |events|
  {
    if events == [] then [] else AcceptedBy(l, h, events[0]) + Accepted(l, Step(l, h, events[0]), events[1..])
  }

  /** The calls that started, in order of starting. */
  ghost function Starts(l: Limits, h: Hall, events: seq<Event>): seq<Call>
    requires Possible(l, h, events)
    decreases |events|
  {
    if events == [] then [] else StartedBy(l, h, events[0]) + Starts(l, Step(l, h, events[0]), events[1..])
  }

  lemma StepInOrder(l: Limits, h: Hall, e: Event)
    requires Enabled(h, e) && NobodyStranded(l, h) && (e.Arrive? ==> h.woken == [])
    ensures var next := Step(l, h, e);
            h.woken + h.waiting + AcceptedBy(l, h, e) == StartedBy(l, h, e) + (next.woken + next.waiting)
  {
  }

  /** If woken waiters resume before any new arrival, calls start in the order in which they arrived, none is lost
      and none starts twice. */
  lemma {:induction false} StartsInOrder(l: Limits, h: Hall, events: seq<Event>)
    requires Possible(l, h, events) && ResumedFirst(l, h, events) && NobodyStranded(l, h)
    ensures var last := After(l, h, events);
            h.woken + h.waiting + Accepted(l, h, events) == Starts(l, h, events) + (last.woken + last.waiting)
    decreases |events|
  {
    if events != [] {
      var e := events[0];
      var next := Step(l, h, e);
      StepInOrder(l, h, e);
      StartsInOrder(l, next, events[1..]);
      hide AcceptedBy, StartedBy, Step, Accepted, Starts, After;
      Reassociate(h.woken + h.waiting, AcceptedBy(l, h, e), Accepted(l, next, events[1..]), StartedBy(l, h, e),
                  next.woken + next.waiting, Starts(l, next, events[1..]),
                  After(l, next, events[1..]).woken + After(l, next, events[1..]).waiting);
      Unfolded(l, h, events);
    }
  }

  lemma Reassociate(held: seq<Call>, accepted: seq<Call>, moreAccepted: seq<Call>, started: seq<Call>,
                    heldNext: seq<Call>, moreStarted: seq<Call>, left: seq<Call>)
    requires held + accepted == started + heldNext && heldNext + moreAccepted == moreStarted + left
    ensures held + (accepted + moreAccepted) == (started + moreStarted) + left
  {
    assert held + (accepted + moreAccepted) == (started + heldNext) + moreAccepted == started
      + (heldNext + moreAccepted);
  }

  lemma Unfolded(l: Limits, h: Hall, events: seq<Event>)
    requires events != [] && Possible(l, h, events)
    ensures var next := Step(l, h, events[0]);
            && Accepted(l, h, events) == AcceptedBy(l, h, events[0]) + Accepted(l, next, events[1..])
            && Starts(l, h, events) == StartedBy(l, h, events[0]) + Starts(l, next, events[1..])
            && After(l, h, events) == After(l, next, events[1..])
  {
  }
}
