/**
 One run of a composed pipeline. Handlers are unknown code: every step they can take at the pipeline, in any
 interleaving, late calls of `next` and missing awaits included, is an event.
 */
module Compose {
  import opened Results

  /** A response by its identity. */
  type Reply = nat

  /** What a handler or a dispatch gives: a response, nothing, or some other value. */
  datatype Value = Response(reply: Reply) | Void | Other

  datatype Problem = NextTwice | NextAgain | NotAResponse | NoNext | HandlerError

  datatype Settled = Returned(value: Value) | Threw(problem: Problem)

  /** One dispatch: whether its handler called `next`, the result that `next` left, and how it settled. */
  datatype Frame = Frame(nextCalled: bool, nextResult: Value, outcome: Option<Settled>)

  /** The variables of a run over `count` handlers, the handlers entered so far, and whether the index guard fired. */
  datatype Run = Run(count: nat, index: int, frames: map<nat, Frame>, res: Option<Reply>, entered: seq<nat>,
                     guardHit: bool)

  function Current(res: Option<Reply>): Value {
    match res case Some(r) => Response(r) case None => Void
  }

  // ----- steps ----------------------------------------------------------------------------

  function Dispatched(s: Run, i: nat): Run {
    if i <= s.index then s.(guardHit := true)
    else if i >= s.count then s.(index := i, frames := s.frames[i := Frame(false, Void,
                                                                           Some(Returned(Current(s.res))))])
    else s.(index := i, frames := s.frames[i := Frame(false, Void, None)], entered := s.entered + [i])
  }

  datatype Event =
    | CallNext(at: nat)
    | NextSettles(at: nat)
    | SetResponse(at: nat, reply: Reply)
    | Finish(at: nat, result: Settled)

  /** A handler acts once it is entered, also after it returned; it settles once. */
  predicate Enabled(s: Run, e: Event) {
    && e.at in s.frames && e.at < s.count
    && match e
       case NextSettles(i) =>
         s.frames[i].nextCalled && i + 1 in s.frames && s.frames[i + 1].outcome.Some?
         && s.frames[i + 1].outcome.value.Returned?
       case Finish(i, _) => s.frames[i].outcome == None
       case _ => true
  }

  /** How a dispatch settles when its handler has. */
  function Judged(s: Run, i: nat, result: Settled): Settled
    requires i in s.frames
  {
    match result
    case Threw(e) => result
    case Returned(value) =>
      if value.Response? then result
      else if s.frames[i].nextCalled then
        if s.frames[i].nextResult.Response? then Returned(s.frames[i].nextResult)
        else if s.res.Some? then Returned(Response(s.res.value))
        else Returned(s.frames[i].nextResult)
      else if s.res.Some? then Returned(Response(s.res.value))
      else if value.Other? then Threw(NotAResponse)
      else if i + 1 < s.count then Threw(NoNext)
      else Returned(Void)
  }

  function Step(s: Run, e: Event): Run
    requires Enabled(s, e)
  {
    match e
    case CallNext(i) =>
      if s.frames[i].nextCalled then s
      else Dispatched(s.(frames := s.frames[i := s.frames[i].(nextCalled := true)]), i + 1)
    case NextSettles(i) =>
      var value := s.frames[i + 1].outcome.value.value;
      s.(frames := s.frames[i := s.frames[i].(nextResult := value)],
         res := if value.Response? then Some(value.reply) else s.res)
    case SetResponse(_, reply) => s.(res := Some(reply))
    case Finish(i, result) =>
      s.(frames := s.frames[i := s.frames[i].(outcome := Some(Judged(s, i, result)))],
         res := if result.Returned? && result.value.Response? then Some(result.value.reply) else s.res)
  }

  function Started(count: nat): Run { Dispatched(Run(count, -1, map[], None, [], false), 0) }

  /** What the caller gets once the first dispatch has settled. */
  datatype Answer = Reply(reply: Reply) | NotFound | Throws(problem: Problem)

  function Answered(s: Run): Answer
    requires 0 in s.frames && s.frames[0].outcome.Some?
  {
    match s.frames[0].outcome.value
    case Threw(e) => Throws(e)
    case Returned(value) =>
      if value.Response? then Reply(value.reply) else if s.res.Some? then Reply(s.res.value) else NotFound
  }

  // ----- the closure ----------------------------------------------------------------------

  /** The variables that one call of the composed function closes over. */
  class Execution {
    const count: nat
    var index: int
    var frames: map<nat, Frame>
    var res: Option<Reply>
    ghost var entered: seq<nat>
    ghost var guardHit: bool

    ghost function Model(): Run reads this { Run(count, index, frames, res, entered, guardHit) }

    constructor (count: nat)
      ensures this.count == count && Model() == Run(count, -1, map[], None, [], false)
    {
      this.count, index, frames, res, entered, guardHit := count, -1, map[], None, [], false;
    }

    /** Enter handler `i`, or settle at once behind the last one. */
    method Dispatch(i: nat) returns (thrown: Option<Problem>)
      modifies this
      ensures Model() == Dispatched(old(Model()), i)
      ensures thrown == if i <= old(index) then Some(NextAgain) else None
    {
      if i <= index {
        guardHit := true;
        return Some(NextAgain);
      }
      index := i;
      if i >= count {
        frames := frames[i := Frame(false, Void, Some(Returned(Current(res))))];
        return None;
      }
      frames := frames[i := Frame(false, Void, None)];
      entered := entered + [i];
      return None;
    }

    /** `next` of handler `i`, up to its await. */
    method Next(i: nat) returns (thrown: Option<Problem>)
      requires Enabled(Model(), CallNext(i))
      modifies this
      ensures Model() == Step(old(Model()), CallNext(i))
      ensures old(frames[i].nextCalled) ==> thrown == Some(NextTwice)
    {
      if frames[i].nextCalled { return Some(NextTwice); }
      frames := frames[i := frames[i].(nextCalled := true)];
      thrown := Dispatch(i + 1);
    }

    /** `next` of handler `i` behind its await. */
    method NextReturned(i: nat)
      requires Enabled(Model(), NextSettles(i))
      modifies this
      ensures Model() == Step(old(Model()), NextSettles(i))
    {
      var value := frames[i + 1].outcome.value.value;
      frames := frames[i := frames[i].(nextResult := value)];
      if value.Response? { res := Some(value.reply); }
    }

    method Set(i: nat, reply: Reply)
      requires Enabled(Model(), SetResponse(i, reply))
      modifies this
      ensures Model() == Step(old(Model()), SetResponse(i, reply))
    {
      res := Some(reply);
    }

    /** Handler `i` has settled. */
    method Settle(i: nat, result: Settled) returns (outcome: Settled)
      requires Enabled(Model(), Finish(i, result))
      modifies this
      ensures Model() == Step(old(Model()), Finish(i, result)) && outcome == Judged(old(Model()), i, result)
    {
      var f := frames[i];
      if result.Threw? {
        outcome := result;
      } else if result.value.Response? {
        res := Some(result.value.reply);
        outcome := result;
      } else if f.nextCalled {
        if f.nextResult.Response? { outcome := Returned(f.nextResult); }
        else if res.Some? { outcome := Returned(Response(res.value)); }
        else { outcome := Returned(f.nextResult); }
      } else if res.Some? {
        outcome := Returned(Response(res.value));
      } else if result.value.Other? {
        outcome := Threw(NotAResponse);
      } else if i + 1 < count {
        outcome := Threw(NoNext);
      } else {
        outcome := Returned(Void);
      }
      frames := frames[i := f.(outcome := Some(outcome))];
    }
  }

  // ----- runs -----------------------------------------------------------------------------

  ghost predicate Possible(s: Run, events: seq<Event>)
    decreases |events|
  {
    events == [] || (Enabled(s, events[0]) && Possible(Step(s, events[0]), events[1..]))
  }

  ghost function After(s: Run, events: seq<Event>): Run
    requires Possible(s, events)
    decreases |events|
  {
    if events == [] then s else After(Step(s, events[0]), events[1..])
  }

  /** Dispatches 0 to `index` have been made; all but the last by the handler before; and every response that is
      held anywhere has been set on the context. */
  ghost predicate Orderly(s: Run) {
    && 0 <= s.index <= s.count && !s.guardHit
    && (forall i: nat :: i in s.frames <==> i <= s.index)
    && (forall i: nat | i <= s.index :: s.frames[i].nextCalled <==> i < s.index)
    && s.entered == Upto(if s.index < s.count then s.index + 1 else s.count)
    && (s.res == None ==> forall i: nat | i <= s.index :: Quiet(s.frames[i]))
  }

  predicate Quiet(f: Frame) {
    f.nextResult == Void && (f.outcome.Some? && f.outcome.value.Returned? ==> f.outcome.value.value == Void)
  }

  function Upto(n: nat): (r: seq<nat>)
    ensures |r| == n
  {
    seq(n, i => i)
  }

  lemma StepKeepsOrder(s: Run, e: Event)
    requires Orderly(s) && Enabled(s, e)
    ensures Orderly(Step(s, e)) && s.entered <= Step(s, e).entered
  {
  }

  lemma StartIsOrderly(count: nat)
    ensures Orderly(Started(count))
  {
  }

  lemma {:induction false} RunKeepsOrder(s: Run, events: seq<Event>)
    requires Orderly(s) && Possible(s, events)
    ensures Orderly(After(s, events)) && After(s, events).count == s.count
    decreases |events|
  {
    if events != [] {
      StepKeepsOrder(s, events[0]);
      RunKeepsOrder(Step(s, events[0]), events[1..]);
    }
  }

  /** Whatever the handlers do and in whatever order: the handlers entered are the first ones, each once and in
      order, and the index guard never fires; only `nextCalled` stops a second call of `next`. */
  lemma HandlersAreEnteredOnce(count: nat, events: seq<Event>)
    requires Possible(Started(count), events)
    ensures var s := After(Started(count), events);
            && s.entered == Upto(|s.entered|) && |s.entered| <= count
            && !s.guardHit
  {
    StartIsOrderly(count);
    RunKeepsOrder(Started(count), events);
  }

  /** Once the first dispatch settled, the caller gets a response or an error; it gets the not-found response
      exactly when no error is thrown and no response was returned or set by anyone so far. */
  lemma NotFoundExactly(count: nat, events: seq<Event>)
    requires Possible(Started(count), events)
    requires var s := After(Started(count), events); 0 in s.frames && s.frames[0].outcome.Some?
    ensures var s := After(Started(count), events);
            Answered(s) == NotFound <==> s.frames[0].outcome.value.Returned? && s.res == None
  {
    StartIsOrderly(count);
    RunKeepsOrder(Started(count), events);
  }

  // ----- which response wins --------------------------------------------------------------

  /** What `next` left with a handler is what the dispatch behind it returned, a response or nothing. */
  ghost predicate Downstream(s: Run) {
    forall i: nat | i in s.frames ::
      && (s.frames[i].nextResult != Void ==>
            i + 1 in s.frames && s.frames[i + 1].outcome == Some(Returned(s.frames[i].nextResult)))
      && !s.frames[i].nextResult.Other?
      && (s.frames[i].outcome.Some? && s.frames[i].outcome.value.Returned? ==> !s.frames[i].outcome.value.value.Other?)
  }

  lemma StepKeepsDownstream(s: Run, e: Event)
    requires Orderly(s) && Downstream(s) && Enabled(s, e)
    ensures Downstream(Step(s, e))
  {
    match e {
      case CallNext(i) => NextKeepsDownstream(s, i);
      case NextSettles(i) => ReceiptKeepsDownstream(s, i);
      case SetResponse(_, _) =>
      case Finish(i, result) => FinishKeepsDownstream(s, i, result);
    }
  }

  lemma NextKeepsDownstream(s: Run, i: nat)
    requires Orderly(s) && Downstream(s) && Enabled(s, CallNext(i))
    ensures Downstream(Step(s, CallNext(i)))
  {
    hide Judged;
    if !s.frames[i].nextCalled { assert i == s.index && i + 1 !in s.frames; }
  }

  lemma ReceiptKeepsDownstream(s: Run, i: nat)
    requires Downstream(s) && Enabled(s, NextSettles(i))
    ensures Downstream(Step(s, NextSettles(i)))
  {
    hide Judged;
  }

  lemma FinishKeepsDownstream(s: Run, i: nat, result: Settled)
    requires Downstream(s) && Enabled(s, Finish(i, result))
    ensures Downstream(Step(s, Finish(i, result)))
  {
    var judged := Judged(s, i, result);
    assert judged.Returned? ==> !judged.value.Other?;
    hide Judged;
    var t := Step(s, Finish(i, result));
    forall k: nat | k in s.frames && k != i ensures t.frames[k] == s.frames[k] {}
    forall k: nat | k in s.frames ensures t.frames[k].nextResult == s.frames[k].nextResult {}
  }

  lemma {:induction false} RunKeepsDownstream(s: Run, events: seq<Event>)
    requires Orderly(s) && Downstream(s) && Possible(s, events)
    ensures Downstream(After(s, events))
    decreases |events|
  {
    hide Orderly, Downstream;
    if events != [] {
      StepKeepsOrder(s, events[0]);
      StepKeepsDownstream(s, events[0]);
      RunKeepsDownstream(Step(s, events[0]), events[1..]);
    }
  }

  /** The response that the dispatch behind handler `i` returned to its `next`, if any. */
  function Received(s: Run, i: nat): Option<Reply> {
    if i in s.frames && s.frames[i].nextResult.Response? && i + 1 in s.frames then Some(s.frames[i].nextResult.reply)
    else None
  }

  /**
   Over every run, when handler `i` returns: its own response wins, else the one that the handlers behind it returned,
   else the one on the context; without any of them it is an error to have returned something else, or nothing before
   the last handler without calling `next`.
   */
  lemma {:induction false} WhoseResponseWins(count: nat, events: seq<Event>, i: nat, value: Value)
    requires Possible(Started(count), events)
    requires Enabled(After(Started(count), events), Finish(i, Returned(value)))
    ensures var s := After(Started(count), events);
            var t := Step(s, Finish(i, Returned(value)));
            var outcome := t.frames[i].outcome;
            && (value.Response? ==> outcome == Some(Returned(value)) && t.res == Some(value.reply))
            && (!value.Response? ==>
                  && t.res == s.res
                  && (Received(s, i).Some? ==>
                        outcome == Some(Returned(Response(Received(s, i).value))) == s.frames[i + 1].outcome)
                  && (Received(s, i).None? && s.res.Some? ==> outcome == Some(Returned(Response(s.res.value))))
                  && (Received(s, i).None? && s.res.None? ==>
                        outcome == Some(if s.frames[i].nextCalled then Returned(Void)
                                        else if value.Other? then Threw(NotAResponse)
                                        else if i + 1 < count then Threw(NoNext)
                                        else Returned(Void))))
  {
    StartIsOrderly(count);
    RunKeepsOrder(Started(count), events);
    RunKeepsDownstream(Started(count), events);
  }

  /** The caller gets the response of the first dispatch, else the one on the context. */
  lemma AnswerIs(s: Run)
    requires 0 in s.frames && s.frames[0].outcome.Some?
    ensures s.frames[0].outcome.value.Threw? ==> Answered(s) == Throws(s.frames[0].outcome.value.problem)
    ensures forall r | s.frames[0].outcome.value == Returned(Response(r)) :: Answered(s) == Reply(r)
    ensures s.frames[0].outcome.value == Returned(Void) ==>
              Answered(s) == if s.res.Some? then Reply(s.res.value) else NotFound
  {
  }
}
