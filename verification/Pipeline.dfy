/** Pipelines of steps: what running a list means, and the laws that nesting and
    concatenation obey. A step turns the state it works on (object, context and stores)
    into the next one, and answers with a Result. */
module Pipeline {
  import opened Wrappers

  datatype Result = Result(abort: bool, err: Option<string>, requeue: bool) {
    predicate Stops() {
      abort || err.Some?
    }
  }

  const PROCEED := Result(false, None, false)

  /** How a reconcile goes on after one of its steps has set a part of the status. midway: the
      status is stored once more before the last step, to record a claim or an error. fails: the
      run ends in an error before the last step. objectChanged: the last step finds that the
      object differs from the stored one. */
  datatype Sequel = Sequel(midway: bool, fails: bool, objectChanged: bool) {
    /** The last step stores the status, unless it has stored the object: it does so through a
        copy, so that the version in memory is out of date for a second write. */
    predicate StoresStatus() {
      midway || (!fails && !objectChanged)
    }
  }

  datatype Step<!S> = Step(name: string, run: S -> (S, Result))

  /** What a list answers once one of its steps has stopped it. */
  function Stopped(name: string, r: Result): Result
    requires r.Stops()
  {
    if r.err.None? then Result(false, None, r.requeue)
    else Result(false, Some("step " + name + " failed: " + r.err.value), false)
  }

  /** How a list of steps ends: the state, the answer, and how many steps ran. */
  datatype Ending<+S> = Ending(state: S, result: Result, ran: nat, stopped: bool)

  function Run<S>(steps: seq<Step<S>>, s: S): (e: Ending<S>)
    ensures e.ran <= |steps| && (e.stopped ==> e.ran > 0) && (!e.stopped ==> e.ran == |steps| && e.result == PROCEED)
  {
    if steps == [] then Ending(s, PROCEED, 0, false)
    else
      var (s', r) := steps[0].run(s);
      if r.Stops() then Ending(s', Stopped(steps[0].name, r), 1, true)
      else
        var rest := Run(steps[1..], s');
        rest.(ran := rest.ran + 1)
  }

  /** The loop, with its early return. */
  method RunPipeline<S>(steps: seq<Step<S>>, obj: S) returns (state: S, result: Result, ghost ran: nat)
    ensures Run(steps, obj) == Ending(state, result, ran, Run(steps, obj).stopped)
  {
    state, ran := obj, 0;
    for i := 0 to |steps|
      invariant ran == i
      invariant Run(steps, obj) == Run(steps[i..], state).(ran := i + Run(steps[i..], state).ran)
    {
      var (next, r) := steps[i].run(state);
      assert steps[i..][0] == steps[i] && steps[i..][1..] == steps[i + 1..];
      state, ran := next, i + 1;
      if r.Stops() {
        if r.err.None? {
          return state, Result(false, None, r.requeue), ran;
        }
        return state, Result(false, Some("step " + steps[i].name + " failed: " + r.err.value), false), ran;
      }
    }
    result := PROCEED;
  }

  /** A concatenation runs its second half from where the first ended, unless the first was
      stopped, in which case no step of the second half runs. */
  lemma {:induction false} RunConcatenation<S>(xs: seq<Step<S>>, ys: seq<Step<S>>, s: S)
    ensures var first := Run(xs, s);
            Run(xs + ys, s) ==
              if first.stopped then first
              else var second := Run(ys, first.state); second.(ran := |xs| + second.ran)
  {
    if xs == [] {
      assert xs + ys == ys;
    } else {
      assert (xs + ys)[0] == xs[0] && (xs + ys)[1..] == xs[1..] + ys;
      RunConcatenation(xs[1..], ys, xs[0].run(s).0);
    }
  }

  /** What the i-th step answers when the ones before it have run. */
  function StepAnswer<S>(xs: seq<Step<S>>, s: S, i: nat): (S, Result)
    requires i < |xs|
  {
    xs[i].run(Run(xs[..i], s).state)
  }

  lemma StepAnswerShift<S>(xs: seq<Step<S>>, s: S, i: nat)
    requires 0 < i < |xs| && !xs[0].run(s).1.Stops()
    ensures StepAnswer(xs, s, i) == StepAnswer(xs[1..], xs[0].run(s).0, i - 1)
  {
    assert xs[..i][0] == xs[0] && xs[..i][1..] == xs[1..][..i - 1];
  }

  /** The answer of a list never carries Abort. It stops exactly at the first step that
      aborts or errs, has an error only if that step erred, and asks for a requeue only if
      that step aborted asking for one. */
  lemma {:induction false} AnswerOfList<S>(xs: seq<Step<S>>, s: S)
    ensures var e := Run(xs, s);
            && !e.result.abort
            && (forall i :: 0 <= i < e.ran - 1 ==> !StepAnswer(xs, s, i).1.Stops())
            && (e.ran > 0 ==>
                  var (s', r) := StepAnswer(xs, s, e.ran - 1);
                  && e.state == s'
                  && (e.stopped <==> r.abort || r.err.Some?)
                  && (e.result.err.Some? <==> r.err.Some?)
                  && (e.result.requeue <==> e.stopped && r.err.None? && r.requeue))
  {
    if xs != [] {
      var (s', r) := xs[0].run(s);
      assert xs[..0] == [] && Run(xs[..0], s).state == s;
      assert StepAnswer(xs, s, 0) == (s', r);
      if !r.Stops() {
        AnswerOfList(xs[1..], s');
        forall i | 0 < i < |xs| ensures StepAnswer(xs, s, i) == StepAnswer(xs[1..], s', i - 1) {
          StepAnswerShift(xs, s, i);
        }
      }
    }
  }

  /** A list used as a step, as the object controllers use their own lists. */
  function Nested<S>(name: string, xs: seq<Step<S>>): Step<S> {
    Step(name, (s: S) => (Run(xs, s).state, Run(xs, s).result))
  }

  /** An abort inside a nested list ends that list alone, and the request to requeue that
      came with it is lost; an error inside ends the enclosing list as well. */
  lemma NestedStops<S>(name: string, xs: seq<Step<S>>, ys: seq<Step<S>>, s: S)
    ensures var inner, outer := Run(xs, s), Run([Nested(name, xs)] + ys, s);
            && (outer.stopped && outer.ran == 1 <==> inner.result.err.Some?)
            && (inner.result.err.None? ==> outer == Run(ys, inner.state).(ran := Run(ys, inner.state).ran + 1))
            && (inner.result.err.Some? ==>
              outer.state == inner.state && outer.result.err.Some? && !outer.result.requeue)
  {
    var steps := [Nested(name, xs)] + ys;
    assert steps[0] == Nested(name, xs) && steps[1..] == ys;
    AnswerOfList(xs, s);
  }
}
