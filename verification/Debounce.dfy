/**
 * The hand-written `debounce(func, wait)` helper of the hadith search view.
 *
 * The closure it returns keeps one variable, the pending timer. A call
 * clears that timer and starts a new one carrying the call's arguments; when
 * a timer runs out it invokes `func` with the arguments it carries. Real time
 * is left out: the model sees only two events, a call and the pending timer
 * running out.
 */
module Debounce {

  import opened Options

  /** The closure's state: the arguments of the call whose timer is pending, if any. */
  datatype Debouncer<A> = Debouncer(pending: Option<A>)

  datatype Event<A> =
    | Call(args: A)   // the debounced function is called
    | Fire            // the pending timer, if there is one, runs out

  /** A freshly created debounced function: no timer has been started. */
  function Fresh<A>(): Debouncer<A> {
    Debouncer(None)
  }

  /**
   * One event: a call replaces whatever was pending and invokes nothing; a
   * timer running out invokes `func` once with the arguments it carried and
   * leaves nothing pending. With no timer pending, nothing can run out.
   */
  function Step<A>(d: Debouncer<A>, e: Event<A>): (Debouncer<A>, seq<A>) {
    match e
    case Call(args) => (Debouncer(Some(args)), [])
    case Fire =>
      match d.pending
      case None => (d, [])
      case Some(args) => (Debouncer(None), [args])
  }

  /** Runs a trace of events; returns the final state and the invocations of `func`, in order. */
  function Run<A>(d: Debouncer<A>, es: seq<Event<A>>): (Debouncer<A>, seq<A>)
    decreases |es|
  {
    if |es| == 0 then (d, [])
    else
      var first := Step(d, es[0]);
      var rest := Run(first.0, es[1..]);
      (rest.0, first.1 + rest.1)
  }

  /** The trace of calls carrying `argss`, one after the other, with no timer running out between them. */
  function Calls<A>(argss: seq<A>): (es: seq<Event<A>>)
    ensures |es| == |argss|
    ensures forall k :: 0 <= k < |es| ==> es[k] == Call(argss[k])
    decreases |argss|
  {
    if |argss| == 0 then [] else [Call(argss[0])] + Calls(argss[1..])
  }

  /** The number of calls in a trace. */
  function CallCount<A>(es: seq<Event<A>>): nat
    decreases |es|
  {
    if |es| == 0 then 0 else (if es[0].Call? then 1 else 0) + CallCount(es[1..])
  }

  /** Running two traces one after the other is running their concatenation. */
  lemma {:induction false} RunAppend<A>(d: Debouncer<A>, es1: seq<Event<A>>, es2: seq<Event<A>>)
    ensures Run(d, es1 + es2).0 == Run(Run(d, es1).0, es2).0
    ensures Run(d, es1 + es2).1 == Run(d, es1).1 + Run(Run(d, es1).0, es2).1
    decreases |es1|
  {
    if |es1| > 0 {
      assert (es1 + es2)[0] == es1[0];
      assert (es1 + es2)[1..] == es1[1..] + es2;
      RunAppend(Step(d, es1[0]).0, es1[1..], es2);
    } else {
      assert es1 + es2 == es2;
    }
  }

  /**
   * While calls keep arriving nothing is invoked, and afterwards exactly the
   * last call is pending: each call cleared the one before it.
   */
  lemma {:induction false} CallsOnlyReplace<A>(d: Debouncer<A>, argss: seq<A>)
    requires |argss| >= 1
    ensures Run(d, Calls(argss)).0 == Debouncer(Some(argss[|argss| - 1]))
    ensures Run(d, Calls(argss)).1 == []
    decreases |argss|
  {
    var es := Calls(argss);
    assert es[0] == Call(argss[0]);
    if |argss| > 1 {
      assert es[1..] == Calls(argss[1..]);
      CallsOnlyReplace(Debouncer(Some(argss[0])), argss[1..]);
    } else {
      assert es[1..] == [];
    }
  }

  /**
   * A burst of calls followed by the timer running out invokes the function
   * exactly once, with the last call's arguments, whatever was pending
   * before the burst; afterwards nothing is pending.
   */
  lemma LastCallWins<A>(d: Debouncer<A>, argss: seq<A>)
    requires |argss| >= 1
    ensures Run(d, Calls(argss) + [Fire]).0 == Fresh()
    ensures Run(d, Calls(argss) + [Fire]).1 == [argss[|argss| - 1]]
  {
    var last := argss[|argss| - 1];
    CallsOnlyReplace(d, argss);
    RunAppend(d, Calls(argss), [Fire]);

    var fire: seq<Event<A>> := [Fire];
    assert fire[1..] == [];
  }

  /**
   * Every invocation carries the arguments of some call of the trace, or of
   * the call that was already pending when the trace began.
   */
  lemma {:induction false} InvocationsComeFromCalls<A>(d: Debouncer<A>, es: seq<Event<A>>)
    ensures forall x :: x in Run(d, es).1 ==> Call(x) in es || d.pending == Some(x)
    decreases |es|
  {
    if |es| > 0 {
      var d1 := Step(d, es[0]).0;
      InvocationsComeFromCalls(d1, es[1..]);
      assert es == [es[0]] + es[1..];
    }
  }

  /**
   * The function is invoked at most once per call: a started timer fires at
   * most once, and only a call starts one.
   */
  lemma {:induction false} AtMostOneInvocationPerCall<A>(d: Debouncer<A>, es: seq<Event<A>>)
    ensures |Run(d, es).1| <= CallCount(es) + (if d.pending.Some? then 1 else 0)
    decreases |es|
  {
    if |es| > 0 {
      AtMostOneInvocationPerCall(Step(d, es[0]).0, es[1..]);
    }
  }

}
