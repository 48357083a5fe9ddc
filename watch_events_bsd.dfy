/**
 * The wait step of the BSD log follower (`startTail`): it blocks until the
 * context is cancelled, the watcher delivers an event or an error, or the
 * force-check period elapses, and tells the caller whether the log file was
 * rotated or the wait failed.
 *
 * The `select` over the context, the watcher's two channels and the timer is
 * linearised into the sequence of arrivals the call receives, in the order it
 * receives them. A call that reaches the end of that sequence without
 * returning is still waiting.
 */
module Logging {
  import opened Wrappers
  import opened Fsnotify
  import Filepath

  /** The initial value of `errRetry`: watcher errors a call absorbs before it returns the next one. */
  const InitialRetries: int := 5

  /** What the `select` of one loop iteration receives. */
  datatype Arrival =
    | Cancel                    // the context is done
    | Ev(event: Event)          // an event from the watcher
    | WatchErr(cause: string)   // an error from the watcher
    | Timeout                   // the force-check period elapsed

  /** The errors the call returns. */
  datatype TailError = Cancelled | Watcher(cause: string) {
    function Message(): string {
      match this
      case Cancelled => "context cancelled"
      case Watcher(cause) => cause
    }
  }

  /** The pair `(rotated, err)` the call returns; `None` is Go's nil error. */
  datatype Result = Result(rotated: bool, err: Option<TailError>)

  /** A call either has returned, or is still waiting with its retry counter at `errRetry`. */
  datatype Outcome = Waiting(errRetry: int) | Done(result: Result)

  /** An arrival on which the call returns whatever came before it. */
  predicate Decisive(a: Arrival) {
    match a
    case Cancel => true
    case Ev(e) => e.Has(Write) || e.Has(Rename)
    case WatchErr(_) => false
    case Timeout => true
  }

  /** The number of watcher errors among the arrivals. */
  function Errors(s: seq<Arrival>): nat {
    if s == [] then 0
    else Errors(s[..|s| - 1]) + (if s[|s| - 1].WatchErr? then 1 else 0)
  }

  /**
   * The call returns on arrival `j`: it is decisive, or it is a watcher error
   * that comes after the budget's worth of errors has been absorbed.
   */
  predicate Stops(s: seq<Arrival>, j: int)
    requires 0 <= j < |s|
  {
    Decisive(s[j]) || (s[j].WatchErr? && Errors(s[..j]) >= InitialRetries)
  }

  /** The first arrival, from index `i` on, on which the call returns. */
  function FirstStopFrom(s: seq<Arrival>, i: nat): (r: Option<nat>)
    requires i <= |s|
    ensures r.None? ==> forall j :: i <= j < |s| ==> !Stops(s, j)
    ensures r.Some? ==> i <= r.value < |s| && Stops(s, r.value)
    ensures r.Some? ==> forall j :: i <= j < r.value ==> !Stops(s, j)
    decreases |s| - i
  {
    if i == |s| then None
    else if Stops(s, i) then Some(i)
    else FirstStopFrom(s, i + 1)
  }

  /** The pair returned for the arrival on which the call stops. */
  function Verdict(logName: string, a: Arrival): (r: Result)
    requires Decisive(a) || a.WatchErr?
    ensures r.rotated <==>
      a.Ev? && a.event.Has(Rename) && !a.event.Has(Write) && Filepath.Base(a.event.name) == logName
    ensures r.rotated ==> r.err == None
    ensures r.err == Some(Cancelled) <==> a.Cancel?
    ensures r.err.Some? <==> a.Cancel? || a.WatchErr?
    ensures a.WatchErr? ==> r.err == Some(Watcher(a.cause))
  {
    match a
    case Cancel => Result(false, Some(Cancelled))
    case Ev(e) =>
      if e.Has(Write) then Result(false, None)
      else Result(Filepath.Base(e.name) == logName, None)
    case WatchErr(cause) => Result(false, Some(Watcher(cause)))
    case Timeout => Result(false, None)
  }

  /**
   * What a call following `logName` does with the arrivals `s`: it returns the
   * verdict of the first arrival it stops on, or, when there is none, it is
   * still waiting with one retry fewer for every watcher error it absorbed.
   */
  function Tail(logName: string, s: seq<Arrival>): (r: Outcome)
    ensures r.Done? && r.result.rotated ==> r.result.err == None
    ensures r.Waiting? ==> 0 <= r.errRetry <= InitialRetries
  {
    match FirstStopFrom(s, 0)
    case Some(k) => Done(Verdict(logName, s[k]))
    case None =>
      QuietErrorsBounded(s, |s|);
      assert s[..|s|] == s;
      Waiting(InitialRetries - Errors(s))
  }

  /** The arrivals are non-decisive and hold no more errors than the budget absorbs. */
  predicate Absorbed(p: seq<Arrival>) {
    (forall j :: 0 <= j < |p| ==> !Decisive(p[j])) && Errors(p) <= InitialRetries
  }

  /** Counting errors distributes over concatenation. */
  lemma {:induction false} ErrorsAppend(a: seq<Arrival>, b: seq<Arrival>)
    ensures Errors(a + b) == Errors(a) + Errors(b)
  {
    if b == [] {
      assert a + b == a;
    } else {
      var init := b[..|b| - 1];
      assert (a + b)[..|a + b| - 1] == a + init;
      ErrorsAppend(a, init);
      assert b[..|b| - 1] == init;
    }
  }

  /** An arrival extends the error count of the prefix before it by one exactly when it is an error. */
  lemma ErrorsStep(s: seq<Arrival>, j: int)
    requires 0 <= j < |s|
    ensures Errors(s[..j + 1]) == Errors(s[..j]) + (if s[j].WatchErr? then 1 else 0)
  {
    assert s[..j + 1][..j] == s[..j];
  }

  /** As long as the call has not returned, it has absorbed at most the budget's worth of errors. */
  lemma {:induction false} QuietErrorsBounded(s: seq<Arrival>, n: int)
    requires 0 <= n <= |s|
    requires forall j :: 0 <= j < n ==> !Stops(s, j)
    ensures Errors(s[..n]) <= InitialRetries
  {
    if n > 0 {
      QuietErrorsBounded(s, n - 1);
      ErrorsStep(s, n - 1);
      assert !Stops(s, n - 1);
    }
  }

  /** The call does not return on any arrival of an absorbed prefix. */
  lemma AbsorbedPrefixDoesNotStop(s: seq<Arrival>, p: seq<Arrival>)
    requires Absorbed(p) && |p| <= |s| && s[..|p|] == p
    ensures forall j :: 0 <= j < |p| ==> !Stops(s, j)
  {
    forall j | 0 <= j < |p| ensures !Stops(s, j) {
      assert s[j] == p[j];
      assert s[..j] == p[..j];
      assert !Decisive(p[j]);
      if p[j].WatchErr? {
        ErrorsStep(p, j);
        ErrorsAppend(p[..j + 1], p[j + 1..]);
        assert p[..j + 1] + p[j + 1..] == p;
      }
    }
  }

  /** The first arrival the call stops on is determined by its two defining properties. */
  lemma FirstStopIs(s: seq<Arrival>, k: int)
    requires 0 <= k < |s| && Stops(s, k)
    requires forall j :: 0 <= j < k ==> !Stops(s, j)
    ensures FirstStopFrom(s, 0) == Some(k)
  {
  }

  /**
   * The call is still waiting exactly when it has received only arrivals it
   * absorbs, and then its counter is the budget less the errors absorbed.
   */
  lemma WaitingIffAbsorbed(logName: string, s: seq<Arrival>)
    ensures Tail(logName, s).Waiting? <==> Absorbed(s)
    ensures Tail(logName, s).Waiting? ==> Tail(logName, s).errRetry == InitialRetries - Errors(s)
  {
    assert s[..|s|] == s;
    if Absorbed(s) {
      AbsorbedPrefixDoesNotStop(s, s);
    }
    if FirstStopFrom(s, 0).None? {
      QuietErrorsBounded(s, |s|);
      forall j | 0 <= j < |s| ensures !Decisive(s[j]) {
        assert !Stops(s, j);
      }
    }
  }

  /**
   * After arrivals it absorbs, the call returns on a cancellation, a write, a
   * rename or a timeout, with that arrival's verdict; what comes later is
   * never read.
   */
  lemma DecisiveArrivalReturns(logName: string, p: seq<Arrival>, a: Arrival, rest: seq<Arrival>)
    requires Absorbed(p) && Decisive(a)
    ensures Tail(logName, p + [a] + rest) == Done(Verdict(logName, a))
  {
    var s := p + [a] + rest;
    assert s[..|p|] == p;
    AbsorbedPrefixDoesNotStop(s, p);
    assert s[|p|] == a;
    FirstStopIs(s, |p|);
  }

  /** A cancellation returns `(false, "context cancelled")`. */
  lemma CancelReturnsCancelled(logName: string, p: seq<Arrival>, rest: seq<Arrival>)
    requires Absorbed(p)
    ensures Tail(logName, p + [Cancel] + rest) == Done(Result(false, Some(Cancelled)))
    ensures Cancelled.Message() == "context cancelled"
  {
    DecisiveArrivalReturns(logName, p, Cancel, rest);
  }

  /** An event with the Write bit returns `(false, nil)`, whatever its name and other bits. */
  lemma WriteReturnsNoRotation(logName: string, p: seq<Arrival>, e: Event, rest: seq<Arrival>)
    requires Absorbed(p) && e.Has(Write)
    ensures Tail(logName, p + [Ev(e)] + rest) == Done(Result(false, None))
  {
    DecisiveArrivalReturns(logName, p, Ev(e), rest);
  }

  /**
   * A Rename event without the Write bit returns at once, reporting rotation
   * exactly when the base of its path is the followed log's name.
   */
  lemma RenameReturnsAtOnce(logName: string, p: seq<Arrival>, e: Event, rest: seq<Arrival>)
    requires Absorbed(p) && e.Has(Rename) && !e.Has(Write)
    ensures Tail(logName, p + [Ev(e)] + rest) == Done(Result(Filepath.Base(e.name) == logName, None))
  {
    DecisiveArrivalReturns(logName, p, Ev(e), rest);
  }

  /** A timeout returns `(false, nil)`. */
  lemma TimeoutReturnsNoRotation(logName: string, p: seq<Arrival>, rest: seq<Arrival>)
    requires Absorbed(p)
    ensures Tail(logName, p + [Timeout] + rest) == Done(Result(false, None))
  {
    DecisiveArrivalReturns(logName, p, Timeout, rest);
  }

  /** A watcher error while retries remain is absorbed: the counter drops by one and the call waits on. */
  lemma ErrorWithinBudgetIsAbsorbed(logName: string, p: seq<Arrival>, cause: string)
    requires Absorbed(p) && Errors(p) < InitialRetries
    ensures Tail(logName, p).Waiting?
    ensures Tail(logName, p + [WatchErr(cause)]) == Waiting(Tail(logName, p).errRetry - 1)
  {
    var s := p + [WatchErr(cause)];
    ErrorsStep(s, |p|);
    assert s[..|p|] == p && s[..|p| + 1] == s;
    assert Absorbed(s);
    WaitingIffAbsorbed(logName, p);
    WaitingIffAbsorbed(logName, s);
  }

  /**
   * While the call waits, its counter moves only on watcher errors and only
   * down: between two points of the same call it drops by exactly the number
   * of errors received in between, and it never goes below zero.
   */
  lemma RetriesOnlyDecrease(logName: string, p: seq<Arrival>, q: seq<Arrival>)
    requires Absorbed(p + q)
    ensures Tail(logName, p).Waiting? && Tail(logName, p + q).Waiting?
    ensures Tail(logName, p + q).errRetry == Tail(logName, p).errRetry - Errors(q)
    ensures 0 <= Tail(logName, p + q).errRetry <= Tail(logName, p).errRetry
  {
    ErrorsAppend(p, q);
    assert Absorbed(p) by {
      forall j | 0 <= j < |p| ensures !Decisive(p[j]) {
        assert p[j] == (p + q)[j];
      }
    }
    WaitingIffAbsorbed(logName, p);
    WaitingIffAbsorbed(logName, p + q);
  }

  /**
   * Once the budget's worth of errors has been absorbed, the next watcher
   * error (the sixth of the call) is returned, with `rotated` false.
   */
  lemma SixthErrorIsReturned(logName: string, p: seq<Arrival>, cause: string, rest: seq<Arrival>)
    requires Absorbed(p) && Errors(p) == InitialRetries
    ensures Tail(logName, p + [WatchErr(cause)] + rest) == Done(Result(false, Some(Watcher(cause))))
  {
    var s := p + [WatchErr(cause)] + rest;
    assert s[..|p|] == p;
    AbsorbedPrefixDoesNotStop(s, p);
    assert s[|p|] == WatchErr(cause);
    assert Stops(s, |p|);
    FirstStopIs(s, |p|);
  }

  /**
   * An event with neither the Write nor the Rename bit (Create, Remove,
   * Chmod) is ignored: removing it changes neither what the call returns nor
   * its retry counter.
   */
  lemma IgnoredEventIsTransparent(logName: string, p: seq<Arrival>, e: Event, rest: seq<Arrival>)
    requires !e.Has(Write) && !e.Has(Rename)
    ensures Tail(logName, p + [Ev(e)] + rest) == Tail(logName, p + rest)
  {
    var s := p + [Ev(e)] + rest;
    var t := p + rest;
    // index j of t is index Shift(j) of s
    forall j | 0 <= j < |t|
      ensures s[if j < |p| then j else j + 1] == t[j]
      ensures Stops(s, if j < |p| then j else j + 1) == Stops(t, j)
    {
      if j < |p| {
        assert s[..j] == t[..j];
      } else {
        assert s[..j + 1] == p + [Ev(e)] + rest[..j - |p|];
        assert t[..j] == p + rest[..j - |p|];
        ErrorsAppend(p + [Ev(e)], rest[..j - |p|]);
        ErrorsAppend(p, rest[..j - |p|]);
        ErrorsAppend(p, [Ev(e)]);
        assert [Ev(e)][..0] == [];
      }
    }
    assert s[|p|] == Ev(e);
    assert !Stops(s, |p|);
    match FirstStopFrom(t, 0)
    case Some(k) =>
      var k' := if k < |p| then k else k + 1;
      forall j | 0 <= j < k' ensures !Stops(s, j) {
        if j < |p| {
          assert !Stops(t, j);
        } else if j > |p| {
          assert !Stops(t, j - 1);
        }
      }
      FirstStopIs(s, k');
    case None =>
      forall j | 0 <= j < |s| ensures !Stops(s, j) {
        if j < |p| {
          assert !Stops(t, j);
        } else if j > |p| {
          assert !Stops(t, j - 1);
        }
      }
      ErrorsAppend(p + [Ev(e)], rest);
      ErrorsAppend(p, rest);
      ErrorsAppend(p, [Ev(e)]);
      assert [Ev(e)][..0] == [];
  }

  /**
   * The retry budget belongs to one call. A call that returns on arrival
   * `a1` leaves the arrivals after it to the next call, which again absorbs up
   * to the whole budget of errors, however many the first call absorbed.
   */
  lemma BudgetIsPerCall(logName: string, p1: seq<Arrival>, a1: Arrival,
                        p2: seq<Arrival>, a2: Arrival, rest: seq<Arrival>)
    requires Absorbed(p1) && Decisive(a1)
    requires Absorbed(p2) && Decisive(a2)
    ensures FirstStopFrom(p1 + [a1] + p2 + [a2] + rest, 0) == Some(|p1|)
    ensures Tail(logName, p1 + [a1] + p2 + [a2] + rest) == Done(Verdict(logName, a1))
    ensures Tail(logName, (p1 + [a1] + p2 + [a2] + rest)[|p1| + 1..]) == Done(Verdict(logName, a2))
  {
    var s := p1 + [a1] + (p2 + [a2] + rest);
    assert s == p1 + [a1] + p2 + [a2] + rest;
    DecisiveArrivalReturns(logName, p1, a1, p2 + [a2] + rest);
    assert s[..|p1|] == p1;
    AbsorbedPrefixDoesNotStop(s, p1);
    FirstStopIs(s, |p1|);
    assert s[|p1| + 1..] == p2 + [a2] + rest;
    DecisiveArrivalReturns(logName, p2, a2, rest);
  }

  /**
   * The wait step as the source runs it: a loop over the arrivals with the
   * local counter `errRetry`, returning from inside the loop.
   */
  method StartTail(logName: string, arrivals: seq<Arrival>) returns (out: Outcome)
    ensures out == Tail(logName, arrivals)
  {
    var errRetry := InitialRetries;
    var i := 0;
    while i < |arrivals|
      invariant 0 <= i <= |arrivals|
      invariant 0 <= errRetry <= InitialRetries
      invariant errRetry == InitialRetries - Errors(arrivals[..i])
      invariant forall j :: 0 <= j < i ==> !Stops(arrivals, j)
    {
      ErrorsStep(arrivals, i);
      match arrivals[i] {
        case Cancel =>
          FirstStopIs(arrivals, i);
          return Done(Result(false, Some(Cancelled)));
        case Ev(e) =>
          if e.Has(Write) {
            FirstStopIs(arrivals, i);
            return Done(Result(false, None));
          } else if e.Has(Rename) {
            FirstStopIs(arrivals, i);
            return Done(Result(Filepath.Base(e.name) == logName, None));
          }
          // any other event is ignored
        case WatchErr(cause) =>
          if errRetry == 0 {
            FirstStopIs(arrivals, i);
            return Done(Result(false, Some(Watcher(cause))));
          }
          errRetry := errRetry - 1;
        case Timeout =>
          FirstStopIs(arrivals, i);
          return Done(Result(false, None));
      }
      i := i + 1;
    }
    assert arrivals[..i] == arrivals;
    out := Waiting(errRetry);
  }
}
