# The wait step of nerdctl's BSD log follower

nerdctl follows a container's JSON log file. On FreeBSD, OpenBSD and NetBSD,
`startTail` (`pkg/logging/watch_events_bsd.go`) is the blocking wait between
two reads. It returns `(rotated bool, err error)` on the first of these:

- the context is cancelled;
- the fsnotify watcher delivers an event or an error;
- the force-check period elapses.

A local counter `errRetry` lets the call absorb a few watcher errors before it
gives up.

This project models that function in Dafny. The `select` becomes a sequence of
arrivals (`Cancel | Ev(event) | WatchErr(cause) | Timeout`), in the order the
call receives them. A call that runs out of arrivals without returning is
still waiting.

- `Logging.StartTail` is the function's loop. It is a method with a `while`
  loop and the counter `errRetry`, and it returns from inside the loop.
- `Logging.Tail` states the same behaviour declaratively. The call returns on
  the first arrival that is decisive, or on a watcher error that comes after
  five absorbed errors. The result is that arrival's `Verdict`. If no such
  arrival exists, the call is still waiting with `5 - errors` retries left.
- The lemmas state what the function promises about one call and about
  successive calls.

Files:

- `wrappers.dfy`: `Option`, standing for Go's nil-able `error`.
- `fsnotify.dfy`: the fsnotify operations and events the function reads. The
  operation bit mask is a set of operations, and `Has` is membership.
- `filepath.dfy`: Go's `filepath.Base` as it behaves on Unix.
- `watch_events_bsd.dfy`: module `Logging`, which holds the model and its
  proofs.

Where the code and a plain reading of it differ, the model follows the code:

- **Retry count.** The counter starts at 5, and an error is returned only when
  the counter is already 0. So the call absorbs five watcher errors and returns
  the sixth (`SixthErrorIsReturned`). Five errors leave it waiting with
  `errRetry == 0` (`ErrorWithinBudgetIsAbsorbed`).
- **Create is not rotation.** Only the Rename bit is tested. A Create event
  without Write or Rename is ignored like any other event
  (`IgnoredEventIsTransparent`).
- **A non-matching Rename returns.** If the base name differs from the log's
  name, the call returns `(false, nil)` at once. It does not keep waiting
  (`RenameReturnsAtOnce`).

## Model

| member | source | states |
|---|---|---|
| Logging.StartTail | pkg/logging/watch_events_bsd.go:34-59 | The loop, with `errRetry` starting at 5 and decremented only on absorbed watcher errors, returns exactly the outcome the declarative `Tail` gives for the same arrivals. Its invariant keeps `errRetry == 5 - errors received` within 0..5. |
| Logging.Tail | pkg/logging/watch_events_bsd.go:34-59 | A result with `rotated == true` always has a nil error. A waiting call's counter stays within 0..5. |
| Logging.FirstStopFrom | pkg/logging/watch_events_bsd.go:36-57 | Finds the arrival on which the loop returns. This is the first arrival that is decisive, or a watcher error after five absorbed ones. If none is found, no arrival stops the call. |
| Logging.Verdict | pkg/logging/watch_events_bsd.go:38-56 | `rotated` holds exactly for a Rename event without the Write bit whose base name equals the log's name. The error is "context cancelled" exactly for a cancellation and the watcher's own error for a watcher error. Every other arrival returns nil. |
| Logging.WaitingIffAbsorbed | pkg/logging/watch_events_bsd.go:35-58 | The call keeps waiting if and only if every arrival so far is ignorable and at most five were watcher errors. Its counter is then 5 minus the number of errors. |
| Logging.DecisiveArrivalReturns | pkg/logging/watch_events_bsd.go:38-56 | After arrivals it absorbs, the call returns on a cancellation, Write, Rename or timeout with that arrival's verdict. Later arrivals are never read. |
| Logging.CancelReturnsCancelled | pkg/logging/watch_events_bsd.go:38-39 | A cancellation returns `(false, "context cancelled")`. |
| Logging.WriteReturnsNoRotation | pkg/logging/watch_events_bsd.go:42-43 | An event with the Write bit returns `(false, nil)` whatever its name. This holds even when the event also has the Rename bit. |
| Logging.RenameReturnsAtOnce | pkg/logging/watch_events_bsd.go:44-45 | A Rename event without Write returns immediately with `rotated == (Base(name) == logName)` and a nil error. A name mismatch returns `(false, nil)` and does not keep waiting. |
| Logging.IgnoredEventIsTransparent | pkg/logging/watch_events_bsd.go:46-47 | An event with neither Write nor Rename (such as Create, Remove or Chmod) changes neither the call's result nor its counter. |
| Logging.ErrorWithinBudgetIsAbsorbed | pkg/logging/watch_events_bsd.go:49-54 | A watcher error while retries remain is absorbed. The call waits on with `errRetry` one lower. |
| Logging.RetriesOnlyDecrease | pkg/logging/watch_events_bsd.go:51-54 | Within one call, the counter falls by exactly the number of watcher errors received and never goes below zero. |
| Logging.SixthErrorIsReturned | pkg/logging/watch_events_bsd.go:35-53 | After five absorbed errors, the next watcher error is returned as the call's error with `rotated == false`. |
| Logging.TimeoutReturnsNoRotation | pkg/logging/watch_events_bsd.go:55-56 | A timeout returns `(false, nil)`. |
| Logging.BudgetIsPerCall | pkg/logging/watch_events_bsd.go:35 | A call stops at its first decisive arrival. The next call, on the remaining arrivals, starts again with the full budget of five, however many errors the first call absorbed. |
| Logging.QuietErrorsBounded | pkg/logging/watch_events_bsd.go:51-54 | A call that has not yet returned has absorbed at most five errors. |
| Filepath.Base | pkg/logging/watch_events_bsd.go:45 | The base of a path is never empty and has no separator unless it is "/". For a path that does not end in a separator, it is the path's last element. |
| Filepath.BaseOfEntry | pkg/logging/watch_events_bsd.go:45 | For a name with no separator, the base of `dir/name` is the name, and so is the base of the name alone. An event on the followed file therefore matches `logName`. |

## Left out

- The fsnotify watcher, Go channels, `context.Context` and `time.After` are not modelled. Their deliveries become the arrival sequence. The choice `select` makes among cases ready at the same moment is scheduling, and the sequence fixes one order.
- The force-check period is not modelled. The timer is re-created on every loop iteration, so an ignored event restarts the idle period. That wall-clock behaviour is not modelled: a timeout is just an arrival. The value of `logForceCheckPeriod` is not part of this model.
- The `log.L.Debugf` diagnostics (`:47`, `:50`) are not modelled. They do not affect the result.
- Filepath.Base: Go's standard library is not part of this model. The function follows the documented Unix behaviour of `filepath.Base` (trailing separators dropped, "." for an empty path, "/" for a path of separators only) and has no volume names.
- Watcher errors are modelled by their message only.
- `cmd/nerdctl/main_test.go` is not modelled. It holds end-to-end tests that run the nerdctl binary and contains no logic of this component.
