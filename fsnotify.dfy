/**
 * The parts of the fsnotify library that the log follower reads: the operation
 * kinds a watcher reports and the events that carry them. fsnotify keeps the
 * operations of one event as a bit mask and `Has` tests one bit; here the mask
 * is the set of operations whose bit is set.
 */
module Fsnotify {

  /** The operation kinds of fsnotify (Create, Write, Remove, Rename, Chmod). */
  datatype Op = Create | Write | Remove | Rename | Chmod

  /** A change notification: the affected path and every operation seen on it. */
  datatype Event = Event(name: string, ops: set<Op>) {

    /** True when the event carries the given operation. */
    predicate Has(op: Op) {
      op in ops
    }
  }
}
