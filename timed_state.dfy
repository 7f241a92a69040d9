/** The state machine behind `TimedData<T>`, on values.

    A slot holds at most one value, a "written and not yet read" flag, the
    time of the last write and a fixed expiration window. Time is an integer
    count of milliseconds of a steady clock, passed in explicitly where the
    original reads `steady_clock::now()`. Both classes (the library header and
    the earlier inline copy) are proved against the functions of this module.
 */
module TimedState {

  datatype Option<T> = None | Some(value: T)

  /** The four data members of a `TimedData<T>` object. */
  datatype Slot<T> = Slot(data: Option<T>, written: bool, lastWrite: int, expiration: int)

  /** The object invariant: a pending value is a present value. */
  predicate Valid<T>(s: Slot<T>)
  {
    s.written ==> s.data.Some?
  }

  /** A freshly constructed slot. `lastWrite` is the clock's epoch, the value
      a default-constructed `time_point` has; nothing reads it while `data`
      is absent. */
  function Empty<T>(expiration: int): (e: Slot<T>)
    ensures Valid(e) && !e.written && e.expiration == expiration
    ensures forall now :: !Alive(e, now)
  {
    Slot(None, false, 0, expiration)
  }

  /** `alive()`: a value is present and less than `expiration` milliseconds
      have passed since it was last written. */
  function Alive<T>(s: Slot<T>, now: int): bool
  {
    s.data.Some? && now - s.lastWrite < s.expiration
  }

  /** `read()`: the new state and the returned optional. Only the flag is
      cleared; the stored value stays. */
  function Read<T>(s: Slot<T>): (r: (Slot<T>, Option<T>))
    ensures Valid(s) ==> Valid(r.0) && (r.1.Some? <==> s.written)
    ensures r.1 == if s.written then s.data else None
    ensures !r.0.written
    ensures r.0.data == s.data && r.0.lastWrite == s.lastWrite && r.0.expiration == s.expiration
  {
    if s.written then (s.(written := false), s.data) else (s, None)
  }

  /** `write(value)` of the inline class. */
  function Write<T>(s: Slot<T>, v: T, now: int): (w: Slot<T>)
    ensures Valid(w) && w.written
    ensures w.data == Some(v) && w.lastWrite == now && w.expiration == s.expiration
  {
    Slot(Some(v), true, now, s.expiration)
  }

  /** The value `get_data()` hands out: the stored one, or the default when
      nothing is stored. */
  function Seen<T>(s: Slot<T>, default: T): T
  {
    if s.data.Some? then s.data.value else default
  }

  /** `get_data()` followed by the caller's in-place `edit` through the
      returned reference: the new state and the value the reference showed
      when it was handed out. */
  function Access<T>(s: Slot<T>, now: int, default: T, edit: T -> T): (r: (Slot<T>, T))
    ensures r.1 == Seen(s, default)
    ensures r.0.data == Some(edit(r.1))
    ensures Valid(r.0) && r.0.written
    ensures r.0.lastWrite == now && r.0.expiration == s.expiration
  {
    var seen := Seen(s, default);
    (Slot(Some(edit(seen)), true, now, s.expiration), seen)
  }

  // ---------------------------------------------------------------------
  // Single operations

  /** A new slot is neither pending nor alive, and reading it yields nothing. */
  lemma EmptyIsIdle<T>(expiration: int, now: int)
    ensures Valid(Empty<T>(expiration))
    ensures !Empty<T>(expiration).written && !Alive(Empty<T>(expiration), now)
    ensures Read(Empty<T>(expiration)) == (Empty<T>(expiration), None)
  {
  }

  /** Reading a pending slot returns its value and clears the flag, so an
      immediately repeated read returns nothing. */
  lemma ReadPending<T>(s: Slot<T>)
    requires Valid(s) && s.written
    ensures Read(s).1 == Some(s.data.value)
    ensures !Read(s).0.written && Read(Read(s).0) == (Read(s).0, None)
  {
  }

  /** Reading a slot that is not pending returns nothing and changes nothing. */
  lemma ReadIdle<T>(s: Slot<T>)
    requires !s.written
    ensures Read(s) == (s, None)
  {
  }

  /** `read()` keeps the value, the time stamp and the window, so liveness
      is the same before and after it, at every time. */
  lemma ReadKeepsAlive<T>(s: Slot<T>, now: int)
    ensures Read(s).0.data == s.data && Read(s).0.lastWrite == s.lastWrite
    ensures Read(s).0.expiration == s.expiration
    ensures Alive(Read(s).0, now) == Alive(s, now)
  {
  }

  /** `alive()` does not look at the pending flag. */
  lemma AliveIgnoresFlag<T>(s: Slot<T>, now: int, pending: bool)
    ensures Alive(s.(written := pending), now) == Alive(s, now)
  {
  }

  /** With a window of zero or less, a slot is never alive when queried no
      earlier than its last write, as a steady clock guarantees. */
  lemma NonPositiveWindowNeverAlive<T>(s: Slot<T>, now: int)
    requires now >= s.lastWrite && s.expiration <= 0
    ensures !Alive(s, now)
  {
  }

  /** Expiry is monotone in time: once dead, a slot that is not written again
      stays dead. */
  lemma ExpiryMonotone<T>(s: Slot<T>, t1: int, t2: int)
    requires t1 <= t2 && !Alive(s, t1)
    ensures !Alive(s, t2)
  {
  }

  /** `write(v)` stores `v`, marks it pending and stamps the time, discarding
      whatever was there; reading then yields `v` once, and a second read
      yields nothing. */
  lemma WriteThenRead<T>(s: Slot<T>, v: T, now: int)
    ensures Valid(Write(s, v, now))
    ensures Write(s, v, now).data == Some(v) && Write(s, v, now).written
    ensures Write(s, v, now).lastWrite == now && Write(s, v, now).expiration == s.expiration
    ensures Read(Write(s, v, now)).1 == Some(v)
    ensures Read(Read(Write(s, v, now)).0).1 == None
  {
  }

  /** After a write at `now`, the slot is alive at `t` exactly when less
      than the window has passed since `now`; in particular it is alive at
      the instant of the write exactly when the window is positive, since
      the comparison is strict. */
  lemma AliveAfterWrite<T>(s: Slot<T>, v: T, now: int, t: int)
    ensures Alive(Write(s, v, now), t) <==> t - now < s.expiration
    ensures Alive(Write(s, v, now), now) <==> s.expiration > 0
  {
  }

  /** The same holds after `get_data()`, whatever the caller's edit. */
  lemma AliveAfterAccess<T>(s: Slot<T>, now: int, default: T, edit: T -> T, t: int)
    ensures Alive(Access(s, now, default, edit).0, t) <==> t - now < s.expiration
    ensures Alive(Access(s, now, default, edit).0, now) <==> s.expiration > 0
  {
  }

  /** The retained-value behaviour of the library class: after a read, an
      access sees the value that was read, not a fresh default. */
  lemma AccessAfterReadSeesOldValue<T>(s: Slot<T>, now: int, default: T, edit: T -> T)
    requires s.data.Some?
    ensures Access(Read(s).0, now, default, edit).1 == s.data.value
  {
  }

  // ---------------------------------------------------------------------
  // Sequences of calls

  /** One call a client makes: `write` (inline class), `read` (both), or
      `get_data` followed by an in-place edit (library class). The queries
      `alive` and `isWritten` change nothing and are left out of traces. */
  datatype Op<!T> = WriteOp(value: T, now: int) | ReadOp | AccessOp(now: int, edit: T -> T)

  /** One call: the new state and what a `read` returned (None for the
      other calls). */
  function Step<T>(s: Slot<T>, default: T, op: Op<T>): (Slot<T>, Option<T>)
  {
    match op
    case WriteOp(v, now) => (Write(s, v, now), None)
    case ReadOp => Read(s)
    case AccessOp(now, edit) => (Access(s, now, default, edit).0, None)
  }

  /** A sequence of calls: the final state and the values the reads
      delivered, in order. */
  function Run<T>(s: Slot<T>, default: T, ops: seq<Op<T>>): (Slot<T>, seq<T>)
    decreases |ops|
  {
    if ops == [] then (s, [])
    else
      var next := Step(s, default, ops[0]);
      var rest := Run(next.0, default, ops[1..]);
      (rest.0, (if next.1.Some? then [next.1.value] else []) + rest.1)
  }

  /** The number of calls that store a value (`write` and `get_data`). */
  function Stores<T>(ops: seq<Op<T>>): nat
    decreases |ops|
  {
    if ops == [] then 0 else (if ops[0].ReadOp? then 0 else 1) + Stores(ops[1..])
  }

  /** The result of applying the edits of the accesses in `ops`, in order,
      to `x`. */
  function ApplyEdits<T>(ops: seq<Op<T>>, x: T): T
    decreases |ops|
  {
    if ops == [] then x
    else ApplyEdits(ops[1..], if ops[0].AccessOp? then ops[0].edit(x) else x)
  }

  /** Every call keeps the object invariant and the expiration window. */
  lemma {:induction false} RunKeepsInvariant<T>(s: Slot<T>, default: T, ops: seq<Op<T>>)
    requires Valid(s)
    ensures Valid(Run(s, default, ops).0)
    ensures Run(s, default, ops).0.expiration == s.expiration
    decreases |ops|
  {
    if ops != [] {
      RunKeepsInvariant(Step(s, default, ops[0]).0, default, ops[1..]);
    }
  }

  /** A stored value is delivered by at most one read: over any sequence of
      calls, the reads that return a value, plus a value still pending at
      the end, never outnumber the stores plus a value pending at the
      start. */
  lemma {:induction false} ReadsDeliverAtMostOnce<T>(s: Slot<T>, default: T, ops: seq<Op<T>>)
    ensures |Run(s, default, ops).1| + (if Run(s, default, ops).0.written then 1 else 0)
            <= Stores(ops) + (if s.written then 1 else 0)
    decreases |ops|
  {
    if ops != [] {
      ReadsDeliverAtMostOnce(Step(s, default, ops[0]).0, default, ops[1..]);
    }
  }

  /** Reads alone leave the value, the time stamp and the window as they
      were. */
  lemma {:induction false} ReadsKeepData<T>(s: Slot<T>, default: T, ops: seq<Op<T>>)
    requires forall i :: 0 <= i < |ops| ==> ops[i].ReadOp?
    ensures Run(s, default, ops).0.data == s.data
    ensures Run(s, default, ops).0.lastWrite == s.lastWrite
    ensures Run(s, default, ops).0.expiration == s.expiration
    decreases |ops|
  {
    if ops != [] {
      ReadsKeepData(Step(s, default, ops[0]).0, default, ops[1..]);
    }
  }

  /** A run of reads delivers a pending value exactly once, and nothing when
      no value is pending; afterwards the slot is not pending. */
  lemma {:induction false} ReadsDeliverPendingOnce<T>(s: Slot<T>, default: T, ops: seq<Op<T>>)
    requires Valid(s) && ops != [] && forall i :: 0 <= i < |ops| ==> ops[i].ReadOp?
    ensures Run(s, default, ops).1 == if s.written then [s.data.value] else []
    ensures !Run(s, default, ops).0.written
    decreases |ops|
  {
    var next := Step(s, default, ops[0]).0;
    if |ops| > 1 {
      assert forall i :: 0 <= i < |ops[1..]| ==> ops[1..][i] == ops[i + 1];
      ReadsDeliverPendingOnce(next, default, ops[1..]);
    }
  }

  /** A slot that is not alive at `t1` is not alive at any later `t2` when
      only reads happen in between. */
  lemma ExpiredStaysExpired<T>(s: Slot<T>, default: T, ops: seq<Op<T>>, t1: int, t2: int)
    requires forall i :: 0 <= i < |ops| ==> ops[i].ReadOp?
    requires t1 <= t2 && !Alive(s, t1)
    ensures !Alive(Run(s, default, ops).0, t2)
  {
    ReadsKeepData(s, default, ops);
  }

  /** Successive accesses accumulate: after a non-empty run of `get_data`
      calls, the stored value is the value first seen with every edit
      applied in order, the slot is pending, stamped with the last call's
      time, and no read delivered anything. */
  lemma {:induction false} AccessesAccumulate<T>(s: Slot<T>, default: T, ops: seq<Op<T>>)
    requires ops != [] && forall i :: 0 <= i < |ops| ==> ops[i].AccessOp?
    ensures Run(s, default, ops).0.data == Some(ApplyEdits(ops, Seen(s, default)))
    ensures Run(s, default, ops).0.written
    ensures Run(s, default, ops).0.lastWrite == ops[|ops| - 1].now
    ensures Run(s, default, ops).1 == []
    decreases |ops|
  {
    var next := Step(s, default, ops[0]).0;
    if |ops| > 1 {
      assert forall i :: 0 <= i < |ops[1..]| ==> ops[1..][i] == ops[i + 1];
      AccessesAccumulate(next, default, ops[1..]);
      assert Seen(next, default) == ops[0].edit(Seen(s, default));
    }
  }

  /** Edits are only those of accesses: over a run of reads, `ApplyEdits`
      changes nothing. */
  lemma {:induction false} ApplyEditsSkipsReads<T>(ops: seq<Op<T>>, x: T)
    requires forall i :: 0 <= i < |ops| ==> ops[i].ReadOp?
    ensures ApplyEdits(ops, x) == x
    decreases |ops|
  {
    if ops != [] {
      assert forall i :: 0 <= i < |ops[1..]| ==> ops[1..][i] == ops[i + 1];
      ApplyEditsSkipsReads(ops[1..], x);
    }
  }

  /** Accesses accumulate across reads too: since a read keeps the stored
      value, after a run of accesses and reads with at least one access, the
      stored value is the value first seen with every edit applied in
      order. */
  lemma {:induction false} AccessesAccumulateAcrossReads<T>(s: Slot<T>, default: T, ops: seq<Op<T>>)
    requires forall i :: 0 <= i < |ops| ==> !ops[i].WriteOp?
    requires exists i :: 0 <= i < |ops| && ops[i].AccessOp?
    ensures Run(s, default, ops).0.data == Some(ApplyEdits(ops, Seen(s, default)))
    decreases |ops|
  {
    var rest := ops[1..];
    assert forall i :: 0 <= i < |rest| ==> rest[i] == ops[i + 1];
    var next := Step(s, default, ops[0]).0;
    if ops[0].ReadOp? {
      assert Seen(next, default) == Seen(s, default);
      var k :| 0 <= k < |ops| && ops[k].AccessOp?;
      assert rest[k - 1].AccessOp?;
      AccessesAccumulateAcrossReads(next, default, rest);
    } else if exists i :: 0 <= i < |rest| && rest[i].AccessOp? {
      assert Seen(next, default) == ops[0].edit(Seen(s, default));
      AccessesAccumulateAcrossReads(next, default, rest);
    } else {
      assert forall i :: 0 <= i < |rest| ==> rest[i].ReadOp?;
      ReadsKeepData(next, default, rest);
      ApplyEditsSkipsReads(rest, ops[0].edit(Seen(s, default)));
    }
  }
}
