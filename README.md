# TimedData in Dafny

`TimedData<T>` is a single-slot container: it holds at most one value of
type `T`, a "written and not yet read" flag (`hasBeenWritten`), the time of
the last write (`lastWriteTime`) and a fixed expiration window
(`expirationDuration`). `read()` hands out a pending value once and clears
the flag; `alive()` says whether a value is present and was written less than
the window ago; `isWritten()` returns the flag. The library header
`include/timed_data.hpp` adds `get_data()`, which gives in-place access to the
value (default-constructing it when absent) and counts as a write. The
earlier copy of the class at the top of `main.cpp` has `write(value)` instead.

The project has three modules:

- `TimedState` (`timed_state.dfy`): the four data members as a datatype
  `Slot<T>`, each operation as a function on it (`Read`, `Write`, `Access`,
  `Alive`), the object invariant `Valid` (a pending value is present), and
  lemmas about single calls and about sequences of calls (`Run` over a
  sequence of `Op`s).
- `TimedDataLib` (`timed_data_lib.dfy`): the library class, with the same
  four fields plus `defaultValue` standing for `T()`; each method is proved to move `State()` exactly as the
  matching `TimedState` function does, and keeps `Valid()`. Three client
  methods run scenarios through the class contracts: `AssignedIntExpires`
  follows the `int` part of the program in `src/main.cpp` (lines 11-66);
  `AppendsAccumulate` follows its vector part (three `push_back`s through
  `get_data`, one read) and adds a second read; `AccessAfterRead` is not
  in any program and exercises the retained value after `read()`.
- `TimedDataInline` (`timed_data_inline.dfy`): the inline class from
  `main.cpp`, the same way.

Modelling choices:

- Time is an integer count of milliseconds, passed as `now` to `Write`,
  `GetData` and `Alive` where the original reads `steady_clock::now()`.
  With whole-millisecond ticks the `duration_cast` to milliseconds changes
  nothing. No operation requires anything of `now`: the original is total,
  and the monotonicity of the steady clock is the caller's; the expiry
  lemmas take `t1 <= t2` as a hypothesis instead.
- `lastWriteTime` starts at 0, the clock's epoch (what a default-constructed
  `time_point` holds); it is never consulted while no value is present.
- `T()` is a value given to the library class's constructor
  (`defaultValue`).
- The `T&` that `get_data()` returns is modelled by one call
  `GetData(now, edit)`: `seen` is what the reference shows when handed out,
  and the caller's in-place change is the function `edit`, so the stored
  value becomes `edit(seen)`. A plain look is `edit = x => x`; it still marks
  the slot pending and restamps it.
- The retained value after `read()` is kept as the code has it: `read()`
  clears only the flag, so a later `get_data()` sees the value already read,
  not a fresh default (`AccessAfterReadSeesOldValue`, `AccessAfterRead`).
- The expiration window may be any integer, as the code accepts any
  `milliseconds` value. With a window of zero or less the slot is never
  alive when queried no earlier than its last write
  (`NonPositiveWindowNeverAlive`); because the model does not force the
  clock forward, an earlier query can still find it alive.

## Model

| member | source | states |
|---|---|---|
| TimedState.Empty | include/timed_data.hpp:10-13 | the constructed slot satisfies the invariant, is not pending, keeps the given window and is not alive at any time |
| TimedState.Alive | include/timed_data.hpp:26-34 | reference definition of `alive()`, with no contract of its own; its promises are those of `ExpiryMonotone`, `AliveIgnoresFlag`, `NonPositiveWindowNeverAlive`, `ReadKeepsAlive`, `AliveAfterWrite` and `AliveAfterAccess` |
| TimedState.Read | include/timed_data.hpp:16-23 | returns the value when the flag was set and nothing otherwise (under the invariant, a value exactly when pending); afterwards the flag is clear, and the value, time stamp and window are unchanged; the invariant is kept |
| TimedState.Write | main.cpp:18-23 | the new state holds `Some(v)`, is pending, is stamped with `now`, keeps the window and satisfies the invariant, whatever was stored before |
| TimedState.Seen | include/timed_data.hpp:44-49 | reference definition of the value `get_data` hands out, with no contract of its own; its promises are those of `AccessAfterReadSeesOldValue`, `AccessesAccumulate` and `AccessesAccumulateAcrossReads` |
| TimedState.Access | include/timed_data.hpp:43-50 | hands out the value `Seen` gives, stores the caller's edit of it, marks the slot pending and stamps it with `now` whatever the edit does, keeps the window and the invariant |
| TimedState.EmptyIsIdle | include/timed_data.hpp:10-30 | a new slot satisfies the invariant, is not pending, is not alive at any time, and reading it returns nothing and changes nothing |
| TimedState.ReadPending | include/timed_data.hpp:16-23 | reading a pending slot returns its value and clears the flag, so an immediately repeated read returns nothing and changes nothing |
| TimedState.ReadIdle | include/timed_data.hpp:18-22 | reading a slot that is not pending returns nothing and leaves the state unchanged |
| TimedState.ReadKeepsAlive | include/timed_data.hpp:18-33 | a read keeps the value, the time stamp and the window, so `alive` answers the same before and after it at every time |
| TimedState.AliveIgnoresFlag | include/timed_data.hpp:26-34 | `alive` gives the same answer whatever the pending flag is |
| TimedState.NonPositiveWindowNeverAlive | include/timed_data.hpp:31-33 | with a window of zero or less, a slot queried no earlier than its last write is not alive |
| TimedState.ExpiryMonotone | include/timed_data.hpp:31-33 | a slot not alive at `t1` is not alive at any `t2 >= t1` in the same state |
| TimedState.WriteThenRead | main.cpp:18-33 | `write(v, now)` stores `Some(v)`, sets the flag and the time stamp, keeps the window and the invariant; the next read returns `v` and the one after returns nothing |
| TimedState.AliveAfterWrite | main.cpp:18-43 | after a write at `now`, the slot is alive at `t` exactly when `t - now` is below the window; at `now` itself exactly when the window is positive |
| TimedState.AliveAfterAccess | include/timed_data.hpp:26-50 | after `get_data` at `now`, with any edit, the slot is alive at `t` exactly when `t - now` is below the window; at `now` itself exactly when the window is positive |
| TimedState.AccessAfterReadSeesOldValue | include/timed_data.hpp:18-20 | after a read, `get_data` hands out the value already read rather than the default |
| TimedState.RunKeepsInvariant | include/timed_data.hpp:16-50 | over any sequence of writes, reads and accesses, the invariant "pending implies present" holds throughout and the window never changes |
| TimedState.ReadsDeliverAtMostOnce | main.cpp:18-33 | over any sequence of calls, the reads that return a value plus a value left pending never outnumber the stores plus a value pending at the start: no stored value is delivered twice |
| TimedState.ReadsDeliverPendingOnce | main.cpp:26-33 | a non-empty run of reads delivers the pending value exactly once (nothing if none is pending) and leaves the slot not pending |
| TimedState.ReadsKeepData | include/timed_data.hpp:16-23 | any run of reads leaves the value, the time stamp and the window unchanged |
| TimedState.ExpiredStaysExpired | include/timed_data.hpp:26-34 | a slot not alive at `t1` is not alive at any `t2 >= t1` when only reads happen in between |
| TimedState.AccessesAccumulate | include/timed_data.hpp:43-50 | after a non-empty run of accesses, the stored value is the first value seen with every edit applied in order, the slot is pending, stamped with the last access's time, and no read delivered anything |
| TimedState.ApplyEditsSkipsReads | include/timed_data.hpp:43-50 | helper lemma about the model's fold `ApplyEdits`, not a model of `read()`: over a run of reads alone the fold returns its argument; it serves `AccessesAccumulateAcrossReads` |
| TimedState.AccessesAccumulateAcrossReads | include/timed_data.hpp:18-50 | over a run of accesses and reads with at least one access, the stored value is the first value seen with every edit applied in order, because a read keeps the stored value |
| TimedDataLib.TimedData.constructor | include/timed_data.hpp:10-13 | the new object holds no value, is not pending, has the given window, and satisfies the invariant |
| TimedDataLib.TimedData.Read | include/timed_data.hpp:16-23 | returns the old value when the flag was set and nothing otherwise; afterwards the flag is clear while the value and time stamp are unchanged; the state moves as `TimedState.Read` says |
| TimedDataLib.TimedData.Alive | include/timed_data.hpp:26-34 | the answer equals `TimedState.Alive` of the object's state |
| TimedDataLib.TimedData.IsWritten | include/timed_data.hpp:37-40 | returns the flag verbatim; under the invariant a set flag implies a present value |
| TimedDataLib.TimedData.GetData | include/timed_data.hpp:43-50 | hands out the stored value, or the default when none is stored; stores the caller's edit of it, sets the flag and `lastWriteTime := now`; the state moves as `TimedState.Access` says |
| TimedDataLib.AssignedIntExpires | src/main.cpp:11-66 | a value assigned through `get_data` with a 100 ms window is alive at once, is read once, is still alive 90 ms later and not alive 100 ms later |
| TimedDataLib.AppendsAccumulate | include/timed_data.hpp:18-49 | three accesses appending 1, 2 and 3 leave `[1, 2, 3]`; the first read returns it (as the vector part of `src/main.cpp` does) and a second read, not in that program, returns nothing |
| TimedDataLib.AccessAfterRead | include/timed_data.hpp:18-44 | after writing 5 through `get_data` and reading it, the slot is not pending and the next `get_data` sees 5, not the default 0 |
| TimedDataInline.TimedData.constructor | main.cpp:12-15 | the new object holds no value, is not pending, has the given window, and satisfies the invariant |
| TimedDataInline.TimedData.Write | main.cpp:18-23 | stores `Some(value)`, sets the flag and `lastWriteTime := now`, discarding any unread value; the state moves as `TimedState.Write` says |
| TimedDataInline.TimedData.Read | main.cpp:26-33 | returns the old value when the flag was set and nothing otherwise; afterwards the flag is clear while the value and time stamp are unchanged; the state moves as `TimedState.Read` says |
| TimedDataInline.TimedData.Alive | main.cpp:36-44 | the answer equals `TimedState.Alive` of the object's state |
| TimedDataInline.TimedData.IsWritten | main.cpp:47-50 | returns the flag verbatim; under the invariant a set flag implies a present value |
| TimedDataInline.WriteReadTwice | main.cpp:12-50 | a new object is neither pending nor alive (both queries are returned); after `write(v)` it is alive at that instant exactly when the window is positive, the first read returns `v` and the second returns nothing |

## Left out

- The `main()` function of `main.cpp` (lines 60-112) and the map part of the one in `src/main.cpp` (lines 13, 26-29, 48-55): demo drivers made of console output and sleeps, with no replay here. The `int` and vector parts of `src/main.cpp` are replayed by `AssignedIntExpires` and `AppendsAccumulate`. `WriteReadTwice` is a generic scenario for the inline class, not a replay of its `main()`.
- `std::chrono::steady_clock`: time is an explicit integer parameter; the clock's monotonicity is a hypothesis of the expiry lemmas, not something the model enforces.
- `duration_cast` truncation: a no-op with whole-millisecond ticks, which the model assumes.
- Reference semantics of the `T&` returned by `get_data`: a caller can keep the reference and change the value later, without restamping; the model folds the caller's change into the `get_data` call itself.
- Thread safety: the class has no synchronisation and none is modelled.
- Pretty-printing of vector and map contents in the demos.
