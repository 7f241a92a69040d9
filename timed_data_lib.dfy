/** The library `TimedData<T>`: `read`, `alive`, `isWritten` and `get_data`.

    `get_data()` returns a `T&` through which the caller may change the
    stored value in place. Here one call of `GetData` stands for `get_data()`
    together with what the caller then does through the reference: `edit`
    maps the value the reference shows to the value the caller leaves there
    (`x => x` for a plain look). The default-constructed `T()` is a value
    given to the constructor.
 */
module TimedDataLib {
  import opened TimedState

  class TimedData<T> {
    var data: Option<T>
    var hasBeenWritten: bool
    var lastWriteTime: int
    const expirationDuration: int
    /** What `T()` constructs. */
    const defaultValue: T

    /** The data members as a value. */
    function State(): Slot<T>
      reads this
    {
      Slot(data, hasBeenWritten, lastWriteTime, expirationDuration)
    }

    ghost predicate Valid()
      reads this
    {
      TimedState.Valid(State())
    }

    constructor (expirationTime: int, defaultValue: T)
      ensures Valid() && State() == Empty(expirationTime)
      ensures this.defaultValue == defaultValue
    {
      data := None;
      hasBeenWritten := false;
      lastWriteTime := 0;
      expirationDuration := expirationTime;
      this.defaultValue := defaultValue;
    }

    /** Returns the pending value and clears the flag; the value itself is
        kept. */
    method Read() returns (r: Option<T>)
      requires Valid()
      modifies this
      ensures Valid()
      ensures (State(), r) == TimedState.Read(old(State()))
      ensures r == if old(hasBeenWritten) then old(data) else None
      ensures !hasBeenWritten && data == old(data) && lastWriteTime == old(lastWriteTime)
    {
      if hasBeenWritten {
        hasBeenWritten := false;
        return data;
      }
      return None;
    }

    /** Whether a value is present and was written less than the window ago. */
    function Alive(now: int): (alive: bool)
      reads this
      ensures alive == TimedState.Alive(State(), now)
    {
      if data.None? then false else now - lastWriteTime < expirationDuration
    }

    /** The pending flag, verbatim. */
    function IsWritten(): (pending: bool)
      reads this
      ensures pending == State().written
      ensures Valid() && pending ==> data.Some?
    {
      hasBeenWritten
    }

    /** `get_data()` at time `now`, then the caller's `edit` through the
        reference; `seen` is what the reference showed. */
    method GetData(now: int, edit: T -> T) returns (seen: T)
      requires Valid()
      modifies this
      ensures Valid()
      ensures (State(), seen) == Access(old(State()), now, defaultValue, edit)
      ensures seen == if old(data).Some? then old(data).value else defaultValue
      ensures data == Some(edit(seen)) && hasBeenWritten && lastWriteTime == now
    {
      if data.None? {
        data := Some(defaultValue);
      }
      hasBeenWritten := true;
      lastWriteTime := now;
      seen := data.value;
      data := Some(edit(seen));
    }
  }

  /** The integer part of the demo: `get_data() = 43` with a 100 ms window,
      read at once, then liveness checked 90 and 100 ms after the write. The
      read does not end liveness; at 100 ms the elapsed time equals the
      window and the strict comparison fails. */
  method AssignedIntExpires() returns (at0: bool, taken: Option<int>, at90: bool, at100: bool)
    ensures at0 && taken == Some(43)
    ensures at90 && !at100
  {
    var slot := new TimedData<int>(100, 0);
    var _ := slot.GetData(0, _ => 43);
    at0 := slot.Alive(0);
    taken := slot.Read();
    at90 := slot.Alive(90);
    at100 := slot.Alive(100);
  }

  /** Three accesses that each append one element accumulate in the single
      stored sequence; it is read once. */
  method AppendsAccumulate() returns (first: Option<seq<int>>, second: Option<seq<int>>)
    ensures first == Some([1, 2, 3]) && second == None
  {
    var slot := new TimedData<seq<int>>(100, []);
    var _ := slot.GetData(0, xs => xs + [1]);
    assert slot.data.value == [1];
    var _ := slot.GetData(0, xs => xs + [2]);
    assert slot.data.value == [1, 2];
    var _ := slot.GetData(0, xs => xs + [3]);
    assert slot.data.value == [1, 2, 3];
    first := slot.Read();
    second := slot.Read();
  }

  /** An access after a read sees the value already read, not `T()`. */
  method AccessAfterRead() returns (taken: Option<int>, pendingAfter: bool, seen: int)
    ensures taken == Some(5) && !pendingAfter && seen == 5
  {
    var slot := new TimedData<int>(100, 0);
    var _ := slot.GetData(0, _ => 5);
    taken := slot.Read();
    pendingAfter := slot.IsWritten();
    seen := slot.GetData(1, x => x);
  }
}
