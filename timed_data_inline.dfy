/** The earlier inline `TimedData<T>`: `write`, `read`, `alive` and
    `isWritten`. */
module TimedDataInline {
  import opened TimedState

  class TimedData<T> {
    var data: Option<T>
    var hasBeenWritten: bool
    var lastWriteTime: int
    const expirationDuration: int

    /** The data members as a value. */
    function State(): Slot<T>
      reads this
    {
      Slot(data, hasBeenWritten, lastWriteTime, expirationDuration)
    }

    ghost predicate Valid()
      reads this
    {
      TimedState.Valid(State())
    }

    constructor (expirationTime: int)
      ensures Valid() && State() == Empty(expirationTime)
    {
      data := None;
      hasBeenWritten := false;
      lastWriteTime := 0;
      expirationDuration := expirationTime;
    }

    /** Stores `value` at time `now`, replacing any unread value. */
    method Write(value: T, now: int)
      requires Valid()
      modifies this
      ensures Valid()
      ensures State() == TimedState.Write(old(State()), value, now)
      ensures data == Some(value) && hasBeenWritten && lastWriteTime == now
    {
      data := Some(value);
      hasBeenWritten := true;
      lastWriteTime := now;
    }

    /** Returns the pending value and clears the flag; the value itself is
        kept. */
    method Read() returns (r: Option<T>)
      requires Valid()
      modifies this
      ensures Valid()
      ensures (State(), r) == TimedState.Read(old(State()))
      ensures r == if old(hasBeenWritten) then old(data) else None
      ensures !hasBeenWritten && data == old(data) && lastWriteTime == old(lastWriteTime)
    {
      if hasBeenWritten {
        hasBeenWritten := false;
        return data;
      }
      return None;
    }

    /** Whether a value is present and was written less than the window ago. */
    function Alive(now: int): (alive: bool)
      reads this
      ensures alive == TimedState.Alive(State(), now)
    {
      if data.None? then false else now - lastWriteTime < expirationDuration
    }

    /** The pending flag, verbatim. */
    function IsWritten(): (pending: bool)
      reads this
      ensures pending == State().written
      ensures Valid() && pending ==> data.Some?
    {
      hasBeenWritten
    }
  }

  /** A new object is neither pending nor alive; a written value is read
      exactly once, and liveness right after the write follows the window's
      sign. */
  method WriteReadTwice<T>(v: T, window: int)
    returns (pendingBefore: bool, aliveBefore: bool, aliveNow: bool, first: Option<T>, second: Option<T>)
    ensures !pendingBefore && !aliveBefore
    ensures aliveNow <==> window > 0
    ensures first == Some(v) && second == None
  {
    var slot := new TimedData<T>(window);
    pendingBefore := slot.IsWritten();
    aliveBefore := slot.Alive(0);
    slot.Write(v, 7);
    aliveNow := slot.Alive(7);
    first := slot.Read();
    second := slot.Read();
  }
}
