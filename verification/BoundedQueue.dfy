/** The agent's bounded, closable hand-over queue. */
module BoundedQueue {
  import opened Optional

  /** What a queue holds: its values front first, and whether it was closed. */
  datatype View<T> = View(values: seq<T>, closed: bool, capacity: nat) {
    /** `try_push` refuses a closed or a full queue. */
    predicate Accepts() {
      !closed && |values| < capacity
    }

    function Push(value: T): View<T> {
      this.(values := values + [value])
    }

    /** `pop` waits until there is a value or the queue is closed. */
    predicate Wakes() {
      closed || values != []
    }

    function Rest(): View<T>
      requires values != []
    {
      this.(values := values[1..])
    }

    function Close(): View<T> {
      this.(closed := true)
    }
  }

  class Queue<T> {
    const capacity: nat
    var values: seq<T>
    var closed: bool

    ghost predicate Valid()
      reads this
    {
      capacity >= 1 && |values| <= capacity
    }

    ghost function Contents(): View<T>
      reads this
    {
      View(values, closed, capacity)
    }

    /** A capacity below one counts as one. */
    constructor (limit: nat)
      ensures Valid() && Contents() == View([], false, if limit < 1 then 1 else limit)
    {
      capacity, values, closed := if limit < 1 then 1 else limit, [], false;
    }

    method TryPush(value: T) returns (pushed: bool)
      requires Valid()
      modifies this
      ensures Valid() && pushed == (!old(closed) && |old(values)| < capacity)
      ensures closed == old(closed) && values == if pushed then old(values) + [value] else old(values)
      ensures pushed == old(Contents()).Accepts()
      ensures Contents() == if pushed then old(Contents()).Push(value) else old(Contents())
    {
      if closed || |values| >= capacity { return false; }
      values := values + [value];
      return true;
    }

    /** The part of `pop` behind the wait: a closed queue is drained before it reports its end. */
    method Pop() returns (front: Option<T>)
      requires Valid() && Contents().Wakes()
      modifies this
      ensures Valid()
      ensures closed == old(closed) && values == if old(values) == [] then [] else old(values)[1..]
      ensures if old(values) == [] then front == None && closed && Contents() == old(Contents())
              else front == Some(old(values)[0]) && Contents() == old(Contents()).Rest()
    {
      if values == [] { return None; }
      front := Some(values[0]);
      values := values[1..];
    }

    method Close()
      requires Valid()
      modifies this
      ensures Valid() && closed && values == old(values)
      ensures Contents() == old(Contents()).Close()
    {
      closed := true;
    }
  }
}
