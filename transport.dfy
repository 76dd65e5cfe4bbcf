/** The pieces every console shares: peer addresses, the failures the
    operations raise, and an abstract transport handle and clock standing in
    for the operating system's socket and for `time`. */
module Transport {

  /** A peer address: the (host, port) pair that identifies a connection. */
  datatype Address = Address(host: string, port: int)

  /** The exceptions the operations raise. `TransportError` is any error of
      the socket, `LookupError` the `KeyError` of an unknown address, and
      `RecursionError` what Python raises when nested calls exhaust its stack. */
  datatype Failure = TransportError | TimeoutError | LookupError | RecursionError

  /** A value or the exception raised instead of returning it. */
  datatype Outcome<+T> = Ok(value: T) | Err(failure: Failure)

  /** One call made on a transport handle, as recorded by the handle. */
  datatype Event = Sent(data: string) | Received(data: string) | ShutDown | Released

  /** The observable state of one transport handle: the chunks the peer will
      deliver, one per receive, the log of calls made so far, and whether a
      send would succeed now. */
  datatype Wire = Wire(inbox: seq<string>, log: seq<Event>, sendOk: bool)
  {
    /** `sendall`: writes `data` verbatim, or fails and writes nothing. */
    function SendAll(data: string): (r: (Wire, bool))
    {
      if sendOk then (this.(log := log + [Sent(data)]), true) else (this, false)
    }

    /** `recv`: the next chunk, or the empty string once the peer has closed
        its side (end of stream). */
    function Recv(): (r: (Wire, string))
    {
      var chunk := if inbox == [] then "" else inbox[0];
      (this.(inbox := if inbox == [] then [] else inbox[1..], log := log + [Received(chunk)]), chunk)
    }

    /** `shutdown(SHUT_RDWR)`: afterwards sends fail and receives see end of
        stream. It never fails here, unlike a shutdown of a reset connection. */
    function Shutdown(): (r: Wire)
    {
      Wire([], log + [ShutDown], false)
    }

    /** `close`: releases the handle. */
    function Close(): (r: Wire)
    {
      this.(log := log + [Released], sendOk := false)
    }
  }

  /** Monotonic time in whole ticks. `delays` is the extra time, beyond the
      requested amount, that each successive sleep takes. */
  datatype Timer = Timer(now: nat, delays: seq<nat>)
  {
    function Sleep(d: nat): (r: Timer)
    {
      if delays == [] then Timer(now + d, [])
      else Timer(now + d + delays[0], delays[1..])
    }
  }

  /** Everything a polling read observes or changes. */
  datatype World = World(wire: Wire, timer: Timer)

  /** How many times a log records the handle being released. */
  function Releases(log: seq<Event>): (n: nat)
    ensures n <= |log|
  {
    if log == [] then 0 else Releases(log[..|log| - 1]) + (if log[|log| - 1] == Released then 1 else 0)
  }

  lemma {:induction false} ReleasesAppend(log: seq<Event>, more: seq<Event>)
    ensures Releases(log + more) == Releases(log) + Releases(more)
    decreases |more|
  {
    if more == [] {
      assert log + more == log;
    } else {
      var last := |more| - 1;
      assert (log + more)[..|log + more| - 1] == log + more[..last];
      assert (log + more)[|log + more| - 1] == more[last];
      ReleasesAppend(log, more[..last]);
      assert Releases(more) == Releases(more[..last]) + (if more[last] == Released then 1 else 0);
    }
  }

  /** The operating system's socket as the consoles see it. */
  class Socket {
    var inbox: seq<string>
    var log: seq<Event>
    var sendOk: bool

    function View(): (r: Wire)
      reads this
    {
      Wire(inbox, log, sendOk)
    }

    constructor (incoming: seq<string>, writable: bool)
      ensures View() == Wire(incoming, [], writable)
    {
      inbox, log, sendOk := incoming, [], writable;
    }

    method SendAll(data: string) returns (ok: bool)
      modifies this
      ensures (View(), ok) == old(View()).SendAll(data)
    {
      ok := sendOk;
      if ok {
        log := log + [Sent(data)];
      }
    }

    method Recv() returns (chunk: string)
      modifies this
      ensures (View(), chunk) == old(View()).Recv()
    {
      if inbox == [] {
        chunk := "";
      } else {
        chunk := inbox[0];
        inbox := inbox[1..];
      }
      log := log + [Received(chunk)];
    }

    method Shutdown()
      modifies this
      ensures View() == old(View()).Shutdown()
    {
      inbox, log, sendOk := [], log + [ShutDown], false;
    }

    method Close()
      modifies this
      ensures View() == old(View()).Close()
    {
      log, sendOk := log + [Released], false;
    }
  }

  /** `time.perf_counter` and `time.sleep`. */
  class Clock {
    var now: nat
    var delays: seq<nat>

    function View(): (r: Timer)
      reads this
    {
      Timer(now, delays)
    }

    constructor (start: nat, extra: seq<nat>)
      ensures View() == Timer(start, extra)
    {
      now, delays := start, extra;
    }

    method Now() returns (t: nat)
      ensures t == now
    {
      t := now;
    }

    method Sleep(d: nat)
      modifies this
      ensures View() == old(View()).Sleep(d)
    {
      if delays == [] {
        now := now + d;
      } else {
        now, delays := now + d + delays[0], delays[1..];
      }
    }
  }

  function WorldOf(conn: Socket, clock: Clock): (r: World)
    reads conn, clock
  {
    World(conn.View(), clock.View())
  }
}
