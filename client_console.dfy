/** `SocketConsoleClient`: the client side of one connection. */
module ClientConsole {
  import opened Heartbeat
  import opened Transport
  import opened Polling

  class SocketConsoleClient {
    /** The connected handle; no other client holds it. */
    const conn: Socket

    constructor (conn: Socket)
      ensures this.conn == conn
    {
      this.conn := conn;
    }

    /** `read` as written: receive once; with a positive `wait`, while the
        message strips to nothing, sleep and re-read by calling `read` again,
        whose own timer starts afresh, and check this call's timer only after
        that nested call has returned. `frames` is how many nested calls
        Python's recursion limit still allows. */
    method Read(wait: int, timeout: int, deleteHeartbeat: bool, clock: Clock, frames: nat) returns (r: Outcome<string>)
      modifies conn, clock
      ensures (WorldOf(conn, clock), r) == ReadCall(old(WorldOf(conn, clock)), wait, timeout, deleteHeartbeat, frames)
      decreases frames
    {
      if frames == 0 {
        return Err(RecursionError);
      }
      var start := clock.Now();
      var msg := conn.Recv();
      while wait > 0 && Strip(msg) == ""
        invariant start <= clock.now
        invariant ReadLoop(WorldOf(conn, clock), start, msg, wait, timeout, deleteHeartbeat, frames - 1)
                  == ReadCall(old(WorldOf(conn, clock)), wait, timeout, deleteHeartbeat, frames)
        decreases Budget(clock.now, start, timeout)
      {
        clock.Sleep(wait);
        var inner := Read(wait, timeout, deleteHeartbeat, clock, frames - 1);
        if inner.Err? {
          return inner;
        }
        msg := inner.value;
        var now := clock.Now();
        if now - start >= timeout {
          return Err(TimeoutError);
        }
      }
      return Ok(Deliver(msg, deleteHeartbeat));
    }

    /** `read` as evidently intended: receive again in a loop, as `prompt`
        does, so that the timeout is checked after every re-read. */
    method ReadPolling(wait: int, timeout: int, deleteHeartbeat: bool, clock: Clock) returns (r: Outcome<string>)
      modifies conn, clock
      ensures (WorldOf(conn, clock), r) == PollingRead(old(WorldOf(conn, clock)), wait, timeout, deleteHeartbeat)
    {
      var start := clock.Now();
      var msg := conn.Recv();
      r := Poll(conn, clock, start, msg, wait, timeout);
      if r.Ok? {
        r := Ok(Deliver(r.value, deleteHeartbeat));
      }
    }

    /** Writes `msg` verbatim; a failed write raises. */
    method Write(msg: string) returns (r: Outcome<()>)
      modifies conn
      ensures r == if old(conn.sendOk) then Ok(()) else Err(TransportError)
      ensures conn.log == old(conn.log) + (if old(conn.sendOk) then [Sent(msg)] else [])
      ensures conn.inbox == old(conn.inbox) && conn.sendOk == old(conn.sendOk)
    {
      var ok := conn.SendAll(msg);
      r := if ok then Ok(()) else Err(TransportError);
    }

    /** The liveness probe: writes the marker and reports whether the write succeeded. */
    method Alive() returns (ok: bool)
      modifies conn
      ensures ok == old(conn.sendOk)
      ensures conn.log == old(conn.log) + (if ok then [Sent(HEARTBEAT)] else [])
      ensures conn.inbox == old(conn.inbox) && conn.sendOk == old(conn.sendOk)
    {
      ok := conn.SendAll(HEARTBEAT);
    }

    /** Shuts both directions down, then releases the handle. */
    method Close()
      modifies conn
      ensures conn.log == old(conn.log) + [ShutDown, Released]
      ensures conn.inbox == [] && !conn.sendOk
    {
      conn.Shutdown();
      conn.Close();
    }
  }
}
