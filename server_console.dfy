/** `SocketConsole`: the server side of one accepted connection. */
module ServerConsole {
  import opened Heartbeat
  import opened Transport
  import opened Polling

  class SocketConsole {
    /** The accepted connection; no other console holds it. */
    const conn: Socket
    const address: Address

    constructor (conn: Socket, address: Address)
      ensures this.conn == conn && this.address == address
    {
      this.conn := conn;
      this.address := address;
    }

    /** Writes `msg` verbatim; a failed write raises. */
    method Echo(msg: string) returns (r: Outcome<()>)
      modifies conn
      ensures r == if old(conn.sendOk) then Ok(()) else Err(TransportError)
      ensures conn.log == old(conn.log) + (if old(conn.sendOk) then [Sent(msg)] else [])
      ensures conn.inbox == old(conn.inbox) && conn.sendOk == old(conn.sendOk)
    {
      var ok := conn.SendAll(msg);
      r := if ok then Ok(()) else Err(TransportError);
    }

    /** Writes `msg` when it is not empty, then receives; with a positive
        `wait` it keeps re-reading while the reply strips to nothing, until
        `timeout` ticks have elapsed since the call began. */
    method Prompt(msg: string, wait: int, timeout: int, deleteHeartbeat: bool, clock: Clock) returns (r: Outcome<string>)
      modifies conn, clock
      ensures (WorldOf(conn, clock), r) == PromptSpec(old(WorldOf(conn, clock)), msg, wait, timeout, deleteHeartbeat)
    {
      var start := clock.Now();
      if msg != "" {
        var ok := conn.SendAll(msg);
        if !ok {
          return Err(TransportError);
        }
      }
      var rmsg := conn.Recv();
      r := Poll(conn, clock, start, rmsg, wait, timeout);
      if r.Ok? {
        r := Ok(Deliver(r.value, deleteHeartbeat));
      }
    }

    /** The liveness probe: writes the marker and reports whether the write
        succeeded. It is itself a write on the wire. */
    method Alive() returns (ok: bool)
      modifies conn
      ensures ok == old(conn.sendOk)
      ensures conn.log == old(conn.log) + (if ok then [Sent(HEARTBEAT)] else [])
      ensures conn.inbox == old(conn.inbox) && conn.sendOk == old(conn.sendOk)
    {
      ok := conn.SendAll(HEARTBEAT);
    }

    /** Shuts both directions down, then releases the handle. */
    method Close()
      modifies conn
      ensures conn.log == old(conn.log) + [ShutDown, Released]
      ensures conn.inbox == [] && !conn.sendOk
    {
      conn.Shutdown();
      conn.Close();
    }
  }
}
