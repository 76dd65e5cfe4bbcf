/** `SocketConsoleServer`: the registry from peer address to console, its
    running flag and the sweep that evicts dead connections. The lock that
    serialises these operations is not modelled: each method runs as one step. */
module Registry {
  import opened Heartbeat
  import opened Transport
  import opened ServerConsole

  /** A handle after one sweep: it received a heartbeat if the probe write
      succeeded, and was shut down and released otherwise. */
  function Swept(w: Wire): (r: Wire)
  {
    if w.sendOk then w.SendAll(HEARTBEAT).0 else w.Shutdown().Close()
  }

  /** A sweep releases a handle exactly when its probe fails, and leaves the
      probe outcome as it was. In the model, where that outcome changes only by
      a local shutdown or close, a second sweep therefore evicts nothing more;
      a real peer that has gone away can make a later probe fail. */
  lemma SweptReleasesOnce(w: Wire)
    ensures Releases(Swept(w).log) == Releases(w.log) + (if w.sendOk then 0 else 1)
    ensures Swept(w).sendOk == w.sendOk
  {
    var more: seq<Event> := if w.sendOk then [Sent(HEARTBEAT)] else [ShutDown, Released];
    assert Swept(w).log == w.log + more;
    ReleasesAppend(w.log, more);
    assert more[..|more| - 1] == if w.sendOk then [] else [ShutDown];
    assert Releases([ShutDown]) == 0 by {
      assert [ShutDown][..0] == [];
    }
  }

  class SocketConsoleServer {
    const host: string
    const port: int
    var running: bool
    var consoles: map<Address, SocketConsole>

    /** Every console is registered under its own address, so no two entries
        share a console, and no two share a handle. */
    ghost predicate Valid()
      reads this
    {
      && (forall a :: a in consoles ==> consoles[a].address == a)
      && (forall a, b :: a in consoles && b in consoles && a != b ==> consoles[a].conn != consoles[b].conn)
    }

    /** The handles of the registered consoles. */
    ghost function Conns(): (r: set<Socket>)
      reads this
    {
      set a | a in consoles :: consoles[a].conn
    }

    /** The addresses a sweep evicts: those whose probe write would fail. */
    ghost function Dead(): (r: set<Address>)
      reads this, Conns()
    {
      set a | a in consoles && !consoles[a].conn.sendOk
    }

    constructor (host: string, port: int)
      ensures Valid()
      ensures this.host == host && this.port == port
      ensures !running && consoles == map[]
    {
      this.host, this.port := host, port;
      running := false;
      consoles := map[];
    }

    /** The address the server binds: its own host and port. */
    function ServerAddress(): (r: Address)
      ensures r.host == host && r.port == port
    {
      Address(host, port)
    }

    /** The console registered under `addr`, or a lookup error. */
    method GetConsole(addr: Address) returns (r: Outcome<SocketConsole>)
      requires Valid()
      ensures addr in consoles ==> r == Ok(consoles[addr]) && r.value.address == addr
      ensures addr !in consoles ==> r == Err(LookupError)
    {
      if addr in consoles {
        r := Ok(consoles[addr]);
      } else {
        r := Err(LookupError);
      }
    }

    /** A snapshot of the registered addresses, each once. */
    method GetKeys() returns (keys: seq<Address>)
      ensures forall a :: a in keys <==> a in consoles
      ensures forall i, j :: 0 <= i < j < |keys| ==> keys[i] != keys[j]
    {
      keys := [];
      var todo := consoles.Keys;
      while todo != {}
        invariant todo <= consoles.Keys
        invariant forall a :: a in keys <==> a in consoles && a !in todo
        invariant forall i, j :: 0 <= i < j < |keys| ==> keys[i] != keys[j]
        decreases todo
      {
        var a :| a in todo;
        keys := keys + [a];
        todo := todo - {a};
      }
    }

    /** Starts the server unless it is running; a second call only warns.
        The acceptor and cleaner tasks it starts are not modelled. */
    method Run() returns (warned: bool)
      modifies this
      ensures warned == old(running)
      ensures running && consoles == old(consoles)
    {
      if running {
        return true;
      }
      running := true;
      return false;
    }

    /** What the acceptor does with one accepted connection: wrap it in a new
        console and register it under the peer's address, replacing any console
        registered there before. This code does not close the replaced one; the
        finalizer that would, once it is unreferenced, is not modelled. The
        operating system hands out a handle no other registered console holds. */
    method Accept(addr: Address, conn: Socket)
      requires Valid()
      requires forall a :: a in consoles && a != addr ==> consoles[a].conn != conn
      modifies this
      ensures Valid() && running == old(running)
      ensures consoles.Keys == old(consoles.Keys) + {addr}
      ensures fresh(consoles[addr]) && consoles[addr].conn == conn
      ensures forall a :: a in old(consoles) && a != addr ==> consoles[a] == old(consoles[a])
    {
      var console := new SocketConsole(conn, addr);
      consoles := consoles[addr := console];
    }

    /** The first loop of the sweep: probe every console and close those whose
        probe fails. Returns the addresses of the closed ones, each once. */
    method ProbeAll() returns (removed: seq<Address>)
      requires Valid()
      modifies Conns()
      ensures forall a :: a in removed <==> a in old(Dead())
      ensures forall i, j :: 0 <= i < j < |removed| ==> removed[i] != removed[j]
      ensures forall a :: a in consoles ==> consoles[a].conn.View() == Swept(old(consoles[a].conn.View()))
    {
      removed := [];
      var todo := consoles.Keys;
      while todo != {}
        invariant todo <= consoles.Keys
        invariant forall a :: a in removed <==> a in consoles && a !in todo && !old(consoles[a].conn.sendOk)
        invariant forall i, j :: 0 <= i < j < |removed| ==> removed[i] != removed[j]
        invariant forall a :: a in consoles ==>
          consoles[a].conn.View() == if a in todo then old(consoles[a].conn.View()) else Swept(old(consoles[a].conn.View()))
        decreases todo
      {
        var a :| a in todo;
        var console := consoles[a];
        var ok := console.Alive();
        if !ok {
          console.Close();
          removed := removed + [a];
        }
        todo := todo - {a};
      }
    }

    /** The sweep: probe every console, close those whose probe fails, then
        remove them. Survivors keep their console and received one heartbeat;
        each evicted console was shut down and released exactly once. */
    method Clean()
      requires Valid()
      modifies this, Conns()
      ensures Valid() && running == old(running)
      ensures consoles == old(consoles) - old(Dead())
      ensures forall a :: a in old(consoles) ==>
        old(consoles)[a].conn.View() == Swept(old(consoles[a].conn.View()))
      ensures Dead() == {}
    {
      var removed := ProbeAll();
      var i := 0;
      while i < |removed|
        invariant 0 <= i <= |removed|
        invariant running == old(running)
        invariant consoles == old(consoles) - set j | 0 <= j < i :: removed[j]
        modifies this
        decreases |removed| - i
      {
        assert removed[i] in old(Dead());
        assert removed[i] !in set j | 0 <= j < i :: removed[j];
        assert removed[i] in consoles;
        consoles := consoles - {removed[i]};
        i := i + 1;
      }
      assert (set j | 0 <= j < |removed| :: removed[j]) == old(Dead());
    }

    /** Stops the server: clears the running flag, closes every console once
        and empties the registry. */
    method Close()
      requires Valid()
      modifies this, Conns()
      ensures !running && consoles == map[]
      ensures forall a :: a in old(consoles) ==>
        var c := old(consoles)[a].conn;
        c.log == old(c.log) + [ShutDown, Released] && !c.sendOk && c.inbox == []
    {
      running := false;
      var todo := consoles.Keys;
      while todo != {}
        invariant consoles == old(consoles) && !running
        invariant todo <= consoles.Keys
        invariant forall a :: a in consoles && a !in todo ==>
          var c := consoles[a].conn;
          c.log == old(c.log) + [ShutDown, Released] && !c.sendOk && c.inbox == []
        invariant forall a :: a in todo ==> consoles[a].conn.View() == old(consoles[a].conn.View())
        decreases todo
      {
        var a :| a in todo;
        consoles[a].Close();
        todo := todo - {a};
      }
      consoles := map[];
    }

    method Alive() returns (r: bool)
      ensures r == running
    {
      r := running;
    }
  }
}
