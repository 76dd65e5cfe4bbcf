/** The receiving side of the consoles: the polling loop of
    `SocketConsole.prompt`, the recursive re-read of `SocketConsoleClient.read`,
    their specifications as functions of the world they observe, and what is
    proved about them. Time is measured in ticks of the abstract `Clock`. */
module Polling {
  import opened Heartbeat
  import opened Transport

  /** What the caller gets back from a received message. */
  function Deliver(msg: string, deleteHeartbeat: bool): (r: string)
  {
    if deleteHeartbeat then Strip(msg) else msg
  }

  /** Time left before `timeout` ticks have elapsed since `start`. */
  function Budget(now: nat, start: int, timeout: int): (r: nat)
  {
    if now - start < timeout then timeout - (now - start) else 0
  }

  /** The events one receive appends to a log. */
  ghost predicate OnlyReceives(events: seq<Event>)
  {
    forall i :: 0 <= i < |events| ==> events[i].Received?
  }

  /** Every chunk the peer still has to deliver strips to nothing. */
  ghost predicate HeartbeatsOnly(inbox: seq<string>)
  {
    forall i :: 0 <= i < |inbox| ==> Strip(inbox[i]) == ""
  }

  /** The `while` loop of `prompt`, entered with `msg` just received and
      `start` read from the clock when the call began: while the message strips
      to nothing and `wait` is positive, sleep, receive again and give up once
      `timeout` ticks have elapsed. The message is returned raw. */
  function PollLoop(w: World, start: int, msg: string, wait: int, timeout: int): (r: (World, Outcome<string>))
    ensures w.timer.now <= r.0.timer.now
    ensures w.wire.log <= r.0.wire.log && OnlyReceives(r.0.wire.log[|w.wire.log|..])
    ensures r.0.wire.sendOk == w.wire.sendOk
    ensures wait <= 0 ==> r == (w, Ok(msg))
    ensures r.1.Ok? && wait > 0 ==> Strip(r.1.value) != ""
    ensures r.1.Ok? && r.0.wire.log != w.wire.log ==> r.0.wire.log[|r.0.wire.log| - 1] == Received(r.1.value)
    ensures r.1.Ok? && r.0.wire.log == w.wire.log ==> r.1.value == msg
    ensures r.1.Err? ==> r.1 == Err(TimeoutError) && w.wire.log < r.0.wire.log && timeout <= r.0.timer.now - start
    decreases Budget(w.timer.now, start, timeout)
  {
    if wait > 0 && Strip(msg) == "" then
      var timer := w.timer.Sleep(wait);
      var (wire, m) := w.wire.Recv();
      var w1 := World(wire, timer);
      if w1.timer.now - start >= timeout then (w1, Err(TimeoutError))
      else PollLoop(w1, start, m, wait, timeout)
    else (w, Ok(msg))
  }

  /** Receive once, then poll: the receiving half of `prompt`. */
  function PollingRead(w: World, wait: int, timeout: int, deleteHeartbeat: bool): (r: (World, Outcome<string>))
  {
    var (wire, chunk) := w.wire.Recv();
    var (w', o) := PollLoop(World(wire, w.timer), w.timer.now, chunk, wait, timeout);
    (w', if o.Ok? then Ok(Deliver(o.value, deleteHeartbeat)) else o)
  }

  /** `prompt`: send `msg` when it is not empty, then receive as `PollingRead`. */
  function PromptSpec(w: World, msg: string, wait: int, timeout: int, deleteHeartbeat: bool): (r: (World, Outcome<string>))
  {
    if msg == "" then PollingRead(w, wait, timeout, deleteHeartbeat)
    else
      var (wire, ok) := w.wire.SendAll(msg);
      if ok then PollingRead(World(wire, w.timer), wait, timeout, deleteHeartbeat)
      else (w, Err(TransportError))
  }

  /** One call of the client's `read` as written: read the clock, receive, then
      loop while the message strips to nothing, re-reading by a nested call.
      `frames` is how many nested calls Python's recursion limit still allows;
      a call with none left raises `RecursionError`. */
  function ReadCall(w: World, wait: int, timeout: int, deleteHeartbeat: bool, frames: nat): (r: (World, Outcome<string>))
    ensures w.timer.now <= r.0.timer.now
    ensures w.wire.log <= r.0.wire.log
    ensures r.0.wire.sendOk == w.wire.sendOk
    ensures r.1.Ok? && wait > 0 ==> if deleteHeartbeat then r.1.value != "" else Strip(r.1.value) != ""
    ensures r.1 == Err(TimeoutError) ==> timeout <= r.0.timer.now - w.timer.now
    decreases frames, 1, 0
  {
    if frames == 0 then (w, Err(RecursionError))
    else
      var (wire, chunk) := w.wire.Recv();
      ReadLoop(World(wire, w.timer), w.timer.now, chunk, wait, timeout, deleteHeartbeat, frames - 1)
  }

  /** The `while` loop of `read`; the nested call gets `inner` frames. */
  function ReadLoop(w: World, start: int, msg: string, wait: int, timeout: int, deleteHeartbeat: bool, inner: nat)
    : (r: (World, Outcome<string>))
    requires start <= w.timer.now
    ensures w.timer.now <= r.0.timer.now
    ensures w.wire.log <= r.0.wire.log
    ensures r.0.wire.sendOk == w.wire.sendOk
    ensures r.1.Ok? && wait > 0 ==> if deleteHeartbeat then r.1.value != "" else Strip(r.1.value) != ""
    ensures r.1 == Err(TimeoutError) ==> timeout <= r.0.timer.now - start
    decreases inner + 1, 0, Budget(w.timer.now, start, timeout)
  {
    if wait > 0 && Strip(msg) == "" then
      var w1 := World(w.wire, w.timer.Sleep(wait));
      var (w2, o) := ReadCall(w1, wait, timeout, deleteHeartbeat, inner);
      if o.Err? then (w2, o)
      else if w2.timer.now - start >= timeout then (w2, Err(TimeoutError))
      else ReadLoop(w2, start, o.value, wait, timeout, deleteHeartbeat, inner)
    else (w, Ok(Deliver(msg, deleteHeartbeat)))
  }

  /** The chunk the next receive returns. */
  function NextChunk(wire: Wire): (r: string)
  {
    if wire.inbox == [] then "" else wire.inbox[0]
  }

  // ---------------------------------------------------------------------
  // The polling loop of prompt

  /** Every message the loop received and then replaced was heartbeat-only:
      only the last one received is returned, or dropped by the timeout. */
  lemma {:induction false} PollDiscardsOnlyHeartbeats(w: World, start: int, msg: string, wait: int, timeout: int)
    ensures var r := PollLoop(w, start, msg, wait, timeout);
            var es := r.0.wire.log[|w.wire.log|..];
            (es != [] ==> Strip(msg) == "") &&
            forall i :: 0 <= i < |es| - 1 ==> Strip(es[i].data) == ""
    decreases Budget(w.timer.now, start, timeout)
  {
    if wait > 0 && Strip(msg) == "" {
      var (wire, m) := w.wire.Recv();
      var w1 := World(wire, w.timer.Sleep(wait));
      if w1.timer.now - start < timeout {
        PollDiscardsOnlyHeartbeats(w1, start, m, wait, timeout);
        var r := PollLoop(w1, start, m, wait, timeout);
        var es := r.0.wire.log[|w.wire.log|..];
        var es1 := r.0.wire.log[|w1.wire.log|..];
        assert es == [Received(m)] + es1;
        forall i | 0 <= i < |es| - 1 ensures Strip(es[i].data) == "" {
          if i > 0 {
            assert es[i] == es1[i - 1];
          }
        }
      }
    }
  }

  lemma {:induction false} PollTimesOutOnHeartbeats(w: World, start: int, msg: string, wait: int, timeout: int)
    requires wait > 0 && Strip(msg) == "" && HeartbeatsOnly(w.wire.inbox)
    ensures PollLoop(w, start, msg, wait, timeout).1 == Err(TimeoutError)
    decreases Budget(w.timer.now, start, timeout)
  {
    var (wire, m) := w.wire.Recv();
    var w1 := World(wire, w.timer.Sleep(wait));
    if w1.timer.now - start < timeout {
      assert Strip(m) == "" by {
        if w.wire.inbox != [] {
          assert m == w.wire.inbox[0];
        }
      }
      assert HeartbeatsOnly(wire.inbox) by {
        if w.wire.inbox != [] {
          forall i | 0 <= i < |wire.inbox| ensures Strip(wire.inbox[i]) == "" {
            assert wire.inbox[i] == w.wire.inbox[i + 1];
          }
        }
      }
      PollTimesOutOnHeartbeats(w1, start, m, wait, timeout);
    }
  }

  /** With no positive `wait` the read receives exactly once, returns that chunk
      (stripped when asked) and never times out. */
  lemma PollingReadNoWait(w: World, wait: int, timeout: int, deleteHeartbeat: bool)
    requires wait <= 0
    ensures var c := NextChunk(w.wire);
            PollingRead(w, wait, timeout, deleteHeartbeat)
              == (World(w.wire.Recv().0, w.timer), Ok(Deliver(c, deleteHeartbeat)))
            && w.wire.Recv().0.log == w.wire.log + [Received(c)]
  {
  }

  /** What a polling read with a positive `wait` can return: the last chunk it
      received, which strips to something, delivered raw or stripped; or a
      timeout, raised only after a re-read that found `timeout` ticks elapsed. */
  lemma PollingReadResult(w: World, wait: int, timeout: int, deleteHeartbeat: bool)
    requires wait > 0
    ensures var r := PollingRead(w, wait, timeout, deleteHeartbeat);
            var log := r.0.wire.log;
            && |w.wire.log| < |log|
            && OnlyReceives(log[|w.wire.log|..])
            && (r.1.Ok? ==>
                  && Strip(log[|log| - 1].data) != ""
                  && r.1.value == Deliver(log[|log| - 1].data, deleteHeartbeat))
            && (r.1.Err? ==>
                  && r.1 == Err(TimeoutError)
                  && |w.wire.log| + 2 <= |log|
                  && timeout <= r.0.timer.now - w.timer.now)
  {
    var (wire, chunk) := w.wire.Recv();
    var w0 := World(wire, w.timer);
    var (w', o) := PollLoop(w0, w.timer.now, chunk, wait, timeout);
    assert w'.wire.log[|w.wire.log|..] == [Received(chunk)] + w'.wire.log[|wire.log|..];
  }

  /** Every chunk the read received and did not return was heartbeat-only. */
  lemma PollingReadDiscardsOnlyHeartbeats(w: World, wait: int, timeout: int, deleteHeartbeat: bool)
    ensures var log := PollingRead(w, wait, timeout, deleteHeartbeat).0.wire.log;
            forall i :: |w.wire.log| <= i < |log| - 1 ==> Strip(log[i].data) == ""
  {
    var (wire, chunk) := w.wire.Recv();
    var w0 := World(wire, w.timer);
    PollDiscardsOnlyHeartbeats(w0, w.timer.now, chunk, wait, timeout);
    var log := PollLoop(w0, w.timer.now, chunk, wait, timeout).0.wire.log;
    forall i | |w.wire.log| <= i < |log| - 1 ensures Strip(log[i].data) == "" {
      if i > |w.wire.log| {
        assert log[i] == log[|wire.log|..][i - |wire.log|];
      }
    }
  }

  /** While the peer sends nothing but heartbeats, a polling read with a
      positive `wait` ends in a timeout. */
  lemma PollingReadTimesOutOnHeartbeats(w: World, wait: int, timeout: int, deleteHeartbeat: bool)
    requires wait > 0 && HeartbeatsOnly(w.wire.inbox)
    ensures PollingRead(w, wait, timeout, deleteHeartbeat).1 == Err(TimeoutError)
  {
    var (wire, chunk) := w.wire.Recv();
    if w.wire.inbox != [] {
      assert chunk == w.wire.inbox[0];
      forall i | 0 <= i < |wire.inbox| ensures Strip(wire.inbox[i]) == "" {
        assert wire.inbox[i] == w.wire.inbox[i + 1];
      }
    }
    PollTimesOutOnHeartbeats(World(wire, w.timer), w.timer.now, chunk, wait, timeout);
  }

  /** `prompt` writes `msg` before receiving exactly when it is not empty; a
      failed write raises and nothing is received. */
  lemma PromptSendsFirst(w: World, msg: string, wait: int, timeout: int, deleteHeartbeat: bool)
    ensures var r := PromptSpec(w, msg, wait, timeout, deleteHeartbeat);
            && (msg == "" ==> r == PollingRead(w, wait, timeout, deleteHeartbeat)
                              && OnlyReceives(r.0.wire.log[|w.wire.log|..]))
            && (msg != "" && w.wire.sendOk ==>
                  && |w.wire.log| < |r.0.wire.log|
                  && r.0.wire.log[|w.wire.log|] == Sent(msg)
                  && OnlyReceives(r.0.wire.log[|w.wire.log| + 1..]))
            && (msg != "" && !w.wire.sendOk ==> r == (w, Err(TransportError)))
  {
    if msg == "" {
      if wait <= 0 {
        PollingReadNoWait(w, wait, timeout, deleteHeartbeat);
      } else {
        PollingReadResult(w, wait, timeout, deleteHeartbeat);
      }
    } else if w.wire.sendOk {
      var w1 := World(w.wire.SendAll(msg).0, w.timer);
      var log := PromptSpec(w, msg, wait, timeout, deleteHeartbeat).0.wire.log;
      if wait <= 0 {
        PollingReadNoWait(w1, wait, timeout, deleteHeartbeat);
      } else {
        PollingReadResult(w1, wait, timeout, deleteHeartbeat);
      }
      assert log[|w.wire.log| + 1..] == log[|w1.wire.log|..];
    }
  }

  /** The `while` loop of `prompt` run on a handle and a clock. */
  method Poll(conn: Socket, clock: Clock, start: int, msg: string, wait: int, timeout: int) returns (r: Outcome<string>)
    modifies conn, clock
    ensures (WorldOf(conn, clock), r) == PollLoop(old(WorldOf(conn, clock)), start, msg, wait, timeout)
  {
    var rmsg := msg;
    while wait > 0 && Strip(rmsg) == ""
      invariant PollLoop(WorldOf(conn, clock), start, rmsg, wait, timeout)
                == PollLoop(old(WorldOf(conn, clock)), start, msg, wait, timeout)
      decreases Budget(clock.now, start, timeout)
    {
      clock.Sleep(wait);
      rmsg := conn.Recv();
      var now := clock.Now();
      if now - start >= timeout {
        return Err(TimeoutError);
      }
    }
    return Ok(rmsg);
  }

  // ---------------------------------------------------------------------
  // The client's read, as written

  /** With no positive `wait`, `read` receives exactly once and returns that chunk. */
  lemma ReadNoWait(w: World, wait: int, timeout: int, deleteHeartbeat: bool, frames: nat)
    requires wait <= 0 && frames > 0
    ensures ReadCall(w, wait, timeout, deleteHeartbeat, frames)
              == (World(w.wire.Recv().0, w.timer), Ok(Deliver(NextChunk(w.wire), deleteHeartbeat)))
  {
  }

  /** While the peer sends nothing but heartbeats, `read` with a positive `wait`
      never raises `TimeoutError`, whatever `timeout` is: it nests one call per
      chunk until the recursion limit is reached. */
  lemma {:induction false} ReadIgnoresTimeoutOnHeartbeats(w: World, wait: int, timeout: int, deleteHeartbeat: bool, frames: nat)
    requires wait > 0 && HeartbeatsOnly(w.wire.inbox)
    ensures ReadCall(w, wait, timeout, deleteHeartbeat, frames).1 == Err(RecursionError)
    decreases frames
  {
    if frames > 0 {
      var (wire, chunk) := w.wire.Recv();
      if w.wire.inbox != [] {
        assert chunk == w.wire.inbox[0];
        forall i | 0 <= i < |wire.inbox| ensures Strip(wire.inbox[i]) == "" {
          assert wire.inbox[i] == w.wire.inbox[i + 1];
        }
      }
      var w1 := World(wire, w.timer.Sleep(wait));
      ReadIgnoresTimeoutOnHeartbeats(w1, wait, timeout, deleteHeartbeat, frames - 1);
    }
  }

  /** `t` is `s` after between `lo` and `hi` passes of `Strip`. */
  ghost predicate StrippedBetween(t: string, s: string, lo: nat, hi: nat)
  {
    exists k {:trigger StripN(k, s)} :: lo <= k <= hi && t == StripN(k, s)
  }

  /** `log` extends `before` and ends with a receive whose chunk, raw or
      stripped `lo` to `hi` times as `deleteHeartbeat` asks, is `value`. */
  ghost predicate ReturnsLastReceived(before: seq<Event>, log: seq<Event>, value: string, deleteHeartbeat: bool, lo: nat, hi: nat)
  {
    && |before| < |log|
    && log[|log| - 1].Received?
    && (!deleteHeartbeat ==> value == log[|log| - 1].data)
    && (deleteHeartbeat ==> StrippedBetween(value, log[|log| - 1].data, lo, hi))
  }

  /** What `read` returns: the last chunk it received, raw when
      `deleteHeartbeat` is false, and otherwise stripped once per nesting level
      it passed through, between one and `frames` times. */
  lemma {:induction false} ReadCallValue(w: World, wait: int, timeout: int, deleteHeartbeat: bool, frames: nat)
    ensures var r := ReadCall(w, wait, timeout, deleteHeartbeat, frames);
            r.1.Ok? ==> ReturnsLastReceived(w.wire.log, r.0.wire.log, r.1.value, deleteHeartbeat, 1, frames)
    decreases frames, 1, 0
  {
    if frames > 0 {
      var (wire, chunk) := w.wire.Recv();
      var w0 := World(wire, w.timer);
      ReadLoopValue(w0, w.timer.now, chunk, wait, timeout, deleteHeartbeat, frames - 1);
      var r := ReadLoop(w0, w.timer.now, chunk, wait, timeout, deleteHeartbeat, frames - 1);
      if r.1.Ok? && r.0.wire.log == wire.log && deleteHeartbeat {
        assert r.1.value == StripN(1, chunk);
      }
    }
  }

  /** What `read`'s loop returns: the message it was entered with, delivered,
      when it receives nothing more; otherwise the last chunk received, raw or
      stripped at least twice (by a nested call and again by this one). */
  lemma {:induction false} ReadLoopValue(w: World, start: int, msg: string, wait: int, timeout: int, deleteHeartbeat: bool, inner: nat)
    requires start <= w.timer.now
    ensures var r := ReadLoop(w, start, msg, wait, timeout, deleteHeartbeat, inner);
            r.1.Ok? ==>
              || (r.0.wire.log == w.wire.log && r.1.value == Deliver(msg, deleteHeartbeat))
              || ReturnsLastReceived(w.wire.log, r.0.wire.log, r.1.value, deleteHeartbeat, 2, inner + 1)
    decreases inner + 1, 0, Budget(w.timer.now, start, timeout)
  {
    if wait > 0 && Strip(msg) == "" {
      var w1 := World(w.wire, w.timer.Sleep(wait));
      var (w2, o) := ReadCall(w1, wait, timeout, deleteHeartbeat, inner);
      ReadCallValue(w1, wait, timeout, deleteHeartbeat, inner);
      if o.Ok? && w2.timer.now - start < timeout {
        ReadLoopValue(w2, start, o.value, wait, timeout, deleteHeartbeat, inner);
        var r := ReadLoop(w2, start, o.value, wait, timeout, deleteHeartbeat, inner);
        assert ReadLoop(w, start, msg, wait, timeout, deleteHeartbeat, inner) == r;
        if r.1.Ok? {
          if r.0.wire.log == w2.wire.log {
            if deleteHeartbeat {
              var v := w2.wire.log[|w2.wire.log| - 1].data;
              var k :| 1 <= k <= inner && o.value == StripN(k, v);
              assert r.1.value == StripN(k + 1, v);
            }
          } else {
            assert |w.wire.log| <= |w2.wire.log|;
          }
        }
      }
    }
  }

  /** `read` throws away a received chunk `m` that has content but whose
      stripped text is itself heartbeat-only: the nested call returns `m`
      stripped once, the outer loop strips that again to nothing and re-reads,
      so the next chunk `x` is returned, stripped twice. On the same stream
      prompt's loop returns `m`, stripped once. */
  lemma ReadDropsStrippedToMarker(a: string, m: string, x: string, log: seq<Event>, now: nat, timeout: int, frames: nat)
    requires Strip(a) == "" && Strip(m) != "" && Strip(Strip(m)) == "" && Strip(Strip(x)) != ""
    requires timeout > 2 && frames >= 2
    ensures var w := World(Wire([a, m, x], log, true), Timer(now, []));
            && ReadCall(w, 1, timeout, true, frames)
                 == (World(Wire([], log + [Received(a), Received(m), Received(x)], true), Timer(now + 2, [])), Ok(Strip(Strip(x))))
            && PollingRead(w, 1, timeout, true)
                 == (World(Wire([x], log + [Received(a), Received(m)], true), Timer(now + 1, [])), Ok(Strip(m)))
  {
    var wireA := Wire([m, x], log + [Received(a)], true);
    var wireB := Wire([x], log + [Received(a), Received(m)], true);
    var wireC := Wire([], log + [Received(a), Received(m), Received(x)], true);
    var t0, t1, t2 := Timer(now, []), Timer(now + 1, []), Timer(now + 2, []);
    assert Wire([a, m, x], log, true).Recv() == (wireA, a);
    assert wireA.Recv() == (wireB, m) by {
      assert [m, x][1..] == [x];
      assert wireA.log + [Received(m)] == wireB.log;
    }
    assert wireB.Recv() == (wireC, x) by {
      assert wireB.log + [Received(x)] == wireC.log;
    }
    var inner := frames - 1;
    // the nested call that receives `m` returns it stripped once
    assert ReadCall(World(wireA, t1), 1, timeout, true, inner) == (World(wireB, t1), Ok(Strip(m)));
    // the nested call that receives `x`
    assert ReadCall(World(wireB, t2), 1, timeout, true, inner) == (World(wireC, t2), Ok(Strip(x)));
    // the outer loop strips `Strip(m)` to nothing and re-reads
    assert ReadLoop(World(wireC, t2), now, Strip(x), 1, timeout, true, inner) == (World(wireC, t2), Ok(Strip(Strip(x))));
    assert ReadLoop(World(wireB, t1), now, Strip(m), 1, timeout, true, inner) == (World(wireC, t2), Ok(Strip(Strip(x))));
    assert ReadLoop(World(wireA, t0), now, a, 1, timeout, true, inner) == (World(wireC, t2), Ok(Strip(Strip(x))));
    // prompt's loop returns `m` raw after one re-read
    assert PollLoop(World(wireA, t0), now, a, 1, timeout) == (World(wireB, t1), Ok(m));
  }

  /** A concrete stream: `read` drops `"__H__HB__B__"` and returns `"x"`. */
  lemma ReadDropsContent()
    ensures var w := World(Wire(["__HB__", "__H__HB__B__", "x"], [], true), Timer(0, []));
            var r := ReadCall(w, 1, 100, true, 2);
            && Strip("__H__HB__B__") != ""
            && r.0.wire.log == [Received("__HB__"), Received("__H__HB__B__"), Received("x")]
            && r.1 == Ok("x")
            && PollingRead(w, 1, 100, true).1 == Ok(HEARTBEAT)
  {
    StripCanLeaveMarker();
    StripBeats(1);
    assert Beats(1) == HEARTBEAT;
    assert Strip("x") == "x";
    assert Strip(Strip("x")) == "x";
    ReadDropsStrippedToMarker("__HB__", "__H__HB__B__", "x", [], 0, 100, 2);
  }

  /** Some chunk received between two states of a log strips to something. */
  ghost predicate SawContent(before: seq<Event>, after: seq<Event>)
  {
    exists i :: |before| <= i < |after| && after[i].Received? && Strip(after[i].data) != ""
  }

  lemma SawContentExtends(before: seq<Event>, mid: seq<Event>, after: seq<Event>)
    requires SawContent(before, mid) && mid <= after
    ensures SawContent(before, after)
  {
    var i :| |before| <= i < |mid| && mid[i].Received? && Strip(mid[i].data) != "";
    assert after[i] == mid[i];
  }

  /** `read` raises `TimeoutError`, or returns with a positive `wait`, only
      after it has received a chunk that is not heartbeat-only: the timeout is
      checked only once a nested call has returned. */
  lemma {:induction false} ReadTimeoutNeedsContent(w: World, wait: int, timeout: int, deleteHeartbeat: bool, frames: nat)
    ensures var r := ReadCall(w, wait, timeout, deleteHeartbeat, frames);
            r.1 == Err(TimeoutError) || (r.1.Ok? && wait > 0) ==> SawContent(w.wire.log, r.0.wire.log)
    decreases frames, 1
  {
    if frames > 0 {
      var (wire, chunk) := w.wire.Recv();
      var w0 := World(wire, w.timer);
      ReadLoopNeedsContent(w0, w.timer.now, chunk, wait, timeout, deleteHeartbeat, frames - 1);
      var r := ReadLoop(w0, w.timer.now, chunk, wait, timeout, deleteHeartbeat, frames - 1);
      if (r.1 == Err(TimeoutError) || (r.1.Ok? && wait > 0)) && Strip(chunk) != "" {
        assert r.0.wire.log[|w.wire.log|] == wire.log[|w.wire.log|] == Received(chunk);
      }
      if SawContent(wire.log, r.0.wire.log) {
        var i :| |wire.log| <= i < |r.0.wire.log| && r.0.wire.log[i].Received? && Strip(r.0.wire.log[i].data) != "";
        assert |w.wire.log| <= i;
      }
    }
  }

  lemma {:induction false} ReadLoopNeedsContent(w: World, start: int, msg: string, wait: int, timeout: int, deleteHeartbeat: bool, inner: nat)
    requires start <= w.timer.now
    ensures var r := ReadLoop(w, start, msg, wait, timeout, deleteHeartbeat, inner);
            r.1 == Err(TimeoutError) || (r.1.Ok? && wait > 0) ==> SawContent(w.wire.log, r.0.wire.log) || Strip(msg) != ""
    decreases inner + 1, 0, Budget(w.timer.now, start, timeout)
  {
    if wait > 0 && Strip(msg) == "" {
      var w1 := World(w.wire, w.timer.Sleep(wait));
      var (w2, o) := ReadCall(w1, wait, timeout, deleteHeartbeat, inner);
      ReadTimeoutNeedsContent(w1, wait, timeout, deleteHeartbeat, inner);
      if o.Ok? && w2.timer.now - start < timeout {
        ReadLoopNeedsContent(w2, start, o.value, wait, timeout, deleteHeartbeat, inner);
        var r := ReadLoop(w2, start, o.value, wait, timeout, deleteHeartbeat, inner);
        SawContentExtends(w.wire.log, w2.wire.log, r.0.wire.log);
      }
    }
  }
}
