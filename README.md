# SockeSole in Dafny

SockeSole turns each TCP connection into an interactive console. A server
(`SocketConsoleServer`) accepts connections and keeps a registry from the peer
address to a `SocketConsole`. Through that console the application can push text
to the peer (`echo`) or send text and wait for a reply (`prompt`). A periodic sweep
(`clean`) probes every console by writing the heartbeat marker `__HB__`. It closes
and evicts each console whose probe write fails. The client
(`SocketConsoleClient`) offers `read`, `write`, `alive` and `close`.

This project models that core and proves its properties:

- `heartbeat.dfy` (module `Heartbeat`) holds the marker and `Strip`. `Strip` is
  the single left-to-right pass of Python's `str.replace(HEARTBEAT, '')`. The
  module proves three facts about it. A chunk strips to nothing exactly when it
  is made of whole markers. Stripping changes a chunk exactly when the chunk
  contains the marker. One pass can leave a marker behind, so stripping is not
  idempotent.
- `transport.dfy` (module `Transport`) defines addresses, the exceptions as a
  `Failure` datatype, and an `Outcome` that is a value or a raised failure. The
  socket is a `Socket` object. Its `inbox` holds the chunks the peer will deliver,
  one per `recv`; once the inbox is empty, `recv` returns `""` (end of stream). Its
  `log` records every call made on it: `Sent`, `Received`, `ShutDown`, `Released`.
  Its `sendOk` says whether `sendall` succeeds. `time` is a `Clock` that counts
  whole ticks: `Sleep(d)` advances it by `d` plus an extra delay taken from a
  given sequence, so its readings never decrease. The value types `Wire`, `Timer`
  and `World` are the same state as plain values.
- `polling.dfy` (module `Polling`) gives the receiving side as functions of the
  world it observes. `PollLoop` is prompt's `while` loop. `PollingRead` is one
  receive followed by that loop, and `PromptSpec` is the optional write followed
  by `PollingRead`. `ReadCall` and `ReadLoop` are the client's `read` as written:
  it re-reads by calling itself, and the nested call starts its own timer. The
  module holds the lemmas about these functions and the loop method `Poll`.
- `server_console.dfy`, `registry.dfy` and `client_console.dfy` hold the three
  classes. Each method is proved against the functions above or states its new
  state outright.

The registry's invariant (`Valid`) says that every console is registered under
its own address. No two entries share a console or a handle. `Clean` leaves
exactly the consoles whose probe succeeded, unchanged. Each evicted handle is
shut down and released exactly once (`SweptReleasesOnce`). In the model,
whether a write succeeds changes only through a local shutdown or close, and
`Shutdown` and `Close` never fail. So a second sweep finds nothing more to
evict. A real connection behaves differently. A heartbeat written to a peer
that has gone away may succeed and draw a reset, so a later probe can fail.
Closing that console can then raise, which the model does not capture (see
"Left out"). Each method is modelled as one atomic
step; the two places where the program does not hold the lock throughout are
listed under "Left out".

Behaviour of the code as written that the model keeps:

- Accepting a connection from an address that is already registered replaces
  the old console, and the registration code does not close it. Its finalizer
  `__del__` (left out) closes it once nothing else refers to it.
- When `prompt` times out, the chunk received by that last re-read is dropped,
  even when it has content.
- `read` with `delete_heartbeat` returns the last chunk it received, stripped
  once for every level of nesting it passed through (`ReadCallValue`). Each
  level tests the text it got back from the nested call again, so a chunk with
  content whose stripped text is itself a marker is thrown away
  (`ReadDropsStrippedToMarker`). For example, `"__H__HB__B__"` becomes
  `"__HB__"` in the nested call and then counts as empty in the outer one.
- `ServerConsole.SocketConsole.Close` and the client's `Close` record `shutdown`
  followed by `close` on every call. What a second close of the same handle
  would raise is not modelled.

## Model

| member | source | states |
|---|---|---|
| `Heartbeat.Strip` | sockesole/__init__.py:184 | one pass removes whole markers only: the result is no longer than the input and the difference is a multiple of the marker's length |
| `Heartbeat.StripEmptyIff` | sockesole/__init__.py:176-179 | a received chunk counts as empty in the loop test exactly when it is a run of whole heartbeat markers |
| `Heartbeat.StripUnchangedIff` | sockesole/__init__.py:184 | stripping leaves a chunk unchanged exactly when the chunk does not contain the marker |
| `Heartbeat.StripCanLeaveMarker` | sockesole/__init__.py:184 | `"__H__HB__B__"` strips to `"__HB__"`, which still contains the marker, so one pass does not remove every marker |
| `Polling.PollLoop` | sockesole/__init__.py:176-183 | the loop only receives and never turns the clock back; with `wait <= 0` it returns the message at once; with `wait > 0` a returned message strips to something and is the last chunk received; it fails only with a timeout, after at least one re-read, once `timeout` ticks have elapsed since the start |
| `Polling.Poll` | sockesole/__init__.py:176-183 | the loop method leaves the handle, the clock and the result exactly as `PollLoop` says |
| `Polling.PollDiscardsOnlyHeartbeats` | sockesole/__init__.py:176-183 | every message the loop received and then replaced by a re-read was heartbeat-only |
| `Polling.PollingReadNoWait` | sockesole/__init__.py:175-184 | with `wait <= 0` exactly one receive happens, no timeout is raised, and the chunk is returned stripped or raw as `delete_heartbeat` asks |
| `Polling.PollingReadResult` | sockesole/__init__.py:175-184 | with `wait > 0` a returned value is the last received chunk, which strips to something, returned stripped or raw; a timeout comes only after at least two receives, once `timeout` ticks have elapsed since the call began |
| `Polling.PollingReadDiscardsOnlyHeartbeats` | sockesole/__init__.py:175-183 | no chunk with content is received and thrown away except the last one |
| `Polling.PollingReadTimesOutOnHeartbeats` | sockesole/__init__.py:176-183 | while the peer sends nothing but heartbeats, or has closed, a read with `wait > 0` ends in `TimeoutError` |
| `Polling.PromptSendsFirst` | sockesole/__init__.py:169-175 | `prompt` writes `msg` before receiving exactly when `msg` is not empty and otherwise writes nothing; a failed write raises before anything is received |
| `Polling.ReadCall` | sockesole/__init__.py:396-406 | a call of `read` never turns the clock back and only extends the log; with `wait > 0` a returned value is non-empty (stripped) or strips to something (raw); `TimeoutError` comes only once `timeout` ticks have elapsed since the call began |
| `Polling.ReadLoop` | sockesole/__init__.py:398-406 | the same facts for `read`'s loop, measured from the enclosing call's start |
| `Polling.ReadNoWait` | sockesole/__init__.py:396-406 | with `wait <= 0` `read` receives exactly once and returns that chunk, stripped or raw |
| `Polling.ReadCallValue` | sockesole/__init__.py:396-406 | a value `read` returns is the last chunk it received: raw without `delete_heartbeat`, and with it stripped once per nesting level, between one and `frames` times |
| `Polling.ReadLoopValue` | sockesole/__init__.py:398-406 | `read`'s loop returns the message it entered with, delivered, when it receives nothing more; otherwise the last chunk received, raw or stripped at least twice |
| `Polling.ReadDropsStrippedToMarker` | sockesole/__init__.py:398-406 | on a stream of a heartbeat-only chunk, a chunk `m` with content whose stripped text strips to nothing, and a chunk `x`, `read` receives all three and returns `x` stripped twice, while prompt's loop returns `m` stripped once |
| `Polling.ReadDropsContent` | sockesole/__init__.py:398-406 | on the stream `"__HB__"`, `"__H__HB__B__"`, `"x"`, `read` returns `"x"` and prompt's loop returns `"__HB__"` |
| `Polling.ReadIgnoresTimeoutOnHeartbeats` | sockesole/__init__.py:398-405 | while the peer sends nothing but heartbeats, `read` with `wait > 0` never raises `TimeoutError`, whatever the timeout; it nests until the recursion limit raises `RecursionError` |
| `Polling.ReadTimeoutNeedsContent` | sockesole/__init__.py:398-405 | `read` raises `TimeoutError`, or returns with `wait > 0`, only after receiving some chunk that is not heartbeat-only |
| `ServerConsole.SocketConsole.constructor` | sockesole/__init__.py:127-137 | a console holds the accepted handle and the peer's address |
| `ServerConsole.SocketConsole.Echo` | sockesole/__init__.py:139-146 | writes `msg` verbatim as one `sendall`; if the write fails, the failure is raised and nothing is written |
| `ServerConsole.SocketConsole.Prompt` | sockesole/__init__.py:148-184 | the handle, clock and result end exactly as `PromptSpec` gives; its properties are the `Polling` lemmas above |
| `ServerConsole.SocketConsole.Alive` | sockesole/__init__.py:186-197 | writes exactly the heartbeat marker and returns false exactly when that write fails |
| `ServerConsole.SocketConsole.Close` | sockesole/__init__.py:199-204 | shuts both directions down, then releases the handle; in the model, writes then fail and receives see end of stream (Python's `recv` raises instead) |
| `Registry.SweptReleasesOnce` | sockesole/__init__.py:299-306 | one sweep releases a handle exactly once if its probe fails and never if it succeeds, and leaves the probe outcome unchanged |
| `Registry.SocketConsoleServer.constructor` | sockesole/__init__.py:212-233 | a new server is not running and has an empty registry |
| `Registry.SocketConsoleServer.ServerAddress` | sockesole/__init__.py:235-237 | the server's address is the host and port it was constructed with |
| `Registry.SocketConsoleServer.GetConsole` | sockesole/__init__.py:239-249 | returns the console registered under `addr`, whose address is `addr`, and raises a lookup error when `addr` is absent |
| `Registry.SocketConsoleServer.GetKeys` | sockesole/__init__.py:251-258 | returns exactly the registered addresses, each once |
| `Registry.SocketConsoleServer.Run` | sockesole/__init__.py:260-271 | a call while running only warns and changes nothing; otherwise it sets the running flag; the registry is untouched |
| `Registry.SocketConsoleServer.Accept` | sockesole/__init__.py:284-290 | registers a new console for the accepted handle under the peer's address, replacing any earlier entry for that address and leaving all other entries unchanged; the invariant is kept |
| `Registry.SocketConsoleServer.ProbeAll` | sockesole/__init__.py:297-303 | probes every console once and closes exactly those whose probe fails, collecting their addresses once each |
| `Registry.SocketConsoleServer.Clean` | sockesole/__init__.py:294-306 | removes exactly the addresses whose probe failed in this sweep; survivors keep the same console and got one heartbeat; each removed handle was shut down and released; no registered console is then dead |
| `Registry.SocketConsoleServer.Close` | sockesole/__init__.py:315-323 | clears the running flag, shuts down and releases every registered console exactly once, and empties the registry |
| `Registry.SocketConsoleServer.Alive` | sockesole/__init__.py:325-332 | reports the running flag |
| `ClientConsole.SocketConsoleClient.constructor` | sockesole/__init__.py:346-355 | a client holds the connected handle |
| `ClientConsole.SocketConsoleClient.Read` | sockesole/__init__.py:377-406 | the handle, clock and result end exactly as `ReadCall` gives, including the nested re-read and its own timer |
| `ClientConsole.SocketConsoleClient.ReadPolling` | sockesole/__init__.py:377-406 | `read` with a re-receiving loop and a timeout check after every re-read, as `PollingRead` gives |
| `ClientConsole.SocketConsoleClient.Write` | sockesole/__init__.py:408-414 | writes `msg` verbatim; if the write fails, the failure is raised and nothing is written |
| `ClientConsole.SocketConsoleClient.Alive` | sockesole/__init__.py:416-427 | writes exactly the heartbeat marker and returns false exactly when that write fails |
| `ClientConsole.SocketConsoleClient.Close` | sockesole/__init__.py:429-434 | shuts both directions down, then releases the handle |

## Left out

- Socket creation, `bind`, `listen`, `accept` and `connect` (`_run`, `SocketConsoleClient.connect`) are operating-system I/O. Only the registration that follows an accept is modelled (`Accept`). `Accept` requires the new handle to differ from those of other registered consoles, which is what `accept` guarantees.
- The acceptor loop's catch-and-log, the daemon threads, `_periodical_clean` and the lock are left out. Each method is one atomic step. The race between a sweep and an application's `prompt` is not modelled.
- Two methods are not atomic in the program, and the model treats them as atomic anyway. `run` tests the running flag outside the lock (sockesole/__init__.py:263) and takes the lock only to set it (:266-267), so two concurrent calls can both start an acceptor and a cleaner. `close` releases the lock (:318-321) before it empties the registry (:323), so a console that the acceptor inserts in between is dropped without being closed.
- The finalizer `__del__` (sockesole/__init__.py:75-76), which closes a console once nothing refers to it, is left out. Python's reference counting and garbage collection are not modelled, so a console that `Accept` replaces is not closed in the model.
- Time is counted in whole ticks instead of floating-point seconds: `wait` and `timeout` are integers. The time a blocking `recv` itself takes is not modelled separately; each sleep's extra delay stands for all such time.
- UTF-8 encoding and decoding, and the `buffer` size passed to `recv`, are left out. Messages are strings, and each chunk in a handle's inbox is what one `recv` returns.
- Failures of `recv`, `shutdown` and `close` are left out, including a second close of the same handle. `sendall` either writes the whole message or fails and writes nothing. Whether it succeeds is an oracle (`sendOk`) that only a shutdown or close changes. After a close, Python's `recv` raises instead of returning end of stream; the model's empty inbox is its own convention.
- Registry.SocketConsoleServer.Clean and Registry.SocketConsoleServer.Close: do not model a failing `shutdown`. In the program a probe usually fails only once the connection has been reset or the handle closed. `shutdown` (sockesole/__init__.py:202) may then raise, for example "not connected" or "bad file descriptor". `clean` would then leave its first loop (:299-303) by that exception with nothing removed, and the cleaner thread (:308-313) would stop. `close` would stop closing the remaining consoles. The model's eviction of every failed probe holds only because its `Shutdown` and `Close` never fail.
- Python's recursion limit is a parameter (`frames`) of `read`, because the exact number of frames left depends on the caller.
- Logging is left out. The warning of a second `run` is the `warned` result.
- `__enter__` and `__exit__`, the `Protocol` and ABC declarations, and the constructor options `buffer`, `queue_size`, `clean_interval`, `console_cls` and `logger` are left out.
- Registry.SocketConsoleServer.GetKeys: does not state the order of the returned addresses. Python returns them in insertion order; the model keeps the registry as a map without order.

## Findings

| source | as written | input that shows it | evidently intended | confidence | as-written member | corrected member |
|---|---|---|---|---|---|---|
| sockesole/__init__.py:398-405 | `read` re-reads by calling itself. It checks its own elapsed time only after that nested call returns, and a nested call returns only once some chunk strips to something. | `wait > 0`, and a peer that sends only heartbeats or has closed (every `recv` gives `"__HB__"` or `""`): no `TimeoutError` is ever raised, and calls nest until `RecursionError` | receive again in a loop and check the timeout after every re-read, as `prompt` does; then a heartbeat-only peer gets `TimeoutError` (`Polling.PollingReadTimesOutOnHeartbeats`) | high; not executed | `Polling.ReadIgnoresTimeoutOnHeartbeats` | `ClientConsole.SocketConsoleClient.ReadPolling` |
| sockesole/__init__.py:398-406 | with `delete_heartbeat`, the nested `read` returns its chunk already stripped, and the calling level strips and tests that text again | the stream `"__HB__"`, `"__H__HB__B__"`, `"x"` with `wait > 0`: `"__H__HB__B__"` strips to `"__HB__"`, which the calling level strips to nothing, so it is dropped and `"x"` is returned | test and strip the received chunk exactly once, as `prompt` does; then the chunk with content is returned (`Polling.PollingReadDiscardsOnlyHeartbeats`) | medium; not executed | `Polling.ReadDropsStrippedToMarker` | `ClientConsole.SocketConsoleClient.ReadPolling` |
