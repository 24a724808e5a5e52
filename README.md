# pixelbattle core, modelled in Dafny

pixelbattle is a shared pixel canvas served over websockets. Clients send pixels.
Each user may place one pixel per cooldown window. Accepted pixels are broadcast
through a ring-buffer queue to every connection and to a game loop that paints them
onto the canvas.

This project models the sequential logic of that core, with one module per source
file:

- `Mpmc` (`mpmc.dfy`, internal/mpmc/mpmc.go): the broadcast ring buffer. The class
  `Mpmc` holds the fixed buffer, the write counter `idx` and a ghost `log` of every
  value ever sent. Its invariant says that the slot `i % capacity` holds `log[i]`
  for the last `capacity` counters. The class `Consumer` holds one read counter
  `last`. The pure part describes one consumer against any interleaving of sends and
  receives: `ReceiveStep` is one receive and `Replay` runs a whole trace.
  `Consumer.Receive` is proved against `ReceiveStep`. The lemmas prove FIFO delivery
  without skips, the lag rule and the no-skip guarantee the package's tests check.
- `Cooldown` (`cooldown.dfy`, internal/cooldown.go): the per-user rate limit.
  `Decide` is the decision on a map, and `CooldownManager.Attempt` is proved against
  it. `AcceptedSpacing` shows that accepted attempts are more than one cooldown
  apart.
- `Pixels` (`pixels.dfy`, game/canvas.go): colours, the `Pixel` type and the canvas.
  The class `Canvas` keeps an `array2` of colours. `Raster` is its value view, and
  `Painted` is the specification of `Paint`.
- `Game` (`game.dfy`, game/game.go): the game loop (`GameLoopStep`, `GameLoop`). It
  also has the admission read loop of `HandleConnection` (`ReadLoop`). `ReadLoop`
  runs over a sequence of abstract frames and is specified by `Admit`.
  `HandleConnection` covers the authentication and handshake steps in front of it.
- `Wrappers` (`wrappers.dfy`): `Option`.

Clock readings are passed in as `now` or as each frame's `at`. Authentication is an
`Option<UserId>`. JSON decoding is a function `decode` from payload bytes to
`Option<Pixel>`. The websocket upgrade and the write of the snapshot appear only as
success flags.

Points where the code's behaviour is worth stating, as the model follows it:

- No bounds check happens before publishing (game/game.go:123-128): every accepted
  text frame whose payload decodes is published, whatever its position.
  `AnyDecodedPixelIsPublished` states this. Only the game loop's paint drops an
  out-of-bounds pixel.
- `NewMPMC` accepts a zero capacity (internal/mpmc/mpmc.go:16-23). Every `Send`
  on such a queue then divides by zero at line 28. `Receive` never reaches its `%`
  at line 64 with capacity 0: the lag test at line 50 catches every `idx != last`,
  and line 56 waits when `idx == last`. The model's constructor requires a positive
  capacity.
- `Paint` builds a `color.NRGBA` without setting its alpha. A painted cell therefore
  holds alpha 0 (`PaintedCellNotWhite`). The model stores the colour as the code
  builds it.

## Model

| member | source | states |
|---|---|---|
| `Mpmc.ReceiveStep` | internal/mpmc/mpmc.go:47-69 | a receive keeps `last <= idx` and never moves `last` backwards |
| `Mpmc.Replay` | internal/mpmc/mpmc.go:25-69 | over any interleaving of sends and receives, the history grows by exactly the values sent, in order; `last <= idx` holds throughout; each receive yields one outcome |
| `Mpmc.NoSkip` | internal/mpmc/mpmc.go:47-69 | a consumer that never lags receives exactly `log[start..last]`: in send order, none skipped, none twice |
| `Mpmc.SubscriberSeesLaterSends` | internal/mpmc/mpmc.go:40-45 | a consumer that subscribed at `idx` and never lags receives a prefix of the values sent after it subscribed, and all of them once it has caught up |
| `Mpmc.NoLagWithinCapacity` | internal/mpmc/mpmc.go:50-54 | no receive reports lag while the backlog plus everything still to be sent fits in `capacity` |
| `Mpmc.LargeBufferDeliversAll` | internal/mpmc/mpmc_test.go:18-86 | with a buffer at least as large as the number of messages sent after subscription, a consumer never lags and receives those messages in send order, skipping none |
| `Mpmc.LagResubscribes` | internal/mpmc/mpmc.go:50-53 | a consumer more than `capacity` behind gets the lag error, jumps to `idx`, and from then on behaves exactly like a consumer subscribed at that moment |
| `Mpmc.SlotsDistinct` | internal/mpmc/mpmc.go:28 | two counters less than `capacity` apart use different slots, so a send overwrites only the oldest retained value |
| `Mpmc.Mpmc.constructor` | internal/mpmc/mpmc.go:16-23 | a new queue has `idx == 0`, an empty history and a buffer of `capacity` slots |
| `Mpmc.Mpmc.Send` | internal/mpmc/mpmc.go:25-33 | writes the value at slot `idx % capacity`, increments `idx` by one, appends the value to the history, leaves every other slot unchanged, and keeps the ring invariant |
| `Mpmc.Mpmc.Subscribe` | internal/mpmc/mpmc.go:40-45 | the new consumer's `last` equals the current `idx` |
| `Mpmc.Consumer.Receive` | internal/mpmc/mpmc.go:47-69 | if `idx - last > capacity`: the lag error, and `last := idx`; if `last == idx`: not ready, nothing changes; otherwise it returns the slot `last % capacity`, which holds `log[last]`, and increments `last`; only `last` changes |
| `Cooldown.Decide` | internal/cooldown.go:22-36 | an attempt is accepted exactly when the user has no entry or `now - last > cooldown`. Accepted records `now` for that user only. A denial happens only when `now - last <= cooldown`, leaves the map unchanged and reports `cooldown - (now - last)`, which lies in `[0, cooldown]` when `last <= now`. Other users' entries never change |
| `Cooldown.BoundaryIsDenied` | internal/cooldown.go:28-35 | the comparison is strict: exactly one cooldown after the last acceptance, the attempt is denied with 0 remaining |
| `Cooldown.AcceptedSpacing` | internal/cooldown.go:26-35 | along attempts in time order, each accepted attempt is more than `cooldown` after the previous accepted one, also the one recorded before the series began; denied attempts never move the recorded instant |
| `Cooldown.CooldownExample` | internal/cooldown.go:22-36 | with cooldown 10: attempts at 0, 5 and 11 are accepted, denied with 5 remaining, and accepted |
| `Cooldown.CooldownManager.constructor` | internal/cooldown.go:15-20 | a new manager has an empty map and the given cooldown |
| `Cooldown.CooldownManager.Attempt` | internal/cooldown.go:22-36 | returns `(true, nil)` or `(false, remaining)` as `Decide` decides, and leaves the map as `Decide` leaves it |
| `Pixels.Blank` | game/canvas.go:18-25 | a grid of the given size with every cell white |
| `Pixels.Painted` | game/canvas.go:33-42 | painting sets the pixel's cell to `(R, G, B, A = 0)` and leaves every other cell and the size unchanged |
| `Pixels.PaintIdempotent` | game/canvas.go:33-42 | painting the same pixel twice equals painting it once |
| `Pixels.PaintsCommute` | game/canvas.go:33-42 | paints at two different positions commute |
| `Pixels.PaintedCellNotWhite` | game/canvas.go:37-41 | a painted cell has alpha 0, so it is never white |
| `Pixels.Canvas.constructor` | game/canvas.go:18-31 | `NewCanvas(w, h)` makes a fresh grid whose cells are all white, with `Dimensions() == (w, h)` (a negative size counts as 0) |
| `Pixels.Canvas.Dimensions` | game/canvas.go:66-69 | the dimensions are the grid's extent and are never negative |
| `Pixels.Canvas.IsInBounds` | game/canvas.go:71-74 | holds exactly when `0 <= x < width` and `0 <= y < height`, that is, when `(x, y)` addresses a cell |
| `Pixels.Canvas.Paint` | game/canvas.go:33-42 | for an in-bounds pixel the grid becomes `Painted(old grid, p)`; the dimensions do not change |
| `Game.Game.constructor` | game/game.go:32-39 | `NewGame` makes a blank canvas, an empty cooldown map and an empty queue with the configured capacity |
| `Game.UnpaintedCellKept` | game/game.go:41-55 | a cell that none of the applied pixels names keeps its colour |
| `Game.LastPaintWins` | game/game.go:41-55 | the last applied pixel at a cell decides that cell's colour |
| `Game.GameLoopStep` | game/game.go:44-53 | one pass receives as `Receive` does. The lag error, or a receive still waiting, leaves the canvas unchanged. A received pixel is painted |
| `Game.GameLoop` | game/game.go:41-55 | after `n` passes the consumer is where `n` receives take it, and the canvas is the old canvas with the received pixels applied in order |
| `Game.GameLoopPaintsPublished` | game/game.go:41-55 | a game loop that never lags paints exactly the pixels published since it subscribed, up to its counter, in publish order |
| `Game.ReadStep` | game/game.go:108-128 | one frame is read, and at most one pixel is appended to what was published |
| `Game.Admit` | game/game.go:107-129 | the read loop reads at most all frames, publishes at most one pixel per frame read, and while still reading has read them all |
| `Game.StoppedIgnoresRest` | game/game.go:110-126 | once the loop has ended, later frames change nothing: nothing more is published and the cooldown map stays as it is |
| `Game.StopReason` | game/game.go:110-126 | when the loop has ended, the last frame read was a read error or close frame (`ClosedOrFailed`, and only then), a non-text frame (`NotText`), or a text frame whose attempt the cooldown accepted and whose payload does not decode (`Malformed`) |
| `Game.NonTextStops` | game/game.go:110-116 | conversely, a read error, a close frame or any other non-text frame ends the loop: at that frame, with `ClosedOrFailed` or `NotText` respectively, unless an earlier frame ended it |
| `Game.SessionFollowsCooldown` | game/game.go:118-128 | the cooldown is consulted once per text frame read, before decoding. The map after the session is the cooldown's map after those attempts. One pixel is published per accepted attempt, except an accepted one whose payload did not decode |
| `Game.TextTimesPrefix` | game/game.go:118-121 | the cooldown attempts of a prefix of the frames are a prefix of the attempts of all frames |
| `Game.SessionRateLimit` | game/game.go:118-128 | when frames arrive in time order, a session's accepted attempts are more than one cooldown apart, and it publishes no more pixels than there were accepted attempts |
| `Game.AnyDecodedPixelIsPublished` | game/game.go:118-128 | at any point of a session still reading, one more text frame: if the cooldown denies it, only the count of frames read changes; if accepted, the map records its instant and either exactly its decoded pixel is appended to what was published (no bounds check) or, when it does not decode, the loop ends as `Malformed` |
| `Game.EndToEndExample` | game/game.go:41-128 | on a 4 x 4 canvas with 8 slots and cooldown 1000, a first pixel at (1, 1) is published, a second one 500 later is dropped, and the game loop paints the first |
| `Game.ReadLoop` | game/game.go:107-129 | the queue's history grows by exactly the pixels `Admit` publishes, in order; the cooldown map becomes `Admit`'s map; the loop stops where and why `Admit` stops |
| `Game.HandleConnection` | game/game.go:76-130 | failed authentication answers Forbidden and changes nothing. A failed upgrade or snapshot write ends the connection with nothing published. Otherwise the read loop runs as `ReadLoop` |

## Left out

- Locks, condition variables and goroutines are left out. This covers the
  unlock-then-wait window in `Receive`, `Subscribe` reading `idx` without the lock,
  and the double locking around `Paint`. The model is sequential: an interleaving of
  sends and receives is a trace of events.
- `Mpmc.Consumer.Receive`: the blocking wait while `idx == last` is the `NotReady`
  outcome. After the wait the source calls `Receive` again; the model leaves that
  retry to the caller.
- `Mpmc.Consumer.Receive`: the source returns a pointer into the buffer, and a later
  send can overwrite what it points to. The model returns the value read at the time
  of the call.
- `idx` and `last` are unbounded naturals. The `uint64` wrap-around of `idx` is not
  modelled.
- `Mpmc.Mpmc.constructor` requires a positive capacity, which `NewMPMC` does not
  check. With capacity 0, every `Send` divides by zero at internal/mpmc/mpmc.go:28;
  the zero-capacity queue is therefore not modelled.
- `Cooldown.CooldownManager.Attempt`: the source reads the clock twice per call:
  once in the comparison (internal/cooldown.go:28), then again either to record the
  accepted instant (line 29) or to compute the remaining time (line 33). The model
  collapses both readings into one instant `now`. `time.Duration` overflow is not modelled.
- The PNG snapshot functions are not part of this model. These are `ToBytes`,
  `WriteToFile` and `ReadCanvasFromFile`; they are encoding and file I/O in Go's
  libraries.
- image.RGBA converts a colour to its stored form. The model stores the
  `color.NRGBA` as `Paint` builds it and `color.White` as full-intensity white.
- `Pixels.Canvas.Paint` requires an in-bounds position. Go's `image.Set` ignores a
  point outside the image's rectangle. `Game.GameLoopStep` stands for that by testing
  the bounds before painting.
- For a negative width or height, image.Rect reorders the corners. `Dimensions` then
  reports 0 along that axis, and the model's grid is empty along it. The cells the Go
  image still allocates there are never reachable through `IsInBounds` and are not
  modelled.
- `Game.GameLoop` runs a given number of passes of the endless loop. Its
  `fmt.Println` is left out.
- `Game.GameLoop` takes its consumer as a parameter instead of subscribing at
  game/game.go:42. The caller subscribes with `Mpmc.Subscribe`; this lets the sends
  that other goroutines make after the subscription appear in the queue's history.
- The outbound forwarder `pipeChanToWs` is left out, along with the websocket
  upgrade, the frame writes and the log output. `HandleConnection` subscribes its
  consumer at the same point as the source. The consumer would feed the forwarder,
  which is not part of this model.
- The snapshot export in `HandleConnection` is left out. The snapshot write appears
  only as the flag `snapshotSent`.
- A connection is a finite sequence of frames. Running out of frames leaves the loop
  in the `Reading` state.
- auth/remote.go and auth/auth.go are not part of this model. Authentication is the
  `Option<UserId>` given to `HandleConnection`.
- JSON decoding is the opaque `decode` parameter.
- main.go is not part of this model; it holds server wiring and fixed configuration.
