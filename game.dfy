/**
  The game of game/game.go: the loop that applies published pixels to the canvas,
  and the per-connection admission of pixels sent by a client.

  Transport, authentication and JSON are outside the model: a connection is a
  sequence of frames already read, authentication yields an optional user id, and
  JSON decoding is a function `decode` from payload bytes to an optional pixel.
*/
module Game {
  import opened Wrappers
  import opened Mpmc
  import opened Cooldown
  import opened Pixels

  /** Game (lines 23-30): the shared canvas, cooldowns and queue. */
  class Game {
    const canvas: Canvas
    const cooldowns: CooldownManager
    const queue: Mpmc<Pixel>

    /** NewGame (lines 32-39). */
    constructor (cooldown: int, buffer: nat, width: int, height: int)
      requires 0 < buffer
      ensures queue.Valid() && queue.capacity == buffer && queue.log == []
      ensures cooldowns.cooldowns == map[] && cooldowns.cooldown == cooldown
      ensures canvas.View() == Blank(Clamp(width), Clamp(height))
      ensures fresh(canvas) && fresh(canvas.image) && fresh(cooldowns) && fresh(queue) && fresh(queue.buffer)
    {
      canvas := new Canvas(width, height);
      cooldowns := new CooldownManager(cooldown);
      queue := new Mpmc(buffer);
    }
  }

  /** What the game loop does with a pixel it received: paint it.  image.Set drops
      a position outside the image's rectangle, so such a pixel leaves the grid as
      it is. */
  function Apply(r: Raster, p: Pixel): (r': Raster)
    requires r.Wf()
    ensures r'.Wf() && r'.width == r.width && r'.height == r.height
  {
    if r.InBounds(p.pos.0, p.pos.1) then Painted(r, p) else r
  }

  /** The grid after the game loop has applied `ps` in order. */
  function PaintAll(r: Raster, ps: seq<Pixel>): (r': Raster)
    requires r.Wf()
    ensures r'.Wf() && r'.width == r.width && r'.height == r.height
  {
    if ps == [] then r else Apply(PaintAll(r, ps[..|ps| - 1]), ps[|ps| - 1])
  }

  /** A cell that no pixel of `ps` names keeps its colour. */
  lemma {:induction false} UnpaintedCellKept(r: Raster, ps: seq<Pixel>, x: int, y: int)
    requires r.Wf() && r.InBounds(x, y)
    requires forall k :: 0 <= k < |ps| ==> ps[k].pos != (x, y)
    ensures PaintAll(r, ps).cells[x][y] == r.cells[x][y]
  {
    if ps != [] {
      UnpaintedCellKept(r, ps[..|ps| - 1], x, y);
    }
  }

  /** The last pixel of `ps` at a cell decides the cell's colour. */
  lemma {:induction false} LastPaintWins(r: Raster, ps: seq<Pixel>, k: nat)
    requires r.Wf() && k < |ps| && r.InBounds(ps[k].pos.0, ps[k].pos.1)
    requires forall j :: k < j < |ps| ==> ps[j].pos != ps[k].pos
    ensures PaintAll(r, ps).cells[ps[k].pos.0][ps[k].pos.1] == ColorOf(ps[k])
  {
    var init := ps[..|ps| - 1];
    if k < |ps| - 1 {
      assert init[k] == ps[k];
      LastPaintWins(r, init, k);
    }
  }

  /** One pass of GameLoop's body (lines 44-53): receive, skip the lag error, paint
      a received pixel.  NotReady stands for the Receive that is still waiting. */
  method GameLoopStep(rx: Consumer<Pixel>, canvas: Canvas) returns (r: Received<Pixel>)
    requires rx.Valid()
    modifies rx, canvas.image
    ensures rx.Valid()
    ensures (r, rx.last) == ReceiveStep(rx.queue.capacity, rx.queue.log, old(rx.last))
    ensures r.Value? ==> canvas.View() == Apply(old(canvas.View()), r.value)
    ensures !r.Value? ==> canvas.View() == old(canvas.View())
  {
    r := rx.Receive();
    if !r.Value? {
      return;
    }
    if canvas.IsInBounds(r.value.pos.0, r.value.pos.1) {
      canvas.Paint(r.value);
    }
  }

  /** `n` Receive calls and no Send. */
  function Receives<T>(n: nat): (trace: seq<Event<T>>)
    ensures |trace| == n && forall i :: 0 <= i < n ==> trace[i] == Receive
  {
    seq(n, _ => Receive)
  }

  lemma {:induction false} SentNone<T>(trace: seq<Event<T>>)
    requires forall i :: 0 <= i < |trace| ==> trace[i] == Receive
    ensures Sent(trace) == []
  {
    if trace != [] {
      SentNone(trace[..|trace| - 1]);
    }
  }

  /** One more pass of the game loop: the run of `i + 1` Receive calls and the
      canvas painted from it extend those of `i` calls by one ReceiveStep. */
  lemma GameLoopRound(capacity: nat, log: seq<Pixel>, start: nat, i: nat, view: Raster)
    requires start <= |log| && view.Wf()
    ensures var before := Replay(capacity, log, start, Receives(i));
            var after := Replay(capacity, log, start, Receives(i + 1));
            var (o, last') := ReceiveStep(capacity, before.log, before.last);
            && before.log == log
            && after.last == last'
            && PaintAll(view, Values(after.outs)) ==
                 if o.Value? then Apply(PaintAll(view, Values(before.outs)), o.value)
                 else PaintAll(view, Values(before.outs))
  {
    var before := Replay(capacity, log, start, Receives<Pixel>(i));
    SentNone(Receives<Pixel>(i));
    assert Receives<Pixel>(i + 1) == Receives(i) + [Receive];
    ReplaySnoc(capacity, log, start, Receives(i), Receive);
    var (o, last') := ReceiveStep(capacity, log, before.last);
    ValuesSnoc(before.outs, o);
    var vs := Values(before.outs);
    if o.Value? {
      assert (vs + [o.value])[..|vs|] == vs;
    }
  }

  /** GameLoop (lines 41-55) for `rounds` passes of its endless loop: the canvas
      shows the values received so far, applied in order.  The source subscribes
      at line 42; here the caller subscribes (`Mpmc.Subscribe`) and passes the
      consumer `rx`, so that sends made between subscription and the passes, which
      the source's goroutines interleave, are in the queue's history. */
  method GameLoop(rx: Consumer<Pixel>, canvas: Canvas, rounds: nat)
    requires rx.Valid()
    modifies rx, canvas.image
    ensures rx.Valid()
    ensures var run := Replay(rx.queue.capacity, rx.queue.log, old(rx.last), Receives(rounds));
            rx.last == run.last && canvas.View() == PaintAll(old(canvas.View()), Values(run.outs))
  {
    ghost var start, view := rx.last, canvas.View();
    for i := 0 to rounds
      invariant rx.Valid()
      invariant var run := Replay(rx.queue.capacity, rx.queue.log, start, Receives(i));
                rx.last == run.last && canvas.View() == PaintAll(view, Values(run.outs))
    {
      GameLoopRound(rx.queue.capacity, rx.queue.log, start, i, view);
      var r := GameLoopStep(rx, canvas);
    }
  }

  /** A game loop that does not lag paints exactly the pixels published since it
      subscribed and up to its counter, in publish order. */
  lemma GameLoopPaintsPublished(capacity: nat, log: seq<Pixel>, last: nat, rounds: nat, view: Raster)
    requires last <= |log| && view.Wf()
    requires NoLag(Replay(capacity, log, last, Receives(rounds)).outs)
    ensures var run := Replay(capacity, log, last, Receives(rounds));
            && run.log == log
            && PaintAll(view, Values(run.outs)) == PaintAll(view, log[last..run.last])
  {
    NoSkip(capacity, log, last, Receives(rounds));
    SentNone(Receives<Pixel>(rounds));
  }

  /** websocket message types. */
  datatype MessageType = TextMessage | BinaryMessage | CloseMessage | PingMessage | PongMessage

  /** One conn.ReadMessage result: a frame with its type, payload and the instant
      it was read, or a read error. */
  datatype Frame = Frame(kind: MessageType, payload: seq<byte>, at: int) | ReadFailure

  /** Why the read loop ended: Reading while it has not ended. */
  datatype Stop = Reading | ClosedOrFailed | NotText | Malformed

  /** The effect of a connection's read loop so far: the pixels published, the
      cooldown map, the number of frames read and whether the loop has ended. */
  datatype Session = Session(published: seq<Pixel>, cooldowns: map<UserId, int>, read: nat, stop: Stop)

  /** One pass of the read loop (lines 108-128) on frame `f`. */
  function ReadStep(cooldown: int, uid: UserId, decode: seq<byte> -> Option<Pixel>, s: Session, f: Frame): (s': Session)
    requires s.stop == Reading
    ensures s'.read == s.read + 1
    ensures s'.published == s.published || (|s'.published| == |s.published| + 1 && s'.published[..|s.published|] == s.published)
  {
    var s := s.(read := s.read + 1);
    match f
    case ReadFailure => s.(stop := ClosedOrFailed)
    case Frame(kind, payload, at) =>
      if kind == CloseMessage then s.(stop := ClosedOrFailed)
      else if kind != TextMessage then s.(stop := NotText)
      else
        var (verdict, m) := Decide(s.cooldowns, cooldown, uid, at);
        if verdict.Denied? then s
        else match decode(payload)
          case None => s.(cooldowns := m, stop := Malformed)
          case Some(pixel) => s.(cooldowns := m, published := s.published + [pixel])
  }

  /** The read loop over `frames`, starting from the cooldown map `cooldowns`. */
  function Admit(cooldown: int, uid: UserId, decode: seq<byte> -> Option<Pixel>, cooldowns: map<UserId, int>, frames: seq<Frame>): (s: Session)
    ensures s.read <= |frames| && |s.published| <= s.read
    ensures s.stop == Reading ==> s.read == |frames|
  {
    if frames == [] then Session([], cooldowns, 0, Reading)
    else
      var s := Admit(cooldown, uid, decode, cooldowns, frames[..|frames| - 1]);
      if s.stop != Reading then s else ReadStep(cooldown, uid, decode, s, frames[|frames| - 1])
  }

  /** Once the loop has ended, later frames are never read: nothing more is
      published and the cooldown map does not change. */
  lemma {:induction false} StoppedIgnoresRest(cooldown: int, uid: UserId, decode: seq<byte> -> Option<Pixel>,
                                              cooldowns: map<UserId, int>, frames: seq<Frame>, more: seq<Frame>)
    requires Admit(cooldown, uid, decode, cooldowns, frames).stop != Reading
    ensures Admit(cooldown, uid, decode, cooldowns, frames + more) == Admit(cooldown, uid, decode, cooldowns, frames)
  {
    if more == [] {
      assert frames + more == frames;
    } else {
      var init := more[..|more| - 1];
      StoppedIgnoresRest(cooldown, uid, decode, cooldowns, frames, init);
      var all := frames + more;
      assert all[..|all| - 1] == frames + init;
      assert Admit(cooldown, uid, decode, cooldowns, all[..|all| - 1]).stop != Reading;
    }
  }

  /** The frame that ended the loop: a read error or close frame, a frame that is
      not text, or a text frame whose attempt was accepted and whose payload does
      not decode. */
  lemma {:induction false} StopReason(cooldown: int, uid: UserId, decode: seq<byte> -> Option<Pixel>,
                                      cooldowns: map<UserId, int>, frames: seq<Frame>)
    ensures var s := Admit(cooldown, uid, decode, cooldowns, frames);
            s.stop != Reading ==>
              && 0 < s.read
              && (s.stop == ClosedOrFailed <==> frames[s.read - 1].ReadFailure? || frames[s.read - 1].kind == CloseMessage)
              && (s.stop == NotText ==> frames[s.read - 1].kind != TextMessage)
              && (s.stop == Malformed ==>
                    && frames[s.read - 1].kind == TextMessage
                    && Decide(Admit(cooldown, uid, decode, cooldowns, frames[..s.read - 1]).cooldowns,
                              cooldown, uid, frames[s.read - 1].at).0.Accepted?
                    && decode(frames[s.read - 1].payload) == None)
  {
    if frames != [] {
      var init := frames[..|frames| - 1];
      StopReason(cooldown, uid, decode, cooldowns, init);
      var s0 := Admit(cooldown, uid, decode, cooldowns, init);
      if s0.stop != Reading {
        assert frames[s0.read - 1] == init[s0.read - 1];
        assert frames[..s0.read - 1] == init[..s0.read - 1];
      } else {
        assert frames[..s0.read] == init;
      }
    }
  }

  /** Conversely, a read error, a close frame or any other non-text frame ends the
      loop: at that frame, unless an earlier frame already ended it. */
  lemma {:induction false} NonTextStops(cooldown: int, uid: UserId, decode: seq<byte> -> Option<Pixel>,
                                        cooldowns: map<UserId, int>, frames: seq<Frame>, i: nat)
    requires i < |frames| && (frames[i].ReadFailure? || frames[i].kind != TextMessage)
    ensures var s := Admit(cooldown, uid, decode, cooldowns, frames);
            && s.stop != Reading && s.read <= i + 1
            && (s.read == i + 1 ==>
                  s.stop == if frames[i].ReadFailure? || frames[i].kind == CloseMessage then ClosedOrFailed else NotText)
  {
    var init := frames[..|frames| - 1];
    if i < |init| {
      NonTextStops(cooldown, uid, decode, cooldowns, init, i);
    }
  }

  /** The instants of the text frames among `frames`: the instants at which the
      read loop consults the cooldown. */
  function TextTimes(frames: seq<Frame>): (times: seq<int>)
    ensures |times| <= |frames|
  {
    if frames == [] then []
    else
      var f := frames[|frames| - 1];
      TextTimes(frames[..|frames| - 1]) + (if f.Frame? && f.kind == TextMessage then [f.at] else [])
  }

  /** The cooldown is consulted once per text frame read, before decoding, and every
      publish is one of its acceptances: the pixels published are as many as the
      accepted attempts, less the one whose payload did not decode. */
  lemma {:induction false} SessionFollowsCooldown(cooldown: int, uid: UserId, decode: seq<byte> -> Option<Pixel>,
                                                  cooldowns: map<UserId, int>, frames: seq<Frame>)
    ensures FollowsCooldown(cooldown, uid, cooldowns, frames, Admit(cooldown, uid, decode, cooldowns, frames))
  {
    if frames != [] {
      var init := frames[..|frames| - 1];
      SessionFollowsCooldown(cooldown, uid, decode, cooldowns, init);
      var s0 := Admit(cooldown, uid, decode, cooldowns, init);
      if s0.stop != Reading {
        assert frames[..s0.read] == init[..s0.read];
      } else {
        FollowsCooldownStep(cooldown, uid, decode, cooldowns, init, frames[|frames| - 1], s0);
        assert init + [frames[|frames| - 1]] == frames;
      }
    }
  }

  ghost predicate FollowsCooldown(cooldown: int, uid: UserId, cooldowns: map<UserId, int>, frames: seq<Frame>, s: Session)
    requires s.read <= |frames|
  {
    var (acc, m) := AttemptAll(cooldowns, cooldown, uid, TextTimes(frames[..s.read]));
    && s.cooldowns == m
    && |s.published| + (if s.stop == Malformed then 1 else 0) == |acc|
  }

  /** One more frame read keeps the session in step with the cooldown's record. */
  lemma FollowsCooldownStep(cooldown: int, uid: UserId, decode: seq<byte> -> Option<Pixel>,
                            cooldowns: map<UserId, int>, init: seq<Frame>, f: Frame, s: Session)
    requires s.stop == Reading && s.read == |init|
    requires FollowsCooldown(cooldown, uid, cooldowns, init, s)
    ensures FollowsCooldown(cooldown, uid, cooldowns, init + [f], ReadStep(cooldown, uid, decode, s, f))
  {
    var frames := init + [f];
    var s' := ReadStep(cooldown, uid, decode, s, f);
    assert init[..s.read] == init;
    assert frames[..s'.read] == frames;
    TextTimesSnoc(init, f);
    var times0 := TextTimes(init);
    var (acc0, m0) := AttemptAll(cooldowns, cooldown, uid, times0);
    assert s.cooldowns == m0 && |s.published| == |acc0|;
    if f.Frame? && f.kind == TextMessage {
      AttemptAllSnoc(cooldowns, cooldown, uid, times0, f.at);
      var (v, m) := Decide(m0, cooldown, uid, f.at);
      if v.Denied? {
        assert s' == s.(read := s.read + 1);
      } else if decode(f.payload).None? {
        assert s' == s.(read := s.read + 1, cooldowns := m, stop := Malformed);
      } else {
        assert s' == s.(read := s.read + 1, cooldowns := m, published := s.published + [decode(f.payload).value]);
      }
    } else {
      assert TextTimes(frames) == times0 + [] == times0;
      assert s'.published == s.published && s'.cooldowns == s.cooldowns && s'.stop != Malformed;
    }
  }

  lemma TextTimesSnoc(init: seq<Frame>, f: Frame)
    ensures TextTimes(init + [f]) == TextTimes(init) + (if f.Frame? && f.kind == TextMessage then [f.at] else [])
  {
    assert (init + [f])[..|init|] == init;
  }

  /** The text-frame instants of a prefix of the frames are a prefix of theirs. */
  lemma {:induction false} TextTimesPrefix(frames: seq<Frame>, n: nat)
    requires n <= |frames|
    ensures TextTimes(frames[..n]) <= TextTimes(frames)
  {
    if n < |frames| {
      var init := frames[..|frames| - 1];
      assert init[..n] == frames[..n];
      TextTimesPrefix(init, n);
    } else {
      assert frames[..n] == frames;
    }
  }

  /** A session is rate limited: when the client's text frames arrive in time
      order, the cooldown attempts it accepted lie more than `cooldown` apart (and
      after the user's last accepted attempt before the session), and the session
      published no more pixels than there were accepted attempts. */
  lemma SessionRateLimit(cooldown: int, uid: UserId, decode: seq<byte> -> Option<Pixel>,
                         cooldowns: map<UserId, int>, frames: seq<Frame>)
    requires Nondecreasing(TextTimes(frames))
    requires uid in cooldowns && |TextTimes(frames)| > 0 ==> cooldowns[uid] <= TextTimes(frames)[0]
    ensures var s := Admit(cooldown, uid, decode, cooldowns, frames);
            var acc := AttemptAll(cooldowns, cooldown, uid, TextTimes(frames[..s.read])).0;
            && |s.published| <= |acc|
            && (|acc| > 0 && uid in cooldowns ==> acc[0] - cooldowns[uid] > cooldown)
            && (forall k :: 0 < k < |acc| ==> acc[k] - acc[k - 1] > cooldown)
  {
    var s := Admit(cooldown, uid, decode, cooldowns, frames);
    SessionFollowsCooldown(cooldown, uid, decode, cooldowns, frames);
    TextTimesPrefix(frames, s.read);
    var times, all := TextTimes(frames[..s.read]), TextTimes(frames);
    assert Nondecreasing(times) by {
      forall i, j | 0 <= i < j < |times| ensures times[i] <= times[j] {
        assert times[i] == all[i] && times[j] == all[j];
      }
    }
    if |times| > 0 {
      assert times[0] == all[0];
    }
    AcceptedSpacing(cooldowns, cooldown, uid, times);
  }

  /** The effect of one more text frame on a loop still reading, whatever came
      before it: a denied attempt changes nothing but the count of frames read; an
      accepted one records its instant, then publishes the decoded pixel (with no
      bounds check) or ends the loop when the payload does not decode. */
  lemma AnyDecodedPixelIsPublished(cooldown: int, uid: UserId, decode: seq<byte> -> Option<Pixel>,
                                   cooldowns: map<UserId, int>, frames: seq<Frame>, payload: seq<byte>, at: int)
    requires Admit(cooldown, uid, decode, cooldowns, frames).stop == Reading
    ensures var s := Admit(cooldown, uid, decode, cooldowns, frames);
            var s' := Admit(cooldown, uid, decode, cooldowns, frames + [Frame(TextMessage, payload, at)]);
            var (verdict, m) := Decide(s.cooldowns, cooldown, uid, at);
            && s'.read == s.read + 1
            && (verdict.Denied? ==> s' == s.(read := s.read + 1))
            && (verdict.Accepted? && decode(payload).Some? ==>
                  s' == s.(read := s.read + 1, cooldowns := m, published := s.published + [decode(payload).value]))
            && (verdict.Accepted? && decode(payload).None? ==>
                  s' == s.(read := s.read + 1, cooldowns := m, stop := Malformed))
  {
    var all := frames + [Frame(TextMessage, payload, at)];
    assert all[..|all| - 1] == frames;
  }

  /** Reading the frame after a prefix the loop has not stopped on. */
  lemma AdmitNext(cooldown: int, uid: UserId, decode: seq<byte> -> Option<Pixel>,
                  cooldowns: map<UserId, int>, frames: seq<Frame>, n: nat)
    requires n < |frames| && Admit(cooldown, uid, decode, cooldowns, frames[..n]).stop == Reading
    ensures Admit(cooldown, uid, decode, cooldowns, frames[..n + 1]) ==
            ReadStep(cooldown, uid, decode, Admit(cooldown, uid, decode, cooldowns, frames[..n]), frames[n])
  {
    assert frames[..n + 1][..n] == frames[..n];
  }

  /** Where the loop has stopped, or has read every frame, the rest of the frames
      change nothing. */
  lemma AdmitSettled(cooldown: int, uid: UserId, decode: seq<byte> -> Option<Pixel>,
                     cooldowns: map<UserId, int>, frames: seq<Frame>, n: nat)
    requires n <= |frames|
    requires n == |frames| || Admit(cooldown, uid, decode, cooldowns, frames[..n]).stop != Reading
    ensures Admit(cooldown, uid, decode, cooldowns, frames) == Admit(cooldown, uid, decode, cooldowns, frames[..n])
  {
    if n == |frames| {
      assert frames[..n] == frames;
    } else {
      assert frames[..n] + frames[n..] == frames;
      StoppedIgnoresRest(cooldown, uid, decode, cooldowns, frames[..n], frames[n..]);
    }
  }

  /** The read loop of HandleConnection (lines 107-129) over the frames the client
      sends, with `break` and `continue` as in the source. */
  method ReadLoop(game: Game, uid: UserId, frames: seq<Frame>, decode: seq<byte> -> Option<Pixel>)
    returns (stop: Stop, read: nat)
    requires game.queue.Valid()
    modifies game.cooldowns, game.queue, game.queue.buffer
    ensures game.queue.Valid()
    ensures var s := Admit(game.cooldowns.cooldown, uid, decode, old(game.cooldowns.cooldowns), frames);
            && game.queue.log == old(game.queue.log) + s.published
            && game.cooldowns.cooldowns == s.cooldowns
            && stop == s.stop && read == s.read
  {
    ghost var log0, m0 := game.queue.log, game.cooldowns.cooldowns;
    var cd := game.cooldowns.cooldown;
    stop, read := Reading, 0;
    ghost var s := Session([], m0, 0, Reading);
    while read < |frames|
      invariant read <= |frames| && s == Admit(cd, uid, decode, m0, frames[..read])
      invariant game.queue.Valid() && game.cooldowns.cooldown == cd
      invariant game.queue.log == log0 + s.published && game.cooldowns.cooldowns == s.cooldowns
      invariant s.stop == Reading && s.read == read
    {
      var f := frames[read];
      AdmitNext(cd, uid, decode, m0, frames, read);
      ghost var s0 := s;
      s := ReadStep(cd, uid, decode, s0, f);
      read := read + 1;
      if f.ReadFailure? || f.kind == CloseMessage {
        stop := ClosedOrFailed;
        break;
      }
      if f.kind != TextMessage {
        stop := NotText;
        break;
      }
      ghost var (v, m) := Decide(s0.cooldowns, cd, uid, f.at);
      var can, _ := game.cooldowns.Attempt(uid, f.at);
      if !can {
        assert s == s0.(read := read);
        continue;
      }
      match decode(f.payload) {
        case None =>
          assert s == s0.(read := read, cooldowns := m, stop := Malformed);
          stop := Malformed;
          break;
        case Some(pixel) =>
          assert s == s0.(read := read, cooldowns := m, published := s0.published + [pixel]);
          game.queue.Send(pixel);
      }
    }
    AdmitSettled(cd, uid, decode, m0, frames, read);
  }

  /** How HandleConnection (lines 76-130) ends. */
  datatype Outcome = Forbidden | UpgradeFailed | SnapshotFailed | Served(stop: Stop, read: nat)

  /** HandleConnection: authenticate, upgrade, send the snapshot, then run the read
      loop.  `user` is what the authenticator returned; `upgraded` and
      `snapshotSent` are whether the websocket upgrade and the write of the snapshot
      succeeded. */
  method HandleConnection(game: Game, user: Option<UserId>, upgraded: bool, snapshotSent: bool,
                          frames: seq<Frame>, decode: seq<byte> -> Option<Pixel>)
    returns (outcome: Outcome)
    requires game.queue.Valid()
    modifies game.cooldowns, game.queue, game.queue.buffer
    ensures game.queue.Valid()
    ensures user == None ==> outcome == Forbidden
    ensures !outcome.Served? ==>
              game.queue.log == old(game.queue.log) && game.cooldowns.cooldowns == old(game.cooldowns.cooldowns)
    ensures outcome.Served? <==> user.Some? && upgraded && snapshotSent
    ensures outcome.Served? ==>
              var s := Admit(game.cooldowns.cooldown, user.value, decode, old(game.cooldowns.cooldowns), frames);
              && outcome == Served(s.stop, s.read)
              && game.queue.log == old(game.queue.log) + s.published
              && game.cooldowns.cooldowns == s.cooldowns
  {
    if user == None {
      return Forbidden;
    }
    if !upgraded {
      return UpgradeFailed;
    }
    // The consumer feeds the outbound forwarder, which is not part of this model.
    var rx := game.queue.Subscribe();
    if !snapshotSent {
      return SnapshotFailed;
    }
    var stop, read := ReadLoop(game, user.value, frames, decode);
    outcome := Served(stop, read);
  }

  /** The end-to-end example on a 4 x 4 canvas with a queue of 8 slots and a
      cooldown of 1000: a first pixel at (1, 1) is published, a second one 500
      later is dropped, and the game loop, subscribed before, paints the first. */
  lemma EndToEndExample(uid: UserId, decode: seq<byte> -> Option<Pixel>, first: seq<byte>, second: seq<byte>)
    requires decode(first) == Some(Pixel((1, 1), (255, 0, 0)))
    ensures var red := Pixel((1, 1), (255, 0, 0));
            var s := Admit(1000, uid, decode, map[], [Frame(TextMessage, first, 0), Frame(TextMessage, second, 500)]);
            var run := Replay(8, [], 0, [Send(red), Receive, Receive]);
            && s == Session([red], map[uid := 0], 2, Reading)
            && Values(run.outs) == [red] && run.outs[1] == NotReady
            && PaintAll(Blank(4, 4), Values(run.outs)).cells[1][1] == ColorOf(red)
  {
    var red := Pixel((1, 1), (255, 0, 0));
    var frames := [Frame(TextMessage, first, 0), Frame(TextMessage, second, 500)];
    assert Admit(1000, uid, decode, map[], []) == Session([], map[], 0, Reading);
    assert [] + [frames[0]] == frames[..1];
    AnyDecodedPixelIsPublished(1000, uid, decode, map[], [], first, 0);
    assert frames[..1] + [frames[1]] == frames;
    AnyDecodedPixelIsPublished(1000, uid, decode, map[], frames[..1], second, 500);
    var trace: seq<Event<Pixel>> := [Send(red), Receive, Receive];
    assert trace[..2][..1][..0] == [];
    assert trace[..2][..1] == [Send(red)];
    assert trace[..2] == [Send(red), Receive];
    var r1 := Replay(8, [], 0, [Send(red)]);
    assert r1 == Run([red], 0, []);
    var r2 := Replay(8, [], 0, [Send(red), Receive]);
    assert r2 == Run([red], 1, [Value(red)]);
    var run := Replay(8, [], 0, trace);
    assert run.outs == [Value(red), NotReady];
    ValuesSnoc([Value(red)], NotReady);
    ValuesSnoc([], Value(red));
    assert [Value(red)] == [] + [Value(red)];
    assert Values(run.outs) == [red];
    assert [red][..0] == [];
  }
}
