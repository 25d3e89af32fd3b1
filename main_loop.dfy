/** The older receive loop in `main` (src/main.rs): the same session logic as
    `ScreamReader::read`, kept in two local variables, where a socket error or
    a player that cannot be created ends the program through `?`. */
module MainLoop {
  import opened Scream
  import opened Pcm
  import opened Ring
  import opened OutputStream
  import opened Ingest
  import Client

  /** What one pass of the loop comes to: the next pass, leaving `main` with
      an error, or a panic. */
  datatype Step = Next(session: Session) | Exit | Panicked

  /** One pass exactly as written. The short-datagram and zero-width panics are
      those of `read`; `previous_header` is assigned before
      `create_audio_player`, but when that fails `main` returns, so the early
      assignment is never seen. `main` is left only on a socket error or a
      player that cannot be created, and only a datagram can panic. */
  function LegacyStepAsWritten(s: Session, e: Event, deviceAccepts: bool): (r: Step)
    ensures r == Exit ==> e.RecvError? || (e.Packet? && !deviceAccepts)
    ensures r == Panicked ==> e.Packet?
  {
    match e
    case Timeout => Next(Session(Idle, s.previousHeader))
    case RecvError => Exit
    case Packet(data) =>
      if !HasHeader(data) then Panicked
      else
        var h := HeaderOf(data);
        if NeedsNewPlayer(s, h) && !deviceAccepts then Exit
        else if FrameWidth(h) == 0 then Panicked
        else Next(TakeIn(s, h, data[HEADER_SIZE..]))
  }

  /** One pass with the two panics removed: a datagram shorter than the header
      is skipped (`continue`), and a zero-width header passes the create check
      like any other and then contributes no frames. It never panics, and it
      leaves `main` exactly on a socket error or on a datagram that needs a
      player the device refuses. */
  function LegacyStep(s: Session, e: Event, deviceAccepts: bool): (r: Step)
    ensures r != Panicked
    ensures r == Exit <==> e.RecvError? || (e.Packet? && HasHeader(e.data)
                                            && NeedsNewPlayer(s, HeaderOf(e.data)) && !deviceAccepts)
  {
    match e
    case Timeout => Next(Session(Idle, s.previousHeader))
    case RecvError => Exit
    case Packet(data) =>
      if !HasHeader(data) then Next(s)
      else
        var h := HeaderOf(data);
        if NeedsNewPlayer(s, h) && !deviceAccepts then Exit
        else Next(TakeIn(s, h, data[HEADER_SIZE..]))
  }

  /** The as-written loop panics on the same two datagrams as `read`; the
      corrected loop skips the short one and keeps the buffer as it was for
      the zero-width one. */
  lemma LegacyMalformedPanics(s: Session)
    ensures LegacyStepAsWritten(s, Packet([0x01, 16, 0]), true) == Panicked
    ensures LegacyStepAsWritten(s, Packet([0x01, 4, 0, 0, 0, 0, 0]), true) == Panicked
    ensures LegacyStep(s, Packet([0x01, 16, 0]), true) == Next(s)
    ensures var h: HeaderArray := [0x01, 4, 0, 0, 0];
            var backlog := if NeedsNewPlayer(s, h) then [] else s.playback.queue;
            LegacyStep(s, Packet([0x01, 4, 0, 0, 0, 0, 0]), true) == Next(Session(Active(backlog), h))
  {
    var h: HeaderArray := [0x01, 4, 0, 0, 0];
    assert FrameWidth(h) == 0;
    assert [0x01, 4, 0, 0, 0, 0, 0][..HEADER_SIZE] == h;
  }

  /** The correction only removes the panics: wherever the code does not
      panic, both versions take the same step. */
  lemma LegacyStepCorrectsOnlyPanics(s: Session, e: Event, deviceAccepts: bool)
    ensures LegacyStep(s, e, deviceAccepts) != Panicked
    ensures LegacyStepAsWritten(s, e, deviceAccepts) != Panicked ==>
              LegacyStepAsWritten(s, e, deviceAccepts) == LegacyStep(s, e, deviceAccepts)
  {
  }

  /** The older loop makes the transitions `read` makes; where `read` returns
      an error the loop leaves `main`. */
  lemma LegacyAgreesWithReader(s: Session, e: Event, deviceAccepts: bool)
    ensures var (s', r) := Client.ReadStep(s, e, deviceAccepts);
            LegacyStep(s, e, deviceAccepts) == if r == Client.Ok then Next(s') else Exit
    ensures var w := Client.ReadStepAsWritten(s, e, deviceAccepts);
            LegacyStepAsWritten(s, e, deviceAccepts)
            == if w.Panicked? then Panicked else if w.result == Client.Ok then Next(w.session) else Exit
  {
  }

  /** After the create check a player always exists, so the `unwrap` that
      follows cannot fail; and a timeout drops the player and carries on. */
  lemma LegacyPlayerExistsAfterCreate(s: Session, e: Event, deviceAccepts: bool)
    ensures e.Packet? && HasHeader(e.data) && LegacyStep(s, e, deviceAccepts).Next? ==>
              LegacyStep(s, e, deviceAccepts).session.playback.Active?
              && LegacyStep(s, e, deviceAccepts).session.previousHeader == HeaderOf(e.data)
    ensures e.Timeout? ==> LegacyStep(s, e, deviceAccepts) == Next(Session(Idle, s.previousHeader))
  {
  }

  /** The loop over a run of events: the final session, or None when `main`
      returned an error on the way. A run that gets to its end met no socket
      error. */
  function LegacyRun(s: Session, events: seq<Event>, accepts: seq<bool>): (r: Option<Session>)
    requires |accepts| == |events|
    ensures r.Some? ==> forall i :: 0 <= i < |events| ==> !events[i].RecvError?
    decreases |events|
  {
    if events == [] then Some(s)
    else
      match LegacyStep(s, events[0], accepts[0])
      case Next(s') =>
        var r := LegacyRun(s', events[1..], accepts[1..]);
        assert r.Some? ==> forall i :: 1 <= i < |events| ==> events[i] == events[1..][i - 1];
        r
      case Exit => None
      case Panicked => None
  }

  /** Over any run the player's buffer stays within its capacity. */
  lemma {:induction false} LegacyRunValid(s: Session, events: seq<Event>, accepts: seq<bool>)
    requires |accepts| == |events| && SessionValid(s)
    ensures LegacyRun(s, events, accepts).Some? ==> SessionValid(LegacyRun(s, events, accepts).value)
    decreases |events|
  {
    if events != [] {
      Client.ReadStepValid(s, events[0], accepts[0]);
      LegacyAgreesWithReader(s, events[0], accepts[0]);
      var step := LegacyStep(s, events[0], accepts[0]);
      if step.Next? {
        LegacyRunValid(step.session, events[1..], accepts[1..]);
      }
    }
  }

  /** The run leaves `main` at event i: the first i events run through to a
      session si, and from si event i is a socket error or a datagram that
      needs a new player the device refuses. */
  predicate ExitsAt(s: Session, events: seq<Event>, accepts: seq<bool>, i: nat)
    requires |accepts| == |events| && i < |events|
  {
    var before := LegacyRun(s, events[..i], accepts[..i]);
    && before.Some?
    && LegacyStep(before.value, events[i], accepts[i]) == Exit
    && (events[i].RecvError?
        || (events[i].Packet? && HasHeader(events[i].data)
            && NeedsNewPlayer(before.value, HeaderOf(events[i].data)) && !accepts[i]))
  }

  /** `main` ends only on a socket error or a player that cannot be created:
      a run that does not get to its end stops at such an event. */
  lemma {:induction false} LegacyRunExits(s: Session, events: seq<Event>, accepts: seq<bool>)
    requires |accepts| == |events|
    ensures LegacyRun(s, events, accepts).None? ==>
              exists i :: 0 <= i < |events| && ExitsAt(s, events, accepts, i)
    decreases |events|
  {
    if events != [] && LegacyRun(s, events, accepts).None? {
      var step := LegacyStep(s, events[0], accepts[0]);
      if step.Next? {
        LegacyRunExits(step.session, events[1..], accepts[1..]);
        var j :| 0 <= j < |events| - 1 && ExitsAt(step.session, events[1..], accepts[1..], j);
        assert events[..j + 1][0] == events[0] && accepts[..j + 1][0] == accepts[0];
        assert events[..j + 1][1..] == events[1..][..j] && accepts[..j + 1][1..] == accepts[1..][..j];
        assert events[1..][j] == events[j + 1] && accepts[1..][j] == accepts[j + 1];
        assert ExitsAt(s, events, accepts, j + 1);
      } else {
        assert events[..0] == [] && accepts[..0] == [];
        assert ExitsAt(s, events, accepts, 0);
      }
    }
  }

  /** `audio_player_buffer`: the player if there is one. */
  ghost predicate PlayerValid(player: Option<AudioPlayer>)
    reads if player.Some? then {player.value, player.value.buffer, player.value.stream} else {}
  {
    player.Some? ==> player.value.Valid()
  }

  ghost function BufferOf(player: Option<AudioPlayer>): set<object>
  {
    if player.Some? then {player.value.buffer} else {}
  }

  /** The two locals as a session value. */
  ghost function SessionOf(player: Option<AudioPlayer>, previousHeader: HeaderArray): Session
    reads BufferOf(player)
  {
    Session(if player.Some? then Active(player.value.buffer.contents) else Idle, previousHeader)
  }

  /** The body of `loop` in `main`, on one event; `deviceAccepts` says whether
      `create_audio_player` would succeed for this datagram's header. */
  method LoopBody(player: Option<AudioPlayer>, previousHeader: HeaderArray, event: Event, deviceAccepts: bool)
    returns (player': Option<AudioPlayer>, previousHeader': HeaderArray, exit: bool)
    requires PlayerValid(player)
    modifies BufferOf(player)
    ensures PlayerValid(player')
    ensures exit <==> LegacyStep(old(SessionOf(player, previousHeader)), event, deviceAccepts) == Exit
    ensures !exit ==> LegacyStep(old(SessionOf(player, previousHeader)), event, deviceAccepts)
                      == Next(SessionOf(player', previousHeader'))
    ensures player'.Some? && player' != player ==>
              fresh(player'.value) && fresh(player'.value.buffer) && fresh(player'.value.stream)
  {
    match event
    case Timeout =>
      player', previousHeader', exit := player, previousHeader, false;
      if player'.Some? {
        player' := None;
      }
    case RecvError =>
      return player, previousHeader, true;
    case Packet(data) =>
      if !HasHeader(data) {
        return player, previousHeader, false;
      }
      var header := HeaderOf(data);
      var samples := data[HEADER_SIZE..];
      player', previousHeader', exit := player, previousHeader, false;
      if player'.None? || previousHeader' != header {
        previousHeader' := header;
        player' := CreateAudioPlayer(header, deviceAccepts);
        if player'.None? {
          return player, previousHeader', true;
        }
      }
      var currentAudioPlayer := player'.value;
      if FrameWidth(header) > 0 {
        PushFrames(header, samples, currentAudioPlayer.buffer);
      }
  }

  /** `main`'s loop over a finite run of events, from no player and an
      all-zero header. Every player is created inside, so nothing outside
      changes. */
  method ReceiveLoop(events: seq<Event>, accepts: seq<bool>)
    returns (player: Option<AudioPlayer>, previousHeader: HeaderArray, exited: bool)
    requires |accepts| == |events|
    ensures PlayerValid(player)
    ensures exited <==> LegacyRun(InitialSession(), events, accepts).None?
    ensures !exited ==> LegacyRun(InitialSession(), events, accepts) == Some(SessionOf(player, previousHeader))
  {
    player, previousHeader, exited := None, [0, 0, 0, 0, 0], false;
    var i := 0;
    while i < |events|
      invariant 0 <= i <= |events|
      invariant PlayerValid(player)
      invariant player.Some? ==> fresh(player.value) && fresh(player.value.buffer) && fresh(player.value.stream)
      invariant LegacyRun(InitialSession(), events, accepts)
                == LegacyRun(SessionOf(player, previousHeader), events[i..], accepts[i..])
      decreases |events| - i
    {
      assert events[i..][1..] == events[i + 1..] && accepts[i..][1..] == accepts[i + 1..];
      var exit;
      player, previousHeader, exit := LoopBody(player, previousHeader, events[i], accepts[i]);
      if exit {
        return player, previousHeader, true;
      }
      i := i + 1;
    }
  }
}
