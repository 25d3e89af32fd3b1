/** `ScreamReader` (src/client.rs): the receive side as an object that owns the
    current player and the previous header, and whose `read` takes one event. */
module Client {
  import opened Scream
  import opened Pcm
  import opened Ring
  import opened OutputStream
  import opened Ingest

  /** `anyhow::Result<()>` with the error left abstract. */
  datatype ReadResult = Ok | Err

  /** What a call of `read` as written can come to: it returns, or the thread panics. */
  datatype ReadOutcome = Returned(session: Session, result: ReadResult) | Panicked

  /** `read` exactly as written. A datagram shorter than the header panics at
      `&self.buf[5..size]`; a header whose bit depth is below 8 gives
      `chunks_exact(0)`, which panics, once the create check has passed. Only a
      datagram can panic, and an error leaves the reader as it was. */
  function ReadStepAsWritten(s: Session, e: Event, deviceAccepts: bool): (r: ReadOutcome)
    ensures r.Panicked? ==> e.Packet?
    ensures r.Returned? && r.result == Err ==> r.session == s
  {
    match e
    case Timeout => Returned(Session(Idle, s.previousHeader), Ok)
    case RecvError => Returned(s, Err)
    case Packet(data) =>
      if !HasHeader(data) then Panicked
      else
        var h := HeaderOf(data);
        if NeedsNewPlayer(s, h) && !deviceAccepts then Returned(s, Err)
        else if FrameWidth(h) == 0 then Panicked
        else Returned(TakeIn(s, h, data[HEADER_SIZE..]), Ok)
  }

  /** `read` with the two panics removed: a datagram shorter than the header is
      dropped, and a header whose frames are zero bytes wide goes through the
      create check like any other and then contributes no frames. An error
      leaves the reader as it was and comes only from the socket or from a
      player that could not be created; a timeout always ends playback. */
  function ReadStep(s: Session, e: Event, deviceAccepts: bool): (r: (Session, ReadResult))
    ensures r.1 == Err ==> r.0 == s
    ensures r.1 == Err ==> e.RecvError? || (e.Packet? && !deviceAccepts)
    ensures e.Timeout? ==> r.0.playback.Idle? && r.1 == Ok
  {
    match e
    case Timeout => (Session(Idle, s.previousHeader), Ok)
    case RecvError => (s, Err)
    case Packet(data) =>
      if !HasHeader(data) then (s, Ok)
      else
        var h := HeaderOf(data);
        if NeedsNewPlayer(s, h) && !deviceAccepts then (s, Err)
        else (TakeIn(s, h, data[HEADER_SIZE..]), Ok)
  }

  /** A datagram shorter than the five header bytes crashes the reader as written. */
  lemma ShortDatagramPanics(s: Session)
    ensures ReadStepAsWritten(s, Packet([0x01, 16, 0]), true) == Panicked
    ensures ReadStep(s, Packet([0x01, 16, 0]), true) == (s, Ok)
  {
  }

  /** A header announcing fewer than 8 bits per sample crashes the reader as
      written once a player exists for it; corrected, the player is made or
      kept and its buffer is left as it was. When the player cannot be created
      both versions return the error before reaching the frames. */
  lemma ZeroWidthFramePanics(s: Session)
    ensures ReadStepAsWritten(s, Packet([0x01, 4, 0, 0, 0, 0, 0]), true) == Panicked
    ensures var h: HeaderArray := [0x01, 4, 0, 0, 0];
            var backlog := if NeedsNewPlayer(s, h) then [] else s.playback.queue;
            ReadStep(s, Packet([0x01, 4, 0, 0, 0, 0, 0]), true) == (Session(Active(backlog), h), Ok)
    ensures ReadStepAsWritten(InitialSession(), Packet([0x01, 4, 0, 0, 0]), false) == Returned(InitialSession(), Err)
    ensures ReadStep(InitialSession(), Packet([0x01, 4, 0, 0, 0]), false) == (InitialSession(), Err)
  {
    var h: HeaderArray := [0x01, 4, 0, 0, 0];
    assert FrameWidth(h) == 0;
    assert [0x01, 4, 0, 0, 0, 0, 0][..HEADER_SIZE] == h;
  }

  /** The correction changes nothing else: wherever the code does not panic
      both versions return the same; the code panics exactly on a datagram
      without a whole header, or on a zero-width header that passes the create
      check; and the corrected version leaves no trace of either. */
  lemma ReadStepCorrectsOnlyPanics(s: Session, e: Event, deviceAccepts: bool)
    ensures ReadStepAsWritten(s, e, deviceAccepts) != Panicked ==>
              ReadStepAsWritten(s, e, deviceAccepts)
              == Returned(ReadStep(s, e, deviceAccepts).0, ReadStep(s, e, deviceAccepts).1)
    ensures ReadStepAsWritten(s, e, deviceAccepts) == Panicked <==>
              e.Packet? && (!HasHeader(e.data)
                            || (FrameWidth(HeaderOf(e.data)) == 0
                                && (!NeedsNewPlayer(s, HeaderOf(e.data)) || deviceAccepts)))
    ensures e.Packet? && !HasHeader(e.data) ==> ReadStep(s, e, deviceAccepts) == (s, Ok)
    ensures e.Packet? && HasHeader(e.data) && FrameWidth(HeaderOf(e.data)) == 0
            && ReadStep(s, e, deviceAccepts).1 == Ok ==>
              ReadStep(s, e, deviceAccepts).0.playback.queue
              == if NeedsNewPlayer(s, HeaderOf(e.data)) then [] else s.playback.queue
  {
  }

  /** A timeout always succeeds, ends any playback and keeps the previous header. */
  lemma TimeoutStopsPlayback(s: Session, deviceAccepts: bool)
    ensures ReadStep(s, Timeout, deviceAccepts) == (Session(Idle, s.previousHeader), Ok)
    ensures s.playback.Idle? ==> ReadStep(s, Timeout, deviceAccepts).0 == s
  {
  }

  /** A datagram with a whole header: a new player (an empty buffer) is started exactly
      when none plays or the header changed; if that fails the call errs and
      nothing changes; otherwise the frames are appended behind the backlog
      and the header is remembered. */
  lemma PacketStep(s: Session, data: seq<byte>, deviceAccepts: bool)
    requires SessionValid(s) && HasHeader(data)
    ensures var (s', r) := ReadStep(s, Packet(data), deviceAccepts);
            var h := HeaderOf(data);
            var samples := PacketSamples(h, data[HEADER_SIZE..]);
            var backlog := if NeedsNewPlayer(s, h) then [] else s.playback.queue;
            && (r == Err <==> NeedsNewPlayer(s, h) && !deviceAccepts)
            && (r == Err ==> s' == s)
            && (r == Ok ==> s'.previousHeader == h && s'.playback.Active?
                            && s'.playback.queue == backlog + samples[..Min(|samples|, RING_CAPACITY - |backlog|)])
  {
    TakeInBounded(s, HeaderOf(data), data[HEADER_SIZE..]);
  }

  /** Every step keeps the buffer within its capacity. */
  lemma ReadStepValid(s: Session, e: Event, deviceAccepts: bool)
    requires SessionValid(s)
    ensures SessionValid(ReadStep(s, e, deviceAccepts).0)
  {
    if e.Packet? && HasHeader(e.data) {
      TakeInBounded(s, HeaderOf(e.data), e.data[HEADER_SIZE..]);
    }
  }

  /** Two datagrams with the header of the playing session keep that session:
      its buffer takes the frames of both, in order, as if they had come in
      one datagram. */
  lemma SameHeaderAccumulates(s: Session, d1: seq<byte>, d2: seq<byte>, a1: bool, a2: bool)
    requires s.playback.Active? && HasHeader(d1) && HasHeader(d2)
    requires HeaderOf(d1) == s.previousHeader && HeaderOf(d2) == s.previousHeader
    ensures var (s1, r1) := ReadStep(s, Packet(d1), a1);
            var (s2, r2) := ReadStep(s1, Packet(d2), a2);
            var h := s.previousHeader;
            && r1 == Ok && r2 == Ok && s2.previousHeader == h
            && s2.playback == Active(PushAll(s.playback.queue,
                                              PacketSamples(h, d1[HEADER_SIZE..]) + PacketSamples(h, d2[HEADER_SIZE..]),
                                              RING_CAPACITY))
  {
    var h := s.previousHeader;
    PushAllAppend(s.playback.queue, PacketSamples(h, d1[HEADER_SIZE..]), PacketSamples(h, d2[HEADER_SIZE..]),
                  RING_CAPACITY);
  }

  /** A datagram with a different header replaces the session: whatever the
      old buffer held is gone, and the new buffer holds only this datagram's
      frames. */
  lemma HeaderChangeReplaces(s: Session, data: seq<byte>)
    requires s.playback.Active? && HasHeader(data) && HeaderOf(data) != s.previousHeader
    ensures var (s', r) := ReadStep(s, Packet(data), true);
            var samples := PacketSamples(HeaderOf(data), data[HEADER_SIZE..]);
            && r == Ok && s'.previousHeader == HeaderOf(data)
            && s'.playback == Active(samples[..Min(|samples|, RING_CAPACITY)])
  {
    PushAllKeepsPrefix([], PacketSamples(HeaderOf(data), data[HEADER_SIZE..]), RING_CAPACITY);
  }

  /** After a timeout even a datagram with the very header that was playing
      starts a fresh session. */
  lemma TimeoutThenPacketRestarts(s: Session, data: seq<byte>, a: bool, deviceAccepts: bool)
    requires HasHeader(data)
    ensures var s1 := ReadStep(s, Timeout, a).0;
            NeedsNewPlayer(s1, HeaderOf(data))
            && ReadStep(s1, Packet(data), deviceAccepts).0
               == (if deviceAccepts then TakeIn(Session(Idle, s.previousHeader), HeaderOf(data), data[HEADER_SIZE..])
                   else s1)
  {
  }

  /** The state of a reader: waiting for audio, or playing through a player. */
  datatype ReaderState = Waiting | Playing(player: AudioPlayer)

  class ScreamReader {
    var state: ReaderState
    var previousHeader: HeaderArray

    /** The objects of the current player. */
    ghost function PlayerObjects(): set<object>
      reads this
    {
      if state.Playing? then {state.player, state.player.buffer, state.player.stream} else {}
    }

    /** The buffer `read` pushes into, if any. */
    ghost function PlayerBuffer(): set<object>
      reads this
    {
      if state.Playing? then {state.player.buffer} else {}
    }

    ghost predicate Valid()
      reads this, PlayerObjects()
    {
      state.Playing? ==> state.player.Valid()
    }

    /** The reader as a session value. */
    ghost function View(): Session
      reads this, PlayerBuffer()
    {
      Session(if state.Playing? then Active(state.player.buffer.contents) else Idle,
              previousHeader)
    }

    /** `ScreamReader::new` past the socket and device setup. */
    constructor ()
      ensures Valid() && View() == InitialSession()
    {
      state := Waiting;
      previousHeader := [0, 0, 0, 0, 0];
    }

    /** `is_playing_now`: whether a player exists. */
    predicate IsPlayingNow()
      reads this, PlayerBuffer()
      ensures IsPlayingNow() <==> View().playback.Active?
    {
      state.Playing?
    }

    /** `read`, on one event; `deviceAccepts` says whether `create_audio_player`
        would succeed for this datagram's header. */
    method Read(event: Event, deviceAccepts: bool) returns (r: ReadResult)
      requires Valid()
      modifies this, PlayerBuffer()
      ensures Valid()
      ensures (View(), r) == ReadStep(old(View()), event, deviceAccepts)
      ensures state.Playing? && fresh(state.player) <==>
                event.Packet? && HasHeader(event.data) && deviceAccepts
                && NeedsNewPlayer(old(View()), HeaderOf(event.data))
      ensures state.Playing? && !fresh(state.player) ==> state == old(state)
    {
      match event
      case Timeout =>
        if IsPlayingNow() {
          state := Waiting;
        }
        return Ok;
      case RecvError =>
        return Err;
      case Packet(data) =>
        if !HasHeader(data) {
          return Ok;
        }
        var header := HeaderOf(data);
        var samples := data[HEADER_SIZE..];
        var isHeaderSameThanPrevious := previousHeader == header;
        if !IsPlayingNow() || !isHeaderSameThanPrevious {
          var created := CreateAudioPlayer(header, deviceAccepts);
          if created.None? {
            return Err;
          }
          state := Playing(created.value);
          previousHeader := header;
        }
        if state.Playing? && FrameWidth(header) > 0 {
          PushFrames(header, samples, state.player.buffer);
        }
        return Ok;
    }
  }
}
