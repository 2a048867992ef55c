/** Two tracks played through one position: reading, pausing and switching. */
module Tracks {

  import opened Machine

  datatype Track = Nothing | Ring | Music

  /** The file-level variables, whether the pipeline is paused, and what each track has delivered. */
  datatype State = State(
    pos: int, posRing: int, posMusic: int,
    loaded: Track,                             // what mp3_start and mp3_end address
    playing: Track,                            // state_runing
    paused: bool,
    heardRing: seq<byte>, heardMusic: seq<byte>)
  {
    function Saved(t: Track): int {
      if t == Ring then posRing else posMusic
    }

    function Heard(t: Track): seq<byte> {
      if t == Ring then heardRing else heardMusic
    }

    /** Where the given track goes on. */
    function Reached(t: Track): int {
      if t == loaded then pos else Saved(t)
    }
  }

  datatype Event = Start(track: Track) | Read(len: nat) | Pause | Resume(track: Track)

  datatype Recordings = Recordings(ring: seq<byte>, music: seq<byte>) {
    function Of(t: Track): seq<byte> {
      if t == Ring then ring else if t == Music then music else []
    }
  }

  const FRESH: State := State(0, 0, 0, Nothing, Nothing, false, [], [])

  /** The bytes one read delivers. */
  function Chunk(r: Recordings, s: State, len: nat): seq<byte>
    requires 0 <= s.pos <= |r.Of(s.loaded)|
  {
    var left := |r.Of(s.loaded)| - s.pos;
    r.Of(s.loaded)[s.pos..s.pos + if len < left then len else left]
  }

  predicate InTrack(r: Recordings, s: State) {
    0 <= s.pos <= |r.Of(s.loaded)|
  }

  function Step(r: Recordings, s: State, e: Event): State
    requires e.Read? ==> InTrack(r, s)
  {
    match e
    case Start(t) => s.(pos := 0, playing := t, loaded := t, paused := false)
    case Read(len) =>
      var c := Chunk(r, s, len);
      s.(pos := s.pos + |c|,
         heardRing := if s.loaded == Ring then s.heardRing + c else s.heardRing,
         heardMusic := if s.loaded == Music then s.heardMusic + c else s.heardMusic)
    case Pause =>
      s.(posRing := if s.playing == Ring then s.pos else s.posRing,
         posMusic := if s.playing == Music then s.pos else s.posMusic,
         paused := true)
    case Resume(t) =>
      if s.playing == t then s else s.(loaded := t, pos := s.Saved(t), playing := t, paused := false)
  }

  class Player {
    const recordings: Recordings
    var mp3Pos: int
    var mp3PosRing: int
    var mp3PosMusic: int
    var loaded: Track
    var stateRunning: Track
    var paused: bool
    ghost var heardRing: seq<byte>
    ghost var heardMusic: seq<byte>

    constructor (r: Recordings)
      ensures recordings == r && View() == FRESH
    {
      recordings := r;
      mp3Pos, mp3PosRing, mp3PosMusic, loaded, stateRunning, paused := 0, 0, 0, Nothing, Nothing, false;
      heardRing, heardMusic := [], [];
    }

    ghost function View(): State
      reads this
    {
      State(mp3Pos, mp3PosRing, mp3PosMusic, loaded, stateRunning, paused, heardRing, heardMusic)
    }

    /** mp3_music_read_cb: None is AEL_IO_DONE. */
    method ReadCb(buf: array<byte>, len: nat) returns (readSize: nat, done: bool)
      requires InTrack(recordings, View()) && len <= buf.Length
      modifies this, buf
      ensures View() == Step(recordings, old(View()), Read(len))
      ensures readSize <= len && buf[..readSize] == Chunk(recordings, old(View()), len)
      ensures done <==> old(mp3Pos) == |recordings.Of(loaded)|
    {
      var size := |recordings.Of(loaded)| - mp3Pos;
      if size == 0 {
        return 0, true;
      } else if len < size {
        size := len;
      }
      ghost var c := Chunk(recordings, View(), len);
      var from := mp3Pos;
      var i := 0;
      while i < size
        modifies buf
        invariant 0 <= i <= size
        invariant forall k | 0 <= k < i :: buf[k] == recordings.Of(loaded)[from + k]
      {
        buf[i] := recordings.Of(loaded)[from + i];
        i := i + 1;
      }
      assert buf[..size] == c;
      mp3Pos := mp3Pos + size;
      heardRing := if loaded == Ring then heardRing + c else heardRing;
      heardMusic := if loaded == Music then heardMusic + c else heardMusic;
      return size, false;
    }

    method StartMusic(name: Track)
      requires name != Nothing
      modifies this
      ensures View() == Step(recordings, old(View()), Start(name))
    {
      mp3Pos := 0;
      stateRunning := name;
      PlayMp3File(name);
    }

    method PlayMp3File(name: Track)
      modifies this
      ensures View() == old(View()).(loaded := name, paused := false)
    {
      loaded := name;
      paused := false;
    }

    method PauseMusicPlaying()
      modifies this
      ensures View() == Step(recordings, old(View()), Pause)
    {
      if stateRunning == Ring {
        mp3PosRing := mp3Pos;
      } else if stateRunning == Music {
        mp3PosMusic := mp3Pos;
      }
      paused := true;
    }

    method ResumeMusic(name: Track)
      requires name != Nothing
      modifies this
      ensures View() == Step(recordings, old(View()), Resume(name))
    {
      match name {
        case Ring =>
          if stateRunning == Ring {
            return;
          }
          loaded := Ring;
          mp3Pos := mp3PosRing;
          stateRunning := Ring;
        case Music =>
          if stateRunning == Music {
            return;
          }
          loaded := Music;
          mp3Pos := mp3PosMusic;
          stateRunning := Music;
      }
      paused := false;
    }
  }

  // ---------------------------------------------------------------- runs

  /** Reads only happen while the pipeline runs, and tracks are only switched while it is paused. */
  predicate Legal(s: State, e: Event) {
    match e
    case Start(_) => false
    case Read(_) => !s.paused
    case Pause => true
    case Resume(t) => t != Nothing && (t == s.playing || s.paused)
  }

  /** Each track has delivered exactly its bytes up to where it goes on; the state names the loaded track. */
  ghost predicate Inv(r: Recordings, s: State) {
    && s.loaded != Nothing && s.playing == s.loaded
    && (forall t | t != Nothing :: 0 <= s.Reached(t) <= |r.Of(t)| && s.Heard(t) == r.Of(t)[..s.Reached(t)])
    && (s.paused ==> s.Saved(s.loaded) == s.pos)
  }

  ghost predicate LegalRun(r: Recordings, s: State, es: seq<Event>)
    requires Inv(r, s)
    decreases |es|
  {
    es == [] || (Legal(s, es[0]) && (StepKeepsInv(r, s, es[0]); LegalRun(r, Step(r, s, es[0]), es[1..])))
  }

  lemma StepKeepsInv(r: Recordings, s: State, e: Event)
    requires Inv(r, s) && Legal(s, e)
    ensures Inv(r, Step(r, s, e))
  {
    var t := Step(r, s, e);
    assert 0 <= s.Reached(s.loaded) <= |r.Of(s.loaded)|;
    forall x: Track | x != Nothing
      ensures 0 <= t.Reached(x) <= |r.Of(x)| && t.Heard(x) == r.Of(x)[..t.Reached(x)]
    {
      assert 0 <= s.Reached(x) <= |r.Of(x)| && s.Heard(x) == r.Of(x)[..s.Reached(x)];
      if e.Read? && x == s.loaded {
        var c := Chunk(r, s, e.len);
        assert r.Of(x)[..s.pos] + c == r.Of(x)[..s.pos + |c|];
      }
    }
  }

  function Run(r: Recordings, s: State, es: seq<Event>): State
    requires Inv(r, s) && LegalRun(r, s, es)
    decreases |es|
  {
    if es == [] then s else
    StepKeepsInv(r, s, es[0]);
    Run(r, Step(r, s, es[0]), es[1..])
  }

  lemma {:induction false} RunKeepsInv(r: Recordings, s: State, es: seq<Event>)
    requires Inv(r, s) && LegalRun(r, s, es)
    ensures Inv(r, Run(r, s, es))
    decreases |es|
  {
    if es != [] {
      StepKeepsInv(r, s, es[0]);
      RunKeepsInv(r, Step(r, s, es[0]), es[1..]);
    }
  }

  function Begun(r: Recordings): (s: State)
    ensures Inv(r, s)
  {
    Step(r, FRESH, Start(Ring))
  }

  /** Over every legal run from the start of the ring, both tracks are delivered without gap or repetition, up to
      where they go on, and the state names the track being read. */
  lemma TracksGapFree(r: Recordings, es: seq<Event>)
    requires LegalRun(r, Begun(r), es)
    ensures var s := Run(r, Begun(r), es);
      && InTrack(r, s) && s.playing == s.loaded
      && s.heardRing <= r.ring && s.heardMusic <= r.music
      && |s.Heard(s.loaded)| == s.pos
      && |s.heardRing| == s.Reached(Ring) && |s.heardMusic| == s.Reached(Music)
  {
    RunKeepsInv(r, Begun(r), es);
    var s := Run(r, Begun(r), es);
    assert s.Heard(Ring) == r.Of(Ring)[..s.Reached(Ring)] && s.Heard(Music) == r.Of(Music)[..s.Reached(Music)];
  }

  /** Switching keeps the tracks in order exactly when the position of the current track has been saved. */
  lemma ResumeExactly(r: Recordings, s: State, t: Track)
    requires Inv(r, s) && t != Nothing
    ensures Inv(r, Step(r, s, Resume(t))) <==> t == s.playing || s.Saved(s.loaded) == s.pos
  {
    var u := Step(r, s, Resume(t));
    assert s.Heard(s.loaded) == r.Of(s.loaded)[..s.Reached(s.loaded)];
    assert s.Heard(t) == r.Of(t)[..s.Reached(t)];
    if t != s.playing {
      assert u.Reached(s.loaded) == s.Saved(s.loaded) && u.Heard(s.loaded) == s.Heard(s.loaded);
      if s.Saved(s.loaded) != s.pos && 0 <= s.Saved(s.loaded) <= |r.Of(s.loaded)| {
        assert |r.Of(s.loaded)[..s.Saved(s.loaded)]| != |s.Heard(s.loaded)|;
      }
    }
  }

  function Other(t: Track): Track {
    if t == Ring then Music else Ring
  }

  /** Switching away without a pause and back again delivers bytes a second time. */
  lemma StaleResumeRepeats(r: Recordings, s: State)
    requires Inv(r, s) && 0 <= s.Saved(s.loaded) < s.pos
    ensures var back := Step(r, Step(r, Step(r, s, Resume(Other(s.loaded))), Pause), Resume(s.loaded));
      && InTrack(r, back)
      && Step(r, back, Read(1)).Heard(s.loaded) == s.Heard(s.loaded) + [r.Of(s.loaded)[s.Saved(s.loaded)]]
  {
    assert 0 <= s.Reached(s.loaded) <= |r.Of(s.loaded)|;
    var back := Step(r, Step(r, Step(r, s, Resume(Other(s.loaded))), Pause), Resume(s.loaded));
    assert back.pos == s.Saved(s.loaded) && back.loaded == s.loaded && back.Heard(s.loaded) == s.Heard(s.loaded);
    assert Chunk(r, back, 1) == [r.Of(s.loaded)[s.Saved(s.loaded)]];
  }

  // ---------------------------------------------------------------- progress

  /** A legal read adds the next n bytes of the loaded track, or what is left of it, and touches nothing else. */
  lemma ReadDelivers(r: Recordings, s: State, n: nat)
    requires Inv(r, s) && !s.paused
    ensures Legal(s, Read(n)) && InTrack(r, s)
    ensures var (t, u) := (s.loaded, Step(r, s, Read(n)));
      var (heard, track) := (|s.Heard(t)|, r.Of(t));
      && heard <= |track|
      && u.Heard(t) == s.Heard(t) + track[heard..if heard + n < |track| then heard + n else |track|]
      && u.Heard(Other(t)) == s.Heard(Other(t)) && !u.paused && u.playing == s.playing
  {
    assert 0 <= s.Reached(s.loaded) <= |r.Of(s.loaded)| && s.Heard(s.loaded) == r.Of(s.loaded)[..s.Reached(s.loaded)];
  }

  /** Starting a track begins it, from any state: it plays, from its first byte. */
  lemma StartPlays(r: Recordings, s: State, t: Track)
    requires t != Nothing
    ensures var u := Step(r, s, Start(t)); !u.paused && u.loaded == u.playing == t && u.pos == 0 && Legal(u, Read(1))
  {
  }

  /** Switching to the other track plays it, from where it was left. */
  lemma ResumePlays(r: Recordings, s: State, t: Track)
    requires Inv(r, s) && t != Nothing && t != s.playing && Legal(s, Resume(t))
    ensures var u := Step(r, s, Resume(t));
      && Inv(r, u) && !u.paused && u.playing == u.loaded == t && u.pos == |s.Heard(t)|
      && u.heardRing == s.heardRing && u.heardMusic == s.heardMusic
  {
    StepKeepsInv(r, s, Resume(t));
    assert s.Heard(t) == r.Of(t)[..s.Reached(t)] && 0 <= s.Reached(t) <= |r.Of(t)|;
  }

  /** A pause stops the reads; resuming the track that was paused does not let them go on, only the other one does. */
  lemma PauseStops(r: Recordings, s: State, n: nat)
    requires Inv(r, s)
    ensures var u := Step(r, s, Pause);
      && Inv(r, u) && u.paused && !Legal(u, Read(n)) && u.pos == s.pos && u.playing == s.playing
      && u.heardRing == s.heardRing && u.heardMusic == s.heardMusic
      && Legal(u, Resume(s.playing)) && Step(r, u, Resume(s.playing)) == u
      && Legal(u, Resume(Other(s.playing))) && !Step(r, u, Resume(Other(s.playing))).paused
  {
    StepKeepsInv(r, s, Pause);
    ResumePlays(r, Step(r, s, Pause), Other(s.playing));
  }

  /** What plays a track to its end. */
  function ToTheEnd(r: Recordings, s: State, t: Track): seq<Event> {
    var rest := [Read(|r.Of(t)|)];
    if t != s.playing then [Pause, Resume(t)] + rest
    else if s.paused then [Resume(Other(t)), Pause, Resume(t)] + rest
    else rest
  }

  lemma RunFirst(r: Recordings, s: State, e: Event, es: seq<Event>)
    requires Inv(r, s) && Legal(s, e) && Inv(r, Step(r, s, e)) && LegalRun(r, Step(r, s, e), es)
    ensures LegalRun(r, s, [e] + es) && Run(r, s, [e] + es) == Run(r, Step(r, s, e), es)
  {
    assert ([e] + es)[1..] == es;
  }

  lemma ReadsRest(r: Recordings, s: State)
    requires Inv(r, s) && !s.paused
    ensures var es := [Read(|r.Of(s.loaded)|)];
      LegalRun(r, s, es) && Run(r, s, es).Heard(s.loaded) == r.Of(s.loaded)
  {
    var e := Read(|r.Of(s.loaded)|);
    assert s.Heard(s.loaded) == r.Of(s.loaded)[..s.Reached(s.loaded)] && 0 <= s.Reached(s.loaded);
    ReadDelivers(r, s, |r.Of(s.loaded)|);
    StepKeepsInv(r, s, e);
    RunFirst(r, s, e, []);
    assert [e] + [] == [e];
  }

  /** Switching to a track, from any reachable state with it not playing, and reading delivers the whole of it. */
  lemma SwitchFinishes(r: Recordings, s: State, t: Track)
    requires Inv(r, s) && t != Nothing && t != s.playing
    ensures var es := [Pause, Resume(t), Read(|r.Of(t)|)]; LegalRun(r, s, es) && Run(r, s, es).Heard(t) == r.Of(t)
  {
    hide Step, Legal;
    PauseStops(r, s, 0);
    var u := Step(r, s, Pause);
    assert t == Other(s.playing);
    ResumePlays(r, u, t);
    var v := Step(r, u, Resume(t));
    ReadsRest(r, v);
    LegalPause(s);
    RunFirst(r, u, Resume(t), [Read(|r.Of(t)|)]);
    RunFirst(r, s, Pause, [Resume(t)] + [Read(|r.Of(t)|)]);
    assert [Pause] + ([Resume(t)] + [Read(|r.Of(t)|)]) == [Pause, Resume(t), Read(|r.Of(t)|)];
  }

  lemma LegalPause(s: State)
    ensures Legal(s, Pause)
  {
  }

  /** Whatever has happened since the start of the ring, both tracks can still be played to their end: no legal run
      leads to a state in which the player is stuck. */
  lemma EveryTrackFinishes(r: Recordings, es: seq<Event>, t: Track)
    requires LegalRun(r, Begun(r), es) && t != Nothing
    ensures var s := Run(r, Begun(r), es);
      && Inv(r, s) && LegalRun(r, s, ToTheEnd(r, s, t))
      && Run(r, s, ToTheEnd(r, s, t)).Heard(t) == r.Of(t)
  {
    hide Step, Run, LegalRun;
    RunKeepsInv(r, Begun(r), es);
    var s := Run(r, Begun(r), es);
    var rest := [Read(|r.Of(t)|)];
    if t != s.playing {
      SwitchFinishes(r, s, t);
      assert [Pause, Resume(t)] + rest == [Pause, Resume(t), Read(|r.Of(t)|)];
    } else if s.paused {
      ResumePlays(r, s, Other(t));
      SwitchFinishes(r, Step(r, s, Resume(Other(t))), t);
      RunFirst(r, s, Resume(Other(t)), [Pause, Resume(t), Read(|r.Of(t)|)]);
      assert [Resume(Other(t)), Pause, Resume(t)] + rest
        == [Resume(Other(t))] + [Pause, Resume(t), Read(|r.Of(t)|)];
    } else {
      ReadsRest(r, s);
    }
  }
}
