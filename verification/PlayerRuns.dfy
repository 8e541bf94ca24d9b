/** Runs of the main loop and the player thread, step by step and in any interleaving (src/pianod.c:81-239,
    357-418 and 436-556, src/player.c:56-84, 202-236, 392-493 and 517-620, src/command.c:383-440, 1010-1060
    and 1103-1108, src/support.c:200-222, 231-264 and 622-637). A step is what the main thread does under
    the mutex or while nobody else can tell, or what the player thread does between two points where it
    looks. */
module PlayerRuns {
  import opened Basics

  // ---------------------------------------------------------------- songs and stations

  /** A node of libpiano's song lists. Nodes are numbered as they are made. */
  datatype Song = Song(node: nat, station: string, hasUrl: bool)

  datatype Selection = NoStation | QuickMix | Station(id: string)

  /** Whether a queued song may still be played, given the stations in the mix. */
  predicate Suits(selected: Selection, mix: set<string>, song: Song) {
    match selected
    case NoStation => false
    case QuickMix => song.station in mix
    case Station(id) => song.station == id
  }

  /** The playlist from its first suitable song on. */
  function Purged(playlist: seq<Song>, selected: Selection, mix: set<string>): (r: seq<Song>)
    ensures |r| <= |playlist|
  {
    if playlist == [] || Suits(selected, mix, playlist[0]) then playlist else Purged(playlist[1..], selected, mix)
  }

  /** What is dropped is the unsuitable songs in front, and no more. */
  lemma {:induction false} PurgedIsRest(playlist: seq<Song>, selected: Selection, mix: set<string>)
    ensures var r := Purged(playlist, selected, mix);
            && r == playlist[|playlist| - |r|..]
            && (r != [] ==> Suits(selected, mix, r[0]))
            && forall i :: 0 <= i < |playlist| - |r| ==> !Suits(selected, mix, playlist[i])
  {
    if playlist != [] && !Suits(selected, mix, playlist[0]) {
      PurgedIsRest(playlist[1..], selected, mix);
    }
  }

  lemma PurgedFirst(playlist: seq<Song>, selected: Selection, mix: set<string>)
    ensures if playlist == [] || Suits(selected, mix, playlist[0]) then Purged(playlist, selected, mix) == playlist
            else Purged(playlist, selected, mix) == Purged(playlist[1..], selected, mix)
  {
  }

  function Newest(songs: seq<Song>, n: nat): seq<Song> {
    if |songs| <= n then songs else songs[..n]
  }

  function AsSeq(current: Option<Song>): seq<Song> {
    if current.None? then [] else [current.value]
  }

  // ---------------------------------------------------------------- states

  datatype Mode = Freed | Starting | Initialized | FoundEsds | AudioInitialized | FoundStsz | SampleSizeInitialized
    | RecvData | FinishedPlayback

  function Rank(mode: Mode): nat {
    match mode
    case Freed => 0
    case Starting => 1
    case Initialized => 2
    case FoundEsds => 3
    case AudioInitialized => 4
    case FoundStsz => 5
    case SampleSizeInitialized => 6
    case RecvData => 7
    case FinishedPlayback => 8
  }

  /** What the player thread is doing: at work, having passed a check since the last frame it played or
      not; waiting on the condition, having been signalled since or not; giving up after a check told it
      to; at its end. */
  datatype Thread = NoThread | AtWork(checked: bool) | Waiting(signalled: bool) | Aborting | Ended

  datatype Playback = Playing | Paused

  datatype Command = Play | Pause | PlayPause

  /** What came of a track: all right, an error that may pass, or one that will not. */
  datatype TrackResult = Fine | SoftFail | HardFail

  /** The program's state, with what it keeps no record of: where the thread is, the songs that went into
      the history, newest first, and those that were let go otherwise. */
  datatype State = State(
    mode: Mode, doPause: bool, doQuit: bool, framesPlayed: nat,
    playback: Playback, pausedSince: nat, selected: Selection, softErrors: nat,
    playlist: seq<Song>, current: Option<Song>, history: seq<Song>, historyLength: nat,
    thread: Thread, kept: seq<Song>, discarded: seq<Song>)

  function Init(historyLength: nat): State {
    State(Freed, false, false, 0, Paused, 0, NoStation, 0, [], None, [], historyLength, NoThread, [], [])
  }

  // ---------------------------------------------------------------- steps

  datatype Step =
    // of the player thread
    | ThreadInitialize(supported: bool)
    | Check
    | Advance(to: Mode)
    | PlayFrame
    | ThreadFinish
    // of the main thread
    | Select(selection: Selection)
    | Control(command: Command, now: nat)
    | Cancel
    | SetHistoryLength(length: nat)
    | GoIdle
    | Purge(mix: set<string>)
    | Fetch(songs: seq<Song>)
    | Start
    | Expire
    | Cleanup(result: TrackResult)

  /** A thread that runs, between its start and its end. */
  predicate Alive(s: State) {
    Rank(Starting) <= Rank(s.mode) <= Rank(RecvData)
  }

  /** When the program can take a step. The frames of a song are played one by one, with a check before
      each; modes are passed through behind a check as well. */
  predicate Enabled(s: State, step: Step) {
    match step
    case ThreadInitialize(_) => s.mode == Starting && s.thread == AtWork(false)
    case Check => Rank(Initialized) <= Rank(s.mode) <= Rank(RecvData) && (s.thread.AtWork? || s.thread.Waiting?)
    case Advance(to) => s.thread == AtWork(true) && Rank(Initialized) <= Rank(s.mode) < Rank(to) <= Rank(RecvData)
    case PlayFrame => s.thread == AtWork(true) && s.mode == RecvData
    case ThreadFinish => Rank(Initialized) <= Rank(s.mode) <= Rank(RecvData) && (s.thread.AtWork? || s.thread == Aborting)
    case Select(_) => true
    case Control(_, now) => now > 0
    case Cancel => true
    case SetHistoryLength(_) => true
    case GoIdle => s.mode == Freed && s.selected == NoStation
    case Purge(_) => true
    case Fetch(_) => s.playlist == []
    case Start => s.mode == Freed && s.playlist != [] && s.playback == Playing
    case Expire => true
    case Cleanup(_) => s.mode == FinishedPlayback && s.current.Some?
  }

  /** pthread_cond_broadcast */
  function Signalled(thread: Thread): Thread {
    if thread.Waiting? then Waiting(true) else thread
  }

  function Commanded(command: Command, playback: Playback): Playback {
    match command
    case Play => Playing
    case Pause => Paused
    case PlayPause => if playback == Playing then Paused else Playing
  }

  /** BarPlayerCheckPauseQuit, up to its end or its next wait. */
  function Checked(s: State): Thread {
    if s.doQuit then if Rank(s.mode) >= Rank(SampleSizeInitialized) then Aborting else AtWork(true)
    else if s.doPause then Waiting(false)
    else AtWork(true)
  }

  /** control_playback */
  function Controlled(s: State, command: Command, now: nat): State {
    var playback := Commanded(command, s.playback);
    if s.mode != Freed then
      s.(playback := playback, doPause := playback == Paused, thread := Signalled(s.thread),
         pausedSince := if playback == Playing then 0 else if s.pausedSince == 0 then now else s.pausedSince)
    else if s.selected == NoStation then s
    else s.(playback := playback)
  }

  /** What an error does to the selected station: nothing if it was a single one that may pass. */
  function Judged(s: State, result: TrackResult): State {
    match result
    case Fine => s.(softErrors := 0)
    case SoftFail => s.(softErrors := s.softErrors + 1, selected := if s.softErrors > 0 then NoStation else s.selected)
    case HardFail => s.(selected := NoStation)
  }

  /** prepend_history. With a history of no length the song goes nowhere. */
  function Prepended(s: State, song: Song): State {
    if s.historyLength == 0 then s.(discarded := s.discarded + [song])
    else s.(history := Newest([song] + s.history, s.historyLength), kept := [song] + s.kept)
  }

  /** playback_cleanup */
  function CleanedUp(s: State, result: TrackResult): State
    requires s.current.Some?
  {
    Prepended(Judged(s, result).(mode := Freed, doPause := false, doQuit := false, framesPlayed := 0,
                                 thread := NoThread, current := None), s.current.value)
  }

  /** All of the playlist but its last part is let go. */
  function OnlyLeft(s: State, rest: seq<Song>): State
    requires |rest| <= |s.playlist|
  {
    s.(playlist := rest, discarded := s.discarded + s.playlist[..|s.playlist| - |rest|])
  }

  /** playback_start. A song without an address is thrown away. */
  function Started(s: State): State
    requires s.playlist != []
  {
    var song, rest := s.playlist[0], s.playlist[1..];
    if song.hasUrl then
      s.(playlist := rest, current := Some(song), mode := Starting, thread := AtWork(false),
         doPause := false, doQuit := false, framesPlayed := 0)
    else s.(playlist := rest, discarded := s.discarded + [song])
  }

  function Apply(s: State, step: Step): State
    requires Enabled(s, step)
  {
    match step
    case ThreadInitialize(supported) =>
      if supported then s.(mode := Initialized) else s.(mode := FinishedPlayback, thread := Ended)
    case Check => s.(thread := Checked(s))
    case Advance(to) => s.(mode := to)
    case PlayFrame => s.(framesPlayed := s.framesPlayed + 1, thread := AtWork(false))
    case ThreadFinish => s.(mode := FinishedPlayback, thread := Ended)
    case Select(selection) => s.(selected := selection)
    case Control(command, now) => Controlled(s, command, now)
    case Cancel =>
      if Alive(s) then s.(doQuit := true, thread := Signalled(s.thread), pausedSince := 0) else s.(pausedSince := 0)
    case SetHistoryLength(length) => s.(historyLength := length)
    case GoIdle => s.(playback := Paused)
    case Purge(mix) => OnlyLeft(s, Purged(s.playlist, s.selected, mix))
    case Fetch(songs) => s.(playlist := songs, selected := if songs == [] then NoStation else s.selected)
    case Start => Started(s)
    case Expire => s.(playlist := [], discarded := s.discarded + s.playlist)
    case Cleanup(result) => CleanedUp(s, result)
  }

  lemma ApplyControl(s: State, command: Command, now: nat)
    requires now > 0
    ensures Enabled(s, Control(command, now)) && Apply(s, Control(command, now)) == Controlled(s, command, now)
  {
  }

  /** PLAY plays, PAUSE pauses and PLAYPAUSE does the other, and the player follows. Where there is neither
      player nor station nothing happens. */
  lemma ControlledMeans(s: State, command: Command, now: nat)
    requires now > 0
    ensures var t := Controlled(s, command, now); var accepted := s.mode != Freed || s.selected != NoStation;
            && (accepted && command.Play? ==> t.playback == Playing)
            && (accepted && command.Pause? ==> t.playback == Paused)
            && (accepted && command.PlayPause? ==> t.playback != s.playback)
            && (!accepted ==> t.playback == s.playback)
            && (if s.mode != Freed then t.doPause <==> t.playback == Paused else t.doPause == s.doPause)
            && (s.mode != Freed ==> (t.pausedSince == 0 <==> t.playback == Playing))
            && (s.mode != Freed && s.thread.Waiting? ==> t.thread == Waiting(true))
            && (s.mode != Freed && t.playback == Paused && s.pausedSince != 0 ==> t.pausedSince == s.pausedSince)
            && (s.mode == Freed ==> t.pausedSince == s.pausedSince)
  {
  }

  lemma ApplyPurge(s: State, mix: set<string>)
    ensures Enabled(s, Purge(mix)) && Apply(s, Purge(mix)) == OnlyLeft(s, Purged(s.playlist, s.selected, mix))
  {
  }

  lemma ApplyCleanup(s: State, result: TrackResult)
    requires s.mode == FinishedPlayback && s.current.Some?
    ensures Enabled(s, Cleanup(result)) && Apply(s, Cleanup(result)) == CleanedUp(s, result)
  {
  }

  /** Some songs at the front of the playlist are let go. */
  function Dropped(s: State, n: nat): State
    requires n <= |s.playlist|
  {
    s.(playlist := s.playlist[n..], discarded := s.discarded + s.playlist[..n])
  }

  lemma PurgeDrops(s: State, mix: set<string>)
    ensures Enabled(s, Purge(mix))
    ensures Apply(s, Purge(mix)) == Dropped(s, |s.playlist| - |Purged(s.playlist, s.selected, mix)|)
  {
    PurgedIsRest(s.playlist, s.selected, mix);
    hide Purged;
  }

  // ---------------------------------------------------------------- runs

  /** Every step of a run from the start can be taken when its turn comes. */
  ghost predicate CanRun(length: nat, run: seq<Step>)
    decreases |run|, 0
  {
    run == [] || (CanRun(length, run[..|run| - 1]) && Enabled(After(length, run[..|run| - 1]), run[|run| - 1]))
  }

  ghost function After(length: nat, run: seq<Step>): State
    requires CanRun(length, run)
    decreases |run|, 1
  {
    if run == [] then Init(length) else Apply(After(length, run[..|run| - 1]), run[|run| - 1])
  }

  /** All songs fetched in a run, in that order. */
  function Fetched(run: seq<Step>): seq<Song> {
    if run == [] then []
    else
      var last := run[|run| - 1];
      Fetched(run[..|run| - 1]) + if last.Fetch? then last.songs else []
  }

  lemma RunStep(length: nat, run: seq<Step>, step: Step)
    requires CanRun(length, run) && Enabled(After(length, run), step)
    ensures CanRun(length, run + [step]) && After(length, run + [step]) == Apply(After(length, run), step)
    ensures Fetched(run + [step]) == Fetched(run) + if step.Fetch? then step.songs else []
  {
    assert (run + [step])[..|run|] == run;
  }

  lemma {:induction false} CanRunPrefix(length: nat, run: seq<Step>, k: nat)
    requires CanRun(length, run) && k <= |run|
    ensures CanRun(length, run[..k])
    decreases |run|
  {
    if k < |run| {
      CanRunPrefix(length, run[..|run| - 1], k);
      assert run[..|run| - 1][..k] == run[..k];
    } else {
      assert run[..k] == run;
    }
  }

  /** One more step of a run, at its place. */
  lemma StepAt(length: nat, run: seq<Step>, k: nat)
    requires CanRun(length, run) && k < |run|
    ensures CanRun(length, run[..k]) && CanRun(length, run[..k + 1]) && Enabled(After(length, run[..k]), run[k])
    ensures After(length, run[..k + 1]) == Apply(After(length, run[..k]), run[k])
  {
    CanRunPrefix(length, run, k + 1);
    assert run[..k + 1][..k] == run[..k];
  }

  /** One run is the other and perhaps more. */
  predicate Extends(run: seq<Step>, was: seq<Step>) {
    was <= run
  }

  lemma ExtendsOn(run: seq<Step>, more: seq<Step>)
    ensures Extends(run, run) && Extends(run + more, run)
  {
  }

  lemma ExtendsTrans(run: seq<Step>, between: seq<Step>, was: seq<Step>)
    requires Extends(run, between) && Extends(between, was)
    ensures Extends(run, was)
  {
  }

  // ---------------------------------------------------------------- what holds in every state

  ghost predicate Inv(s: State) {
    // the thread, the mode and the current song belong together
    && (s.mode == Freed <==> s.thread == NoThread)
    && (s.mode == FinishedPlayback <==> s.thread == Ended)
    && (s.mode == Freed <==> s.current == None)
    && (s.thread == Aborting ==> s.doQuit && Rank(s.mode) >= Rank(SampleSizeInitialized))
    // a thread asleep without a signal has every reason to be
    && (s.thread == Waiting(false) ==> s.doPause && !s.doQuit)
    // while there is a player it is to pause exactly when playback is paused
    && (if s.mode == Freed then !s.doPause && !s.doQuit else s.doPause <==> s.playback == Paused)
    // the history holds the newest of the songs that went into it
    && s.history == Newest(s.kept, |s.history|)
  }

  /** The steps of the player thread. */
  predicate OfThread(step: Step) {
    step.ThreadInitialize? || step.Check? || step.Advance? || step.PlayFrame? || step.ThreadFinish?
  }

  lemma ThreadKeepsInv(s: State, step: Step)
    requires Inv(s) && Enabled(s, step) && OfThread(step)
    ensures Inv(Apply(s, step))
  {
    hide Newest;
  }

  lemma MainKeepsInv(s: State, step: Step)
    requires Inv(s) && Enabled(s, step) && !OfThread(step) && !step.Cleanup?
    ensures Inv(Apply(s, step))
  {
    hide Newest, Purged;
  }

  lemma CleanupKeepsInv(s: State, result: TrackResult)
    requires Inv(s) && s.current.Some?
    ensures Inv(CleanedUp(s, result))
  {
  }

  lemma StepKeepsInv(s: State, step: Step)
    requires Inv(s) && Enabled(s, step)
    ensures Inv(Apply(s, step))
  {
    if OfThread(step) {
      ThreadKeepsInv(s, step);
    } else if step.Cleanup? {
      ApplyCleanup(s, step.result);
      CleanupKeepsInv(s, step.result);
    } else {
      MainKeepsInv(s, step);
    }
    hide *;
  }

  lemma {:induction false} RunKeepsInv(length: nat, run: seq<Step>)
    requires CanRun(length, run)
    ensures Inv(After(length, run))
    decreases |run|
  {
    hide Inv, Enabled, Apply;
    if run == [] {
      InitInv(length);
    } else {
      RunKeepsInv(length, run[..|run| - 1]);
      StepKeepsInv(After(length, run[..|run| - 1]), run[|run| - 1]);
    }
  }

  lemma InitInv(length: nat)
    ensures Inv(Init(length))
  {
  }

  // ---------------------------------------------------------------- orders to stop, over whole runs

  /** No song is cleaned up from step `i` on. */
  predicate SameSong(run: seq<Step>, i: nat) {
    forall k :: i <= k < |run| ==> !run[k].Cleanup?
  }

  /** A cancel stays in force, and the song stays the current one, until that song is cleaned up. */
  lemma CancelLasts(s: State, step: Step)
    requires Inv(s) && Enabled(s, step) && s.doQuit && !step.Cleanup?
    ensures Apply(s, step).doQuit && Apply(s, step).current == s.current
  {
  }

  /** A thread that gives up does nothing more than end, until it is cleaned up. */
  lemma GivingUpLasts(s: State, step: Step)
    requires Inv(s) && Enabled(s, step) && (s.thread == Aborting || s.thread == Ended) && !step.Cleanup?
    ensures !step.Check? && !step.Advance? && !step.PlayFrame?
    ensures var t := Apply(s, step);
            (t.thread == Aborting || t.thread == Ended) && t.framesPlayed == s.framesPlayed
  {
  }

  lemma {:induction false} CancelLastsOver(length: nat, run: seq<Step>, i: nat, j: nat)
    requires CanRun(length, run) && i <= j <= |run| && SameSong(run[..j], i)
    requires CanRun(length, run[..i]) && After(length, run[..i]).doQuit
    ensures CanRun(length, run[..j]) && After(length, run[..j]).doQuit
    ensures After(length, run[..j]).current == After(length, run[..i]).current
    decreases j
  {
    hide Inv, Enabled, Apply, CanRun, After;
    if i < j {
      assert SameSong(run[..j - 1], i) by {
        assert forall k :: i <= k < j - 1 ==> run[..j][k] == run[..j - 1][k];
      }
      CancelLastsOver(length, run, i, j - 1);
      StepAt(length, run, j - 1);
      RunKeepsInv(length, run[..j - 1]);
      assert run[..j][j - 1] == run[j - 1];
      CancelLasts(After(length, run[..j - 1]), run[j - 1]);
    }
  }

  lemma {:induction false} GivingUpLastsOver(length: nat, run: seq<Step>, i: nat, j: nat)
    requires CanRun(length, run) && i <= j <= |run| && SameSong(run[..j], i)
    requires CanRun(length, run[..i]) && (After(length, run[..i]).thread == Aborting || After(length, run[..i]).thread == Ended)
    ensures CanRun(length, run[..j]) && (After(length, run[..j]).thread == Aborting || After(length, run[..j]).thread == Ended)
    ensures After(length, run[..j]).framesPlayed == After(length, run[..i]).framesPlayed
    decreases j
  {
    hide Inv, Enabled, Apply, CanRun, After;
    if i < j {
      assert SameSong(run[..j - 1], i) by {
        assert forall k :: i <= k < j - 1 ==> run[..j][k] == run[..j - 1][k];
      }
      GivingUpLastsOver(length, run, i, j - 1);
      StepAt(length, run, j - 1);
      RunKeepsInv(length, run[..j - 1]);
      assert run[..j][j - 1] == run[j - 1];
      GivingUpLasts(After(length, run[..j - 1]), run[j - 1]);
    }
  }

  /** Where a song was cancelled at step `i`, the first check that finds the decoder far enough, at step
      `j`, makes the thread give up; after that, at step `k`, it neither checks nor decodes nor plays,
      and the song is still the one cancelled, up to its cleanup. */
  lemma CancelEndsSong(length: nat, run: seq<Step>, i: nat, j: nat, k: nat)
    requires CanRun(length, run) && i < j < k < |run|
    requires run[i].Cancel? && CanRun(length, run[..i]) && Alive(After(length, run[..i]))
    requires SameSong(run[..k + 1], i)
    requires run[j].Check? && CanRun(length, run[..j])
    requires Rank(After(length, run[..j]).mode) >= Rank(SampleSizeInitialized)
    ensures CanRun(length, run[..j + 1]) && After(length, run[..j + 1]).thread == Aborting
    ensures !run[k].Check? && !run[k].Advance? && !run[k].PlayFrame?
    ensures CanRun(length, run[..k]) && After(length, run[..k]).current == After(length, run[..i]).current
    ensures After(length, run[..k]).framesPlayed == After(length, run[..j]).framesPlayed
  {
    hide *;
    StepAt(length, run, i);
    StepAt(length, run, j);
    CancelStarts(After(length, run[..i]), run[i]);
    SameSongWithin(run, i, k + 1, i + 1, j);
    CancelLastsOver(length, run, i + 1, j);
    CheckQuits(After(length, run[..j]), run[j]);
    SameSongWithin(run, i, k + 1, i + 1, k);
    CancelLastsOver(length, run, i + 1, k);
    SameSongWithin(run, i, k + 1, j + 1, k);
    GivingUpLastsOver(length, run, j + 1, k);
    StepAt(length, run, k);
    RunKeepsInv(length, run[..k]);
    SameSongAt(run, i, k);
    GivingUpLasts(After(length, run[..k]), run[k]);
  }

  lemma CancelStarts(s: State, step: Step)
    requires Enabled(s, step) && step.Cancel? && Alive(s)
    ensures Apply(s, step).doQuit && Apply(s, step).current == s.current
  {
  }

  lemma CheckQuits(s: State, step: Step)
    requires Enabled(s, step) && step.Check? && s.doQuit && Rank(s.mode) >= Rank(SampleSizeInitialized)
    ensures Apply(s, step).thread == Aborting && Apply(s, step).framesPlayed == s.framesPlayed
  {
  }

  lemma SameSongAt(run: seq<Step>, i: nat, k: nat)
    requires i <= k < |run| && SameSong(run[..k + 1], i)
    ensures !run[k].Cleanup?
  {
    assert run[..k + 1][k] == run[k];
  }

  lemma SameSongWithin(run: seq<Step>, i: nat, n: nat, i': nat, n': nat)
    requires i <= i' && n' <= n <= |run| && SameSong(run[..n], i)
    ensures SameSong(run[..n'], i')
  {
    forall k | i' <= k < |run[..n']| ensures !run[..n'][k].Cleanup? {
      assert run[..n'][k] == run[..n][k];
    }
  }

  /** How far a song has got since `frames` of it were played and it was told to stop or to pause. */
  ghost predicate Stopping(s: State, frames: nat) {
    && (s.doQuit || s.doPause)
    && frames <= s.framesPlayed <= frames + 1
    && (s.framesPlayed == frames + 1 ==> Rank(s.mode) >= Rank(RecvData) && s.thread != AtWork(true))
  }

  lemma StoppingLasts(s: State, step: Step, frames: nat)
    requires Inv(s) && Enabled(s, step) && Stopping(s, frames) && !step.Cleanup?
    requires Apply(s, step).doQuit || Apply(s, step).doPause
    ensures Stopping(Apply(s, step), frames)
  {
  }

  /** While an order to stop or to pause is in force, at most one more frame of the song is played, the
      one whose check was passed before. */
  lemma {:induction false} OneMoreFrame(length: nat, run: seq<Step>, i: nat)
    requires CanRun(length, run) && i <= |run| && SameSong(run, i)
    requires forall k :: i <= k <= |run| ==> CanRun(length, run[..k]) && (After(length, run[..k]).doQuit || After(length, run[..k]).doPause)
    ensures After(length, run).framesPlayed <= After(length, run[..i]).framesPlayed + 1
    ensures Stopping(After(length, run), After(length, run[..i]).framesPlayed)
    decreases |run|
  {
    hide Inv, Enabled, Apply, CanRun, After, Stopping;
    if i == |run| {
      assert run[..i] == run;
      StoppingStarts(After(length, run));
    } else {
      var front, last := run[..|run| - 1], run[|run| - 1];
      forall k | i <= k <= |front| ensures front[..k] == run[..k] {
      }
      CanRunPrefix(length, run, |front|);
      OneMoreFrame(length, front, i);
      StepAt(length, run, |front|);
      RunKeepsInv(length, front);
      assert run[..|run|] == run;
      StoppingLasts(After(length, front), last, After(length, run[..i]).framesPlayed);
      StoppingMeans(After(length, run), After(length, run[..i]).framesPlayed);
    }
  }

  lemma StoppingStarts(s: State)
    requires s.doQuit || s.doPause
    ensures Stopping(s, s.framesPlayed)
  {
  }

  lemma StoppingMeans(s: State, frames: nat)
    requires Stopping(s, frames)
    ensures s.framesPlayed <= frames + 1
  {
  }

  /** No command to go on, and no cleanup, in a run from step `i` on. */
  predicate StaysPaused(run: seq<Step>, i: nat) {
    forall k :: i <= k < |run| ==> !run[k].Cleanup? && !(run[k].Control? && !run[k].command.Pause?)
  }

  lemma PauseStarts(s: State, step: Step)
    requires Inv(s) && Enabled(s, step) && step.Control? && step.command.Pause? && s.mode != Freed
    ensures Apply(s, step).doPause && Apply(s, step).playback == Paused && Apply(s, step).framesPlayed == s.framesPlayed
  {
  }

  lemma PauseLasts(s: State, step: Step)
    requires Inv(s) && Enabled(s, step) && s.doPause && !step.Cleanup? && !(step.Control? && !step.command.Pause?)
    ensures Apply(s, step).doPause
  {
  }

  lemma {:induction false} PauseLastsOver(length: nat, run: seq<Step>, i: nat, j: nat)
    requires CanRun(length, run) && i <= j <= |run| && StaysPaused(run, i)
    requires CanRun(length, run[..i]) && After(length, run[..i]).doPause
    ensures CanRun(length, run[..j]) && After(length, run[..j]).doPause
    decreases j
  {
    hide Inv, Enabled, Apply, CanRun, After;
    if i < j {
      PauseLastsOver(length, run, i, j - 1);
      StepAt(length, run, j - 1);
      RunKeepsInv(length, run[..j - 1]);
      PauseLasts(After(length, run[..j - 1]), run[j - 1]);
    }
  }

  lemma CheckWaits(s: State, step: Step)
    requires Enabled(s, step) && step.Check? && s.doPause
    ensures !s.doQuit ==> Apply(s, step).thread == Waiting(false)
    ensures s.doQuit && Rank(s.mode) >= Rank(SampleSizeInitialized) ==> Apply(s, step).thread == Aborting
  {
  }

  /** A PAUSE given at step `i` while there is a player holds, until a command to go on or the song's cleanup:
      a check finds it and waits, if the song is not cancelled, and at most one more frame is played. */
  lemma PauseHolds(length: nat, run: seq<Step>, i: nat, j: nat)
    requires CanRun(length, run) && i < j < |run| && StaysPaused(run, i + 1)
    requires run[i].Control? && run[i].command.Pause? && CanRun(length, run[..i]) && After(length, run[..i]).mode != Freed
    ensures CanRun(length, run[..j]) && After(length, run[..j]).doPause
    ensures run[j].Check? && !After(length, run[..j]).doQuit ==>
              CanRun(length, run[..j + 1]) && After(length, run[..j + 1]).thread == Waiting(false)
    ensures After(length, run[..j]).framesPlayed <= After(length, run[..i]).framesPlayed + 1
  {
    hide *;
    StepAt(length, run, i);
    RunKeepsInv(length, run[..i]);
    PauseStarts(After(length, run[..i]), run[i]);
    PauseLastsOver(length, run, i + 1, j);
    StepAt(length, run, j);
    if run[j].Check? {
      CheckWaits(After(length, run[..j]), run[j]);
    }
    OneFrameSincePause(length, run, i + 1, j);
  }

  lemma OneFrameSincePause(length: nat, run: seq<Step>, i: nat, j: nat)
    requires CanRun(length, run) && i <= j <= |run| && StaysPaused(run, i)
    requires CanRun(length, run[..i]) && After(length, run[..i]).doPause
    ensures CanRun(length, run[..j]) && After(length, run[..j]).framesPlayed <= After(length, run[..i]).framesPlayed + 1
  {
    hide Inv, Enabled, Apply, CanRun, After, Stopping;
    CanRunPrefix(length, run, j);
    forall k | i <= k <= |run[..j]|
      ensures CanRun(length, run[..j][..k]) && After(length, run[..j][..k]).doPause && run[..j][..k] == run[..k]
    {
      assert run[..j][..k] == run[..k];
      PauseLastsOver(length, run, i, k);
    }
    assert SameSong(run[..j], i) by {
      assert forall k :: i <= k < j ==> run[..j][k] == run[k];
    }
    OneMoreFrame(length, run[..j], i);
  }

  lemma PlayResumes(s: State, step: Step)
    requires Inv(s) && Enabled(s, step) && step.Control? && step.command.Play? && s.mode != Freed
    ensures var t := Apply(s, step);
            && !t.doPause && t.playback == Playing && (s.thread.Waiting? ==> t.thread == Waiting(true))
            && (Enabled(t, Check) ==> Apply(t, Check).thread == AtWork(true) || s.doQuit)
  {
  }

  // ---------------------------------------------------------------- waking up, over whole runs

  /** A step that signals to whoever waits. */
  predicate Signals(s: State, step: Step) {
    (step.Control? && s.mode != Freed) || (step.Cancel? && Alive(s))
  }

  lemma OnlyChecksWait(s: State, step: Step)
    requires Enabled(s, step) && Apply(s, step).thread == Waiting(false)
    ensures step.Check? || (s.thread == Waiting(false) && !Signals(s, step))
  {
  }

  /** A thread asleep without a signal went to sleep after every order there was: whatever was commanded
      or cancelled, it looked afterwards. */
  lemma {:induction false} NobodySleepsThrough(length: nat, run: seq<Step>, i: nat) returns (k: nat)
    requires CanRun(length, run) && After(length, run).thread == Waiting(false)
    requires i < |run| && CanRun(length, run[..i]) && Signals(After(length, run[..i]), run[i])
    ensures i < k < |run| && run[k].Check?
    decreases |run|
  {
    var front, last := run[..|run| - 1], run[|run| - 1];
    OnlyChecksWait(After(length, front), last);
    if last.Check? && i < |front| {
      k := |front|;
    } else {
      assert i < |front|;
      assert front[..i] == run[..i];
      k := NobodySleepsThrough(length, front, i);
    }
  }

  // ---------------------------------------------------------------- where songs are, over whole runs

  /** One list is left of another when some of its entries are taken out. */
  predicate Remains(a: seq<Song>, b: seq<Song>)
    decreases |b|
  {
    a == [] || (b != [] && ((a[0] == b[0] && Remains(a[1..], b[1..])) || Remains(a, b[1..])))
  }

  lemma {:induction false} RemainsSelf(a: seq<Song>)
    ensures Remains(a, a)
  {
    if a != [] {
      RemainsSelf(a[1..]);
    }
  }

  lemma {:induction false} RemainsAppend(a: seq<Song>, b: seq<Song>, more: seq<Song>)
    requires Remains(a, b)
    ensures Remains(a + more, b + more)
    decreases |b|
  {
    if b == [] {
      assert a + more == more && b + more == more;
      RemainsSelf(more);
    } else if a != [] && a[0] == b[0] && Remains(a[1..], b[1..]) {
      RemainsAppend(a[1..], b[1..], more);
      assert (a + more)[1..] == a[1..] + more && (b + more)[1..] == b[1..] + more;
    } else {
      assert Remains(a, b[1..]);
      RemainsAppend(a, b[1..], more);
      assert (b + more)[1..] == b[1..] + more;
    }
  }

  /** Taking more out. */
  lemma {:induction false} RemainsDrop(front: seq<Song>, dropped: seq<Song>, rest: seq<Song>, b: seq<Song>)
    requires Remains(front + dropped + rest, b)
    ensures Remains(front + rest, b)
    decreases |b|, |dropped|
  {
    var a, less := front + dropped + rest, front + rest;
    if less == [] {
    } else if a[0] == b[0] && Remains(a[1..], b[1..]) {
      if front != [] {
        assert a[1..] == front[1..] + dropped + rest && less[1..] == front[1..] + rest;
        RemainsDrop(front[1..], dropped, rest, b[1..]);
      } else if dropped != [] {
        assert a[1..] == [] + dropped[1..] + rest;
        RemainsDrop([], dropped[1..], rest, b[1..]);
        assert [] + rest == less;
      } else {
        assert a == less;
      }
    } else {
      assert Remains(a, b[1..]);
      RemainsDrop(front, dropped, rest, b[1..]);
    }
  }

  function Reversed(songs: seq<Song>): (r: seq<Song>)
    ensures |r| == |songs|
  {
    if songs == [] then [] else Reversed(songs[1..]) + [songs[0]]
  }

  /** The songs played, being played and to be played, oldest first. */
  function Lined(s: State): seq<Song> {
    Reversed(s.kept) + AsSeq(s.current) + s.playlist
  }

  /** Every song fetched is in one place: the playlist, current, among those that went into the history,
      or let go. */
  ghost predicate Balanced(s: State, fetched: seq<Song>) {
    multiset(fetched) == multiset(s.playlist) + multiset(AsSeq(s.current)) + multiset(s.kept) + multiset(s.discarded)
  }

  /** And those not let go are in the order in which they came, and the playlist has the last. */
  ghost predicate Accounted(s: State, fetched: seq<Song>) {
    && Balanced(s, fetched)
    && Remains(Lined(s), fetched)
    && |s.playlist| <= |fetched| && s.playlist == fetched[|fetched| - |s.playlist|..]
  }

  lemma DropBalances(s: State, n: nat, fetched: seq<Song>)
    requires Balanced(s, fetched) && n <= |s.playlist|
    ensures Balanced(Dropped(s, n), fetched)
  {
    var dropped, rest := s.playlist[..n], s.playlist[n..];
    assert s.playlist == dropped + rest;
    assert multiset(s.discarded + dropped) == multiset(s.discarded) + multiset(dropped);
  }

  lemma DropRemains(s: State, n: nat, fetched: seq<Song>)
    requires Remains(Lined(s), fetched) && n <= |s.playlist|
    ensures Remains(Lined(Dropped(s, n)), fetched)
  {
    hide Remains, Reversed;
    var front, dropped, rest := Reversed(s.kept) + AsSeq(s.current), s.playlist[..n], s.playlist[n..];
    assert s.playlist == dropped + rest;
    assert Lined(s) == front + dropped + rest;
    RemainsDrop(front, dropped, rest, fetched);
  }

  /** A suffix of a suffix is one. */
  lemma SuffixDrop(songs: seq<Song>, rest: seq<Song>, n: nat)
    requires n <= |rest| <= |songs| && rest == songs[|songs| - |rest|..]
    ensures rest[n..] == songs[|songs| - |rest[n..]|..]
  {
  }

  lemma DropAccounts(s: State, n: nat, fetched: seq<Song>)
    requires Accounted(s, fetched) && n <= |s.playlist|
    ensures Accounted(Dropped(s, n), fetched)
  {
    hide Balanced, Remains, Lined;
    DropBalances(s, n, fetched);
    DropRemains(s, n, fetched);
    SuffixDrop(fetched, s.playlist, n);
  }

  lemma FetchBalances(s: State, songs: seq<Song>, fetched: seq<Song>)
    requires Balanced(s, fetched) && s.playlist == []
    ensures Balanced(s.(playlist := songs), fetched + songs)
  {
    assert multiset(fetched + songs) == multiset(fetched) + multiset(songs);
  }

  lemma FetchRemains(s: State, songs: seq<Song>, fetched: seq<Song>)
    requires Remains(Lined(s), fetched) && s.playlist == []
    ensures Remains(Lined(s.(playlist := songs)), fetched + songs)
  {
    hide Remains, Reversed;
    RemainsAppend(Lined(s), fetched, songs);
    assert Lined(s) + songs == Lined(s.(playlist := songs));
  }

  lemma FetchAccounts(s: State, songs: seq<Song>, fetched: seq<Song>)
    requires Accounted(s, fetched) && s.playlist == []
    ensures Accounted(Apply(s, Fetch(songs)), fetched + songs)
  {
    FetchBalances(s, songs, fetched);
    FetchRemains(s, songs, fetched);
    SamePlaces(s.(playlist := songs), Apply(s, Fetch(songs)), fetched + songs);
    hide Balanced, Remains, Lined;
    assert songs == (fetched + songs)[|fetched + songs| - |songs|..];
  }

  /** Only where the songs are matters. */
  lemma SamePlaces(s: State, t: State, fetched: seq<Song>)
    requires t.playlist == s.playlist && t.current == s.current && t.kept == s.kept && t.discarded == s.discarded
    ensures Balanced(t, fetched) <==> Balanced(s, fetched)
    ensures Lined(t) == Lined(s)
  {
    hide Reversed;
  }

  lemma StartBalances(s: State, fetched: seq<Song>)
    requires Balanced(s, fetched) && s.playlist != [] && s.current == None && s.playlist[0].hasUrl
    ensures Balanced(Started(s), fetched)
  {
    assert s.playlist == [s.playlist[0]] + s.playlist[1..];
  }

  lemma StartLines(s: State)
    requires s.playlist != [] && s.current == None && s.playlist[0].hasUrl
    ensures Lined(Started(s)) == Lined(s)
  {
    hide Reversed;
    assert s.playlist == [s.playlist[0]] + s.playlist[1..];
  }

  lemma StartDrops(s: State)
    requires s.playlist != [] && !s.playlist[0].hasUrl
    ensures Started(s) == Dropped(s, 1)
  {
    assert s.playlist[..1] == [s.playlist[0]];
  }

  lemma StartAccounts(s: State, fetched: seq<Song>)
    requires Accounted(s, fetched) && s.playlist != [] && s.current == None
    ensures Accounted(Started(s), fetched)
  {
    hide Balanced, Remains, Lined;
    if s.playlist[0].hasUrl {
      StartBalances(s, fetched);
      StartLines(s);
      SuffixDrop(fetched, s.playlist, 1);
    } else {
      StartDrops(s);
      DropAccounts(s, 1, fetched);
      hide Accounted, Started;
    }
  }

  /** What becomes of the songs. */
  lemma CleanupMoves(s: State, result: TrackResult)
    requires s.current.Some?
    ensures var t := CleanedUp(s, result);
            && t.playlist == s.playlist && t.current == None
            && t.kept == (if s.historyLength == 0 then s.kept else [s.current.value] + s.kept)
            && t.discarded == (if s.historyLength == 0 then s.discarded + [s.current.value] else s.discarded)
  {
    hide Newest;
  }

  lemma CleanupBalances(s: State, result: TrackResult, fetched: seq<Song>)
    requires Balanced(s, fetched) && s.current.Some?
    ensures Balanced(CleanedUp(s, result), fetched)
  {
    CleanupMoves(s, result);
    hide CleanedUp;
    var song := s.current.value;
    if s.historyLength == 0 {
      assert multiset(s.discarded + [song]) == multiset(s.discarded) + multiset{song};
    } else {
      assert multiset([song] + s.kept) == multiset{song} + multiset(s.kept);
    }
  }

  lemma ReversedCons(song: Song, songs: seq<Song>)
    ensures Reversed([song] + songs) == Reversed(songs) + [song]
  {
    assert ([song] + songs)[1..] == songs;
  }

  /** Lined without the current song, and with it moved to the kept ones. */
  lemma LinedWithout(s: State, t: State)
    requires s.current.Some? && t.playlist == s.playlist && t.current == None
    ensures Lined(s) == Reversed(s.kept) + [s.current.value] + s.playlist
    ensures t.kept == s.kept ==> Lined(t) == Reversed(s.kept) + s.playlist
    ensures t.kept == [s.current.value] + s.kept ==> Lined(t) == Lined(s)
  {
    ReversedCons(s.current.value, s.kept);
    hide Reversed;
  }

  lemma CleanupRemains(s: State, result: TrackResult, fetched: seq<Song>)
    requires Remains(Lined(s), fetched) && s.current.Some?
    ensures Remains(Lined(CleanedUp(s, result)), fetched)
  {
    hide *;
    CleanupMoves(s, result);
    LinedWithout(s, CleanedUp(s, result));
    if s.historyLength == 0 {
      RemainsDrop(Reversed(s.kept), [s.current.value], s.playlist, fetched);
    }
  }

  lemma CleanupAccounts(s: State, result: TrackResult, fetched: seq<Song>)
    requires Accounted(s, fetched) && s.current.Some?
    ensures Accounted(CleanedUp(s, result), fetched)
  {
    CleanupBalances(s, result, fetched);
    CleanupRemains(s, result, fetched);
    CleanupMoves(s, result);
    hide Balanced, Remains, Lined, CleanedUp;
  }

  /** Steps that move no song. */
  lemma OtherAccounts(s: State, step: Step, fetched: seq<Song>)
    requires Enabled(s, step) && Accounted(s, fetched)
    requires !step.Purge? && !step.Fetch? && !step.Start? && !step.Expire? && !step.Cleanup?
    ensures Accounted(Apply(s, step), fetched)
  {
    hide Remains, Reversed;
    var t := Apply(s, step);
    assert t.playlist == s.playlist && t.current == s.current && t.kept == s.kept && t.discarded == s.discarded;
  }

  lemma PurgeAccounts(s: State, mix: set<string>, fetched: seq<Song>)
    requires Accounted(s, fetched)
    ensures Accounted(Apply(s, Purge(mix)), fetched)
  {
    hide *;
    var rest := Purged(s.playlist, s.selected, mix);
    PurgeDrops(s, mix);
    DropAccounts(s, |s.playlist| - |rest|, fetched);
  }

  lemma ExpireDrops(s: State)
    ensures Apply(s, Expire) == Dropped(s, |s.playlist|)
  {
    assert s.playlist[..|s.playlist|] == s.playlist;
  }

  lemma ApplyStart(s: State)
    requires Inv(s) && Enabled(s, Start)
    ensures s.playlist != [] && s.current == None && Apply(s, Start) == Started(s)
  {
  }

  lemma StepAccounts(s: State, step: Step, fetched: seq<Song>)
    requires Inv(s) && Enabled(s, step) && Accounted(s, fetched)
    ensures Accounted(Apply(s, step), fetched + if step.Fetch? then step.songs else [])
  {
    assert fetched + [] == fetched;
    hide *;
    match step
    case Purge(mix) => PurgeAccounts(s, mix, fetched);
    case Fetch(songs) =>
      FetchWhenEmpty(s, songs);
      FetchAccounts(s, songs, fetched);
    case Start =>
      ApplyStart(s);
      StartAccounts(s, fetched);
    case Expire =>
      ExpireDrops(s);
      DropAccounts(s, |s.playlist|, fetched);
    case Cleanup(result) =>
      CleanupOfSong(s, result);
      ApplyCleanup(s, result);
      CleanupAccounts(s, result, fetched);
    case _ => OtherAccounts(s, step, fetched);
  }

  lemma FetchWhenEmpty(s: State, songs: seq<Song>)
    requires Enabled(s, Fetch(songs))
    ensures s.playlist == []
  {
  }

  lemma CleanupOfSong(s: State, result: TrackResult)
    requires Enabled(s, Cleanup(result))
    ensures s.mode == FinishedPlayback && s.current.Some?
  {
  }

  /** Over every run, all songs ever fetched are accounted for. */
  lemma {:induction false} SongsAccounted(length: nat, run: seq<Step>)
    requires CanRun(length, run)
    ensures Accounted(After(length, run), Fetched(run))
    decreases |run|
  {
    if run == [] {
      assert Lined(Init(length)) == [];
    } else {
      var front, last := run[..|run| - 1], run[|run| - 1];
      hide Inv, Enabled, Apply, Accounted;
      SongsAccounted(length, front);
      RunKeepsInv(length, front);
      StepAccounts(After(length, front), last, Fetched(front));
    }
  }

  /** Nodes are never two songs at once, so each song fetched is in exactly one place, and there once. */
  lemma OnePlaceOnly(length: nat, run: seq<Step>, song: Song)
    requires CanRun(length, run) && song in Fetched(run)
    requires forall i, j :: 0 <= i < j < |Fetched(run)| ==> Fetched(run)[i].node != Fetched(run)[j].node
    ensures var s := After(length, run);
            multiset(s.playlist)[song] + multiset(AsSeq(s.current))[song] + multiset(s.kept)[song] + multiset(s.discarded)[song] == 1
  {
    SongsAccounted(length, run);
    OnceInAll(Fetched(run), song);
  }

  lemma {:induction false} OnceInAll(songs: seq<Song>, song: Song)
    requires song in songs
    requires forall i, j :: 0 <= i < j < |songs| ==> songs[i].node != songs[j].node
    ensures multiset(songs)[song] == 1
  {
    assert songs == [songs[0]] + songs[1..];
    if songs[0] == song {
      assert song !in songs[1..];
    } else {
      OnceInAll(songs[1..], song);
    }
  }

  // ---------------------------------------------------------------- the history, over whole runs

  /** As long as the history's length is not changed and is not 0, it is full: the newest songs, as many
      as it may hold. */
  lemma {:induction false} HistoryIsNewest(length: nat, run: seq<Step>)
    requires CanRun(length, run) && length > 0
    requires forall k :: 0 <= k < |run| ==> !run[k].SetHistoryLength?
    ensures After(length, run).historyLength == length
    ensures After(length, run).history == Newest(After(length, run).kept, length)
    decreases |run|
  {
    if run != [] {
      var front, last := run[..|run| - 1], run[|run| - 1];
      HistoryIsNewest(length, front);
      HistoryStays(After(length, front), last);
    }
  }

  lemma HistoryStays(s: State, step: Step)
    requires Enabled(s, step) && !step.SetHistoryLength? && s.historyLength > 0
    requires s.history == Newest(s.kept, s.historyLength)
    ensures Apply(s, step).historyLength == s.historyLength
    ensures Apply(s, step).history == Newest(Apply(s, step).kept, s.historyLength)
  {
    if step.Cleanup? {
      ApplyCleanup(s, step.result);
      NewestTwice(s.current.value, s.history, s.kept, s.historyLength);
    }
    hide Newest;
  }

  /** A history that holds the newest songs still does with one more. */
  lemma NewestTwice(song: Song, history: seq<Song>, kept: seq<Song>, n: nat)
    requires n > 0 && history == Newest(kept, n)
    ensures Newest([song] + history, n) == Newest([song] + kept, n)
  {
  }

  /** After the length was changed, the history is full again once enough songs have gone into it: one,
      if it holds more than it now may, else as many as it lacks. */
  lemma CleanupFills(s: State, result: TrackResult)
    requires Inv(s) && s.current.Some? && s.historyLength > 0
    ensures var t := CleanedUp(s, result);
            && |t.history| == (if |s.history| + 1 <= s.historyLength then |s.history| + 1 else s.historyLength)
            && t.history == Newest(t.kept, |t.history|)
  {
  }

  // ---------------------------------------------------------------- there are such runs

  /** A station is chosen, a song is played a little and cancelled, and goes into the history. */
  function SomeRun(song: Song): seq<Step> {
    [Select(Station(song.station)), Control(Play, 1), Fetch([song]), Start, ThreadInitialize(true), Check,
     Advance(RecvData), PlayFrame, Cancel, Check, ThreadFinish, Cleanup(Fine)]
  }

  ghost predicate Runs(s: State, steps: seq<Step>, t: State)
    decreases |steps|
  {
    if steps == [] then s == t else Enabled(s, steps[0]) && Runs(Apply(s, steps[0]), steps[1..], t)
  }

  lemma {:induction false} RunOn(length: nat, run: seq<Step>, steps: seq<Step>, t: State)
    requires CanRun(length, run) && Runs(After(length, run), steps, t)
    ensures CanRun(length, run + steps) && After(length, run + steps) == t
    decreases |steps|
  {
    hide Enabled, Apply;
    if steps == [] {
      assert run + steps == run;
    } else {
      RunStep(length, run, steps[0]);
      RunOn(length, run + [steps[0]], steps[1..], t);
      assert run + [steps[0]] + steps[1..] == run + steps;
    }
  }

  /** From any state, if the first of some steps can be taken and the others after it. */
  lemma RunsCons(s: State, step: Step, steps: seq<Step>, t: State)
    requires Enabled(s, step) && Runs(Apply(s, step), steps, t)
    ensures Runs(s, [step] + steps, t)
  {
    assert ([step] + steps)[1..] == steps;
  }

  /** Up to where the song starts. */
  lemma SomeRunStarts(length: nat, song: Song) returns (s: State)
    requires song.hasUrl
    ensures Runs(Init(length), SomeRun(song)[..4], s)
    ensures s == Init(length).(selected := Station(song.station), playback := Playing, current := Some(song),
                               mode := Starting, thread := AtWork(false))
  {
    var s0 := Init(length);
    var s1 := Apply(s0, Select(Station(song.station)));
    var s2 := Apply(s1, Control(Play, 1));
    var s3 := Apply(s2, Fetch([song]));
    s := Apply(s3, Start);
    hide Enabled, Apply;
    RunsCons(s3, Start, [], s);
    RunsCons(s2, Fetch([song]), [Start], s);
    RunsCons(s1, Control(Play, 1), [Fetch([song]), Start], s);
    RunsCons(s0, Select(Station(song.station)), [Control(Play, 1), Fetch([song]), Start], s);
    assert SomeRun(song)[..4] == [Select(Station(song.station))] + [Control(Play, 1), Fetch([song]), Start];
  }

  /** Up to where it is cancelled. */
  lemma SomeRunPlays(s: State, song: Song) returns (t: State)
    requires s.mode == Starting && s.thread == AtWork(false) && !s.doPause && !s.doQuit
    ensures Runs(s, SomeRun(song)[4..8], t)
    ensures t == s.(mode := RecvData, framesPlayed := s.framesPlayed + 1)
  {
    var s1 := Apply(s, ThreadInitialize(true));
    var s2 := Apply(s1, Check);
    var s3 := Apply(s2, Advance(RecvData));
    t := Apply(s3, PlayFrame);
    hide Enabled, Apply;
    RunsCons(s3, PlayFrame, [], t);
    RunsCons(s2, Advance(RecvData), [PlayFrame], t);
    RunsCons(s1, Check, [Advance(RecvData), PlayFrame], t);
    RunsCons(s, ThreadInitialize(true), [Check, Advance(RecvData), PlayFrame], t);
    assert SomeRun(song)[4..8] == [ThreadInitialize(true)] + [Check, Advance(RecvData), PlayFrame];
  }

  /** Up to where the thread has ended. */
  lemma SomeRunEnds(s: State, song: Song) returns (t: State)
    requires s.mode == RecvData && s.thread == AtWork(false)
    ensures Runs(s, SomeRun(song)[8..11], t)
    ensures t == s.(doQuit := true, pausedSince := 0, mode := FinishedPlayback, thread := Ended)
  {
    var s1 := Apply(s, Cancel);
    var s2 := Apply(s1, Check);
    t := Apply(s2, ThreadFinish);
    hide Enabled, Apply;
    RunsCons(s2, ThreadFinish, [], t);
    RunsCons(s1, Check, [ThreadFinish], t);
    RunsCons(s, Cancel, [Check, ThreadFinish], t);
    assert SomeRun(song)[8..11] == [Cancel] + [Check, ThreadFinish];
  }

  /** Up to where it has gone into the history. */
  lemma SomeRunIsKept(s: State, song: Song) returns (t: State)
    requires s.mode == FinishedPlayback && s.current == Some(song) && s.historyLength > 0 && s.history == []
    ensures Runs(s, SomeRun(song)[11..], t) && t.history == [song]
  {
    t := Apply(s, Cleanup(Fine));
    hide Enabled, Apply;
    RunsCons(s, Cleanup(Fine), [], t);
    assert SomeRun(song)[11..] == [Cleanup(Fine)] + [];
  }

  /** A song is played, cancelled and put into the history in a run from the start: nothing above is
      said of no run at all. */
  lemma SomeRunRuns(length: nat, song: Song)
    requires song.hasUrl && length > 0
    ensures CanRun(length, SomeRun(song)) && After(length, SomeRun(song)).history == [song]
  {
    var run := SomeRun(song);
    hide Enabled, Apply, Runs, CanRun, After;
    var s := SomeRunStarts(length, song);
    var t := SomeRunPlays(s, song);
    var u := SomeRunEnds(t, song);
    var v := SomeRunIsKept(u, song);
    NoRun(length);
    RunOn(length, [], run[..4], s);
    assert [] + run[..4] == run[..4];
    RunOn(length, run[..4], run[4..8], t);
    assert run[..4] + run[4..8] == run[..8];
    RunOn(length, run[..8], run[8..11], u);
    assert run[..8] + run[8..11] == run[..11];
    RunOn(length, run[..11], run[11..], v);
    assert run[..11] + run[11..] == run;
  }

  lemma NoRun(length: nat)
    ensures CanRun(length, []) && After(length, []) == Init(length)
  {
  }
}
