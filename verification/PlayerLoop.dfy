/** The main loop and the player thread as the program runs them (src/pianod.c:81-239, 357-418 and 436-556,
    src/player.c:56-84, 202-236 and 517-620, src/command.c:383-440, 1010-1060 and 1103-1108,
    src/support.c:200-222, 231-264 and 622-637). Each method takes one step of a run of PlayerRuns, or
    a few: what it does under the mutex, or between two points where the other thread can notice. */
module PlayerLoop {
  import opened Basics
  import opened PlayerRuns

  class App {
    var mode: Mode
    var doPause: bool
    var doQuit: bool
    /** How many frames of the current song were given to the audio device. */
    ghost var framesPlayed: nat
    var playback: Playback
    var pausedSince: nat
    var selected: Selection
    var softErrors: nat
    var playlist: seq<Song>
    var current: Option<Song>
    /** Newest first. */
    var history: seq<Song>
    var historyLength: nat
    /** Where the thread is, which the program itself keeps no record of. */
    ghost var thread: Thread
    /** All songs that ever went into the history, newest first. */
    ghost var kept: seq<Song>
    /** All songs that were let go without getting there. */
    ghost var discarded: seq<Song>
    /** All steps taken so far. */
    ghost var run: seq<Step>
    ghost const lengthAtStart: nat

    ghost function Now(): State
      reads this
    {
      State(mode, doPause, doQuit, framesPlayed, playback, pausedSince, selected, softErrors,
            playlist, current, history, historyLength, thread, kept, discarded)
    }

    /** The fields are what the steps taken come to, so all that is proved of runs holds of them. */
    ghost predicate Valid()
      reads this
    {
      CanRun(lengthAtStart, run) && Now() == After(lengthAtStart, run)
    }

    /** One step was taken from a state. */
    ghost predicate Took(before: State, step: Step)
      reads this
    {
      Enabled(before, step) && Now() == Apply(before, step)
    }

    constructor (historyLength: nat)
      ensures Valid() && run == [] && lengthAtStart == historyLength
    {
      mode, doPause, doQuit, framesPlayed, playback, pausedSince := Freed, false, false, 0, Paused, 0;
      selected, softErrors, playlist, current, history := NoStation, 0, [], None, [];
      this.historyLength, thread, kept, discarded, run := historyLength, NoThread, [], [], [];
      lengthAtStart := historyLength;
    }

    /** The fields have taken a step. */
    ghost method Take(was: State, step: Step)
      requires CanRun(lengthAtStart, run) && was == After(lengthAtStart, run)
      requires Enabled(was, step) && Now() == Apply(was, step)
      modifies this`run
      ensures Valid() && run == old(run) + [step] && Took(was, step) && Now() == old(Now())
    {
      RunStep(lengthAtStart, run, step);
      run := run + [step];
    }

    lemma ValidIs()
      requires Valid()
      ensures CanRun(lengthAtStart, run) && Now() == After(lengthAtStart, run)
    {
    }

    lemma NowIs()
      ensures Now().playlist == playlist && Now().selected == selected
    {
    }

    lemma ValidInv()
      requires Valid()
      ensures Inv(Now())
    {
      RunKeepsInv(lengthAtStart, run);
    }

    /** In every state the program reaches, every song it ever fetched is accounted for. */
    lemma NothingLost()
      requires Valid()
      ensures Accounted(Now(), Fetched(run))
    {
      SongsAccounted(lengthAtStart, run);
    }

    // -------------------------------------------------------------- steps of the player thread

    /** The thread has set its decoder up, or cannot and ends at once. */
    method ThreadInit(supported: bool)
      requires Valid() && mode == Starting && thread == AtWork(false)
      modifies this`mode, this`thread, this`run
      ensures Valid() && run == old(run) + [ThreadInitialize(supported)] && Took(old(Now()), ThreadInitialize(supported))
      ensures mode == (if supported then Initialized else FinishedPlayback) && thread == if supported then AtWork(false) else Ended
    {
      hide CanRun, After, App.Took;
      ghost var was := Now();
      if supported {
        mode := Initialized;
      } else {
        mode := FinishedPlayback;
        thread := Ended;
      }
      Take(was, ThreadInitialize(supported));
    }

    /** One turn of the loop in BarPlayerCheckPauseQuit: it quits, goes on or waits. */
    method CheckPauseQuit() returns (quit: bool)
      requires Valid() && Rank(Initialized) <= Rank(mode) <= Rank(RecvData) && (thread.AtWork? || thread.Waiting?)
      modifies this`thread, this`run
      ensures Valid() && run == old(run) + [Check] && Took(old(Now()), Check)
      ensures quit <==> doQuit && Rank(mode) >= Rank(SampleSizeInitialized)
      ensures thread == if quit then Aborting else if doPause && !doQuit then Waiting(false) else AtWork(true)
    {
      hide CanRun, After, App.Took;
      ghost var was := Now();
      quit := false;
      if doQuit {
        if Rank(mode) >= Rank(SampleSizeInitialized) {
          quit := true;
        }
        thread := if quit then Aborting else AtWork(true);
      } else if !doPause {
        thread := AtWork(true);
      } else {
        thread := Waiting(false);
      }
      Take(was, Check);
    }

    /** The decoder gets further, behind a check. */
    method Proceed(to: Mode)
      requires Valid() && thread == AtWork(true) && Rank(Initialized) <= Rank(mode) < Rank(to) <= Rank(RecvData)
      modifies this`mode, this`run
      ensures Valid() && run == old(run) + [Advance(to)] && Took(old(Now()), Advance(to)) && mode == to
    {
      hide CanRun, After, App.Took;
      ghost var was := Now();
      mode := to;
      Take(was, Advance(to));
    }

    /** A frame is decoded and played, behind a check. */
    method Play()
      requires Valid() && thread == AtWork(true) && mode == RecvData
      modifies this`framesPlayed, this`thread, this`run
      ensures Valid() && run == old(run) + [PlayFrame] && Took(old(Now()), PlayFrame)
      ensures framesPlayed == old(framesPlayed) + 1 && thread == AtWork(false)
    {
      hide CanRun, After, App.Took;
      ghost var was := Now();
      framesPlayed := framesPlayed + 1;
      thread := AtWork(false);
      Take(was, PlayFrame);
    }

    /** The fetch has ended, because the thread gave up or by itself. */
    method Finish()
      requires Valid() && Rank(Initialized) <= Rank(mode) <= Rank(RecvData) && (thread.AtWork? || thread == Aborting)
      modifies this`mode, this`thread, this`run
      ensures Valid() && run == old(run) + [ThreadFinish] && Took(old(Now()), ThreadFinish)
      ensures mode == FinishedPlayback && thread == Ended
    {
      hide CanRun, After, App.Took;
      ghost var was := Now();
      mode := FinishedPlayback;
      thread := Ended;
      Take(was, ThreadFinish);
    }

    // -------------------------------------------------------------- orders to the main thread

    /** A station is selected; the playlist stays as it is. */
    method SelectStation(selection: Selection)
      requires Valid()
      modifies this`selected, this`run
      ensures Valid() && run == old(run) + [Select(selection)] && Took(old(Now()), Select(selection)) && selected == selection
    {
      hide CanRun, After, App.Took;
      ghost var was := Now();
      selected := selection;
      Take(was, Select(selection));
    }

    method SetLength(length: nat)
      requires Valid()
      modifies this`historyLength, this`run
      ensures Valid() && run == old(run) + [SetHistoryLength(length)] && Took(old(Now()), SetHistoryLength(length))
      ensures historyLength == length
    {
      hide CanRun, After, App.Took;
      ghost var was := Now();
      historyLength := length;
      Take(was, SetHistoryLength(length));
    }

    /** pthread_cond_broadcast */
    method Broadcast()
      modifies this`thread
      ensures thread == Signalled(old(thread))
    {
      if thread.Waiting? {
        thread := Waiting(true);
      }
    }

    /** control_playback. It is refused where there is neither a player nor a station. */
    method ControlPlayback(command: Command, now: nat) returns (accepted: bool)
      requires Valid() && now > 0
      modifies this`playback, this`doPause, this`thread, this`pausedSince, this`run
      ensures Valid() && run == old(run) + [Control(command, now)] && Took(old(Now()), Control(command, now))
      ensures accepted <==> mode != Freed || selected != NoStation
      ensures accepted && command.Play? ==> playback == Playing
      ensures accepted && command.Pause? ==> playback == Paused
      ensures accepted && command.PlayPause? ==> playback != old(playback)
      ensures !accepted ==> playback == old(playback)
      ensures if mode != Freed then doPause <==> playback == Paused else doPause == old(doPause)
      ensures mode != Freed ==> (pausedSince == 0 <==> playback == Playing)
      ensures mode != Freed && old(thread).Waiting? ==> thread == Waiting(true)
      ensures mode != Freed && playback == Paused && old(pausedSince) != 0 ==> pausedSince == old(pausedSince)
      ensures mode == Freed ==> pausedSince == old(pausedSince)
    {
      hide CanRun, After, Apply, Enabled, Controlled, App.Took, App.Valid;
      ValidIs();
      ghost var was := Now();
      accepted := SetPlayback(command, now);
      ControlledMeans(was, command, now);
      ApplyControl(was, command, now);
      Take(was, Control(command, now));
    }

    method SetPlayback(command: Command, now: nat) returns (accepted: bool)
      modifies this`playback, this`doPause, this`thread, this`pausedSince
      ensures Now() == Controlled(old(Now()), command, now)
      ensures accepted <==> mode != Freed || selected != NoStation
    {
      var original := playback;
      match command {
        case Play => playback := Playing;
        case Pause => playback := Paused;
        case PlayPause => playback := if playback == Playing then Paused else Playing;
      }
      accepted := true;
      if Rank(mode) >= Rank(Starting) {
        doPause := playback == Paused;
        Broadcast();
        if playback == Paused && pausedSince == 0 {
          pausedSince := now;
        } else if playback == Playing {
          pausedSince := 0;
        }
      } else if selected == NoStation {
        playback := original;
        accepted := false;
      }
    }

    /** cancel_playback */
    method CancelPlayback()
      requires Valid()
      modifies this`doQuit, this`thread, this`pausedSince, this`run
      ensures Valid() && run == old(run) + [Cancel] && Took(old(Now()), Cancel)
      ensures doQuit <==> old(doQuit) || Rank(Starting) <= Rank(mode) < Rank(FinishedPlayback)
      ensures Rank(Starting) <= Rank(mode) < Rank(FinishedPlayback) && old(thread).Waiting? ==> thread == Waiting(true)
      ensures pausedSince == 0
    {
      hide CanRun, After, App.Took;
      ghost var was := Now();
      if Rank(mode) >= Rank(Starting) && Rank(mode) < Rank(FinishedPlayback) {
        doQuit := true;
        Broadcast();
      }
      pausedSince := 0;
      Take(was, Cancel);
    }

    // -------------------------------------------------------------- songs coming and going

    /** prepend_history. With a history of no length the song goes nowhere. */
    method PrependHistory(song: Song)
      modifies this`history, this`kept, this`discarded
      ensures Now() == Prepended(old(Now()), song)
      ensures historyLength > 0 ==> history <= [song] + old(history)
      ensures historyLength > 0 ==> |history| == if |old(history)| < historyLength then |old(history)| + 1 else historyLength
      ensures historyLength == 0 ==> history == old(history)
    {
      if historyLength != 0 {
        history := [song] + history;
        kept := [song] + kept;
        var i := 1;
        var last := 0;
        while i < historyLength && last < |history|
          invariant i == last + 1 && last <= |history| && i <= historyLength
          modifies {}
        {
          last := last + 1;
          i := i + 1;
        }
        if last < |history| {
          history := history[..last + 1];
        }
      } else {
        discarded := discarded + [song];
      }
    }

    /** What an error does to the selected station: nothing if it was a single one that may pass. */
    method JudgeTrack(result: TrackResult)
      modifies this`selected, this`softErrors
      ensures Now() == Judged(old(Now()), result)
      ensures softErrors == if result == Fine then 0 else if result == SoftFail then old(softErrors) + 1 else old(softErrors)
      ensures selected == if result == HardFail || (result == SoftFail && old(softErrors) > 0) then NoStation else old(selected)
    {
      if result != Fine {
        if result == SoftFail {
          softErrors := softErrors + 1;
        }
        if selected != NoStation && (result == HardFail || softErrors > 1) {
          selected := NoStation;
        }
      } else {
        softErrors := 0;
      }
    }

    /** playback_cleanup, once the thread has ended. */
    method PlaybackCleanup(result: TrackResult)
      requires Valid() && mode == FinishedPlayback
      modifies this
      ensures Valid() && run == old(run) + [Cleanup(result)] && Took(old(Now()), Cleanup(result))
      ensures mode == Freed && thread == NoThread && current == None && !doPause && !doQuit && framesPlayed == 0
      ensures softErrors == if result == Fine then 0 else if result == SoftFail then old(softErrors) + 1 else old(softErrors)
      ensures selected == if result == HardFail || (result == SoftFail && old(softErrors) > 0) then NoStation else old(selected)
      ensures historyLength > 0 ==> old(current).Some? && history <= [old(current).value] + old(history)
      ensures historyLength > 0 ==> |history| == if |old(history)| < historyLength then |old(history)| + 1 else historyLength
      ensures historyLength == 0 ==> history == old(history)
    {
      ValidIs();
      ValidInv();
      ghost var was := Now();
      CleanUp(result);
      hide *;
      ApplyCleanup(was, result);
      Take(was, Cleanup(result));
    }

    method CleanUp(result: TrackResult)
      requires current.Some?
      modifies this`selected, this`softErrors, this`mode, this`doPause, this`doQuit, this`framesPlayed, this`thread,
               this`history, this`kept, this`discarded, this`current
      ensures Now() == CleanedUp(old(Now()), result)
    {
      hide Judged, Prepended;
      JudgeTrack(result);
      ResetPlayer();
      var song := current.value;
      current := None;
      PrependHistory(song);
    }

    method ResetPlayer()
      modifies this`mode, this`doPause, this`doQuit, this`framesPlayed, this`thread
      ensures Now() == old(Now()).(mode := Freed, doPause := false, doQuit := false, framesPlayed := 0, thread := NoThread)
    {
      mode, doPause, doQuit, framesPlayed, thread := Freed, false, false, 0, NoThread;
    }

    /** purge_unselected_songs */
    method PurgeUnselectedSongs(mix: set<string>) returns (forgetStations: bool)
      requires Valid()
      modifies this`playlist, this`discarded, this`run
      ensures Valid() && run == old(run) + [Step.Purge(mix)] && Took(old(Now()), Step.Purge(mix))
      ensures playlist == Purged(old(playlist), selected, mix)
      ensures forgetStations <==> old(playlist) != [] && playlist == []
      ensures |playlist| <= |old(playlist)| && playlist == old(playlist)[|old(playlist)| - |playlist|..]
      ensures selected.Station? ==>
                && (playlist != [] ==> playlist[0].station == selected.id)
                && forall i :: 0 <= i < |old(playlist)| - |playlist| ==> old(playlist)[i].station != selected.id
      ensures selected.QuickMix? ==>
                && (playlist != [] ==> playlist[0].station in mix)
                && forall i :: 0 <= i < |old(playlist)| - |playlist| ==> old(playlist)[i].station !in mix
      ensures selected.NoStation? ==> playlist == []
    {
      PurgedIsRest(playlist, selected, mix);
      hide CanRun, After, Apply, Enabled, Purged, App.Took, App.Valid;
      ValidIs();
      ghost var was := Now();
      NowIs();
      forgetStations := LetGoUnsuitable(mix);
      ApplyPurge(was, mix);
      Take(was, Step.Purge(mix));
    }

    method LetGoUnsuitable(mix: set<string>) returns (forgetStations: bool)
      modifies this`playlist, this`discarded
      ensures playlist == Purged(old(playlist), selected, mix)
      ensures |playlist| <= |old(playlist)| && Now() == OnlyLeft(old(Now()), playlist)
      ensures forgetStations <==> old(playlist) != [] && playlist == []
    {
      ghost var all := playlist;
      forgetStations := DropUnsuitable(mix);
      hide Purged;
      discarded := discarded + all[..|all| - |playlist|];
    }

    method DropUnsuitable(mix: set<string>) returns (forgetStations: bool)
      modifies this`playlist
      ensures playlist == Purged(old(playlist), selected, mix)
      ensures forgetStations <==> old(playlist) != [] && playlist == []
    {
      hide *;
      forgetStations := false;
      ghost var all := playlist;
      PurgedFirst(playlist, selected, mix);
      while playlist != [] && !Suits(selected, mix, playlist[0])
        invariant Purged(playlist, selected, mix) == Purged(all, selected, mix)
        invariant if playlist == [] || Suits(selected, mix, playlist[0]) then Purged(playlist, selected, mix) == playlist
                  else Purged(playlist, selected, mix) == Purged(playlist[1..], selected, mix)
        invariant all == [] ==> playlist == []
        invariant forgetStations <==> all != [] && playlist == []
        decreases |playlist|
      {
        playlist := playlist[1..];
        PurgedFirst(playlist, selected, mix);
        if playlist == [] {
          forgetStations := true;
        }
      }
    }

    /** get_play_list; nothing comes when Pandora fails or has no songs. */
    method GetPlayList(songs: seq<Song>)
      requires Valid() && playlist == []
      modifies this`playlist, this`selected, this`run
      ensures Valid() && run == old(run) + [Fetch(songs)] && Took(old(Now()), Fetch(songs))
      ensures playlist == songs && selected == if songs == [] then NoStation else old(selected)
    {
      hide CanRun, After, App.Took;
      ghost var was := Now();
      playlist := songs;
      if songs == [] {
        selected := NoStation;
      }
      Take(was, Fetch(songs));
    }

    /** playback_start. A song that cannot be played is thrown away. */
    method PlaybackStart()
      requires Valid() && mode == Freed && playlist != [] && playback == Playing
      modifies this
      ensures Valid() && run == old(run) + [Start] && Took(old(Now()), Start)
      ensures playlist == old(playlist)[1..] && playback == Playing
      ensures if old(playlist)[0].hasUrl then mode == Starting && current == Some(old(playlist)[0])
              else mode == Freed && current == None
    {
      ValidInv();
      hide CanRun, After, App.Took;
      ghost var was := Now();
      current := Some(playlist[0]);
      playlist := playlist[1..];
      if !current.value.hasUrl {
        discarded := discarded + [current.value];
        current := None;
      } else {
        doPause, doQuit, framesPlayed := false, false, 0;
        mode := Starting;
        thread := AtWork(false);
      }
      Take(was, Start);
    }

    /** The playlist has expired. */
    method ExpirePlaylist()
      requires Valid()
      modifies this`playlist, this`discarded, this`run
      ensures Valid() && run == old(run) + [Expire] && Took(old(Now()), Expire)
      ensures playlist == []
    {
      hide CanRun, After, App.Took;
      ghost var was := Now();
      discarded := discarded + playlist;
      playlist := [];
      Take(was, Expire);
    }

    // -------------------------------------------------------------- turns of the main loop

    /** No player and no station: playback is paused. */
    method PauseIdle()
      requires Valid() && mode == Freed && selected == NoStation
      modifies this`playback, this`run
      ensures Valid() && run == old(run) + [GoIdle] && Took(old(Now()), GoIdle) && playback == Paused
    {
      hide CanRun, After, App.Took;
      ghost var was := Now();
      playback := Paused;
      Take(was, GoIdle);
    }

    /** An empty playlist is filled, if the station is still there when the list of stations has been
        brought up to date. `songs` is what Pandora would answer. */
    method Refill(stationGone: bool, songs: seq<Song>)
      requires Valid() && playlist == [] && selected != NoStation
      modifies this`playlist, this`selected, this`run
      ensures Valid() && Extends(run, old(run))
      ensures playlist == if stationGone then [] else songs
    {
      hide *;
      ExtendsOn(run, [if stationGone then Select(NoStation) else Fetch(songs)]);
      if stationGone {
        SelectStation(NoStation);
      }
      if selected != NoStation {
        GetPlayList(songs);
      }
    }

    /** The playlist is purged, and filled again if that leaves nothing. */
    method FillPlaylist(mix: set<string>, stationGone: bool, songs: seq<Song>)
      requires Valid() && selected != NoStation
      modifies this`playlist, this`discarded, this`selected, this`run
      ensures Valid() && Extends(run, old(run))
      ensures playlist == var suitable := Purged(old(playlist), old(selected), mix);
                          if suitable != [] then suitable else if stationGone then [] else songs
    {
      hide *;
      ExtendsOn(run, [Step.Purge(mix)]);
      var _ := PurgeUnselectedSongs(mix);
      ghost var between := run;
      if playlist == [] {
        Refill(stationGone, songs);
        ExtendsTrans(run, between, old(run));
      }
    }

    /** The part of the main loop that starts the next song when the player is free. A song starts exactly
        if nobody wants the program to end, there is a station, the listeners agree and do not pause, and
        the first suitable song, of a new playlist if need be, has an address; it is that song then. */
    method PlayNext(quitRequested: bool, listenersDisagree: bool, mix: set<string>, stationGone: bool, songs: seq<Song>)
      requires Valid() && mode == Freed
      modifies this
      ensures Valid() && Extends(run, old(run))
      ensures mode == Freed || mode == Starting
      ensures var suitable := Purged(old(playlist), old(selected), mix);
              var next := if suitable != [] then suitable else if stationGone then [] else songs;
              && (mode == Starting <==> !quitRequested && old(selected) != NoStation && !listenersDisagree
                                        && old(playback) == Playing && next != [] && next[0].hasUrl)
              && (mode == Starting ==> current == Some(next[0]) && playlist == next[1..])
    {
      hide *;
      ExtendsOn(run, [GoIdle]);
      if quitRequested {
        return;
      }
      if selected == NoStation {
        PauseIdle();
      } else if listenersDisagree {
        return;
      } else if playback == Playing {
        FillPlaylist(mix, stationGone, songs);
        ghost var between := run;
        if playlist != [] {
          ExtendsOn(run, [Start]);
          PlaybackStart();
          ExtendsTrans(run, between, old(run));
        }
      }
    }

    /** Near the end of a song the playlist is purged and filled in advance. */
    method LookAhead(songRemaining: int, changePending: bool, mix: set<string>, stationGone: bool, songs: seq<Song>)
      requires Valid() && selected != NoStation
      modifies this`playlist, this`discarded, this`selected, this`run
      ensures Valid() && Extends(run, old(run))
      ensures var left := if songRemaining <= 5 then Purged(old(playlist), old(selected), mix) else old(playlist);
              playlist == if left == [] && !changePending && songRemaining < 15 && !stationGone then songs else left
    {
      hide *;
      ExtendsOn(run, [Step.Purge(mix)]);
      if songRemaining <= 5 {
        var _ := PurgeUnselectedSongs(mix);
      }
      ghost var between := run;
      if playlist == [] && !changePending {
        if songRemaining < 15 {
          Refill(stationGone, songs);
          ExtendsTrans(run, between, old(run));
        }
      }
    }

    /** check_player_status, while a song plays. A pause that lasts too long becomes a cancel. */
    method CheckPlayerStatus(songRemaining: int, changePending: bool, mix: set<string>, stationGone: bool,
                             songs: seq<Song>, now: nat, pauseTimeout: nat)
      requires Valid() && Rank(SampleSizeInitialized) <= Rank(mode) < Rank(FinishedPlayback)
      modifies this`playlist, this`discarded, this`selected, this`doQuit, this`thread, this`pausedSince, this`run
      ensures Valid() && Extends(run, old(run))
      ensures playback == Paused || old(selected) == NoStation ==> playlist == old(playlist)
      ensures playback == Playing && old(selected) != NoStation ==>
                var left := if songRemaining <= 5 then Purged(old(playlist), old(selected), mix) else old(playlist);
                playlist == if left == [] && !changePending && songRemaining < 15 && !stationGone then songs else left
      ensures doQuit <==> old(doQuit) || (playback == Paused && old(pausedSince) != 0 && now > old(pausedSince) + pauseTimeout)
    {
      hide CanRun, After, Apply, Enabled, Purged, Extends, App.Took;
      ExtendsOn(run, [Cancel]);
      if playback == Playing {
        if selected != NoStation {
          LookAhead(songRemaining, changePending, mix, stationGone, songs);
        }
      } else if pausedSince != 0 {
        if now > pausedSince + pauseTimeout {
          CancelPlayback();
        }
      }
    }
  }
}
