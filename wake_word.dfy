/**
 * The wake-word listener of WakeWordService: the wake-word list, the
 * handling of recognition results and errors, and the restart guard.
 *
 * The speech recogniser is an opaque handle numbered in creation order;
 * whether recognition is available, what it heard and which error it
 * reported are parameters of the callbacks. The delayed restart posted to
 * the main looper is a pending task that `RunPendingRestart` executes.
 */
module WakeWord {
  import opened Basics
  import opened Text

  /** `SpeechRecognizer` error codes the service names. */
  const ErrorNetwork: int := 2
  const ErrorAudio: int := 3
  const ErrorSpeechTimeout: int := 6
  const ErrorNoMatch: int := 7
  const ErrorRecognizerBusy: int := 8

  const DefaultWakeWords: seq<string> := ["小助手", "你好", "嗨"]

  /** The name `onError` logs for an error code. */
  function ErrorName(code: int): string {
    if code == ErrorNoMatch then "no_match"
    else if code == ErrorSpeechTimeout then "timeout"
    else if code == ErrorAudio then "audio_error"
    else if code == ErrorNetwork then "network"
    else if code == ErrorRecognizerBusy then "busy"
    else "error_" + IntToString(code)
  }

  /** Distinct codes are logged under distinct names. */
  lemma ErrorNameInjective(a: int, b: int)
    ensures ErrorName(a) == ErrorName(b) <==> a == b
  {
    var m, n := ErrorName(a), ErrorName(b);
    if m == n && a != b {
      assert m[0] == n[0] && |m| == |n|;
      var generic := "error_";
      if m[0] == 'e' {
        assert m == generic + IntToString(a) && n == generic + IntToString(b);
        assert m[|generic|..] == IntToString(a) && n[|generic|..] == IntToString(b);
        IntToStringInjective(a, b);
      }
    }
  }

  /** The wake-word list `onStartCommand` leaves: a supplied non-empty list replaces the current one. */
  function ReplaceWakeWords(current: seq<string>, supplied: Option<seq<string>>): (r: seq<string>)
    ensures supplied.Some? && supplied.value != [] ==> r == supplied.value
    ensures supplied.None? || supplied.value == [] ==> r == current
  {
    match supplied
    case Some(words) => if words != [] then words else current
    case None => current
  }

  /** The list is never emptied, and supplying the same list again changes nothing. */
  lemma ReplaceWakeWordsKeepsList(current: seq<string>, supplied: Option<seq<string>>)
    ensures current != [] ==> ReplaceWakeWords(current, supplied) != []
    ensures ReplaceWakeWords(ReplaceWakeWords(current, supplied), supplied) == ReplaceWakeWords(current, supplied)
  {
  }

  /** `matches?.firstOrNull()?.lowercase() ?: ""`: the lowercased first candidate, or "" when there is none. */
  function FirstResult(matches: Option<seq<string>>): (r: string)
    ensures matches.Some? && matches.value != [] ==> r == Lower(matches.value[0])
    ensures matches.None? || matches.value == [] ==> r == ""
    ensures HasNoUpper(r)
  {
    LowerIsLowercase(if matches.Some? && matches.value != [] then matches.value[0] else "");
    match matches
    case Some(candidates) => if candidates != [] then Lower(candidates[0]) else ""
    case None => ""
  }

  /** `wakeWords.any { text.contains(it.lowercase()) }`, scanning the list in order. */
  function AnyMatches(words: seq<string>, text: string): (r: bool)
    ensures r <==> exists i :: 0 <= i < |words| && Contains(text, Lower(words[i]))
  {
    if words == [] then false
    else if Contains(text, Lower(words[0])) then true
    else
      var r := AnyMatches(words[1..], text);
      assert forall i :: 1 <= i < |words| ==> words[i] == words[1..][i - 1];
      assert r ==> exists i :: 0 <= i < |words| && Contains(text, Lower(words[i])) by {
        if r {
          var j :| 0 <= j < |words[1..]| && Contains(text, Lower(words[1..][j]));
          assert Contains(text, Lower(words[j + 1]));
        }
      }
      r
  }

  /** Hearing a wake word in any letter case, alone or inside a longer utterance, is a detection. */
  lemma HearingAWakeWordDetects(words: seq<string>, i: int, before: string, after: string, heard: string)
    requires 0 <= i < |words|
    requires Lower(heard) == Lower(words[i])
    ensures AnyMatches(words, Lower(before + heard + after))
  {
    var text, pattern := Lower(before + heard + after), Lower(words[i]);
    assert text[|before|..|before| + |heard|] == pattern;
    assert OccursAt(text, pattern, |before|);
  }

  /** An empty wake word is contained in every utterance. */
  lemma EmptyWakeWordAlwaysDetects(words: seq<string>, text: string)
    requires "" in words
    ensures AnyMatches(words, text)
  {
    var i :| 0 <= i < |words| && words[i] == "";
    assert OccursAt(text, Lower(words[i]), 0);
  }

  /** The service with its companion state, for one service instance per process: the companion fields start with it. */
  class WakeWordService {
    var wakeWords: seq<string>
    var lastHeard: string
    var wakeDetected: bool
    /** How many times a detection updated the notification and invoked `onWakeDetected`. */
    var wakeEvents: nat
    var isListening: bool
    var isRestarting: bool
    var speechRecognizer: Option<nat>
    var nextRecognizer: nat
    var destroyedRecognizers: seq<nat>
    /** Restart tasks posted to the main looper and not yet run. */
    var pendingRestarts: nat

    /**
     * The list is never empty, `wakeDetected` records whether any detection
     * happened, and recognisers are destroyed at most once and never while
     * they are the current one.
     */
    ghost predicate Valid()
      reads this
    {
      && wakeWords != []
      && (wakeDetected <==> wakeEvents > 0)
      && (speechRecognizer.Some? ==> speechRecognizer.value < nextRecognizer && speechRecognizer.value !in destroyedRecognizers)
      && (forall k :: 0 <= k < |destroyedRecognizers| ==> destroyedRecognizers[k] < nextRecognizer)
      && (forall j, k :: 0 <= j < k < |destroyedRecognizers| ==> destroyedRecognizers[j] != destroyedRecognizers[k])
    }

    constructor()
      ensures Valid()
      ensures wakeWords == DefaultWakeWords && lastHeard == "" && !wakeDetected && wakeEvents == 0
      ensures !isListening && !isRestarting && speechRecognizer == None
      ensures nextRecognizer == 0 && destroyedRecognizers == [] && pendingRestarts == 0
    {
      wakeWords := DefaultWakeWords;
      lastHeard := "";
      wakeDetected := false;
      wakeEvents := 0;
      isListening := false;
      isRestarting := false;
      speechRecognizer := None;
      nextRecognizer := 0;
      destroyedRecognizers := [];
      pendingRestarts := 0;
    }

    /** `onStartCommand`: adopt a supplied non-empty wake-word list, then start listening. */
    method OnStartCommand(supplied: Option<seq<string>>, available: bool)
      requires Valid()
      modifies this`wakeWords, this`speechRecognizer, this`nextRecognizer, this`destroyedRecognizers
      ensures Valid()
      ensures wakeWords == ReplaceWakeWords(old(wakeWords), supplied)
      ensures available ==> speechRecognizer == Some(old(nextRecognizer)) && nextRecognizer == old(nextRecognizer) + 1
      ensures available ==> destroyedRecognizers == old(destroyedRecognizers) + OptionToSeq(old(speechRecognizer))
      ensures !available ==> unchanged(this`speechRecognizer, this`nextRecognizer, this`destroyedRecognizers)
    {
      wakeWords := ReplaceWakeWords(wakeWords, supplied);
      StartListening(available);
    }

    /** `startListening`: nothing when recognition is unavailable; otherwise replace the recogniser with a new one. */
    method StartListening(available: bool)
      requires Valid()
      modifies this`speechRecognizer, this`nextRecognizer, this`destroyedRecognizers
      ensures Valid()
      ensures available ==> speechRecognizer == Some(old(nextRecognizer)) && nextRecognizer == old(nextRecognizer) + 1
      ensures available ==> destroyedRecognizers == old(destroyedRecognizers) + OptionToSeq(old(speechRecognizer))
      ensures !available ==> unchanged(this`speechRecognizer, this`nextRecognizer, this`destroyedRecognizers)
    {
      if !available {
        return;
      }
      StopListening();
      speechRecognizer := Some(nextRecognizer);
      nextRecognizer := nextRecognizer + 1;
    }

    /** `stopListening`: destroy the current recogniser, if any, and forget it. */
    method StopListening()
      requires Valid()
      modifies this`speechRecognizer, this`destroyedRecognizers
      ensures Valid()
      ensures speechRecognizer == None
      ensures destroyedRecognizers == old(destroyedRecognizers) + OptionToSeq(old(speechRecognizer))
    {
      if speechRecognizer.Some? {
        destroyedRecognizers := destroyedRecognizers + [speechRecognizer.value];
      }
      speechRecognizer := None;
    }

    method OnReadyForSpeech()
      requires Valid()
      modifies this`isListening, this`isRestarting
      ensures Valid()
      ensures isListening && !isRestarting
    {
      isListening := true;
      isRestarting := false;
    }

    /** `onResults`: record what was heard, note a detection, and ask for a restart. */
    method OnResults(matches: Option<seq<string>>)
      requires Valid()
      modifies this`lastHeard, this`wakeDetected, this`wakeEvents, this`isRestarting, this`pendingRestarts
      ensures Valid()
      ensures lastHeard == FirstResult(matches)
      ensures wakeDetected == (old(wakeDetected) || AnyMatches(wakeWords, lastHeard))
      ensures wakeEvents == old(wakeEvents) + (if AnyMatches(wakeWords, lastHeard) then 1 else 0)
      ensures isRestarting
      ensures pendingRestarts == old(pendingRestarts) + (if old(isRestarting) then 0 else 1)
    {
      var text := FirstResult(matches);
      lastHeard := text;
      if AnyMatches(wakeWords, text) {
        wakeDetected := true;
        wakeEvents := wakeEvents + 1;
      }
      RestartListening();
    }

    /** `onPartialResults`: only a non-empty partial result replaces what was heard. */
    method OnPartialResults(matches: Option<seq<string>>)
      requires Valid()
      modifies this`lastHeard
      ensures Valid()
      ensures lastHeard == if FirstResult(matches) != "" then FirstResult(matches) else old(lastHeard)
    {
      var text := FirstResult(matches);
      if text != "" {
        lastHeard := text;
      }
    }

    /** `onError`: name the error and ask for a restart unless the recogniser is busy. */
    method OnError(code: int) returns (name: string)
      requires Valid()
      modifies this`isRestarting, this`pendingRestarts
      ensures Valid()
      ensures name == ErrorName(code)
      ensures code == ErrorRecognizerBusy ==> unchanged(this`isRestarting, this`pendingRestarts)
      ensures code != ErrorRecognizerBusy ==> isRestarting
      ensures code != ErrorRecognizerBusy ==> pendingRestarts == old(pendingRestarts) + (if old(isRestarting) then 0 else 1)
    {
      name := ErrorName(code);
      if code != ErrorRecognizerBusy {
        RestartListening();
      }
    }

    /** `restartListening`: post one delayed restart unless one is already under way. */
    method RestartListening()
      requires Valid()
      modifies this`isRestarting, this`pendingRestarts
      ensures Valid()
      ensures isRestarting
      ensures pendingRestarts == old(pendingRestarts) + (if old(isRestarting) then 0 else 1)
    {
      if isRestarting {
        return;
      }
      isRestarting := true;
      pendingRestarts := pendingRestarts + 1;
    }

    /** The posted restart runs; `isDestroyed()` always answers false, so it always starts listening. */
    method RunPendingRestart(available: bool)
      requires Valid() && pendingRestarts > 0
      modifies this`pendingRestarts, this`speechRecognizer, this`nextRecognizer, this`destroyedRecognizers
      ensures Valid()
      ensures pendingRestarts == old(pendingRestarts) - 1
      ensures available ==> speechRecognizer == Some(old(nextRecognizer)) && nextRecognizer == old(nextRecognizer) + 1
      ensures available ==> destroyedRecognizers == old(destroyedRecognizers) + OptionToSeq(old(speechRecognizer))
      ensures !available ==> unchanged(this`speechRecognizer, this`nextRecognizer, this`destroyedRecognizers)
    {
      pendingRestarts := pendingRestarts - 1;
      StartListening(available);
    }

    /** `onDestroy`: stop listening and clear the flag. Posted restarts are not cancelled. */
    method OnDestroy()
      requires Valid()
      modifies this`speechRecognizer, this`destroyedRecognizers, this`isListening
      ensures Valid()
      ensures speechRecognizer == None && !isListening
      ensures destroyedRecognizers == old(destroyedRecognizers) + OptionToSeq(old(speechRecognizer))
    {
      StopListening();
      isListening := false;
    }
  }

  /** The recogniser an optional field holds, as a log entry of at most one element. */
  function OptionToSeq<T>(o: Option<T>): (r: seq<T>)
    ensures |r| <= 1 && (r == [] <==> o.None?)
    ensures forall i :: 0 <= i < |r| ==> o == Some(r[i])
  {
    if o.Some? then [o.value] else []
  }

  /**
   * After a restart, an error that arrives before the new recogniser is
   * ready finds `isRestarting` still set and posts nothing: no restart is
   * to come until the next `onStartCommand` starts listening again.
   */
  method ErrorBeforeReadyStalls() returns (pending: nat, restarting: bool, recognizer: Option<nat>)
    ensures pending == 0 && restarting && recognizer == Some(1)
  {
    var s := new WakeWordService();
    s.OnStartCommand(None, true);
    s.OnReadyForSpeech();
    var _ := s.OnError(ErrorNoMatch);
    s.RunPendingRestart(true);
    var _ := s.OnError(ErrorSpeechTimeout);
    pending, restarting, recognizer := s.pendingRestarts, s.isRestarting, s.speechRecognizer;
  }

  /** A busy recogniser is never restarted, even when no restart is under way. */
  method BusyErrorDoesNotRestart() returns (pending: nat, restarting: bool)
    ensures pending == 0 && !restarting
  {
    var s := new WakeWordService();
    s.OnStartCommand(None, true);
    s.OnReadyForSpeech();
    var _ := s.OnError(ErrorRecognizerBusy);
    pending, restarting := s.pendingRestarts, s.isRestarting;
  }

  /** A restart posted before `onDestroy` still runs and creates a recogniser for the destroyed service. */
  method RestartAfterDestroy() returns (recognizer: Option<nat>, listening: bool, destroyed: seq<nat>)
    ensures recognizer == Some(1) && !listening && destroyed == [0]
  {
    var s := new WakeWordService();
    s.OnStartCommand(None, true);
    s.OnReadyForSpeech();
    var _ := s.OnError(ErrorNoMatch);
    s.OnDestroy();
    s.RunPendingRestart(true);
    recognizer, listening, destroyed := s.speechRecognizer, s.isListening, s.destroyedRecognizers;
  }

  /** An empty supplied list keeps the defaults; a detection sets the flag for good, later misses do not clear it. */
  method DetectionIsSticky(heard: string, miss: string) returns (words: seq<string>, detected: bool, events: nat)
    requires Lower(heard) == Lower("你好")
    ensures words == DefaultWakeWords && detected && events >= 1
  {
    var s := new WakeWordService();
    s.OnStartCommand(Some([]), true);
    assert s.wakeWords == DefaultWakeWords && s.wakeWords[1] == "你好";
    HearingAWakeWordDetects(s.wakeWords, 1, "", "", heard);
    assert "" + heard + "" == heard;
    s.OnResults(Some([heard]));
    s.OnResults(Some([miss]));
    words, detected, events := s.wakeWords, s.wakeDetected, s.wakeEvents;
  }
}
