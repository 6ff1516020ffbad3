/** The macOS status-bar lyric of the main process: the `lyrics-data`
    handler and the clear timer it arms, which together debounce the
    requests sent to the renderer on the `generate-statusbar-image`
    channel. The 2000 ms timer is a flag plus an explicit "fires" event;
    there is no clock. */
module StatusBarLyrics {
  import opened Wrappers

  /** `lastStatusBarLyric`, and whether `clearLyricsTimeout` holds a timer. */
  datatype Debounce = Debounce(lastLyric: string, timerPending: bool)

  /** What one `lyrics-data` message meets: the payload's `currentLyric`
      (None when the payload or the field is missing), the stored
      `settings.statusBarLyrics`, `process.platform`, and whether
      `getTray()` returns a tray. */
  datatype LyricsEvent = LyricsEvent(
    currentLyric: Option<string>, statusBarLyrics: Option<string>, platform: string, trayExists: bool)

  /** What the handler does outside its own state: ask the renderer for a
      status-bar image of a text (`''` shows the placeholder), or empty the
      tray's title and image and rebuild the tray. */
  datatype Effect = GenerateStatusBarImage(text: string) | ResetTray

  datatype Step = Step(next: Debounce, effects: seq<Effect>)

  /** The events the two pieces of code react to. */
  datatype Event = LyricsData(data: LyricsEvent) | ClearTimerFires(statusBarLyrics: Option<string>)

  predicate FeatureOn(setting: Option<string>) {
    setting == Some("on")
  }

  /** `lyricsData?.currentLyric || ''`. */
  function LyricText(e: LyricsEvent): string {
    e.currentLyric.GetOr("")
  }

  /** A timer is only ever held for a lyric that is still shown. */
  predicate Inv(s: Debounce) {
    s.timerPending ==> s.lastLyric != ""
  }

  /** What the status bar shows after the effects, starting from `shown`. */
  function Screen(shown: string, effects: seq<Effect>): string
  {
    if effects == [] then shown
    else
      match effects[|effects| - 1]
      case GenerateStatusBarImage(text) => text
      case ResetTray => ""
  }

  /** No request asks for what the status bar already shows, checked
      request by request from the last one back (NoRedundantImageMeans
      states it for every position at once). */
  predicate NoRedundantImage(shown: string, effects: seq<Effect>)
    decreases |effects|
  {
    effects == [] ||
      var n := |effects| - 1;
      && NoRedundantImage(shown, effects[..n])
      && (effects[n].GenerateStatusBarImage? ==> effects[n].text != Screen(shown, effects[..n]))
  }

  lemma {:induction false} NoRedundantImageMeans(shown: string, effects: seq<Effect>)
    ensures NoRedundantImage(shown, effects) <==>
              forall i :: 0 <= i < |effects| && effects[i].GenerateStatusBarImage? ==>
                effects[i].text != Screen(shown, effects[..i])
    decreases |effects|
  {
    if effects != [] {
      var n := |effects| - 1;
      var front := effects[..n];
      NoRedundantImageMeans(shown, front);
      forall i | 0 <= i < n
        ensures front[i] == effects[i] && front[..i] == effects[..i]
      {
        PrefixOfPrefix(effects, n, i);
      }
    }
  }

  lemma PrefixOfPrefix(xs: seq<Effect>, n: nat, i: nat)
    requires i < n <= |xs|
    ensures xs[..n][i] == xs[i] && xs[..n][..i] == xs[..i]
  {
  }

  /** The `lyrics-data` handler, lines 207-252. */
  function OnLyricsData(s: Debounce, e: LyricsEvent): (r: Step)
    ensures e.platform != "darwin" ==> r == Step(s, [])
    ensures |r.effects| <= 1
    ensures r.next.timerPending && !s.timerPending ==>
              e.platform == "darwin" && FeatureOn(e.statusBarLyrics) && LyricText(e) == "" && s.lastLyric != ""
    ensures e.platform == "darwin" && FeatureOn(e.statusBarLyrics) && LyricText(e) != "" ==>
              && r.next == Debounce(LyricText(e), false)
              && (r.effects != [] <==> LyricText(e) != s.lastLyric)
    ensures e.platform == "darwin" && FeatureOn(e.statusBarLyrics) && LyricText(e) == "" ==>
              && r.effects == []
              && r.next == Debounce(s.lastLyric, s.timerPending || s.lastLyric != "")
    ensures e.platform == "darwin" && !FeatureOn(e.statusBarLyrics) && s.lastLyric != "" ==>
              && !r.next.timerPending
              && (r.next.lastLyric == "" <==> e.trayExists)
              && r.effects == (if e.trayExists then [ResetTray] else [])
              && (!e.trayExists ==> r.next.lastLyric == s.lastLyric)
    ensures !FeatureOn(e.statusBarLyrics) && s.lastLyric == "" ==> r == Step(s, [])
  {
    if e.platform != "darwin" then Step(s, [])
    else if FeatureOn(e.statusBarLyrics) then
      var lyric := LyricText(e);
      if lyric != "" then
        Step(Debounce(lyric, false), if lyric != s.lastLyric then [GenerateStatusBarImage(lyric)] else [])
      else if !s.timerPending && s.lastLyric != "" then
        Step(Debounce(s.lastLyric, true), [])
      else Step(s, [])
    else if s.lastLyric != "" then
      if e.trayExists then Step(Debounce("", false), [ResetTray])
      else Step(Debounce(s.lastLyric, false), [])
    else Step(s, [])
  }

  /** The clear timer's callback, lines 228-235, reading the setting again
      when it runs. With no timer held there is nothing to fire. */
  function OnClearTimerFires(s: Debounce, statusBarLyrics: Option<string>): (r: Step)
    ensures !r.next.timerPending
    ensures s.timerPending && FeatureOn(statusBarLyrics) ==> r.effects == [GenerateStatusBarImage("")]
    ensures !FeatureOn(statusBarLyrics) ==> r.effects == [] && r.next.lastLyric == s.lastLyric
  {
    if !s.timerPending then Step(s, [])
    else if FeatureOn(statusBarLyrics) then Step(Debounce("", false), [GenerateStatusBarImage("")])
    else Step(Debounce(s.lastLyric, false), [])
  }

  function Apply(s: Debounce, ev: Event): Step {
    match ev
    case LyricsData(e) => OnLyricsData(s, e)
    case ClearTimerFires(setting) => OnClearTimerFires(s, setting)
  }

  /** What one step keeps: the invariant, `lastStatusBarLyric` equal to
      what the status bar was last told to show, and no request for what it
      already shows. */
  predicate KeepsScreen(s: Debounce, r: Step) {
    && Inv(r.next)
    && r.next.lastLyric == Screen(s.lastLyric, r.effects)
    && NoRedundantImage(s.lastLyric, r.effects)
  }

  lemma LyricsDataKeepsScreen(s: Debounce, e: LyricsEvent)
    requires Inv(s)
    ensures KeepsScreen(s, OnLyricsData(s, e))
  {
    var r := OnLyricsData(s, e);
    if r.effects != [] {
      assert |r.effects| == 1 && r.effects[..0] == [];
      assert NoRedundantImage(s.lastLyric, r.effects[..0]);
    }
  }

  lemma ClearTimerKeepsScreen(s: Debounce, statusBarLyrics: Option<string>)
    requires Inv(s)
    ensures KeepsScreen(s, OnClearTimerFires(s, statusBarLyrics))
  {
  }

  lemma ApplyKeepsScreen(s: Debounce, ev: Event)
    requires Inv(s)
    ensures KeepsScreen(s, Apply(s, ev))
  {
    match ev
    case LyricsData(e) => LyricsDataKeepsScreen(s, e);
    case ClearTimerFires(setting) => ClearTimerKeepsScreen(s, setting);
  }

  /** The events handled one after the other, as the event loop runs them,
      and everything they sent, in order. Over any run the invariant holds,
      `lastStatusBarLyric` is what the status bar was last told to show, and
      no request repeats what is already shown. */
  function Run(s: Debounce, events: seq<Event>): (r: Step)
    requires Inv(s)
    ensures Inv(r.next)
    ensures |r.effects| <= |events|
    ensures r.next.lastLyric == Screen(s.lastLyric, r.effects)
    ensures NoRedundantImage(s.lastLyric, r.effects)
    decreases |events|
  {
    if events == [] then Step(s, [])
    else
      var first := Run(s, events[..|events| - 1]);
      var last := Apply(first.next, events[|events| - 1]);
      ApplyKeepsScreen(first.next, events[|events| - 1]);
      ScreenAppend(s.lastLyric, first.effects, last.effects);
      NoRedundantAppend(s.lastLyric, first.effects, last.effects);
      Step(last.next, first.effects + last.effects)
  }

  lemma ScreenAppend(shown: string, xs: seq<Effect>, ys: seq<Effect>)
    ensures Screen(shown, xs + ys) == Screen(Screen(shown, xs), ys)
  {
    if ys != [] {
      assert (xs + ys)[|xs + ys| - 1] == ys[|ys| - 1];
    } else {
      assert xs + ys == xs;
    }
  }

  lemma {:induction false} NoRedundantAppend(shown: string, xs: seq<Effect>, ys: seq<Effect>)
    requires NoRedundantImage(shown, xs)
    requires NoRedundantImage(Screen(shown, xs), ys)
    ensures NoRedundantImage(shown, xs + ys)
    decreases |ys|
  {
    if ys == [] {
      assert xs + ys == xs;
    } else {
      var front := ys[..|ys| - 1];
      NoRedundantAppend(shown, xs, front);
      assert (xs + ys)[..|xs + ys| - 1] == xs + front;
      assert (xs + ys)[|xs + ys| - 1] == ys[|ys| - 1];
      ScreenAppend(shown, xs, front);
    }
  }

  /** A step that keeps the cache equal to what the status bar shows, and
      asks for nothing already shown, keeps both for the whole log. */
  lemma LogExtends(log: seq<Effect>, s: Debounce, step: Step)
    requires s.lastLyric == Screen("", log) && NoRedundantImage("", log)
    requires KeepsScreen(s, step)
    ensures step.next.lastLyric == Screen("", log + step.effects)
    ensures NoRedundantImage("", log + step.effects)
  {
    ScreenAppend("", log, step.effects);
    NoRedundantAppend("", log, step.effects);
  }

  /** Repeating a lyric sends nothing the second time. */
  lemma RepeatedLyricSendsNothing(s: Debounce, e: LyricsEvent)
    requires e.platform == "darwin" && FeatureOn(e.statusBarLyrics) && LyricText(e) != ""
    ensures OnLyricsData(OnLyricsData(s, e).next, e) == Step(OnLyricsData(s, e).next, [])
  {
  }

  /** A lyric, then no lyric, then the timer firing with the feature still
      on: the status bar is asked for the lyric, a timer is armed, and
      when it fires the status bar is asked for the placeholder. */
  lemma GapClearsAfterTimer(s: Debounce, lyric: string, darwinOn: LyricsEvent)
    requires darwinOn.platform == "darwin" && FeatureOn(darwinOn.statusBarLyrics)
    requires lyric != "" && lyric != s.lastLyric
    ensures var r1 := OnLyricsData(s, darwinOn.(currentLyric := Some(lyric)));
            var r2 := OnLyricsData(r1.next, darwinOn.(currentLyric := None));
            var r3 := OnClearTimerFires(r2.next, Some("on"));
            && r1.effects == [GenerateStatusBarImage(lyric)]
            && r2 == Step(Debounce(lyric, true), [])
            && r3 == Step(Debounce("", false), [GenerateStatusBarImage("")])
  {
  }

  /** The module-level variables of the main process. `clearLyricsTimeout`
      is the handle of the clear timer, here whether one is held; the ghost
      fields count the timers scheduled and neither fired nor cancelled,
      and log every effect so far. */
  class StatusBar {
    var lastStatusBarLyric: string
    var clearLyricsTimeout: bool
    ghost var liveTimers: nat
    ghost var sent: seq<Effect>

    /** At most one clear timer is live, and it is the one held. */
    ghost predicate Valid()
      reads this
    {
      && liveTimers == (if clearLyricsTimeout then 1 else 0)
      && Inv(State())
      && lastStatusBarLyric == Screen("", sent)
      && NoRedundantImage("", sent)
    }

    function State(): Debounce
      reads this
    {
      Debounce(lastStatusBarLyric, clearLyricsTimeout)
    }

    /** Lines 18-19: no lyric cached, no timer. */
    constructor()
      ensures Valid()
      ensures lastStatusBarLyric == "" && !clearLyricsTimeout && sent == []
    {
      lastStatusBarLyric := "";
      clearLyricsTimeout := false;
      liveTimers := 0;
      sent := [];
    }

    /** The `lyrics-data` handler, with the forwarding to the lyrics window
        left out. */
    method HandleLyricsData(e: LyricsEvent) returns (effects: seq<Effect>)
      requires Valid()
      modifies this
      ensures Valid()
      ensures State() == OnLyricsData(old(State()), e).next
      ensures effects == OnLyricsData(old(State()), e).effects
      ensures sent == old(sent) + effects
    {
      ghost var step := OnLyricsData(State(), e);
      LyricsDataKeepsScreen(State(), e);
      LogExtends(sent, State(), step);
      sent := sent + step.effects;
      effects := [];
      if e.platform == "darwin" {
        if FeatureOn(e.statusBarLyrics) {
          var currentLyric := e.currentLyric.GetOr("");
          if currentLyric != "" {
            if clearLyricsTimeout {
              clearLyricsTimeout := false;
              liveTimers := liveTimers - 1;
            }
            if currentLyric != lastStatusBarLyric {
              effects := [GenerateStatusBarImage(currentLyric)];
              lastStatusBarLyric := currentLyric;
            }
          } else {
            if !clearLyricsTimeout && lastStatusBarLyric != "" {
              clearLyricsTimeout := true;
              liveTimers := liveTimers + 1;
            }
          }
        } else if lastStatusBarLyric != "" {
          if clearLyricsTimeout {
            clearLyricsTimeout := false;
            liveTimers := liveTimers - 1;
          }
          if e.trayExists {
            effects := [ResetTray];
            lastStatusBarLyric := "";
          }
        }
      }
      assert State() == step.next && effects == step.effects;
    }

    /** The clear timer's callback. It only runs while its timer is held:
        a cancelled timer never fires. */
    method HandleClearTimerFires(statusBarLyrics: Option<string>) returns (effects: seq<Effect>)
      requires Valid() && clearLyricsTimeout
      modifies this
      ensures Valid()
      ensures State() == OnClearTimerFires(old(State()), statusBarLyrics).next
      ensures effects == OnClearTimerFires(old(State()), statusBarLyrics).effects
      ensures sent == old(sent) + effects
    {
      ghost var step := OnClearTimerFires(State(), statusBarLyrics);
      ClearTimerKeepsScreen(State(), statusBarLyrics);
      LogExtends(sent, State(), step);
      sent := sent + step.effects;
      effects := [];
      if FeatureOn(statusBarLyrics) {
        effects := [GenerateStatusBarImage("")];
        lastStatusBarLyric := "";
      }
      clearLyricsTimeout := false;
      liveTimers := liveTimers - 1;
      assert State() == step.next && effects == step.effects;
    }
  }
}
