/**
 * The background-music toggle. The page keeps a `musicOn` flag; an effect
 * that runs on mount and whenever the flag changes configures the hidden
 * audio element and pauses it, or asks it to play; the music button negates
 * the flag and asks the element to play at once (a user gesture lets the
 * browser allow it); a load error of the element forces the flag off.
 *
 * The browser's audio element is abstracted to whether it is playing, and
 * each asynchronous `play()` request to a boolean outcome passed in by the
 * caller. The user notice (`alert`) and the console log are counters.
 */
module Music {

  datatype Audio = Paused | Playing

  /** Everything the music logic changes. */
  datatype Player = Player(musicOn: bool, audio: Audio, notices: nat, errorsLogged: nat)

  /** What can happen to the page. */
  datatype Event =
    /** The music button: outcome of its own `play()` request, then of the effect's. */
    | Click(clickPlayOk: bool, effectPlayOk: bool)
    /** The audio element's `error` event. */
    | LoadError
    /** The audio element's `canplaythrough` event, with the outcome of its `play()` request. */
    | CanPlayThrough(playOk: bool)

  /** The volume the effect sets, 0.35. */
  const Volume: real := 0.35

  /** Music off and nothing sounding: the state after mounting. */
  const Initial: Player := Player(false, Paused, 0, 0)

  /** The invariant the page keeps: while the flag is off, the audio is paused. */
  predicate Consistent(p: Player)
  {
    !p.musicOn ==> p.audio == Paused
  }

  /** A `play()` request: it starts the audio, or it fails and the failure is logged. */
  function Play(p: Player, ok: bool): Player
  {
    if ok then p.(audio := Playing) else p.(errorsLogged := p.errorsLogged + 1)
  }

  /** The effect keyed on `musicOn`: play when the flag is on, pause when it is off. */
  function Effect(p: Player, playOk: bool): Player
  {
    if p.musicOn then Play(p, playOk) else p.(audio := Paused)
  }

  /**
   * One event, as the page handles it. A click always changes the flag, so
   * the effect runs after it; a load error changes the flag, and so runs the
   * effect, only when music was on.
   */
  function Step(p: Player, e: Event): (r: Player)
    ensures Consistent(p) ==> Consistent(r)
    ensures e.Click? ==> r.musicOn == !p.musicOn
    ensures e.LoadError? ==> !r.musicOn
    ensures r.musicOn && !p.musicOn ==> e.Click?
    ensures e.Click? && !p.musicOn && (e.clickPlayOk || e.effectPlayOk) ==> r.audio == Playing
    ensures e.CanPlayThrough? ==> r.musicOn == p.musicOn
    ensures e.CanPlayThrough? && p.musicOn && e.playOk ==> r.audio == Playing
    ensures p.audio == Paused && r.audio == Playing ==>
              (e.Click? && !p.musicOn && (e.clickPlayOk || e.effectPlayOk))
              || (e.CanPlayThrough? && p.musicOn && e.playOk)
    ensures p.audio == Playing && r.audio == Paused ==> !r.musicOn
    ensures r.notices == p.notices + (if e.Click? && !p.musicOn && !e.clickPlayOk then 1 else 0)
    ensures r.errorsLogged >= p.errorsLogged
  {
    match e
    case Click(clickOk, effectOk) =>
      var flipped := p.(musicOn := !p.musicOn);
      var afterClick :=
        if !flipped.musicOn then flipped
        else if clickOk then Play(flipped, true)
        else Play(flipped, false).(notices := p.notices + 1);
      Effect(afterClick, effectOk)
    case LoadError =>
      var logged := p.(errorsLogged := p.errorsLogged + 1, musicOn := false);
      if p.musicOn then Effect(logged, false) else logged
    case CanPlayThrough(ok) =>
      if p.musicOn then Play(p, ok) else p
  }

  /** The state after a sequence of events. */
  function Run(p: Player, es: seq<Event>): Player
    decreases |es|
  {
    if es == [] then p else Run(Step(p, es[0]), es[1..])
  }

  /**
   * Number of clicks whose `clickPlayOk` is false, whichever way they turn
   * the flag: a click that turns music off asks for no `play()`, so this
   * over-counts the clicks that can show the notice.
   */
  function FailedClicks(es: seq<Event>): nat
    decreases |es|
  {
    if es == [] then 0
    else (if es[0].Click? && !es[0].clickPlayOk then 1 else 0) + FailedClicks(es[1..])
  }

  /** Whatever happens, the audio is paused whenever the flag is off. */
  lemma {:induction false} RunKeepsConsistent(p: Player, es: seq<Event>)
    requires Consistent(p)
    ensures Consistent(Run(p, es))
    decreases |es|
  {
    if es != [] {
      RunKeepsConsistent(Step(p, es[0]), es[1..]);
    }
  }

  /** Without a click nothing ever sounds and no notice is shown. */
  lemma {:induction false} NoSoundWithoutClick(p: Player, es: seq<Event>)
    requires !p.musicOn && p.audio == Paused
    requires forall i :: 0 <= i < |es| ==> !es[i].Click?
    ensures !Run(p, es).musicOn && Run(p, es).audio == Paused
    ensures Run(p, es).notices == p.notices
    decreases |es|
  {
    if es != [] {
      assert !es[0].Click?;
      NoSoundWithoutClick(Step(p, es[0]), es[1..]);
    }
  }

  /** The notice is shown at most once per click whose `play()` request failed. */
  lemma {:induction false} NoticesAtMostFailedClicks(p: Player, es: seq<Event>)
    ensures Run(p, es).notices <= p.notices + FailedClicks(es)
    decreases |es|
  {
    if es != [] {
      NoticesAtMostFailedClicks(Step(p, es[0]), es[1..]);
    }
  }

  /** Two clicks leave the flag as it was. */
  lemma ClickTwiceRestoresFlag(p: Player, first: Event, second: Event)
    requires first.Click? && second.Click?
    ensures Step(Step(p, first), second).musicOn == p.musicOn
  {
  }

  /**
   * A click that turns music on but whose `play()` requests both fail shows
   * the notice and leaves the flag on while nothing sounds; the click the
   * notice asks for then turns music off and pauses.
   */
  lemma FailedPlayLeavesFlagOn(p: Player, next: Event)
    requires Consistent(p) && !p.musicOn && next.Click?
    ensures var q := Step(p, Click(false, false));
            q.musicOn && q.audio == Paused && q.notices == p.notices + 1
            && !Step(q, next).musicOn && Step(q, next).audio == Paused
  {
  }

  /**
   * The page's music state, with the audio element's settings that the
   * effect writes on every run.
   */
  class MusicToggle {
    var musicOn: bool
    var audio: Audio
    var notices: nat
    var errorsLogged: nat
    var volume: real
    var loop: bool

    /**
     * The element is configured as every run of the effect leaves it, and
     * the audio is paused while the flag is off.
     */
    ghost predicate Valid()
      reads this
    {
      volume == Volume && loop && Consistent(State())
    }

    ghost function State(): Player
      reads this
    {
      Player(musicOn, audio, notices, errorsLogged)
    }

    /** Mounting the page: the flag starts off and the first run of the effect pauses the audio. */
    constructor Mount()
      ensures State() == Initial
      ensures Valid()
    {
      musicOn := false;
      audio := Paused;
      notices := 0;
      errorsLogged := 0;
      volume := 1.0;  // the element's default volume
      loop := true;   // the element is rendered with the `loop` attribute
      new;
      RunEffect(false);
    }

    /** A `play()` request with the given outcome. */
    method RequestPlay(ok: bool)
      modifies this
      ensures State() == Play(old(State()), ok)
      ensures volume == old(volume) && loop == old(loop)
    {
      if ok {
        audio := Playing;
      } else {
        errorsLogged := errorsLogged + 1;
      }
    }

    /** One run of the effect keyed on `musicOn`. */
    method RunEffect(playOk: bool)
      modifies this
      ensures State() == Effect(old(State()), playOk)
      ensures Valid()
    {
      volume := Volume;
      loop := true;
      if musicOn {
        RequestPlay(playOk);
      } else {
        audio := Paused;
      }
    }

    /** The music button, then the effect its change of flag triggers. */
    method Click(clickPlayOk: bool, effectPlayOk: bool)
      requires Valid()
      modifies this
      ensures State() == Step(old(State()), Event.Click(clickPlayOk, effectPlayOk))
      ensures Valid()
    {
      var newState := !musicOn;
      musicOn := newState;
      if newState {
        RequestPlay(clickPlayOk);
        if !clickPlayOk {
          notices := notices + 1;
        }
      }
      RunEffect(effectPlayOk);
    }

    /** The audio element's `error` handler. */
    method OnLoadError()
      requires Valid()
      modifies this
      ensures State() == Step(old(State()), LoadError)
      ensures Valid()
    {
      errorsLogged := errorsLogged + 1;
      var changed := musicOn;
      musicOn := false;
      if changed {
        RunEffect(false);
      }
    }

    /** The audio element's `canplaythrough` handler. */
    method OnCanPlayThrough(playOk: bool)
      requires Valid()
      modifies this
      ensures State() == Step(old(State()), CanPlayThrough(playOk))
      ensures Valid()
    {
      if musicOn {
        RequestPlay(playOk);
      }
    }
  }
}
