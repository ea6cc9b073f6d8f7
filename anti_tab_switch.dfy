/** The tab-switch detector of frontend/src/components/AntiTabSwitch.jsx:
    two flags, `inBackground` and `cooling`, driven by the window's `blur`,
    the document's `visibilitychange` and the 1200 ms cooldown timeout, and
    at most one strike per return to the page. */
module AntiTabSwitch {

  /** The events the component reacts to. `CooldownExpired` is the timeout
      set when a strike is emitted. */
  datatype Event = Hidden | Visible | Blur | CooldownExpired

  /** The two refs and the number of `onStrike` calls so far. */
  datatype Detector = Detector(inBackground: bool, cooling: bool, strikes: nat)

  const Initial: Detector := Detector(false, false, 0)

  /** A return to the page strikes when the page was left and no cooldown
      is running. */
  predicate Strikes(d: Detector, e: Event) {
    e == Visible && d.inBackground && !d.cooling
  }

  /** One event. */
  function Step(d: Detector, e: Event): (r: Detector)
    ensures r.strikes == d.strikes + (if Strikes(d, e) then 1 else 0)
    ensures e == Hidden || e == Blur ==> r == d.(inBackground := true)
    ensures e == Visible ==> !r.inBackground && r.cooling == (d.cooling || Strikes(d, e))
    ensures e == CooldownExpired ==> r == d.(cooling := false)
  {
    match e
    case Hidden => d.(inBackground := true)
    case Blur => d.(inBackground := true)
    case Visible =>
      if d.inBackground && !d.cooling then Detector(false, true, d.strikes + 1)
      else d.(inBackground := false)
    case CooldownExpired => d.(cooling := false)
  }

  /** A sequence of events, in order. */
  function Run(d: Detector, es: seq<Event>): Detector
    decreases |es|
  {
    if es == [] then d else Run(Step(d, es[0]), es[1..])
  }

  function VisibleCount(es: seq<Event>): nat
    decreases |es|
  {
    if es == [] then 0 else (if es[0] == Visible then 1 else 0) + VisibleCount(es[1..])
  }

  lemma {:induction false} RunAppend(d: Detector, a: seq<Event>, b: seq<Event>)
    ensures Run(d, a + b) == Run(Run(d, a), b)
    decreases |a|
  {
    if a == [] {
      assert a + b == b;
    } else {
      assert (a + b)[0] == a[0] && (a + b)[1..] == a[1..] + b;
      RunAppend(Step(d, a[0]), a[1..], b);
    }
  }

  /** Never more than one strike per return to the page: leaving, blurring
      and the cooldown never strike. */
  lemma {:induction false} StrikesPerReturn(d: Detector, es: seq<Event>)
    ensures d.strikes <= Run(d, es).strikes <= d.strikes + VisibleCount(es)
    decreases |es|
  {
    if es != [] {
      StrikesPerReturn(Step(d, es[0]), es[1..]);
    }
  }

  /** A return during the cooldown is lost, not deferred: nothing strikes,
      and once the cooldown ends a further return strikes nothing either. */
  lemma ReturnDuringCooldownLost(d: Detector)
    requires d.inBackground && d.cooling
    ensures Run(d, [Visible, CooldownExpired, Visible]).strikes == d.strikes
  {
  }

  /** Leave and return twice: two strikes when the cooldown ends in between,
      one when it does not. */
  lemma TwoReturns()
    ensures Run(Initial, [Hidden, Visible, CooldownExpired, Hidden, Visible]).strikes == 2
    ensures Run(Initial, [Hidden, Visible, Hidden, Visible]).strikes == 1
  {
  }

  /** Blurring and then hiding is still one leave: one strike on return. */
  lemma BlurThenHide()
    ensures Run(Initial, [Blur, Hidden, Visible]).strikes == 1
  {
  }

  function Cycles(n: nat): seq<Event>
    ensures |Cycles(n)| == 3 * n
  {
    if n == 0 then [] else [Hidden, Visible, CooldownExpired] + Cycles(n - 1)
  }

  /** `maxStrikes` caps nothing: from a settled state, every full
      leave/return/cooldown cycle strikes once more, however many came
      before. */
  lemma {:induction false} NoCap(d: Detector, n: nat)
    requires !d.cooling
    ensures Run(d, Cycles(n)).strikes == d.strikes + n
    ensures !Run(d, Cycles(n)).cooling
    decreases n
  {
    if n > 0 {
      var once := [Hidden, Visible, CooldownExpired];
      RunAppend(d, once, Cycles(n - 1));
      NoCap(Run(d, once), n - 1);
    }
  }

  /** The component: each handler moves the state one `Step`. */
  class TabSwitchDetector {
    var inBackground: bool
    var cooling: bool
    var strikes: nat

    function State(): Detector
      reads this
    {
      Detector(inBackground, cooling, strikes)
    }

    constructor ()
      ensures State() == Initial
    {
      inBackground, cooling, strikes := false, false, 0;
    }

    /** `visibilitychange` with `document.hidden`. */
    method Hidden()
      modifies this
      ensures State() == Step(old(State()), Event.Hidden)
      ensures inBackground && cooling == old(cooling) && strikes == old(strikes)
    {
      inBackground := true;
    }

    /** The window's `blur`. */
    method Blur()
      modifies this
      ensures State() == Step(old(State()), Event.Blur)
      ensures inBackground && cooling == old(cooling) && strikes == old(strikes)
    {
      inBackground := true;
    }

    /** `visibilitychange` back to visible; `struck` is the `onStrike` call. */
    method Visible() returns (struck: bool)
      modifies this
      ensures State() == Step(old(State()), Event.Visible)
      ensures struck <==> old(inBackground) && !old(cooling)
      ensures !inBackground && cooling == (old(cooling) || struck)
      ensures strikes == old(strikes) + (if struck then 1 else 0)
    {
      struck := inBackground && !cooling;
      if struck {
        cooling := true;
        strikes := strikes + 1;
      }
      inBackground := false;
    }

    /** The 1200 ms timeout after a strike. */
    method CooldownExpired()
      modifies this
      ensures State() == Step(old(State()), Event.CooldownExpired)
      ensures !cooling && inBackground == old(inBackground) && strikes == old(strikes)
    {
      cooling := false;
    }
  }
}
