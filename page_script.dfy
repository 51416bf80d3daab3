/**
 * The page script of the viewer (`script.js`): device detection, the container layout rule, the
 * double-tap detector, and the loader that is hidden when the report frame loads (or after a
 * safety delay) and replaced by an error message when it is still shown at the error check.
 *
 * Timer time is a number of milliseconds since the page's content was loaded. Timers are kept
 * in a queue ordered by due time, timers due at the same time in the order they were scheduled.
 * Touchend times are wall-clock readings in milliseconds since the epoch, a different clock; the
 * touchend listener is only registered on mobile devices.
 */
module PageScript {
  import opened Wrappers
  import Text

  // ---------------------------------------------------------------------------------------
  // Device detection

  /** The user-agent words that mark a mobile device. */
  const MOBILE_TOKENS: seq<string> := ["Android", "webOS", "iPhone", "iPad", "iPod", "BlackBerry", "IEMobile", "Opera Mini"]

  /** Some token of `tokens` occurs in `userAgent`, upper and lower case not told apart. */
  function MentionsAny(userAgent: string, tokens: seq<string>): (r: bool)
    ensures r <==> exists k, i :: 0 <= k < |tokens| && Text.OccursAtIgnoringCase(userAgent, tokens[k], i)
  {
    if |tokens| == 0 then false
    else if Text.ContainsIgnoringCase(userAgent, tokens[0]) then true
    else
      var r := MentionsAny(userAgent, tokens[1..]);
      assert forall k :: 0 < k < |tokens| ==> tokens[k] == tokens[1..][k - 1];
      r
  }

  /** The case-insensitive test of the user agent against the mobile tokens. */
  function IsMobile(userAgent: string): (r: bool)
    ensures r <==> exists k, i :: 0 <= k < |MOBILE_TOKENS| && Text.OccursAtIgnoringCase(userAgent, MOBILE_TOKENS[k], i)
  {
    MentionsAny(userAgent, MOBILE_TOKENS)
  }

  /** The test does not depend on the case of the user agent. */
  lemma IsMobileIgnoresCase(userAgent: string)
    ensures IsMobile(Text.Lower(userAgent)) == IsMobile(userAgent)
  {
    var lower := Text.Lower(userAgent);
    forall k, i | 0 <= k < |MOBILE_TOKENS|
      ensures Text.OccursAtIgnoringCase(lower, MOBILE_TOKENS[k], i) <==> Text.OccursAtIgnoringCase(userAgent, MOBILE_TOKENS[k], i)
    {
      forall j | 0 <= j < |userAgent| ensures Text.LowerChar(lower[j]) == Text.LowerChar(userAgent[j]) {
        LowerCharIdempotent(userAgent[j]);
      }
    }
  }

  lemma LowerCharIdempotent(c: char)
    ensures Text.LowerChar(Text.LowerChar(c)) == Text.LowerChar(c)
  {
  }

  /** Every token, in any case, marks a mobile device, whatever surrounds it. */
  lemma TokenMarksMobile(before: string, k: nat, after: string)
    requires k < |MOBILE_TOKENS|
    ensures IsMobile(before + MOBILE_TOKENS[k] + after)
    ensures IsMobile(before + Text.Lower(MOBILE_TOKENS[k]) + after)
  {
    var t := MOBILE_TOKENS[k];
    var s := before + t + after;
    var s' := before + Text.Lower(t) + after;
    forall j | 0 <= j < |t| ensures Text.LowerChar(s[|before| + j]) == Text.LowerChar(t[j]) {
      assert s[|before| + j] == t[j];
    }
    assert Text.OccursAtIgnoringCase(s, t, |before|);
    forall j | 0 <= j < |t| ensures Text.LowerChar(s'[|before| + j]) == Text.LowerChar(t[j]) {
      assert s'[|before| + j] == Text.Lower(t)[j];
      LowerCharIdempotent(t[j]);
    }
    assert Text.OccursAtIgnoringCase(s', t, |before|);
  }

  // ---------------------------------------------------------------------------------------
  // Container layout

  /** A header or footer `display` value. */
  datatype Display = Block | Hidden

  /** What `adjustContainerSize` writes: the container's height and width, the header and footer
      display, and whether the body gets the `mobile-device` and `landscape` classes. */
  datatype Layout = Layout(height: string, width: string, header: Display, footer: Display,
                           mobileDevice: bool, landscape: bool)

  /** Below this window height (in pixels) the container takes the full window. */
  const SMALL_HEIGHT: int := 500

  /** The layout for a window of `width` by `height` pixels. */
  function AdjustContainerSize(width: int, height: int, isMobile: bool): (r: Layout)
    ensures height < SMALL_HEIGHT ==> r.height == "100vh" && r.width == "100%"
    ensures height >= SMALL_HEIGHT && isMobile ==> r.height == "98vh" && r.width == "98%"
    ensures height >= SMALL_HEIGHT && !isMobile ==> r.height == "95vh" && r.width == "95%"
    ensures r.header == Hidden <==> isMobile && width > height && height < SMALL_HEIGHT
    ensures r.footer == r.header
    ensures r.mobileDevice == isMobile && (r.landscape <==> width > height)
  {
    var isLandscape := width > height;
    var isSmallHeight := height < SMALL_HEIGHT;
    var (h, w) :=
      if isSmallHeight then ("100vh", "100%")
      else if isMobile then ("98vh", "98%")
      else ("95vh", "95%");
    var bar :=
      if isMobile && isLandscape then (if isSmallHeight then Hidden else Block)
      else Block;
    Layout(h, w, bar, bar, isMobile, isLandscape)
  }

  /** A square window is laid out as portrait: no `landscape` class, header and footer shown. */
  lemma SquareIsPortrait(side: int, isMobile: bool)
    ensures !AdjustContainerSize(side, side, isMobile).landscape
    ensures AdjustContainerSize(side, side, isMobile).header == Block
  {
  }

  /** Header and footer are hidden only when the container takes the whole window. */
  lemma HiddenBarsOnlyFullWindow(width: int, height: int, isMobile: bool)
    requires AdjustContainerSize(width, height, isMobile).header == Hidden
    ensures AdjustContainerSize(width, height, isMobile).height == "100vh"
    ensures AdjustContainerSize(width, height, isMobile).width == "100%"
  {
  }

  // ---------------------------------------------------------------------------------------
  // Double tap

  /** Longest gap, in milliseconds, between two touchends that make a double tap. */
  const DOUBLE_TAP_WINDOW: int := 500

  /** A touchend at `now` after one at `last` is the second tap of a double tap. */
  predicate DoubleTap(last: int, now: int)
  {
    0 < now - last < DOUBLE_TAP_WINDOW
  }

  /** Whether each touchend of `times` stops propagation, the previous touchend having been
      at `last`. */
  function Stops(last: int, times: seq<int>): (r: seq<bool>)
    ensures |r| == |times|
    ensures |times| > 0 ==> r[0] == DoubleTap(last, times[0])
    ensures forall i :: 0 < i < |times| ==> r[i] == DoubleTap(times[i - 1], times[i])
    decreases |times|
  {
    if |times| == 0 then []
    else
      var rest := Stops(times[0], times[1..]);
      assert forall i :: 0 < i < |times| - 1 ==> times[1..][i - 1] == times[i];
      [DoubleTap(last, times[0])] + rest
  }

  /** Three quick taps: the second and the third stop propagation, because the time of the last
      touchend is kept even after a double tap. */
  lemma TripleTapStopsTwice(last: int, t: int, g1: int, g2: int)
    requires t - last >= DOUBLE_TAP_WINDOW && 0 < g1 < DOUBLE_TAP_WINDOW && 0 < g2 < DOUBLE_TAP_WINDOW
    ensures Stops(last, [t, t + g1, t + g1 + g2]) == [false, true, true]
  {
    var r := Stops(last, [t, t + g1, t + g1 + g2]);
    assert r[0] == false && r[1] == true && r[2] == true;
  }

  /** `lastTap` starts at 0 while touchend times are wall-clock readings, so the first touchend
      of a session, 500 ms or more after the epoch, never stops propagation. */
  lemma FirstTouchEndPassesThrough(now: int, later: seq<int>)
    requires now >= DOUBLE_TAP_WINDOW
    ensures !Stops(0, [now] + later)[0]
    ensures Stops(0, [now] + later)[1..] == Stops(now, later)
  {
    assert ([now] + later)[1..] == later;
  }

  /** The `touchend` listener of the report frame and the `lastTap` it keeps. */
  class TapTracker {
    var lastTap: int

    constructor ()
      ensures lastTap == 0
    {
      lastTap := 0;
    }

    /** One touchend at time `now`: whether it stops propagation; `lastTap` becomes `now`. */
    method TouchEnd(now: int) returns (stopPropagation: bool)
      modifies this
      ensures stopPropagation == DoubleTap(old(lastTap), now)
      ensures lastTap == now
    {
      var tapLength := now - lastTap;
      stopPropagation := tapLength < DOUBLE_TAP_WINDOW && tapLength > 0;
      lastTap := now;
    }
  }

  // ---------------------------------------------------------------------------------------
  // Loader and error timeline

  /** The fade-out time of the loader, in milliseconds. */
  const FADE_DELAY: int := 500

  function SafetyDelay(isMobile: bool): int
  {
    if isMobile then 5000 else 8000
  }

  function ErrorDelay(isMobile: bool): int
  {
    if isMobile then 8000 else 10000
  }

  /** What the loader container shows: its inline opacity and display, and whether its content
      was replaced by the error message. `present` is false when the page has no loader. */
  datatype Loader = Loader(present: bool, opacity: string, display: string, showsError: bool)

  /** The loader as the page starts: no inline style, no error. */
  function InitialLoader(present: bool): Loader
  {
    Loader(present, "", "", false)
  }

  /** What runs when a timer (or the frame's load event) fires. */
  datatype Event =
    | Hide        // `hideLoader`
    | Finish      // the end of the fade: display `none`
    | CheckError  // the error check of `handleIframeError`

  datatype Timer = Timer(due: int, event: Event)

  predicate Sorted(ts: seq<Timer>)
  {
    forall i, j :: 0 <= i < j < |ts| ==> ts[i].due <= ts[j].due
  }

  /** Each `Hide` may still schedule a `Finish`: it counts twice. */
  function Weight(ts: seq<Timer>): nat
  {
    if |ts| == 0 then 0 else (if ts[0].event == Hide then 2 else 1) + Weight(ts[1..])
  }

  /** Where a new timer `t` joins `ts`: after the leading timers due no later than it. */
  function InsertPosition(ts: seq<Timer>, t: Timer): (k: nat)
    ensures k <= |ts|
    ensures forall i :: 0 <= i < k ==> ts[i].due <= t.due
    ensures k < |ts| ==> t.due < ts[k].due
  {
    if |ts| == 0 || t.due < ts[0].due then 0 else 1 + InsertPosition(ts[1..], t)
  }

  /** A new timer joins the queue after every timer due no later than it, so timers due at the
      same time fire in the order they were scheduled. */
  function Insert(ts: seq<Timer>, t: Timer): (r: seq<Timer>)
    ensures multiset(r) == multiset(ts) + multiset{t}
    ensures forall x :: x in r <==> x in ts || x == t
    ensures Sorted(ts) ==> Sorted(r)
    ensures Weight(r) == Weight(ts) + Weight([t])
    ensures exists k :: (0 <= k <= |ts| && r == ts[..k] + [t] + ts[k..]
                         && (forall i :: 0 <= i < k ==> ts[i].due <= t.due) && (k < |ts| ==> t.due < ts[k].due))
  {
    var k := InsertPosition(ts, t);
    Spliced(ts, k, t);
    SplicedSorted(ts, k, t);
    SplicedWeight(ts, k, t);
    ts[..k] + [t] + ts[k..]
  }

  /** A timer put between two halves of a queue adds one copy of itself and nothing else. */
  lemma Spliced(ts: seq<Timer>, k: nat, t: Timer)
    requires k <= |ts|
    ensures multiset(ts[..k] + [t] + ts[k..]) == multiset(ts) + multiset{t}
    ensures forall x :: x in ts[..k] + [t] + ts[k..] <==> x in ts || x == t
  {
    assert ts == ts[..k] + ts[k..];
  }

  /** A timer put after the timers due no later than it, and before a later one, keeps a sorted
      queue sorted. */
  lemma SplicedSorted(ts: seq<Timer>, k: nat, t: Timer)
    requires k <= |ts| && (forall i :: 0 <= i < k ==> ts[i].due <= t.due) && (k < |ts| ==> t.due < ts[k].due)
    ensures Sorted(ts) ==> Sorted(ts[..k] + [t] + ts[k..])
  {
    if Sorted(ts) {
      var r := ts[..k] + [t] + ts[k..];
      forall i, j | 0 <= i < j < |r| ensures r[i].due <= r[j].due {
        if j < k {
          assert r[i] == ts[i] && r[j] == ts[j];
        } else if j == k {
          assert r[i] == ts[i];
        } else if i == k {
          assert r[j] == ts[j - 1];
        } else if i < k {
          assert r[i] == ts[i] && r[j] == ts[j - 1];
        } else {
          assert r[i] == ts[i - 1] && r[j] == ts[j - 1];
        }
      }
    }
  }

  lemma SplicedWeight(ts: seq<Timer>, k: nat, t: Timer)
    requires k <= |ts|
    ensures Weight(ts[..k] + [t] + ts[k..]) == Weight(ts) + Weight([t])
  {
    WeightAround(ts[..k], t, ts[k..]);
    assert ts == ts[..k] + ts[k..];
  }

  lemma WeightAround(a: seq<Timer>, t: Timer, b: seq<Timer>)
    ensures Weight(a + [t] + b) == Weight(a + b) + Weight([t])
  {
    WeightAppend(a + [t], b);
    WeightAppend(a, [t]);
    WeightAppend(a, b);
  }

  /** The weight of two queues one after the other is the sum of their weights. */
  lemma {:induction false} WeightAppend(a: seq<Timer>, b: seq<Timer>)
    ensures Weight(a + b) == Weight(a) + Weight(b)
  {
    if |a| == 0 {
      assert a + b == b;
    } else {
      WeightAppend(a[1..], b);
      assert (a + b)[0] == a[0] && (a + b)[1..] == a[1..] + b;
    }
  }

  /** The first timer of the queue fires: the loader and the queue after it. The queue stays in
      order and loses weight; only a firing hide schedules a timer, the end of its fade. The
      loader stays present or absent; it fades only at a hide, is hidden only at the end of a
      fade, and shows the error only at an error check that finds it displayed. A hidden loader
      stays hidden, and an error once shown stays. */
  function Step(l: Loader, ts: seq<Timer>): (r: (Loader, seq<Timer>))
    requires |ts| > 0
    ensures Sorted(ts) ==> Sorted(r.1)
    ensures Weight(r.1) < Weight(ts)
    ensures multiset(r.1) == multiset(ts[1..])
      + if ts[0].event == Hide && l.present then multiset{Timer(ts[0].due + FADE_DELAY, Finish)} else multiset{}
    ensures r.0.present == l.present && (!l.present ==> r.0 == l)
    ensures r.0.opacity == "0" <==> l.opacity == "0" || (ts[0].event == Hide && l.present)
    ensures r.0.display == "none" <==> l.display == "none" || (ts[0].event == Finish && l.present)
    ensures r.0.showsError <==> l.showsError || (ts[0].event == CheckError && l.present && l.display != "none")
  {
    (Fire(l, ts[0].event), Requeue(l, ts))
  }

  /** The loader after `e` ran: `hideLoader` fades a present loader out, the end of the fade
      hides it, and the error check shows the error on a loader still displayed. */
  function Fire(l: Loader, e: Event): (r: Loader)
    ensures r.present == l.present && (!l.present ==> r == l)
    ensures r.opacity == "0" <==> l.opacity == "0" || (e == Hide && l.present)
    ensures r.display == "none" <==> l.display == "none" || (e == Finish && l.present)
    ensures r.showsError <==> l.showsError || (e == CheckError && l.present && l.display != "none")
  {
    if !l.present then l
    else match e
      case Hide => l.(opacity := "0")
      case Finish => l.(display := "none")
      case CheckError => if l.display != "none" then l.(showsError := true) else l
  }

  /** The queue after its head fired: the rest, plus the end of the fade when a hide found the
      loader. */
  function Requeue(l: Loader, ts: seq<Timer>): (r: seq<Timer>)
    requires |ts| > 0
    ensures Sorted(ts) ==> Sorted(r)
    ensures Weight(r) < Weight(ts)
    ensures multiset(r) == multiset(ts[1..])
      + if ts[0].event == Hide && l.present then multiset{Timer(ts[0].due + FADE_DELAY, Finish)} else multiset{}
  {
    TailOfQueue(ts);
    if ts[0].event == Hide && l.present then
      var f := Timer(ts[0].due + FADE_DELAY, Finish);
      assert Weight([f]) == 1 + Weight([f][1..]);
      Insert(ts[1..], f)
    else ts[1..]
  }

  /** The queue behind its head: its weight is the rest of the queue's, and it stays in order. */
  lemma TailOfQueue(ts: seq<Timer>)
    requires |ts| > 0
    ensures Weight(ts) == (if ts[0].event == Hide then 2 else 1) + Weight(ts[1..])
    ensures Sorted(ts) ==> Sorted(ts[1..])
  {
  }

  /** The loader once every queued timer has fired. */
  function Run(l: Loader, ts: seq<Timer>): (r: Loader)
    ensures r.present == l.present
    ensures l.display == "none" ==> r.display == "none"
    ensures l.showsError ==> r.showsError
    decreases Weight(ts)
  {
    if |ts| == 0 then l
    else
      var (l', ts') := Step(l, ts);
      Run(l', ts')
  }

  /** The queue as the page's content has loaded: the safety hide when there is a report frame,
      the error check, and the frame's load event at `loadAt` when it comes. */
  function InitialTimers(isMobile: bool, hasFrame: bool, loadAt: Option<nat>): (r: seq<Timer>)
    ensures Sorted(r)
    ensures forall t :: t in r <==>
      || (hasFrame && t == Timer(SafetyDelay(isMobile), Hide))
      || t == Timer(ErrorDelay(isMobile), CheckError)
      || (hasFrame && loadAt.Some? && t == Timer(loadAt.value, Hide))
    ensures multiset(r) ==
      (if hasFrame then multiset{Timer(SafetyDelay(isMobile), Hide)} else multiset{})
      + multiset{Timer(ErrorDelay(isMobile), CheckError)}
      + (if hasFrame && loadAt.Some? then multiset{Timer(loadAt.value, Hide)} else multiset{})
  {
    var safety := if hasFrame then [Timer(SafetyDelay(isMobile), Hide)] else [];
    var withCheck := Insert(safety, Timer(ErrorDelay(isMobile), CheckError));
    if hasFrame && loadAt.Some? then Insert(withCheck, Timer(loadAt.value, Hide)) else withCheck
  }

  /** The frame's load event joins the queue after every timer due no later than it, so a load
      event due at the same time as the safety hide fires after it. */
  lemma LoadEventAfterTies(isMobile: bool, at: nat)
    ensures var q := InitialTimers(isMobile, true, None);
      exists k :: (0 <= k <= |q| && InitialTimers(isMobile, true, Some(at)) == q[..k] + [Timer(at, Hide)] + q[k..]
                   && (forall i :: 0 <= i < k ==> q[i].due <= at) && (k < |q| ==> at < q[k].due))
  {
    var q := InitialTimers(isMobile, true, None);
    assert InitialTimers(isMobile, true, Some(at)) == Insert(q, Timer(at, Hide));
  }

  /** The loader after the whole timeline. */
  function FinalLoader(present: bool, isMobile: bool, hasFrame: bool, loadAt: Option<nat>): (r: Loader)
    ensures r.present == present
  {
    Run(InitialLoader(present), InitialTimers(isMobile, hasFrame, loadAt))
  }

  /** `t` finishes the loader before any check queued in `ts` fires: a `Finish` due before every
      check, or a `Hide` whose fade ends before every check. */
  ghost predicate FinishesFirst(t: Timer, ts: seq<Timer>)
  {
    || (t.event == Finish && forall c :: c in ts && c.event == CheckError ==> t.due < c.due)
    || (t.event == Hide && forall c :: c in ts && c.event == CheckError ==> t.due + FADE_DELAY < c.due)
  }

  /** No error can show any more: the loader is gone or hidden, or a queued timer finishes it
      before every pending check. */
  ghost predicate Guarded(l: Loader, ts: seq<Timer>)
  {
    !l.present || l.display == "none" || exists t :: t in ts && FinishesFirst(t, ts)
  }

  /** One step keeps the guard and shows no error. */
  lemma StepKeepsGuard(l: Loader, ts: seq<Timer>)
    requires |ts| > 0 && Sorted(ts) && Guarded(l, ts) && !l.showsError
    ensures Guarded(Step(l, ts).0, Step(l, ts).1) && !Step(l, ts).0.showsError && Sorted(Step(l, ts).1)
  {
    if l.present && l.display != "none" {
      var t := GuardWitness(l, ts);
      if ts[0].event == Hide {
        var r := Step(l, ts);
        var g := HideKeepsGuard(ts, r.1, t);
      }
    }
  }

  /** After a `Hide` fires and its `Finish` joins the rest, the queue is still finished before
      any check: by that `Finish` when the `Hide` was the guard itself, by the old guard otherwise. */
  lemma HideKeepsGuard(ts: seq<Timer>, ts': seq<Timer>, t: Timer) returns (g: Timer)
    requires |ts| > 0 && ts[0].event == Hide
    requires multiset(ts') == multiset(ts[1..]) + multiset{Timer(ts[0].due + FADE_DELAY, Finish)}
    requires t in ts && ts[0].due <= t.due && FinishesFirst(t, ts)
    ensures g in ts' && FinishesFirst(g, ts')
  {
    var f := Timer(ts[0].due + FADE_DELAY, Finish);
    SameMembers(ts', ts[1..], f);
    assert forall c :: c in ts' && c.event == CheckError ==> c in ts by {
      forall c | c in ts' && c.event == CheckError ensures c in ts {
        assert c in ts[1..];
      }
    }
    if t == ts[0] {
      g := f;
    } else {
      KeptAfterHead(ts, t);
      g := t;
    }
  }

  /** The timers of a queue holding another one's and one more. */
  lemma SameMembers(r: seq<Timer>, ts: seq<Timer>, f: Timer)
    requires multiset(r) == multiset(ts) + multiset{f}
    ensures forall x :: x in r <==> x in ts || x == f
  {
    forall x ensures x in r <==> x in ts || x == f {
      assert x in r <==> x in multiset(r);
      assert x in ts <==> x in multiset(ts);
    }
  }

  /** The timer that guards a displayed loader; it is due no earlier than the head. */
  lemma GuardWitness(l: Loader, ts: seq<Timer>) returns (t: Timer)
    requires |ts| > 0 && Sorted(ts) && Guarded(l, ts) && l.present && l.display != "none"
    ensures t in ts && ts[0].due <= t.due && FinishesFirst(t, ts)
  {
    t :| t in ts && FinishesFirst(t, ts);
    var i :| 0 <= i < |ts| && ts[i] == t;
    assert ts[0] in ts;
  }

  /** A timer other than the head is still queued after the head fires. */
  lemma KeptAfterHead(ts: seq<Timer>, t: Timer)
    requires |ts| > 0 && t in ts && t != ts[0]
    ensures t in ts[1..]
  {
    var i :| 0 <= i < |ts| && ts[i] == t;
    assert ts[1..][i - 1] == t;
  }

  /** A guarded queue runs to the end without showing the error. */
  lemma {:induction false} RunGuarded(l: Loader, ts: seq<Timer>)
    requires Sorted(ts) && Guarded(l, ts) && !l.showsError
    ensures !Run(l, ts).showsError
    decreases Weight(ts)
  {
    if |ts| > 0 {
      StepKeepsGuard(l, ts);
      RunGuarded(Step(l, ts).0, Step(l, ts).1);
    }
  }

  /** A present loader with a pending `Hide` or `Finish` ends hidden; once hidden, it stays so. */
  lemma {:induction false} RunHides(l: Loader, ts: seq<Timer>)
    requires l.present
    requires l.display == "none" || exists t :: t in ts && (t.event == Hide || t.event == Finish)
    ensures Run(l, ts).display == "none"
    decreases Weight(ts)
  {
    if |ts| > 0 {
      var r := Step(l, ts);
      if l.display != "none" {
        var t :| t in ts && (t.event == Hide || t.event == Finish);
        HidingTimerKept(l, ts, t);
      }
      RunHides(r.0, r.1);
    }
  }

  /** A pending `Hide` or `Finish` survives a step, or the step hid the loader: a hide that fires
      leaves the end of its fade behind. */
  lemma HidingTimerKept(l: Loader, ts: seq<Timer>, t: Timer)
    requires |ts| > 0 && l.present && t in ts && (t.event == Hide || t.event == Finish)
    ensures || Step(l, ts).0.display == "none"
            || exists t' :: t' in Step(l, ts).1 && (t'.event == Hide || t'.event == Finish)
  {
    var r := Step(l, ts);
    var f := Timer(ts[0].due + FADE_DELAY, Finish);
    if ts[0].event == Hide {
      SameMembers(r.1, ts[1..], f);
      assert f in r.1;
    } else if t != ts[0] {
      KeptAfterHead(ts, t);
      assert t in multiset(ts[1..]);
      assert t in r.1;
    }
  }

  /** Without a loader, no timer changes anything. */
  lemma {:induction false} RunWithoutLoader(l: Loader, ts: seq<Timer>)
    requires !l.present
    ensures Run(l, ts) == l
    decreases Weight(ts)
  {
    if |ts| > 0 {
      RunWithoutLoader(l, Step(l, ts).1);
    }
  }

  /** The error message replaces a present loader exactly when the page has no report frame:
      with a frame, the safety hide fades out before the error check however late the frame
      loads. */
  lemma ErrorShownIffNoFrame(present: bool, isMobile: bool, hasFrame: bool, loadAt: Option<nat>)
    ensures FinalLoader(present, isMobile, hasFrame, loadAt).showsError <==> present && !hasFrame
  {
    var l := InitialLoader(present);
    var ts := InitialTimers(isMobile, hasFrame, loadAt);
    if !present {
      RunWithoutLoader(l, ts);
    } else if hasFrame {
      FrameKeepsErrorAway(isMobile, loadAt);
    } else {
      NoFrameShowsError(isMobile, loadAt);
    }
  }

  /** With a frame, the safety hide is due before every error check, so no error is shown. */
  lemma FrameKeepsErrorAway(isMobile: bool, loadAt: Option<nat>)
    ensures !FinalLoader(true, isMobile, true, loadAt).showsError
  {
    FrameTimers(isMobile, loadAt);
    HiddenBeforeCheck(InitialLoader(true), InitialTimers(isMobile, true, loadAt), Timer(SafetyDelay(isMobile), Hide), ErrorDelay(isMobile));
  }

  /** With a frame, the safety hide is queued and its fade ends before the one error check. */
  lemma FrameTimers(isMobile: bool, loadAt: Option<nat>)
    ensures Timer(SafetyDelay(isMobile), Hide) in InitialTimers(isMobile, true, loadAt)
    ensures SafetyDelay(isMobile) + FADE_DELAY < ErrorDelay(isMobile)
    ensures forall c :: c in InitialTimers(isMobile, true, loadAt) && c.event == CheckError ==> c.due == ErrorDelay(isMobile)
  {
  }

  /** A pending `Hide` whose fade ends before the one time every pending check is due keeps
      the error away for the rest of the run. */
  lemma HiddenBeforeCheck(l: Loader, ts: seq<Timer>, t: Timer, due: int)
    requires Sorted(ts) && !l.showsError
    requires t in ts && t.event == Hide && t.due + FADE_DELAY < due
    requires forall c :: c in ts && c.event == CheckError ==> c.due == due
    ensures !Run(l, ts).showsError
  {
    assert Guarded(l, ts);
    RunGuarded(l, ts);
  }

  /** Without a frame, the one error check finds the loader and shows the error. */
  lemma NoFrameShowsError(isMobile: bool, loadAt: Option<nat>)
    ensures FinalLoader(true, isMobile, false, loadAt).showsError
  {
    NoFrameTimers(isMobile, loadAt);
    LoneTimer(InitialLoader(true), Timer(ErrorDelay(isMobile), CheckError));
  }

  /** Without a frame the error check is the only timer. */
  lemma NoFrameTimers(isMobile: bool, loadAt: Option<nat>)
    ensures InitialTimers(isMobile, false, loadAt) == [Timer(ErrorDelay(isMobile), CheckError)]
  {
    var ts := InitialTimers(isMobile, false, loadAt);
    assert |ts| == |multiset(ts)| == 1;
    assert ts[0] in ts;
  }

  /** A queue of one timer that schedules nothing more runs in one step. */
  lemma LoneTimer(l: Loader, t: Timer)
    requires t.event != Hide
    ensures Run(l, [t]) == Step(l, [t]).0
  {
    var r := Step(l, [t]);
    assert |r.1| == |multiset(r.1)| == 0;
  }

  /** The loader ends hidden (display `none`) exactly when it is present and the page has a
      report frame. */
  lemma LoaderHiddenIffFrame(present: bool, isMobile: bool, hasFrame: bool, loadAt: Option<nat>)
    ensures FinalLoader(present, isMobile, hasFrame, loadAt).display == "none" <==> present && hasFrame
  {
    if !present {
      RunWithoutLoader(InitialLoader(present), InitialTimers(isMobile, hasFrame, loadAt));
    } else if hasFrame {
      FrameHidesLoader(isMobile, loadAt);
    } else {
      NoFrameTimers(isMobile, loadAt);
      LoneTimer(InitialLoader(true), Timer(ErrorDelay(isMobile), CheckError));
    }
  }

  /** With a frame, the pending safety hide ends with the loader hidden. */
  lemma FrameHidesLoader(isMobile: bool, loadAt: Option<nat>)
    ensures FinalLoader(true, isMobile, true, loadAt).display == "none"
  {
    FrameTimers(isMobile, loadAt);
    RunHides(InitialLoader(true), InitialTimers(isMobile, true, loadAt));
  }

  /** The loader container element. */
  class LoaderElement {
    var opacity: string
    var display: string
    var showsError: bool

    constructor ()
      ensures opacity == "" && display == "" && !showsError
    {
      opacity := "";
      display := "";
      showsError := false;
    }
  }

  /** The page: its loader (null when absent) and its pending timers. */
  class Page {
    const loader: LoaderElement?
    var pending: seq<Timer>

    /** The loader's state as a value. */
    function View(): Loader
      reads this, loader
    {
      if loader == null then InitialLoader(false)
      else Loader(true, loader.opacity, loader.display, loader.showsError)
    }

    constructor (loader: LoaderElement?, isMobile: bool, hasFrame: bool, loadAt: Option<nat>)
      ensures this.loader == loader && pending == InitialTimers(isMobile, hasFrame, loadAt)
    {
      this.loader := loader;
      pending := InitialTimers(isMobile, hasFrame, loadAt);
    }

    /** `hideLoader` at time `now`: fade out, and schedule the end of the fade. */
    method HideLoader(now: int)
      modifies this, loader
      ensures loader != null ==> loader.opacity == "0" && pending == Insert(old(pending), Timer(now + FADE_DELAY, Finish))
      ensures loader != null ==> loader.display == old(loader.display) && loader.showsError == old(loader.showsError)
      ensures loader == null ==> pending == old(pending)
    {
      if loader != null {
        loader.opacity := "0";
        pending := Insert(pending, Timer(now + FADE_DELAY, Finish));
      }
    }

    /** The end of the fade. */
    method FinishHide()
      modifies loader
      ensures loader != null ==> loader.display == "none"
      ensures loader != null ==> loader.opacity == old(loader.opacity) && loader.showsError == old(loader.showsError)
    {
      if loader != null {
        loader.display := "none";
      }
    }

    /** The error check: a loader still displayed is replaced by the error message. */
    method CheckError()
      modifies loader
      ensures loader != null ==>
        loader.showsError == (old(loader.showsError) || old(loader.display) != "none")
        && loader.opacity == old(loader.opacity) && loader.display == old(loader.display)
    {
      if loader != null && loader.display != "none" {
        loader.showsError := true;
      }
    }

    /** The first pending timer fires. */
    method Dispatch()
      requires |pending| > 0
      modifies this, loader
      ensures (View(), pending) == Step(old(View()), old(pending))
    {
      var t := pending[0];
      pending := pending[1..];
      match t.event {
        case Hide => HideLoader(t.due);
        case Finish => FinishHide();
        case CheckError => CheckError();
      }
    }
  }
}
