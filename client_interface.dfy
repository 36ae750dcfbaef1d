/**
 * The stateful side of the visual-element engine: `ClientElement`, which
 * keeps the positions of its last matches and clicks on them, and
 * `_waitforelement`, the polling loop that waits for an element (or one of
 * several alternatives) to appear.
 *
 * What the engine reads from the outside world is passed in: the pointer
 * position (`pointer`, what `_getpos()` reads) and the screen (`Screen`, the
 * score map `cv2.matchTemplate` yields for a template against a capture of a
 * region). Time is counted in whole milliseconds.
 */
module ClientInterface {
  import opened Wrappers
  import opened Geometry
  import opened Matching

  /** Messages of the exceptions the engine raises. */
  const NotVisibleMessage := "Steuerelement nicht sichtbar"
  const UnexpectedlyVisibleMessage := "Steuerelement unerwartet sichtbar"
  const UnknownPositionMessage := "Targetposition nicht bekannt."
  const TimeoutMessage := "Timeout beim Warten auf Steuerelement: "

  /** `ElementError` and `Timeout`, the exceptions the engine raises. */
  datatype Error = ElementError(message: string) | Timeout(message: string)

  /** The default pause between two polls and the default timeout, in ms. */
  const PollInterval: int := 500
  const DefaultTimeout: int := 120000

  /** The screen at one moment: the score map of a template against the
      capture of a region (`None` captures the full screen). */
  type Screen = (Option<BBox>, Template) -> ScoreMap

  /** What `click` does: nothing, or click at a point. */
  datatype ClickAction = Skipped | ClickedAt(point: Point)

  /** What `_waitforelement` returns: `(True, positive)` or `(False, n)`. */
  datatype Found = Found(positive: bool, element: ClientElement)

  /** A template together with the region where to look for it, the
      confidence to look for it with and where to click on it; and the cache
      of where it was last found. */
  class ClientElement {
    const name: string
    const bbox: Option<BBox>
    const template: Template
    const conf: real
    const clickpoint: Option<Point>
    /** The box and the click point are relative to the pointer. */
    const relative: bool
    /** Click where the template was found rather than at the box's midpoint. */
    const clickvisible: bool

    /** `_lastpos`: absolute positions of the last matches, best first. */
    var lastpos: seq<Point>
    /** `_lastconf`: their confidences (not shortened when a position is consumed). */
    var lastconf: seq<real>
    /** The number of matches the last visibility check found. */
    var lastcount: nat

    constructor (name: string, bbox: Option<BBox>, template: Template, conf: real := DefaultConfidence,
                 clickpoint: Option<Point> := None, relative: bool := false, clickvisible: bool := false)
      ensures this.name == name && this.bbox == bbox && this.template == template && this.conf == conf
      ensures this.clickpoint == clickpoint && this.relative == relative && this.clickvisible == clickvisible
      ensures lastpos == [] && lastconf == [] && lastcount == 0
    {
      this.name := name;
      this.bbox := bbox;
      this.template := template;
      this.conf := conf;
      this.clickpoint := clickpoint;
      this.relative := relative;
      this.clickvisible := clickvisible;
      lastpos := [];
      lastconf := [];
      lastcount := 0;
    }

    /** The offset the box is moved by: `at` if given, else the pointer, for a
        relative element; nothing for an absolute one. */
    function SearchOffset(at: Option<Point>, pointer: Point): Point {
      if !relative then Point(0, 0) else if at.Some? then at.value else pointer
    }

    /** `_currentbbox(at)`: the region to search now. */
    function CurrentBBox(at: Option<Point>, pointer: Point): (r: Option<BBox>)
      ensures r.None? <==> bbox.None?
      ensures r.Some? ==> r.value.Sub(SearchOffset(at, pointer)) == bbox.value
      ensures r.Some? ==> r.value.Width() == bbox.value.Width() && r.value.Height() == bbox.value.Height()
      ensures !relative ==> r == bbox
    {
      if bbox.None? then None else Some(bbox.value.Add(SearchOffset(at, pointer)))
    }

    /** The confidence a check uses: the override if given, else the element's own. */
    function LocalConf(override: Option<real>): real {
      if override.None? then conf else override.value
    }

    /** The matches `isvisible` finds: the template matched in multi mode
        against the capture of the current box. */
    function Matches(at: Option<Point>, override: Option<real>, pointer: Point, screen: Screen): seq<Match> {
      MatchSpec(screen(CurrentBBox(at, pointer), template), template, LocalConf(override), true)
    }

    /** What turns a position in the capture into an absolute one. */
    function CaptureOffset(at: Option<Point>, pointer: Point): Point {
      if bbox.None? then Point(0, 0) else CurrentBBox(at, pointer).value.Offset()
    }

    /** The absolute positions `isvisible` stores. */
    function Located(at: Option<Point>, override: Option<real>, pointer: Point, screen: Screen): seq<Point> {
      var found := Matches(at, override, pointer, screen);
      seq(|found|, i requires 0 <= i < |found| => found[i].point.Add(CaptureOffset(at, pointer)))
    }

    /** The element is visible: some score of the capture of its current
        box is strictly above the confidence used. */
    predicate Visible(at: Option<Point>, override: Option<real>, pointer: Point, screen: Screen) {
      var g := screen(CurrentBBox(at, pointer), template);
      exists y, x :: 0 <= y < |g| && 0 <= x < |g[y]| && g[y][x] > LocalConf(override)
    }

    /** The whole cache holds what `isvisible()` finds on `screen`. */
    predicate CacheFrom(pointer: Point, screen: Screen)
      reads this
    {
      && lastpos == Located(None, None, pointer, screen)
      && lastconf == Confidences(Matches(None, None, pointer, screen))
      && lastcount == |Matches(None, None, pointer, screen)|
    }

    /** The cache holds nothing: what an unsuccessful `isvisible()` leaves. */
    predicate CacheEmpty()
      reads this
    {
      lastpos == [] && lastconf == [] && lastcount == 0
    }

    /** `isvisible(at, conf=override)`: matches the template against the
        current capture and replaces the cache with what it found. */
    method IsVisible(at: Option<Point>, override: Option<real>, pointer: Point, screen: Screen)
      returns (visible: bool)
      modifies this
      ensures lastcount == |Matches(at, override, pointer, screen)|
      ensures lastpos == Located(at, override, pointer, screen)
      ensures lastconf == Confidences(Matches(at, override, pointer, screen))
      ensures visible == Visible(at, override, pointer, screen)
      ensures visible <==> lastpos != []
      ensures !visible ==> CacheEmpty()
    {
      var cbbox := CurrentBBox(at, pointer);
      var localconf := if override.None? then conf else override.value;
      var found := MatchTemplate(screen(cbbox, template), template, localconf, true);
      assert found == Matches(at, override, pointer, screen);
      lastcount := |found|;
      var offset := if bbox.None? then Point(0, 0) else cbbox.value.Offset();
      assert offset == CaptureOffset(at, pointer);
      lastpos := seq(|found|, i requires 0 <= i < |found| => found[i].point.Add(offset));
      lastconf := seq(|found|, i requires 0 <= i < |found| => found[i].conf);
      visible := |lastpos| > 0;
      VisibleIff(this, at, override, pointer, screen);
    }

    /** `lastpos()` without removal: the best cached position, or
        `ElementError` when the cache is empty. */
    function PeekPos(): (r: Result<Point, Error>)
      reads this
      ensures r.Err? <==> lastpos == []
      ensures r.Ok? ==> r.value == lastpos[0]
      ensures r.Err? ==> r.error == ElementError(UnknownPositionMessage)
    {
      if lastpos == [] then Err(ElementError(UnknownPositionMessage)) else Ok(lastpos[0])
    }

    /** `morevisible()`: whether a cached position is left. */
    function MoreVisible(): (r: bool)
      reads this
      ensures r <==> PeekPos().Ok?
    {
      lastpos != []
    }

    /** `lastpos(remove)`: the best cached position; with `remove` it is also
        taken off the cache. Fails with `ElementError` on an empty cache. */
    method LastPos(remove: bool) returns (r: Result<Point, Error>)
      modifies this`lastpos
      ensures r == old(PeekPos())
      ensures lastpos == if remove && old(lastpos) != [] then old(lastpos)[1..] else old(lastpos)
    {
      if lastpos == [] {
        return Err(ElementError(UnknownPositionMessage));
      }
      r := Ok(lastpos[0]);
      if remove {
        lastpos := lastpos[1..];
      }
    }

    /** `_currentclickpoint()`: the explicit click point (moved by the
        pointer for a relative element); else the midpoint of the current box
        if there is one and the element is not `clickvisible`; else the best
        cached position. */
    function ClickPoint(pointer: Point): (r: Result<Point, Error>)
      reads this
      ensures clickpoint.Some? ==> r == Ok(clickpoint.value.Add(SearchOffset(None, pointer)))
      ensures clickpoint.None? && bbox.Some? && !clickvisible ==> r == Ok(CurrentBBox(None, pointer).value.Midpoint())
      ensures clickpoint.None? && (bbox.None? || clickvisible) ==> r == PeekPos()
    {
      if clickpoint.None? then
        if CurrentBBox(None, pointer).Some? && !clickvisible then Ok(CurrentBBox(None, pointer).value.Midpoint())
        else PeekPos()
      else if relative then Ok(clickpoint.value.Add(pointer))
      else Ok(clickpoint.value)
    }

    /** What `click` ends with, given the cache after its checks. */
    function ClickResult(blind: bool, ifvisible: bool, pointer: Point): Result<ClickAction, Error>
      reads this
    {
      if !blind && lastpos == [] then
        if ifvisible then Ok(Skipped) else Err(ElementError(NotVisibleMessage + ": " + name))
      else
        match ClickPoint(pointer)
        case Ok(p) => Ok(ClickedAt(p))
        case Err(e) => Err(e)
    }

    /** `click(blind, ifvisible, wait)`: waits for the element first if `wait`
        is a non-zero timeout; unless `blind`, checks that it is visible
        (doing nothing if not and `ifvisible`, else raising `ElementError`);
        then clicks at the click point. Each poll and check reads the next
        screen of `screens`. */
    method Click(blind: bool, ifvisible: bool, wait: Option<int>, pointer: Point, screens: nat -> Screen)
      returns (r: Result<ClickAction, Error>)
      modifies this
      ensures TimedOut(wait, pointer, screens) ==> r == Err(Timeout(TimeoutMessage + name))
      ensures TimedOut(wait, pointer, screens) && wait.value > 0 ==> CacheEmpty()
      ensures TimedOut(wait, pointer, screens) && wait.value < 0 ==> unchanged(this)
      ensures !TimedOut(wait, pointer, screens) ==>
        && (!blind ==> CacheFrom(pointer, screens(ClickTick(wait, pointer, screens))))
        && (blind && Waits(wait) ==> CacheFrom(pointer, screens(ClickTick(wait, pointer, screens) - 1)))
        && (blind && !Waits(wait) ==> unchanged(this))
        && r == ClickResult(blind, ifvisible, pointer)
    {
      var tick := 0;
      if Waits(wait) {
        var outcome, polls := WaitForElement(this, [], wait.value, PollInterval, pointer, screens);
        if outcome.Err? {
          return Err(outcome.error);
        }
        tick := polls;
      }
      r := CheckAndClick(blind, ifvisible, pointer, screens(tick));
    }

    /** The part of `click` after the wait: the visibility check unless
        `blind`, then the click. */
    method CheckAndClick(blind: bool, ifvisible: bool, pointer: Point, screen: Screen)
      returns (r: Result<ClickAction, Error>)
      modifies this
      ensures !blind ==> CacheFrom(pointer, screen)
      ensures blind ==> unchanged(this)
      ensures r == ClickResult(blind, ifvisible, pointer)
    {
      if !blind {
        var visible := IsVisible(None, None, pointer, screen);
        if !visible {
          if ifvisible {
            return Ok(Skipped);
          }
          return Err(ElementError(NotVisibleMessage + ": " + name));
        }
      }
      var p := ClickPoint(pointer);
      if p.Err? {
        return Err(p.error);
      }
      r := Ok(ClickedAt(p.value));
    }

    /** `if wait:` — a timeout of 0 (or none) means no waiting. */
    predicate Waits(wait: Option<int>) {
      wait.Some? && wait.value != 0
    }

    /** The wait before a click ran out of time. */
    predicate TimedOut(wait: Option<int>, pointer: Point, screens: nat -> Screen) {
      Waits(wait) && WaitOutcome(PollResults(this, [], pointer, screens), name, 0, wait.value, PollInterval).Err?
    }

    /** The screen the click's own check reads: the one after the wait's polls. */
    function ClickTick(wait: Option<int>, pointer: Point, screens: nat -> Screen): nat {
      if Waits(wait) then WaitPolls(PollResults(this, [], pointer, screens), 0, wait.value, PollInterval) else 0
    }

    /** `clicklast(remove)`: clicks at the best cached position, taking it off
        the cache with `remove`. */
    method ClickLast(remove: bool) returns (r: Result<ClickAction, Error>)
      modifies this`lastpos
      ensures r == if old(lastpos) == [] then Err(ElementError(UnknownPositionMessage)) else Ok(ClickedAt(old(lastpos)[0]))
      ensures lastpos == if remove && old(lastpos) != [] then old(lastpos)[1..] else old(lastpos)
    {
      var p := LastPos(remove);
      if p.Err? {
        return Err(p.error);
      }
      r := Ok(ClickedAt(p.value));
    }

    /** `assertvisible()`: raises `ElementError` unless the element is visible. */
    method AssertVisible(pointer: Point, screen: Screen) returns (r: Result<(), Error>)
      modifies this
      ensures lastpos == Located(None, None, pointer, screen)
      ensures lastcount == |Matches(None, None, pointer, screen)|
      ensures lastconf == Confidences(Matches(None, None, pointer, screen))
      ensures r.Err? <==> !Visible(None, None, pointer, screen)
      ensures r.Err? ==> r.error == ElementError(NotVisibleMessage)
    {
      var visible := IsVisible(None, None, pointer, screen);
      if !visible {
        return Err(ElementError(NotVisibleMessage));
      }
      r := Ok(());
    }

    /** `assertnotvisible()`: raises `ElementError` if the element is visible. */
    method AssertNotVisible(pointer: Point, screen: Screen) returns (r: Result<(), Error>)
      modifies this
      ensures lastpos == Located(None, None, pointer, screen)
      ensures lastcount == |Matches(None, None, pointer, screen)|
      ensures lastconf == Confidences(Matches(None, None, pointer, screen))
      ensures r.Err? <==> Visible(None, None, pointer, screen)
      ensures r.Err? ==> r.error == ElementError(UnexpectedlyVisibleMessage)
    {
      var visible := IsVisible(None, None, pointer, screen);
      if visible {
        return Err(ElementError(UnexpectedlyVisibleMessage));
      }
      r := Ok(());
    }
  }

  /** The confidences of a list of matches, in order. */
  function Confidences(found: seq<Match>): (cs: seq<real>)
    ensures |cs| == |found|
    ensures forall i :: 0 <= i < |found| ==> cs[i] == found[i].conf
  {
    seq(|found|, i requires 0 <= i < |found| => found[i].conf)
  }

  // ---------------------------------------------------------------------------
  // `_waitforelement`

  /** The index of the first element of `negative[k..]` visible on `screen`. */
  function FirstVisibleFrom(negative: seq<ClientElement>, k: nat, pointer: Point, screen: Screen): (r: Option<nat>)
    requires k <= |negative|
    decreases |negative| - k
    ensures r.Some? ==> k <= r.value < |negative|
  {
    if k == |negative| then None
    else if negative[k].Visible(None, None, pointer, screen) then Some(k)
    else FirstVisibleFrom(negative, k + 1, pointer, screen)
  }

  /** `FirstVisibleFrom` finds a visible element with none visible before
      it, and finds nothing only when none is visible. */
  lemma {:induction false} FirstVisibleFromIsFirst(negative: seq<ClientElement>, k: nat, pointer: Point, screen: Screen)
    requires k <= |negative|
    decreases |negative| - k
    ensures FirstVisibleFrom(negative, k, pointer, screen).None? ==>
      forall j :: k <= j < |negative| ==> !negative[j].Visible(None, None, pointer, screen)
    ensures FirstVisibleFrom(negative, k, pointer, screen).Some? ==>
      negative[FirstVisibleFrom(negative, k, pointer, screen).value].Visible(None, None, pointer, screen)
    ensures FirstVisibleFrom(negative, k, pointer, screen).Some? ==>
      forall j :: k <= j < FirstVisibleFrom(negative, k, pointer, screen).value ==>
        !negative[j].Visible(None, None, pointer, screen)
  {
    if k < |negative| && !negative[k].Visible(None, None, pointer, screen) {
      FirstVisibleFromIsFirst(negative, k + 1, pointer, screen);
    }
  }

  /** One poll: the positive element if visible, else the first visible
      negative one, else nothing. */
  function PollOnce(positive: ClientElement, negative: seq<ClientElement>, pointer: Point, screen: Screen): Option<Found> {
    if positive.Visible(None, None, pointer, screen) then Some(Found(true, positive))
    else
      match FirstVisibleFrom(negative, 0, pointer, screen)
      case Some(i) => Some(Found(false, negative[i]))
      case None => None
  }

  /** The number of polls `while timeout > 0: ...; timeout -= sleep` allows. */
  function Polls(timeout: int, sleep: int): nat
    requires sleep > 0
    decreases timeout
  {
    if timeout <= 0 then 0 else 1 + Polls(timeout - sleep, sleep)
  }

  /** What each poll of a wait finds, poll by poll: poll `i` reads `screens(i)`. */
  function PollResults(positive: ClientElement, negative: seq<ClientElement>, pointer: Point,
                       screens: nat -> Screen): nat -> Option<Found> {
    (i: nat) => PollOnce(positive, negative, pointer, screens(i))
  }

  /** What `_waitforelement` returns or raises for an element called `name`,
      given what its polls find, polling from poll `k` on with `remaining`
      ms left. */
  function WaitOutcome(results: nat -> Option<Found>, name: string, k: nat, remaining: int, sleep: int)
    : (r: Result<Found, Error>)
    requires sleep > 0
    decreases remaining
    ensures r.Err? ==> r.error == Timeout(TimeoutMessage + name)
  {
    if remaining <= 0 then Err(Timeout(TimeoutMessage + name))
    else
      match results(k)
      case Some(f) => Ok(f)
      case None => WaitOutcome(results, name, k + 1, remaining - sleep, sleep)
  }

  /** The number of polls made by the end of the wait, counting from poll 0. */
  function WaitPolls(results: nat -> Option<Found>, k: nat, remaining: int, sleep: int): (r: nat)
    requires sleep > 0
    decreases remaining
    ensures remaining <= 0 ==> r == k
    ensures remaining > 0 ==> k < r <= k + Polls(remaining, sleep)
  {
    if remaining <= 0 then k
    else if results(k).Some? then k + 1
    else WaitPolls(results, k + 1, remaining - sleep, sleep)
  }

  /** One step of the polling loop: a poll that finds something ends the
      wait with it; one that finds nothing leaves the rest of the budget to
      the next poll. */
  lemma WaitStep(results: nat -> Option<Found>, name: string, k: nat, remaining: int, sleep: int)
    requires sleep > 0 && remaining > 0
    ensures results(k).None? ==>
      && WaitOutcome(results, name, k, remaining, sleep) == WaitOutcome(results, name, k + 1, remaining - sleep, sleep)
      && WaitPolls(results, k, remaining, sleep) == WaitPolls(results, k + 1, remaining - sleep, sleep)
    ensures results(k).Some? ==>
      && WaitOutcome(results, name, k, remaining, sleep) == Ok(results(k).value)
      && WaitPolls(results, k, remaining, sleep) == k + 1
  {
  }

  /** One iteration of `_waitforelement`: checks `positive`, then each of
      `negative` in order, stopping at the first that is visible. */
  method Poll(positive: ClientElement, negative: seq<ClientElement>, pointer: Point, screen: Screen)
    returns (f: Option<Found>)
    modifies positive, negative
    ensures f == PollOnce(positive, negative, pointer, screen)
    ensures positive.CacheFrom(pointer, screen)
    ensures f.Some? ==> f.value.element.CacheFrom(pointer, screen)
    ensures !positive.Visible(None, None, pointer, screen) ==> positive.CacheEmpty()
    ensures !positive.Visible(None, None, pointer, screen) ==>
      forall j :: 0 <= j < |negative| && NoneVisibleUpTo(negative, j, pointer, screen) ==> negative[j].CacheEmpty()
    ensures f.None? ==> forall n :: n in negative ==> n.CacheEmpty()
  {
    var visible := positive.IsVisible(None, None, pointer, screen);
    if visible {
      return Some(Found(true, positive));
    }
    var j := 0;
    while j < |negative|
      invariant 0 <= j <= |negative|
      invariant FirstVisibleFrom(negative, 0, pointer, screen) == FirstVisibleFrom(negative, j, pointer, screen)
      invariant positive.CacheFrom(pointer, screen) && positive.CacheEmpty()
      invariant forall l :: 0 <= l < j ==> negative[l].CacheEmpty()
    {
      label Checking:
      var v := negative[j].IsVisible(None, None, pointer, screen);
      if v {
        return Some(Found(false, negative[j]));
      }
      forall l | 0 <= l <= j
        ensures negative[l].CacheEmpty()
      {
        if negative[l] != negative[j] {
          assert old@Checking(negative[l].CacheEmpty());
        }
      }
      j := j + 1;
    }
    f := None;
  }

  /** None of `negative[0..j]`, `j` included, is visible on `screen`: the
      elements a poll checks, without success, up to `negative[j]`. */
  ghost predicate NoneVisibleUpTo(negative: seq<ClientElement>, j: int, pointer: Point, screen: Screen) {
    forall l :: 0 <= l <= j && l < |negative| ==> !negative[l].Visible(None, None, pointer, screen)
  }

  /** `_waitforelement(positive, negative, timeout, sleep)`: polls until
      `positive` or one of `negative` is visible, or the time is up. Returns
      the outcome and the number of polls made; poll `i` reads `screens(i)`. */
  method WaitForElement(positive: ClientElement, negative: seq<ClientElement>, timeout: int, sleep: int,
                        pointer: Point, screens: nat -> Screen)
    returns (r: Result<Found, Error>, polls: nat)
    requires sleep > 0
    modifies positive, negative
    ensures r == WaitOutcome(PollResults(positive, negative, pointer, screens), positive.name, 0, timeout, sleep)
    ensures polls == WaitPolls(PollResults(positive, negative, pointer, screens), 0, timeout, sleep)
    ensures polls > 0 ==> positive.CacheFrom(pointer, screens(polls - 1))
    ensures r.Ok? ==> polls > 0 && r.value.element.CacheFrom(pointer, screens(polls - 1))
    ensures r.Err? && timeout > 0 ==> positive.CacheEmpty() && forall n :: n in negative ==> n.CacheEmpty()
    ensures timeout <= 0 ==> unchanged(positive) && forall n :: n in negative ==> unchanged(n)
  {
    var results := PollResults(positive, negative, pointer, screens);
    var remaining := timeout;
    polls := 0;
    while remaining > 0
      invariant WaitOutcome(results, positive.name, 0, timeout, sleep)
             == WaitOutcome(results, positive.name, polls, remaining, sleep)
      invariant WaitPolls(results, 0, timeout, sleep) == WaitPolls(results, polls, remaining, sleep)
      invariant polls > 0 ==> positive.CacheFrom(pointer, screens(polls - 1))
      invariant polls > 0 ==> positive.CacheEmpty() && forall n :: n in negative ==> n.CacheEmpty()
      invariant polls == 0 ==> remaining == timeout && unchanged(positive) && forall n :: n in negative ==> unchanged(n)
      decreases remaining
    {
      WaitStep(results, positive.name, polls, remaining, sleep);
      var f := Poll(positive, negative, pointer, screens(polls));
      assert f == results(polls);
      if f.Some? {
        return Ok(f.value), polls + 1;
      }
      remaining := remaining - sleep;
      polls := polls + 1;
    }
    r := Err(Timeout(TimeoutMessage + positive.name));
  }

  // ---------------------------------------------------------------------------
  // Properties of the polling loop

  /** The loop polls `ceil(timeout / sleep)` times when nothing shows up. */
  lemma {:induction false} PollsIsCeiling(timeout: int, sleep: int)
    requires sleep > 0
    decreases timeout
    ensures Polls(timeout, sleep) == if timeout <= 0 then 0 else (timeout + sleep - 1) / sleep
  {
    if timeout > 0 {
      PollsIsCeiling(timeout - sleep, sleep);
      DivShift(timeout - 1, sleep);
      if timeout - sleep <= 0 {
        DivShift(-1, sleep);
        assert (timeout - 1) / sleep == 0 by {
          DivSmall(timeout - 1, sleep);
        }
      }
    }
  }

  /** Adding the divisor adds one to the quotient. */
  lemma DivShift(a: int, d: int)
    requires d > 0
    ensures (a + d) / d == a / d + 1
  {
    var q, r := a / d, a % d;
    assert a == q * d + r;
    assert a + d == (q + 1) * d + r;
    DivUnique(a + d, d, q + 1, r);
  }

  /** A number below the divisor has quotient 0. */
  lemma DivSmall(a: int, d: int)
    requires 0 <= a < d
    ensures a / d == 0
  {
  }

  /** A proof helper for `DivUnique`: a positive multiple of `d` is at least `d`. */
  lemma MulAtLeast(a: int, d: int)
    requires a >= 1 && d > 0
    ensures a * d >= d
  {
  }

  /** Quotient and remainder are unique. */
  lemma DivUnique(n: int, d: int, q: int, r: int)
    requires d > 0 && 0 <= r < d && n == q * d + r
    ensures n / d == q
  {
    var q', r' := n / d, n % d;
    assert n == q' * d + r';
    if q' > q {
      MulAtLeast(q' - q, d);
      assert false;
    } else if q' < q {
      MulAtLeast(q - q', d);
      assert false;
    }
  }

  /** With the defaults, a wait polls at most 240 times, every 500 ms. */
  lemma DefaultPolls()
    ensures Polls(DefaultTimeout, PollInterval) == 240
    ensures Polls(2000, PollInterval) == 4
    ensures Polls(2001, PollInterval) == 5
  {
    PollsIsCeiling(DefaultTimeout, PollInterval);
    PollsIsCeiling(2000, PollInterval);
    PollsIsCeiling(2001, PollInterval);
  }

  /** The wait times out exactly when every poll the budget allows finds
      nothing, and then it has made all of them. */
  lemma {:induction false} WaitTimeoutIff(results: nat -> Option<Found>, name: string, k: nat, remaining: int, sleep: int)
    requires sleep > 0
    decreases remaining
    ensures WaitOutcome(results, name, k, remaining, sleep).Err? <==>
      forall i :: k <= i < k + Polls(remaining, sleep) ==> results(i).None?
    ensures WaitOutcome(results, name, k, remaining, sleep).Err? ==>
      WaitPolls(results, k, remaining, sleep) == k + Polls(remaining, sleep)
  {
    if remaining > 0 {
      WaitTimeoutIff(results, name, k + 1, remaining - sleep, sleep);
    }
  }

  /** The first poll that finds something decides the wait: it returns what
      that poll found, after exactly that many polls. */
  lemma {:induction false} WaitFound(results: nat -> Option<Found>, name: string, k: nat, remaining: int, sleep: int, i: nat)
    requires sleep > 0
    requires k <= i < k + Polls(remaining, sleep)
    requires results(i).Some?
    requires forall j :: k <= j < i ==> results(j).None?
    decreases remaining
    ensures WaitOutcome(results, name, k, remaining, sleep) == Ok(results(i).value)
    ensures WaitPolls(results, k, remaining, sleep) == i + 1
  {
    if i > k {
      WaitFound(results, name, k + 1, remaining - sleep, sleep, i);
    }
  }

  /** With a 2 s timeout an element that shows up on the third poll is found
      after three polls, one that never shows up times out after four. */
  lemma WaitExample(positive: ClientElement, negative: seq<ClientElement>, pointer: Point, screens: nat -> Screen)
    requires forall i :: 0 <= i < 2 ==> PollResults(positive, negative, pointer, screens)(i).None?
    ensures PollResults(positive, negative, pointer, screens)(2).Some? ==>
      WaitOutcome(PollResults(positive, negative, pointer, screens), positive.name, 0, 2000, PollInterval)
        == Ok(PollOnce(positive, negative, pointer, screens(2)).value)
      && WaitPolls(PollResults(positive, negative, pointer, screens), 0, 2000, PollInterval) == 3
    ensures (forall i :: 0 <= i < 4 ==> PollResults(positive, negative, pointer, screens)(i).None?) ==>
      WaitOutcome(PollResults(positive, negative, pointer, screens), positive.name, 0, 2000, PollInterval)
        == Err(Timeout(TimeoutMessage + positive.name))
      && WaitPolls(PollResults(positive, negative, pointer, screens), 0, 2000, PollInterval) == 4
  {
    var results := PollResults(positive, negative, pointer, screens);
    DefaultPolls();
    if results(2).Some? {
      WaitFound(results, positive.name, 0, 2000, PollInterval, 2);
    }
    if forall i :: 0 <= i < 4 ==> results(i).None? {
      WaitTimeoutIff(results, positive.name, 0, 2000, PollInterval);
    }
  }

  /** A poll prefers the positive element; failing that it reports the first
      visible negative one; it finds nothing only when none is visible. */
  lemma PollOnceSpec(positive: ClientElement, negative: seq<ClientElement>, pointer: Point, screen: Screen)
    ensures positive.Visible(None, None, pointer, screen) ==>
      PollOnce(positive, negative, pointer, screen) == Some(Found(true, positive))
    ensures PollOnce(positive, negative, pointer, screen).None? <==>
      !positive.Visible(None, None, pointer, screen) &&
      forall j :: 0 <= j < |negative| ==> !negative[j].Visible(None, None, pointer, screen)
    ensures !positive.Visible(None, None, pointer, screen) && PollOnce(positive, negative, pointer, screen).Some? ==>
      exists j :: 0 <= j < |negative| && PollOnce(positive, negative, pointer, screen) == Some(Found(false, negative[j]))
        && negative[j].Visible(None, None, pointer, screen)
        && forall l :: 0 <= l < j ==> !negative[l].Visible(None, None, pointer, screen)
  {
    FirstVisibleFromIsFirst(negative, 0, pointer, screen);
  }

  // ---------------------------------------------------------------------------
  // Properties of the cache

  /** `isvisible` reports an element visible, having found matches and
      cached positions, exactly when some score of the capture of its current
      box is strictly above the confidence used. */
  lemma VisibleIff(e: ClientElement, at: Option<Point>, override: Option<real>, pointer: Point, screen: Screen)
    ensures e.Visible(at, override, pointer, screen) <==> e.Matches(at, override, pointer, screen) != []
    ensures e.Visible(at, override, pointer, screen) <==> e.Located(at, override, pointer, screen) != []
  {
    var g := screen(e.CurrentBBox(at, pointer), e.template);
    var c := e.LocalConf(override);
    var found := e.Matches(at, override, pointer, screen);
    assert |e.Located(at, override, pointer, screen)| == |found|;
    if found != [] {
      MultiModeExact(g, e.template, c, found[0]);
    }
    if e.Visible(at, override, pointer, screen) {
      var y, x :| 0 <= y < |g| && 0 <= x < |g[y]| && g[y][x] > c;
      MultiModeExact(g, e.template, c, MatchAt(g, e.template, y, x));
    }
  }

  /** The cached positions are exactly the centres of the cells above the
      confidence, moved from capture to screen coordinates. */
  lemma LocatedIff(e: ClientElement, at: Option<Point>, override: Option<real>, pointer: Point, screen: Screen, p: Point)
    ensures p in e.Located(at, override, pointer, screen) <==>
      var g := screen(e.CurrentBBox(at, pointer), e.template);
      exists y, x :: IsCell(g, y, x) && g[y][x] > e.LocalConf(override) &&
        p == Centre(e.template, y, x).Add(e.CaptureOffset(at, pointer))
  {
    var g := screen(e.CurrentBBox(at, pointer), e.template);
    var c := e.LocalConf(override);
    var found := e.Matches(at, override, pointer, screen);
    var off := e.CaptureOffset(at, pointer);
    var located := e.Located(at, override, pointer, screen);
    if p in located {
      var i :| 0 <= i < |located| && located[i] == p;
      MultiModeExact(g, e.template, c, found[i]);
    }
    if exists y, x :: IsCell(g, y, x) && g[y][x] > c && p == Centre(e.template, y, x).Add(off) {
      var y, x :| IsCell(g, y, x) && g[y][x] > c && p == Centre(e.template, y, x).Add(off);
      MultiModeExact(g, e.template, c, MatchAt(g, e.template, y, x));
      var i :| 0 <= i < |found| && found[i] == MatchAt(g, e.template, y, x);
      assert located[i] == p;
    }
  }

  /** The cache holds the best match first: its confidences never increase. */
  lemma CacheBestFirst(e: ClientElement, at: Option<Point>, override: Option<real>, pointer: Point, screen: Screen)
    ensures var cs := Confidences(e.Matches(at, override, pointer, screen));
      forall i, j :: 0 <= i < j < |cs| ==> cs[i] >= cs[j]
    ensures |e.Located(at, override, pointer, screen)| == |Confidences(e.Matches(at, override, pointer, screen))|
  {
    var g := screen(e.CurrentBBox(at, pointer), e.template);
    SortDescSorted(Hits(g, e.template, e.LocalConf(override), |g|));
    SortedDescByGe(e.Matches(at, override, pointer, screen));
  }

  /** `at` only matters for a relative element. */
  lemma AtIgnoredUnlessRelative(e: ClientElement, at: Option<Point>, override: Option<real>, pointer: Point, screen: Screen)
    requires !e.relative
    ensures e.CurrentBBox(at, pointer) == e.CurrentBBox(None, pointer) == e.bbox
    ensures e.Located(at, override, pointer, screen) == e.Located(None, override, pointer, screen)
  {
  }

  /** An absolute element searches its own box; a relative one the box moved
      by `at`, or by the pointer when `at` is not given. */
  lemma CaptureOffsetSpec(e: ClientElement, at: Option<Point>, pointer: Point)
    requires e.bbox.Some?
    ensures !e.relative ==> e.CaptureOffset(at, pointer) == e.bbox.value.Offset()
    ensures e.relative && at.Some? ==> e.CaptureOffset(at, pointer) == e.bbox.value.Offset().Add(at.value)
    ensures e.relative && at.None? ==> e.CaptureOffset(at, pointer) == e.bbox.value.Offset().Add(pointer)
  {
  }

  /** The click point is unknown exactly when there is no explicit click
      point, no box to take the midpoint of (or `clickvisible` asks for the
      match) and nothing cached. */
  lemma ClickPointErrIff(e: ClientElement, pointer: Point)
    ensures e.ClickPoint(pointer).Err? <==>
      e.clickpoint.None? && (e.bbox.None? || e.clickvisible) && e.lastpos == []
    ensures e.ClickPoint(pointer).Err? ==> e.ClickPoint(pointer).error == ElementError(UnknownPositionMessage)
  {
  }

  /** A click at a box's midpoint lands inside the current box. */
  lemma ClickPointInBox(e: ClientElement, pointer: Point)
    requires e.clickpoint.None? && e.bbox.Some? && !e.clickvisible && e.bbox.value.WellFormed()
    ensures e.ClickPoint(pointer).Ok?
    ensures e.CurrentBBox(None, pointer).value.Contains(e.ClickPoint(pointer).value)
  {
    TranslatePreservesWellFormed(e.bbox.value, e.SearchOffset(None, pointer));
  }

  /** Once something is cached, a click always clicks somewhere; a blind
      click with an empty cache fails only when the click point is unknown. */
  lemma ClickResultSpec(e: ClientElement, blind: bool, ifvisible: bool, pointer: Point)
    ensures e.lastpos != [] ==>
      e.ClickResult(blind, ifvisible, pointer).Ok? && e.ClickResult(blind, ifvisible, pointer).value.ClickedAt?
    ensures e.lastpos == [] && !blind ==>
      e.ClickResult(blind, ifvisible, pointer) ==
        (if ifvisible then Ok(Skipped) else Err(ElementError(NotVisibleMessage + ": " + e.name)))
    ensures blind ==> (e.ClickResult(blind, ifvisible, pointer).Err? <==> e.ClickPoint(pointer).Err?)
  {
  }
}
