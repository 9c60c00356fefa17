/**
 * The incremental scrape loop and the page it drives.
 *
 * The page is an abstract driver: the outcome of navigating to the listing and a
 * finite list of document frames. The extraction evaluates against the frame on
 * show; waiting after a scroll lets the next frame render (the last one stays on
 * show once reached); a crashed frame makes the evaluation fail. Every driver call
 * is recorded in a trace of events.
 *
 * Loop is the specification of the loop: one iteration extracts the posts past
 * the offset, advances the offset by the batch length, scrolls, waits, and then
 * either stops (no non-null record of the floor year or later) or appends the
 * batch's floor-year records and goes on. Schedule is the same loop over any
 * per-iteration rule; the facts about the calls it issues hold for every rule.
 */
module Pagination {
  import opened Wrappers
  import opened Counter
  import opened Extractor

  /** Records from this year are kept; records from this year or later keep the loop going. */
  const FloorYear: int := 2018
  /** The settle interval after each scroll, in milliseconds. */
  const SettleMs: nat := 7500
  const ListingUrl: string := "https://hackernoon.com/tagged/javascript"

  predicate InWindowOrNewer(a: Article) {
    match YearOf(a.date)
    case Some(y) => y >= FloorYear
    case None => false
  }

  predicate InFloorYear(a: Article) {
    YearOf(a.date) == Some(FloorYear)
  }

  /** The first filter: the non-null records of the floor year or later, in batch order. */
  function Matching(batch: seq<Option<Article>>): (r: seq<Article>)
    ensures |r| <= |batch|
  {
    if batch == [] then []
    else
      var head := if batch[0].Some? && InWindowOrNewer(batch[0].value) then [batch[0].value] else [];
      head + Matching(batch[1..])
  }

  /** A record survives the first filter exactly when it is a non-null slot of the floor year or later. */
  lemma {:induction false} MatchingMembers(batch: seq<Option<Article>>, a: Article)
    ensures a in Matching(batch) <==> Some(a) in batch && InWindowOrNewer(a)
  {
    if batch != [] {
      assert batch == [batch[0]] + batch[1..];
      MatchingMembers(batch[1..], a);
    }
  }

  /** The second filter: the records of exactly the floor year, in order. */
  function FloorYearOnly(xs: seq<Article>): (r: seq<Article>)
    ensures |r| <= |xs|
  {
    if xs == [] then []
    else (if InFloorYear(xs[0]) then [xs[0]] else []) + FloorYearOnly(xs[1..])
  }

  /** A record survives the second filter exactly when it is of the floor year. */
  lemma {:induction false} FloorYearOnlyMembers(xs: seq<Article>, a: Article)
    ensures a in FloorYearOnly(xs) <==> a in xs && InFloorYear(a)
  {
    if xs != [] {
      assert xs == [xs[0]] + xs[1..];
      FloorYearOnlyMembers(xs[1..], a);
    }
  }

  /** Reference definition of what one continuing iteration appends: the batch's non-null floor-year records. */
  function FloorYearRecords(batch: seq<Option<Article>>): seq<Article> {
    if batch == [] then []
    else (if batch[0].Some? && InFloorYear(batch[0].value) then [batch[0].value] else []) + FloorYearRecords(batch[1..])
  }

  lemma {:induction false} FiltersCompose(batch: seq<Option<Article>>)
    ensures FloorYearOnly(Matching(batch)) == FloorYearRecords(batch)
  {
    if batch != [] {
      FiltersCompose(batch[1..]);
      var head := if batch[0].Some? && InWindowOrNewer(batch[0].value) then [batch[0].value] else [];
      FloorYearOnlyAppend(head, Matching(batch[1..]));
    }
  }

  lemma {:induction false} FloorYearOnlyAppend(xs: seq<Article>, ys: seq<Article>)
    ensures FloorYearOnly(xs + ys) == FloorYearOnly(xs) + FloorYearOnly(ys)
  {
    if xs != [] {
      assert (xs + ys)[1..] == xs[1..] + ys;
      FloorYearOnlyAppend(xs[1..], ys);
    } else {
      assert xs + ys == ys;
    }
  }

  datatype DriverError = DriverError(message: string)

  /** One state of the rendered document, or a page whose evaluation fails. */
  datatype Frame = Rendered(posts: seq<PostElement>) | Crashed(error: DriverError)

  /** The driver calls, in the order they are issued. */
  datatype Event = Navigated(url: string) | Evaluated(offset: nat) | Scrolled | Waited(ms: nat) | Closed

  /** The loop's state: how many post elements are consumed, and the records accumulated so far. */
  datatype ScrollState = ScrollState(offset: nat, articles: seq<Article>)

  /** What a run returns or throws, and the driver calls it issued. */
  datatype Run = Run(outcome: Result<seq<Article>, DriverError>, events: seq<Event>)

  /** The frame on show after the settle interval. */
  function Next(frames: seq<Frame>, shown: nat): nat {
    if shown + 1 < |frames| then shown + 1 else shown
  }

  /** Post elements of a frame not yet consumed. */
  function Remaining(frame: Frame, offset: nat): nat {
    if frame.Rendered? && offset < |frame.posts| then |frame.posts| - offset else 0
  }

  /** The driver calls of one complete iteration. */
  function Iteration(offset: nat): seq<Event> {
    [Evaluated(offset), Scrolled, Waited(SettleMs)]
  }

  /** What an iteration over a rendered frame decides after its scroll and wait. */
  datatype Decision = Stop | Go(next: ScrollState)

  /**
   * One iteration's bookkeeping: extract past the offset, advance the offset by
   * the batch length, and stop when no non-null record of the batch is of the
   * floor year or later; otherwise append the batch's floor-year records.
   */
  function Decide(posts: seq<PostElement>, st: ScrollState): (d: Decision)
    ensures d.Go? ==> st.offset < |posts| && d.next.offset == |posts|
  {
    var batch := Extract(posts, st.offset);
    var matching := Matching(batch);
    if |matching| == 0 then Stop
    else Go(ScrollState(st.offset + |batch|, st.articles + FloorYearOnly(matching)))
  }

  /**
   * The rule in terms of the batch: stop exactly when no non-null record of it
   * is of the floor year or later; otherwise advance the offset by the batch
   * length, null slots included, and append the batch's floor-year records in order.
   */
  lemma DecideRule(posts: seq<PostElement>, st: ScrollState)
    ensures var batch := Extract(posts, st.offset);
      var d := Decide(posts, st);
      && (d.Stop? <==> forall a :: Some(a) in batch ==> !InWindowOrNewer(a))
      && (d.Go? ==> d.next == ScrollState(st.offset + |batch|, st.articles + FloorYearRecords(batch)))
  {
    var batch := Extract(posts, st.offset);
    FiltersCompose(batch);
    var matching := Matching(batch);
    if |matching| > 0 {
      MatchingMembers(batch, matching[0]);
    } else {
      forall a | Some(a) in batch ensures !InWindowOrNewer(a) {
        MatchingMembers(batch, a);
      }
    }
  }

  /** What one iteration over a rendered frame decides, given its posts and the loop's state. */
  type Rule = (seq<PostElement>, ScrollState) -> Decision

  /**
   * A per-iteration rule the loop can run: it continues only when posts past
   * the offset are left, and then consumes them all.
   */
  ghost predicate Consumes(decide: Rule) {
    forall posts, st :: decide(posts, st).Go? ==> st.offset < |posts| && decide(posts, st).next.offset == |posts|
  }

  /**
   * The loop's schedule of driver calls under a per-iteration rule, from the
   * frame on show, the given state and the calls issued so far, until it returns
   * or a driver call throws; `events` of the result is the whole trace, `trace`
   * followed by the loop's own calls.
   */
  function Schedule(decide: Rule, frames: seq<Frame>, shown: nat, st: ScrollState, trace: seq<Event>): Run
    requires Consumes(decide) && shown < |frames|
    decreases |frames| - shown, Remaining(frames[shown], st.offset)
  {
    match frames[shown]
    case Crashed(e) => Run(Failure(e), trace + [Evaluated(st.offset)])
    case Rendered(posts) =>
      match decide(posts, st)
      case Stop => Run(Success(st.articles), trace + Iteration(st.offset))
      case Go(next) => Schedule(decide, frames, Next(frames, shown), next, trace + Iteration(st.offset))
  }

  /** The scrape loop: its schedule under the extractor's bookkeeping. */
  function Loop(frames: seq<Frame>, shown: nat, st: ScrollState, trace: seq<Event>): Run
    requires shown < |frames|
  {
    Schedule(Decide, frames, shown, st, trace)
  }

  /** A whole session on a fresh page: navigate, then run the loop from the first frame. */
  function Session(navigation: Option<DriverError>, frames: seq<Frame>, url: string): Run
    requires |frames| > 0
  {
    if navigation.Some? then Run(Failure(navigation.value), [Navigated(url)])
    else Loop(frames, 0, ScrollState(0, []), [Navigated(url)])
  }

  // ---------------------------------------------------------------------------
  // Properties of the loop

  /**
   * The loop only appends: a returned list starts with the records accumulated
   * before, and everything after them is of the floor year.
   */
  lemma {:induction false} LoopAppendsFloorYear(frames: seq<Frame>, shown: nat, st: ScrollState, trace: seq<Event>)
    requires shown < |frames|
    ensures var run := Loop(frames, shown, st, trace);
      run.outcome.Success? ==>
        && st.articles <= run.outcome.value
        && forall i :: |st.articles| <= i < |run.outcome.value| ==> InFloorYear(run.outcome.value[i])
    decreases |frames| - shown, Remaining(frames[shown], st.offset)
  {
    match frames[shown]
    case Crashed(_) =>
    case Rendered(posts) =>
      match Decide(posts, st)
      case Stop =>
      case Go(next) =>
        var matching := Matching(Extract(posts, st.offset));
        var added := FloorYearOnly(matching);
        assert next.articles == st.articles + added;
        var trace' := trace + Iteration(st.offset);
        LoopAppendsFloorYear(frames, Next(frames, shown), next, trace');
        var run' := Loop(frames, Next(frames, shown), next, trace');
        if run'.outcome.Success? {
          var r := run'.outcome.value;
          forall i | |st.articles| <= i < |r| ensures InFloorYear(r[i]) {
            if i < |next.articles| {
              assert r[i] == added[i - |st.articles|];
              FloorYearOnlyMembers(matching, r[i]);
            }
          }
        }
  }

  /** Every record a session returns is of the floor year (so records without a valid date never are). */
  lemma SessionFloorYear(navigation: Option<DriverError>, frames: seq<Frame>, url: string)
    requires |frames| > 0
    ensures var run := Session(navigation, frames, url);
      run.outcome.Success? ==> forall a :: a in run.outcome.value ==> InFloorYear(a)
  {
    LoopAppendsFloorYear(frames, 0, ScrollState(0, []), [Navigated(url)]);
  }

  /** Each whole iteration issues an evaluation, one scroll and one wait of the settle interval, in that order. */
  predicate Iterations(events: seq<Event>)
    decreases |events|
  {
    events == [] ||
    (|events| >= 3 && events[0].Evaluated? && events[1] == Scrolled && events[2] == Waited(SettleMs)
     && Iterations(events[3..]))
  }

  lemma {:induction false} IterationsAppend(offset: nat, events: seq<Event>)
    requires Iterations(events)
    ensures Iterations(Iteration(offset) + events)
  {
    assert (Iteration(offset) + events)[3..] == events;
  }

  /**
   * The loop only appends to the calls issued before it: its run from any
   * trace is its run from no calls, after that trace.
   */
  lemma {:induction false} ScheduleAccumulates(decide: Rule, frames: seq<Frame>, shown: nat, st: ScrollState, trace: seq<Event>)
    requires Consumes(decide) && shown < |frames|
    ensures var own := Schedule(decide, frames, shown, st, []);
      Schedule(decide, frames, shown, st, trace) == Run(own.outcome, trace + own.events)
    decreases |frames| - shown, Remaining(frames[shown], st.offset)
  {
    match frames[shown]
    case Crashed(_) =>
      assert [] + [Evaluated(st.offset)] == [Evaluated(st.offset)];
    case Rendered(posts) =>
      match decide(posts, st)
      case Stop =>
        assert [] + Iteration(st.offset) == Iteration(st.offset);
      case Go(next) =>
        var it := Iteration(st.offset);
        ScheduleAccumulates(decide, frames, Next(frames, shown), next, trace + it);
        ScheduleAccumulates(decide, frames, Next(frames, shown), next, [] + it);
        var rest := Schedule(decide, frames, Next(frames, shown), next, []).events;
        assert [] + it == it;
        assert trace + it + rest == trace + (it + rest);
  }

  /** The loop's own calls when an iteration continues: that iteration's calls, then the rest of the loop's. */
  lemma ScheduleGoes(decide: Rule, frames: seq<Frame>, shown: nat, st: ScrollState)
    requires Consumes(decide) && shown < |frames| && frames[shown].Rendered?
    requires decide(frames[shown].posts, st).Go?
    ensures var next := decide(frames[shown].posts, st).next;
      var own, rest := Schedule(decide, frames, shown, st, []), Schedule(decide, frames, Next(frames, shown), next, []);
      own.outcome == rest.outcome && own.events == Iteration(st.offset) + rest.events
  {
    var next := decide(frames[shown].posts, st).next;
    ScheduleAccumulates(decide, frames, Next(frames, shown), next, [] + Iteration(st.offset));
    assert [] + Iteration(st.offset) == Iteration(st.offset);
  }

  /**
   * The loop's own calls run in whole iterations, starting with an evaluation at
   * the current offset: when it returns, the last iteration included; when a
   * call throws, ending with the evaluation that threw.
   */
  lemma {:induction false} ScheduleTrace(decide: Rule, frames: seq<Frame>, shown: nat, st: ScrollState)
    requires Consumes(decide) && shown < |frames|
    ensures var own := Schedule(decide, frames, shown, st, []);
      && |own.events| > 0 && own.events[0] == Evaluated(st.offset)
      && (own.outcome.Success? ==> Iterations(own.events) && own.events[|own.events| - 1] == Waited(SettleMs))
      && (own.outcome.Failure? ==>
            own.events[|own.events| - 1].Evaluated? && Iterations(own.events[..|own.events| - 1]))
    decreases |frames| - shown, Remaining(frames[shown], st.offset)
  {
    match frames[shown]
    case Crashed(_) =>
      assert [] + [Evaluated(st.offset)] == [Evaluated(st.offset)];
      assert [Evaluated(st.offset)][..0] == [];
    case Rendered(posts) =>
      match decide(posts, st)
      case Stop =>
        assert [] + Iteration(st.offset) == Iteration(st.offset);
        IterationsAppend(st.offset, []);
        assert Iteration(st.offset) + [] == Iteration(st.offset);
      case Go(next) =>
        ScheduleGoes(decide, frames, shown, st);
        ScheduleTrace(decide, frames, Next(frames, shown), next);
        var rest := Schedule(decide, frames, Next(frames, shown), next, []);
        var e := Iteration(st.offset) + rest.events;
        if rest.outcome.Success? {
          IterationsAppend(st.offset, rest.events);
        } else {
          var init := rest.events[..|rest.events| - 1];
          assert e[..|e| - 1] == Iteration(st.offset) + init;
          IterationsAppend(st.offset, init);
        }
  }

  /** A session that reaches the listing issues the navigation, then the loop's own calls from the first frame. */
  lemma SessionCalls(navigation: Option<DriverError>, frames: seq<Frame>, url: string)
    requires |frames| > 0 && navigation.None?
    ensures var own := Schedule(Decide, frames, 0, ScrollState(0, []), []);
      Session(navigation, frames, url) == Run(own.outcome, [Navigated(url)] + own.events)
  {
    ScheduleAccumulates(Decide, frames, 0, ScrollState(0, []), [Navigated(url)]);
  }

  /** The offsets of the evaluations in a trace, in order. */
  function Offsets(events: seq<Event>): seq<nat> {
    if events == [] then []
    else (if events[0].Evaluated? then [events[0].offset] else []) + Offsets(events[1..])
  }

  lemma {:induction false} OffsetsAppend(xs: seq<Event>, ys: seq<Event>)
    ensures Offsets(xs + ys) == Offsets(xs) + Offsets(ys)
  {
    if xs == [] {
      assert xs + ys == ys;
    } else {
      var head := if xs[0].Evaluated? then [xs[0].offset] else [];
      assert (xs + ys)[0] == xs[0] && (xs + ys)[1..] == xs[1..] + ys;
      OffsetsAppend(xs[1..], ys);
      var a, b := Offsets(xs[1..]), Offsets(ys);
      assert head + (a + b) == (head + a) + b;
    }
  }

  lemma OffsetsOfIteration(offset: nat)
    ensures Offsets(Iteration(offset)) == [offset]
  {
    OffsetsAppend([Evaluated(offset)], [Scrolled, Waited(SettleMs)]);
    assert Offsets([Evaluated(offset)]) == [offset] + Offsets([]);
    assert Offsets([Scrolled, Waited(SettleMs)]) == [] + Offsets([Waited(SettleMs)]);
    assert Offsets([Waited(SettleMs)]) == [] + Offsets([]);
    assert [Evaluated(offset)] + [Scrolled, Waited(SettleMs)] == Iteration(offset);
  }

  /**
   * Consumption is monotone: the loop's first evaluation reads past the starting
   * offset, and each later one past a strictly larger offset, since an iteration
   * only continues after a non-empty batch and advances the offset by its length.
   */
  lemma {:induction false} OffsetsIncrease(decide: Rule, frames: seq<Frame>, shown: nat, st: ScrollState)
    requires Consumes(decide) && shown < |frames|
    ensures var offs := Offsets(Schedule(decide, frames, shown, st, []).events);
      && |offs| > 0 && offs[0] == st.offset
      && forall i, j :: 0 <= i < j < |offs| ==> offs[i] < offs[j]
    decreases |frames| - shown, Remaining(frames[shown], st.offset)
  {
    match frames[shown]
    case Crashed(_) =>
      var e := [] + [Evaluated(st.offset)];
      assert e == [Evaluated(st.offset)] && e[1..] == [];
    case Rendered(posts) =>
      OffsetsOfIteration(st.offset);
      match decide(posts, st)
      case Stop =>
        assert [] + Iteration(st.offset) == Iteration(st.offset);
      case Go(next) =>
        ScheduleGoes(decide, frames, shown, st);
        OffsetsIncrease(decide, frames, Next(frames, shown), next);
        var rest := Schedule(decide, frames, Next(frames, shown), next, []).events;
        OffsetsAppend(Iteration(st.offset), rest);
        assert st.offset < next.offset;
  }

  /** The loop never closes the page itself. */
  lemma {:induction false} ScheduleNeverCloses(decide: Rule, frames: seq<Frame>, shown: nat, st: ScrollState, trace: seq<Event>)
    requires Consumes(decide) && shown < |frames|
    requires Closed !in trace
    ensures Closed !in Schedule(decide, frames, shown, st, trace).events
    decreases |frames| - shown, Remaining(frames[shown], st.offset)
  {
    match frames[shown]
    case Crashed(_) =>
    case Rendered(posts) =>
      match decide(posts, st)
      case Stop =>
      case Go(next) =>
        ScheduleNeverCloses(decide, frames, Next(frames, shown), next, trace + Iteration(st.offset));
  }

  /**
   * A session followed by the page's release closes the page exactly once,
   * as its last call, whether the session returned or threw.
   */
  lemma SessionClosesOnce(navigation: Option<DriverError>, frames: seq<Frame>, url: string)
    requires |frames| > 0
    ensures var trace := Session(navigation, frames, url).events + [Closed];
      forall i :: 0 <= i < |trace| ==> (trace[i] == Closed <==> i == |trace| - 1)
  {
    ScheduleNeverCloses(Decide, frames, 0, ScrollState(0, []), [Navigated(url)]);
    var events := Session(navigation, frames, url).events;
    assert Closed !in events;
    var trace := events + [Closed];
    forall i | 0 <= i < |trace| - 1 ensures trace[i] != Closed {
      assert trace[i] == events[i];
    }
  }

  /**
   * The stopping rule: when no non-null record of the batch is of the floor year
   * or later, the loop returns the accumulated records unchanged after one
   * iteration's calls, and issues no further call.
   */
  lemma StopsOnEmptyWindow(frames: seq<Frame>, shown: nat, st: ScrollState, trace: seq<Event>)
    requires shown < |frames| && frames[shown].Rendered?
    requires forall i :: st.offset <= i < |frames[shown].posts| ==>
      BuildRecord(frames[shown].posts[i]).None? || !InWindowOrNewer(BuildRecord(frames[shown].posts[i]).value)
    ensures Loop(frames, shown, st, trace) == Run(Success(st.articles), trace + Iteration(st.offset))
  {
    var posts := frames[shown].posts;
    var batch := Extract(posts, st.offset);
    if |Matching(batch)| != 0 {
      var a := Matching(batch)[0];
      MatchingMembers(batch, a);
      var i :| 0 <= i < |batch| && batch[i] == Some(a);
      ExtractAt(posts, st.offset, i);
      assert false;
    }
  }

  // ---------------------------------------------------------------------------
  // Scenarios

  /** A well-formed post whose only populated field is its date. */
  function DatedPost(year: int): PostElement {
    Post(Some(TimeTag(Some(year))), None, None, None, None, None)
  }

  function DatedRecord(year: int): Article {
    Article(Num(0, 0), None, None, Utc(Some(year)), None, None, None)
  }

  /**
   * Posts from 2019, 2018 and 2017 on a page that loads nothing more: the first
   * pass consumes all three, continues because two are 2018 or later, keeps only
   * the 2018 one; the second pass finds nothing new and returns.
   */
  lemma ScenarioMixedYears()
    ensures var frames := [Rendered([DatedPost(2019), DatedPost(2018), DatedPost(2017)])];
      && |Extract(frames[0].posts, 0)| == 3
      && |Matching(Extract(frames[0].posts, 0))| == 2
      && Loop(frames, 0, ScrollState(0, []), []) == Run(Success([DatedRecord(2018)]), Iteration(0) + Iteration(3))
  {
    var posts := [DatedPost(2019), DatedPost(2018), DatedPost(2017)];
    var batch := Extract(posts, 0);
    assert batch == [Some(DatedRecord(2019)), Some(DatedRecord(2018)), Some(DatedRecord(2017))];
    var tail1, tail2 := batch[1..], batch[2..];
    assert tail2 == [Some(DatedRecord(2017))] && tail2[1..] == [];
    assert Matching(tail2) == [];
    assert tail1[1..] == tail2;
    assert Matching(tail1) == [DatedRecord(2018)];
    assert Matching(batch) == [DatedRecord(2019), DatedRecord(2018)];
    assert FloorYearOnly([DatedRecord(2019), DatedRecord(2018)]) == [DatedRecord(2018)];
    assert Extract(posts, 3) == [];
  }

  /** Posts from 2017 and 2016 only: the loop returns what it had, after one iteration. */
  lemma ScenarioAllOlder(articles: seq<Article>)
    ensures var frames := [Rendered([DatedPost(2017), DatedPost(2016)])];
      Loop(frames, 0, ScrollState(0, articles), []) == Run(Success(articles), Iteration(0))
  {
    var batch := Extract([DatedPost(2017), DatedPost(2016)], 0);
    assert batch == [Some(DatedRecord(2017)), Some(DatedRecord(2016))];
    assert Matching(batch) == [];
  }

  // ---------------------------------------------------------------------------
  // The driver and the imperative loop

  /** A page of the headless browser, reduced to the calls the scraper makes. */
  class PageDriver {
    /** What navigating to the listing does: None loads it, Some(e) fails with e. */
    const navigation: Option<DriverError>
    const frames: seq<Frame>
    var shown: nat
    var trace: seq<Event>
    var closed: bool

    ghost predicate Valid()
      reads this
    {
      shown < |frames|
    }

    /** A new page (the browser's newPage). */
    constructor (navigation: Option<DriverError>, frames: seq<Frame>)
      requires |frames| > 0
      ensures Valid() && this.navigation == navigation && this.frames == frames
      ensures shown == 0 && trace == [] && !closed
    {
      this.navigation := navigation;
      this.frames := frames;
      shown := 0;
      trace := [];
      closed := false;
    }

    method Goto(url: string) returns (err: Option<DriverError>)
      requires !closed
      modifies this`trace
      ensures err == navigation && trace == old(trace) + [Navigated(url)]
    {
      trace := trace + [Navigated(url)];
      err := navigation;
    }

    /** Runs the extractor in the page against the frame on show. */
    method EvaluatePosts(offset: nat) returns (r: Result<seq<Option<Article>>, DriverError>)
      requires Valid() && !closed
      modifies this`trace
      ensures trace == old(trace) + [Evaluated(offset)]
      ensures r == match frames[shown]
        case Crashed(e) => Failure(e)
        case Rendered(posts) => Success(Extract(posts, offset))
    {
      trace := trace + [Evaluated(offset)];
      match frames[shown]
      case Crashed(e) => r := Failure(e);
      case Rendered(posts) => r := Success(Extract(posts, offset));
    }

    method ScrollToBottom()
      requires !closed
      modifies this`trace
      ensures trace == old(trace) + [Scrolled]
    {
      trace := trace + [Scrolled];
    }

    /** Pauses; meanwhile the content loaded by the last scroll renders. */
    method WaitFor(ms: nat)
      requires Valid() && !closed
      modifies this`trace, this`shown
      ensures Valid() && shown == Next(frames, old(shown))
      ensures trace == old(trace) + [Waited(ms)]
    {
      trace := trace + [Waited(ms)];
      shown := Next(frames, shown);
    }

    method Close()
      requires !closed
      modifies this`trace, this`closed
      ensures closed && trace == old(trace) + [Closed]
    {
      trace := trace + [Closed];
      closed := true;
    }
  }

  /** The scrape loop run on an open page: the body of the callback given to GetPage. */
  method CollectArticles(page: PageDriver) returns (r: Result<seq<Article>, DriverError>)
    requires page.Valid() && !page.closed
    modifies page
    ensures page.Valid() && !page.closed
    ensures var run := Loop(page.frames, old(page.shown), ScrollState(0, []), old(page.trace));
      r == run.outcome && page.trace == run.events
  {
    var articles: seq<Article> := [];
    var offset: nat := 0;
    ghost var frames := page.frames;
    ghost var whole := Loop(frames, page.shown, ScrollState(offset, articles), page.trace);
    while true
      invariant page.Valid() && !page.closed && page.frames == frames
      invariant whole == Loop(frames, page.shown, ScrollState(offset, articles), page.trace)
      decreases |frames| - page.shown, Remaining(frames[page.shown], offset)
    {
      ghost var at, before, issued := page.shown, ScrollState(offset, articles), page.trace;
      var scraped := page.EvaluatePosts(offset);
      if scraped.Failure? {
        // the evaluation threw: the error leaves the loop
        return Failure(scraped.error);
      }
      var batch := scraped.value;
      offset := offset + |batch|;
      page.ScrollToBottom();
      page.WaitFor(SettleMs);
      var matching := Matching(batch);
      if |matching| == 0 {
        return Success(articles);
      }
      articles := articles + FloorYearOnly(matching);
      assert Decide(frames[at].posts, before) == Go(ScrollState(offset, articles));
      assert page.trace == issued + Iteration(before.offset);
    }
  }

  /**
   * Opens a page, navigates to the URL and runs the scrape loop on it; the page
   * is closed on the normal path and on the exception path, then the loop's
   * result is returned or its error rethrown.
   */
  method GetPage(navigation: Option<DriverError>, frames: seq<Frame>, url: string)
    returns (r: Result<seq<Article>, DriverError>, page: PageDriver)
    requires |frames| > 0
    ensures fresh(page) && page.closed
    ensures var session := Session(navigation, frames, url);
      r == session.outcome && page.trace == session.events + [Closed]
  {
    page := new PageDriver(navigation, frames);
    var err := page.Goto(url);
    assert page.trace == [Navigated(url)] && page.shown == 0;
    if err.Some? {
      page.Close();
      return Failure(err.value), page;
    }
    r := CollectArticles(page);
    page.Close();
  }

  /** The scraper's entry point: the loop run on the tagged JavaScript listing. */
  method ScrapArticles(navigation: Option<DriverError>, frames: seq<Frame>)
    returns (r: Result<seq<Article>, DriverError>, page: PageDriver)
    requires |frames| > 0
    ensures fresh(page) && page.closed
    ensures var session := Session(navigation, frames, ListingUrl);
      r == session.outcome && page.trace == session.events + [Closed]
    ensures r.Success? ==> forall a :: a in r.value ==> InFloorYear(a)
  {
    r, page := GetPage(navigation, frames, ListingUrl);
    SessionFloorYear(navigation, frames, ListingUrl);
  }
}
