/**
  The posts page: the stall timer that raises the slow-connection notice
  3000 ms into an error-free load, and the choice of what the page shows for
  a given state of the `usePosts` hook.
*/
module PostsPage {
  import opened Wrappers
  import opened Decimal
  import JsParseInt
  import UsePosts

  const StallMs := 3000

  /** The pair of hook flags under which the stall timer runs. */
  predicate Stalling(isLoading: bool, isError: bool) {
    isLoading && !isError
  }

  /**
    The page's view of the stall timer: the hook flags the effect last ran
    with, the notice flag, the deadline of the armed timer, and the time of
    the last event. `isError` stands for the truthiness of the hook's error.
  */
  datatype StallTimer = StallTimer(
    isLoading: bool,
    isError: bool,
    showSlowConnection: bool,
    timer: Option<int>,
    clock: int)

  /**
    A timer is armed only while loading without an error, and fires at most
    3000 ms after now; the notice is up only while loading without an error
    and only once its timer has fired.
  */
  ghost predicate Consistent(s: StallTimer) {
    && (s.timer.Some? ==> Stalling(s.isLoading, s.isError) && s.clock < s.timer.value <= s.clock + StallMs)
    && (s.showSlowConnection ==> Stalling(s.isLoading, s.isError) && s.timer.None?)
  }

  /** Mounting: the notice is down and the effect runs once on the first flags. */
  function Mount(isLoading: bool, isError: bool, now: int): (s: StallTimer)
    ensures Consistent(s) && !s.showSlowConnection
    ensures s.clock == now && s.isLoading == isLoading && s.isError == isError
    ensures Stalling(isLoading, isError) ==> s.timer == Some(now + StallMs)
    ensures !Stalling(isLoading, isError) ==> s.timer.None?
  {
    StallTimer(isLoading, isError, false, if Stalling(isLoading, isError) then Some(now + StallMs) else None, now)
  }

  /** Time passes up to `now`; a due timer raises the notice. */
  function Elapse(s: StallTimer, now: int): (r: StallTimer)
    requires Consistent(s) && s.clock <= now
    ensures Consistent(r) && r.clock == now
    ensures r.isLoading == s.isLoading && r.isError == s.isError
    ensures s.timer.Some? && s.timer.value <= now ==> r.showSlowConnection && r.timer.None?
    ensures !(s.timer.Some? && s.timer.value <= now) ==> r == s.(clock := now)
  {
    if s.timer.Some? && s.timer.value <= now then
      s.(showSlowConnection := true, timer := None, clock := now)
    else
      s.(clock := now)
  }

  /**
    The hook reports new flags at `now`. If either changed, the effect's
    cleanup clears the armed timer; then loading without an error arms a
    fresh 3000 ms timer, and anything else lowers the notice.
  */
  function Observe(s: StallTimer, isLoading: bool, isError: bool, now: int): (r: StallTimer)
    requires Consistent(s) && s.clock <= now
    ensures Consistent(r) && r.clock == now
    ensures r.isLoading == isLoading && r.isError == isError
    ensures !Stalling(isLoading, isError) ==> !r.showSlowConnection && r.timer.None?
    ensures Stalling(isLoading, isError) && !Stalling(s.isLoading, s.isError) ==>
      !r.showSlowConnection && r.timer == Some(now + StallMs)
    ensures isLoading == s.isLoading && isError == s.isError ==> r == Elapse(s, now)
  {
    var e := Elapse(s, now);
    if isLoading == e.isLoading && isError == e.isError then e
    else if Stalling(isLoading, isError) then
      e.(isLoading := isLoading, isError := isError, timer := Some(now + StallMs))
    else
      e.(isLoading := isLoading, isError := isError, timer := None, showSlowConnection := false)
  }

  /** handleDismissSlowConnection: the notice goes down and nothing else changes. */
  function Dismiss(s: StallTimer): (r: StallTimer)
    requires Consistent(s)
    ensures Consistent(r) && !r.showSlowConnection
    ensures r.(showSlowConnection := s.showSlowConnection) == s
  {
    s.(showSlowConnection := false)
  }

  /** An event the page receives, with the time it arrives. */
  datatype PageEvent =
    | FlagsChanged(isLoading: bool, isError: bool, at: int)
    | Wait(at: int)
    | DismissClicked(at: int)

  predicate Chronological(from: int, evs: seq<PageEvent>)
    decreases |evs|
  {
    evs == [] || (from <= evs[0].at && Chronological(evs[0].at, evs[1..]))
  }

  function Step(s: StallTimer, e: PageEvent): (r: StallTimer)
    requires Consistent(s) && s.clock <= e.at
    ensures Consistent(r) && r.clock == e.at
  {
    match e
    case FlagsChanged(isLoading, isError, at) => Observe(s, isLoading, isError, at)
    case Wait(at) => Elapse(s, at)
    case DismissClicked(at) => Dismiss(Elapse(s, at))
  }

  function Run(s: StallTimer, evs: seq<PageEvent>): (r: StallTimer)
    requires Consistent(s) && Chronological(s.clock, evs)
    ensures Consistent(r)
    decreases |evs|
  {
    if evs == [] then s else Run(Step(s, evs[0]), evs[1..])
  }

  /**
    Whatever happens in the first 3000 ms after `start` (loading ending, an
    error, loading starting again, waiting, dismissing), the notice stays
    down, provided it was down at `start` and no timer was due before
    `start` + 3000. In particular a load that ends or fails within 3000 ms
    never shows it, and a superseded timer never raises it.
  */
  lemma {:induction false} NotSlowBeforeStallDelay(s: StallTimer, evs: seq<PageEvent>, start: int)
    requires Consistent(s) && Chronological(s.clock, evs)
    requires !s.showSlowConnection && start <= s.clock
    requires s.timer.None? || start + StallMs <= s.timer.value
    requires forall i :: 0 <= i < |evs| ==> evs[i].at < start + StallMs
    ensures !Run(s, evs).showSlowConnection
    decreases |evs|
  {
    if evs != [] {
      var s' := Step(s, evs[0]);
      assert forall i :: 0 <= i < |evs[1..]| ==> evs[1..][i].at < start + StallMs by {
        forall i | 0 <= i < |evs[1..]| ensures evs[1..][i].at < start + StallMs {
          assert evs[1..][i] == evs[i + 1];
        }
      }
      NotSlowBeforeStallDelay(s', evs[1..], start);
    }
  }

  /**
    Loading without an error that starts at `now` raises the notice exactly
    3000 ms later, and not a moment earlier.
  */
  lemma SlowAtStallDelay(s: StallTimer, now: int, later: int)
    requires Consistent(s) && s.clock <= now <= later
    requires !Stalling(s.isLoading, s.isError)
    ensures var armed := Observe(s, true, false, now);
      Elapse(armed, later).showSlowConnection <==> later >= now + StallMs
  {
  }

  /** An event that leaves a load without an error running and the notice up to the timer. */
  predicate KeepsLoading(e: PageEvent) {
    e.Wait? || (e.FlagsChanged? && Stalling(e.isLoading, e.isError))
  }

  /**
    While a load without an error goes on, with no dismissal, an armed timer
    is never pushed back by the hook reporting the same flags again: once
    the last event is at or after its deadline, the notice is up. A notice
    that is already up stays up.
  */
  lemma {:induction false} SlowOnceDue(s: StallTimer, evs: seq<PageEvent>)
    requires Consistent(s) && Chronological(s.clock, evs)
    requires Stalling(s.isLoading, s.isError)
    requires forall i :: 0 <= i < |evs| ==> KeepsLoading(evs[i])
    requires s.showSlowConnection || (s.timer.Some? && evs != [] && s.timer.value <= evs[|evs| - 1].at)
    ensures Run(s, evs).showSlowConnection
    decreases |evs|
  {
    if evs != [] {
      assert KeepsLoading(evs[0]);
      var s' := Step(s, evs[0]);
      assert Stalling(s'.isLoading, s'.isError);
      assert forall i :: 0 <= i < |evs[1..]| ==> KeepsLoading(evs[1..][i]) by {
        forall i | 0 <= i < |evs[1..]| ensures KeepsLoading(evs[1..][i]) {
          assert evs[1..][i] == evs[i + 1];
        }
      }
      if !s'.showSlowConnection {
        assert |evs| > 1 && evs[1..][|evs[1..]| - 1] == evs[|evs| - 1];
      }
      SlowOnceDue(s', evs[1..]);
    }
  }

  /**
    A page mounted while loading without an error shows the notice by any
    event at or after 3000 ms, as long as the load goes on and the notice is
    not dismissed.
  */
  lemma MountedLoadTurnsSlow(now: int, evs: seq<PageEvent>)
    requires Chronological(now, evs) && evs != [] && now + StallMs <= evs[|evs| - 1].at
    requires forall i :: 0 <= i < |evs| ==> KeepsLoading(evs[i])
    ensures Run(Mount(true, false, now), evs).showSlowConnection
  {
    SlowOnceDue(Mount(true, false, now), evs);
  }

  /**
    Dismissing does not disable the timer for good: once loading ends and
    starts again, a new 3000 ms timer raises the notice again.
  */
  lemma DismissThenReload(s: StallTimer, now: int)
    requires Consistent(s) && s.clock <= now
    ensures var d := Observe(Dismiss(s), false, false, now);
      Elapse(Observe(d, true, false, now), now + StallMs).showSlowConnection
  {
  }

  /**
    The page as a stateful component: the selected user id and the stall
    timer's state. Its methods are the source's events and are proved
    against the functions above.
  */
  class Page {
    var selectedUserId: Option<int>
    var isLoading: bool
    var isError: bool
    var showSlowConnection: bool
    var slowConnectionTimer: Option<int>
    var clock: int

    function Stall(): StallTimer
      reads this
    {
      StallTimer(isLoading, isError, showSlowConnection, slowConnectionTimer, clock)
    }

    ghost predicate Valid()
      reads this
    {
      Consistent(Stall())
    }

    constructor (isLoading: bool, isError: bool, now: int)
      ensures Stall() == Mount(isLoading, isError, now) && selectedUserId == None && Valid()
    {
      selectedUserId := None;
      this.isLoading, this.isError := isLoading, isError;
      showSlowConnection := false;
      slowConnectionTimer := if isLoading && !isError then Some(now + StallMs) else None;
      clock := now;
    }

    /** Lets the clock run to `now`, firing the stall timer if it is due. */
    method Tick(now: int)
      requires Valid() && clock <= now
      modifies this
      ensures Stall() == Elapse(old(Stall()), now) && Valid()
      ensures selectedUserId == old(selectedUserId)
    {
      if slowConnectionTimer.Some? && slowConnectionTimer.value <= now {
        showSlowConnection := true;
        slowConnectionTimer := None;
      }
      clock := now;
    }

    /** The hook reports `isLoading` and the truthiness of `isError` at `now`. */
    method FlagsChanged(isLoading: bool, isError: bool, now: int)
      requires Valid() && clock <= now
      modifies this
      ensures Stall() == Observe(old(Stall()), isLoading, isError, now) && Valid()
      ensures selectedUserId == old(selectedUserId)
    {
      Tick(now);
      if isLoading != this.isLoading || isError != this.isError {
        slowConnectionTimer := None;
        if isLoading && !isError {
          slowConnectionTimer := Some(now + StallMs);
        } else {
          showSlowConnection := false;
        }
        this.isLoading, this.isError := isLoading, isError;
      }
    }

    /** handleSearch: the search box selects a user id, or none. */
    method HandleSearch(userId: Option<int>)
      modifies this
      ensures selectedUserId == userId && Stall() == old(Stall())
    {
      selectedUserId := userId;
    }

    /** handleDismissSlowConnection. */
    method HandleDismissSlowConnection()
      requires Valid()
      modifies this
      ensures Stall() == Dismiss(old(Stall())) && Valid()
      ensures selectedUserId == old(selectedUserId)
    {
      showSlowConnection := false;
    }
  }

  /** The message of the empty state. */
  datatype EmptyNotice = NoPostsForUser(userId: int) | NoPostsAvailable

  /** What the page shows besides the header and the search box. */
  datatype View = View(
    loadingBanner: bool,
    errorBanner: bool,
    grid: Option<seq<UsePosts.Post>>,
    emptyNotice: Option<EmptyNotice>,
    countLine: Option<string>,
    updating: bool,
    slowNotice: bool)

  /**
    The text that JSX renders for `{selectedUserId && ...}`: nothing for
    undefined, the digit "0" for 0, the user phrase otherwise.
  */
  function UserSuffix(selectedUserId: Option<int>): string {
    match selectedUserId
    case None => ""
    case Some(k) => if k == 0 then "0" else " for user ID " + IntToDecimal(k)
  }

  /** The results count line under the grid. */
  function CountText(n: nat, selectedUserId: Option<int>): string {
    "Showing " + IntToDecimal(n) + (" post" + (if n != 1 then "s" else "") + UserSuffix(selectedUserId))
  }

  /**
    One render of the page. The grid and the count line appear only when
    there are posts and neither loading nor an error is under way, the empty
    state only when there are none; the "Updating..." badge shows a
    background revalidation, not a first load.
  */
  function Render(r: UsePosts.PostsResult, selectedUserId: Option<int>, showSlowConnection: bool): (v: View)
    ensures v.loadingBanner == r.isLoading && v.errorBanner == r.isError.Some?
    ensures v.grid.Some? <==> !r.isLoading && r.isError.None? && |r.posts| > 0
    ensures v.grid.Some? ==> v.grid.value == r.posts
    ensures v.emptyNotice.Some? <==> !r.isLoading && r.isError.None? && |r.posts| == 0
    ensures v.emptyNotice.Some? ==>
      v.emptyNotice.value == if UsePosts.Truthy(selectedUserId) then NoPostsForUser(selectedUserId.value) else NoPostsAvailable
    ensures v.countLine.Some? <==> v.grid.Some?
    ensures v.countLine.Some? ==> v.countLine.value == CountText(|r.posts|, selectedUserId)
    ensures v.updating <==> r.isValidating && !r.isLoading
    ensures v.slowNotice == showSlowConnection
  {
    var listing := !r.isLoading && r.isError.None?;
    View(
      r.isLoading,
      r.isError.Some?,
      if listing && |r.posts| > 0 then Some(r.posts) else None,
      if listing && |r.posts| == 0 then
        Some(if UsePosts.Truthy(selectedUserId) then NoPostsForUser(selectedUserId.value) else NoPostsAvailable)
      else None,
      if listing && |r.posts| > 0 then Some(CountText(|r.posts|, selectedUserId)) else None,
      r.isValidating && !r.isLoading,
      showSlowConnection)
  }

  /**
    The grid and the empty state never appear together, exactly one of them
    appears once loading is over without an error, and neither appears beside
    the loading or the error banner.
  */
  lemma ListingIsExclusive(r: UsePosts.PostsResult, selectedUserId: Option<int>, showSlowConnection: bool)
    ensures var v := Render(r, selectedUserId, showSlowConnection);
      && !(v.grid.Some? && v.emptyNotice.Some?)
      && (!v.loadingBanner && !v.errorBanner <==> v.grid.Some? || v.emptyNotice.Some?)
  {
  }

  /**
    The count line: "post" for one post and "posts" otherwise, followed by
    " for user ID k" exactly when the selected id is truthy. An id of 0 is
    falsy and JSX renders it, so the line then ends in a stray "0"; the
    search box never selects 0.
  */
  lemma CountTextWording(n: nat, selectedUserId: Option<int>)
    ensures var head := "Showing " + IntToDecimal(n);
      var noun := if n == 1 then " post" else " posts";
      && (selectedUserId.None? ==> CountText(n, selectedUserId) == head + noun)
      && (UsePosts.Truthy(selectedUserId) ==>
            CountText(n, selectedUserId) == head + (noun + (" for user ID " + IntToDecimal(selectedUserId.value))))
      && (selectedUserId == Some(0) ==> CountText(n, selectedUserId) == head + (noun + "0"))
  {
    var noun := if n == 1 then " post" else " posts";
    assert " post" + (if n != 1 then "s" else "") == noun;
    match selectedUserId
    case None =>
      assert noun + "" == noun;
    case Some(k) =>
      if k == 0 {
        assert UserSuffix(selectedUserId) == "0";
      } else {
        assert UserSuffix(selectedUserId) == " for user ID " + IntToDecimal(k);
      }
  }

  /** The number in the count line reads back as the number of posts. */
  lemma CountTextReportsCount(n: nat, selectedUserId: Option<int>)
    ensures var text := CountText(n, selectedUserId);
      |"Showing "| <= |text| && JsParseInt.ParseInt(text[|"Showing "|..]) == Some(n)
  {
    var d := NatToDecimal(n);
    var rest := " post" + (if n != 1 then "s" else "") + UserSuffix(selectedUserId);
    assert IntToDecimal(n) == d;
    assert rest[0] == ' ';
    JsParseInt.DecimalValue(n);
    NumeralAfterPrefix(CountText(n, selectedUserId), "Showing ", d, rest);
  }

  lemma NumeralAfterPrefix(text: string, prefix: string, d: string, rest: string)
    requires text == prefix + d + rest
    requires d != [] && AllDigits(d)
    requires rest == [] || !IsDigit(rest[0])
    requires !(d == "0" && rest != [] && (rest[0] == 'x' || rest[0] == 'X'))
    ensures |prefix| <= |text| && JsParseInt.ParseInt(text[|prefix|..]) == Some(JsParseInt.DigitsValue(d, 10))
  {
    assert text[|prefix|..] == d + rest;
    JsParseInt.ParseNumeral(d, rest);
  }
}
