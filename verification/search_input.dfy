/**
  The search box of the posts page. Every edit of the text restarts a 500 ms
  timer; when the timer fires the text becomes the committed ("debounced")
  term, and the committed term is turned into the user id handed to the
  page's `onSearch` callback. Timers are deadlines on a virtual millisecond
  clock; an event delivered at time `now` first lets a timer that is due by
  `now` fire.
*/
module SearchInput {
  import opened Wrappers
  import opened Decimal
  import JsParseInt

  const DebounceMs := 500

  /** What one run of the key-resolution effect does with `onSearch`. */
  datatype Resolution = Silent | Emit(key: Option<int>)

  /**
    Empty text clears the filter; otherwise the text is read with parseInt
    and only a positive result is reported. NaN, 0, -0 and negative values
    report nothing, so the page keeps its previous user id.
  */
  function Resolve(term: string): (r: Resolution)
    ensures r == Emit(None) <==> term == ""
    ensures r.Emit? && r.key.Some? ==> r.key.value > 0
    ensures r.Emit? && r.key.Some? ==> JsParseInt.ParseInt(term) == r.key
    ensures r == Silent ==>
      term != "" && (JsParseInt.ParseInt(term).None? || JsParseInt.ParseInt(term).value <= 0)
  {
    if term == "" then Emit(None)
    else match JsParseInt.ParseInt(term)
      case Some(n) => if n > 0 then Emit(Some(n)) else Silent
      case None => Silent
  }

  /**
    The `onSearch` calls made when the key-resolution effect runs with the
    page's selected id being `selected`. A call that changes the selection
    re-renders the page, which hands down a new `onSearch` (the page does not
    memoise its handler), so the effect runs once more and repeats the same
    key; that repeat changes nothing and no further render follows.
  */
  function Calls(r: Resolution, selected: Option<int>): seq<Option<int>> {
    if r == Silent then []
    else if r.key == selected then [r.key]
    else [r.key, r.key]
  }

  /** The page's selected user id after the given `onSearch` calls. */
  function Selected(calls: seq<Option<int>>): Option<int> {
    if calls == [] then None else calls[|calls| - 1]
  }

  /**
    The state of the component: the text in the box, the committed term, the
    deadline of the pending debounce timer, every `onSearch` call made so far,
    and the time of the last event.
  */
  datatype Snapshot = Snapshot(
    searchTerm: string,
    debouncedTerm: string,
    timer: Option<int>,
    calls: seq<Option<int>>,
    clock: int)

  /**
    The committed term lags behind the typed text only while a timer is
    pending, that timer is at most 500 ms away, and the page's selected id is
    whatever the committed term resolves to whenever that resolution emits.
  */
  ghost predicate Consistent(s: Snapshot) {
    && (s.timer.Some? ==> s.clock < s.timer.value <= s.clock + DebounceMs)
    && (s.timer.None? ==> s.debouncedTerm == s.searchTerm)
    && s.calls != []
    && (Resolve(s.debouncedTerm).Emit? ==> Selected(s.calls) == Resolve(s.debouncedTerm).key)
  }

  /**
    Mounting: both terms start empty, the debounce effect arms its first
    timer, and the key-resolution effect reports "no filter".
  */
  function Mount(now: int): (s: Snapshot)
    ensures Consistent(s)
    ensures s.searchTerm == "" && s.debouncedTerm == "" && s.timer == Some(now + DebounceMs) && s.clock == now
    ensures Selected(s.calls) == None && s.calls == [None]
  {
    Snapshot("", "", Some(now + DebounceMs), [None], now)
  }

  /**
    Time passes up to `now`. A due timer copies the text into the committed
    term; React re-runs the key-resolution effect only if that changed the
    committed term.
  */
  function Elapse(s: Snapshot, now: int): (r: Snapshot)
    requires Consistent(s) && s.clock <= now
    ensures Consistent(r) && r.clock == now && r.searchTerm == s.searchTerm
    ensures s.timer.Some? && s.timer.value <= now ==> r.debouncedTerm == s.searchTerm && r.timer.None?
    ensures !(s.timer.Some? && s.timer.value <= now) ==> r == s.(clock := now)
    ensures s.timer.Some? && s.timer.value <= now && s.debouncedTerm == s.searchTerm ==> r.calls == s.calls
    ensures s.timer.Some? && s.timer.value <= now && s.debouncedTerm != s.searchTerm ==>
      r.calls == s.calls + Calls(Resolve(s.searchTerm), Selected(s.calls))
  {
    if s.timer.Some? && s.timer.value <= now then
      var emitted := if s.debouncedTerm != s.searchTerm then Calls(Resolve(s.searchTerm), Selected(s.calls)) else [];
      s.(debouncedTerm := s.searchTerm, timer := None, calls := s.calls + emitted, clock := now)
    else
      s.(clock := now)
  }

  /**
    handleInputChange: a new text restarts the debounce timer (the old one is
    cleared by the effect's cleanup); setting the same text again re-runs no
    effect.
  */
  function Change(s: Snapshot, v: string, now: int): (r: Snapshot)
    requires Consistent(s) && s.clock <= now
    ensures Consistent(r) && r.clock == now && r.searchTerm == v
    ensures r.debouncedTerm == Elapse(s, now).debouncedTerm && r.calls == Elapse(s, now).calls
    ensures v != Elapse(s, now).searchTerm ==> r.timer == Some(now + DebounceMs)
    ensures v == Elapse(s, now).searchTerm ==> r == Elapse(s, now)
  {
    var e := Elapse(s, now);
    if v == e.searchTerm then e else e.(searchTerm := v, timer := Some(now + DebounceMs))
  }

  /**
    handleClear: both terms become empty and `onSearch(undefined)` is called
    at once. If the committed term was not empty the key-resolution effect
    runs again (its term changed, and the page re-rendered if its selection
    changed) and repeats that call, once; an empty committed term means no
    user is selected, so nothing re-runs. If the text was not empty the
    debounce effect re-arms its timer.
  */
  function Cleared(s: Snapshot, now: int): (r: Snapshot)
    requires Consistent(s) && s.clock <= now
    ensures Consistent(r) && r.clock == now
    ensures r.searchTerm == "" && r.debouncedTerm == "" && Selected(r.calls) == None
    ensures var before := Elapse(s, now);
      && |before.calls| < |r.calls| <= |before.calls| + 2
      && r.calls[..|before.calls|] == before.calls
      && (forall i :: |before.calls| <= i < |r.calls| ==> r.calls[i] == None)
      && (|r.calls| == |before.calls| + 2 <==> before.debouncedTerm != "")
  {
    var e := Elapse(s, now);
    var again := if e.debouncedTerm != "" then [None] else [];
    var timer := if e.searchTerm != "" then Some(now + DebounceMs) else e.timer;
    var calls := e.calls + [None] + again;
    assert Selected(calls) == None;
    assert Resolve("") == Emit(None);
    Snapshot("", "", timer, calls, now)
  }

  /**
    The page passes a new `onSearch` function on each of its renders, so the
    key-resolution effect runs again on the same committed term.
  */
  function Rerender(s: Snapshot): (r: Snapshot)
    requires Consistent(s)
    ensures Consistent(r)
    ensures r.(calls := s.calls) == s
    ensures Resolve(s.debouncedTerm).Emit? ==> r.calls == s.calls + [Selected(s.calls)]
    ensures Resolve(s.debouncedTerm) == Silent ==> r.calls == s.calls
  {
    s.(calls := s.calls + Calls(Resolve(s.debouncedTerm), Selected(s.calls)))
  }

  /** Re-running the resolution leaves the selected user id as it was. */
  lemma RerenderIsIdempotent(s: Snapshot)
    requires Consistent(s)
    ensures Selected(Rerender(s).calls) == Selected(s.calls)
    ensures Rerender(s).searchTerm == s.searchTerm && Rerender(s).debouncedTerm == s.debouncedTerm
  {
  }

  /** One keystroke: the new text of the box and the time it arrives. */
  datatype Keystroke = Keystroke(value: string, at: int)

  predicate Chronological(from: int, ks: seq<Keystroke>)
    decreases |ks|
  {
    ks == [] || (from <= ks[0].at && Chronological(ks[0].at, ks[1..]))
  }

  /** The component after the keystrokes, one `Change` each. */
  function Type(s: Snapshot, ks: seq<Keystroke>): (r: Snapshot)
    requires Consistent(s) && Chronological(s.clock, ks)
    ensures Consistent(r)
    ensures r.clock == if ks == [] then s.clock else ks[|ks| - 1].at
    decreases |ks|
  {
    if ks == [] then s else Type(Change(s, ks[0].value, ks[0].at), ks[1..])
  }

  /**
    Each keystroke changes the text and arrives less than 500 ms after the
    one before it.
  */
  predicate Burst(term: string, ks: seq<Keystroke>)
    decreases |ks|
  {
    ks == [] ||
    (&& ks[0].value != term
     && (|ks| > 1 ==> ks[1].at < ks[0].at + DebounceMs)
     && Burst(ks[0].value, ks[1..]))
  }

  /**
    During a burst of quick edits nothing is committed and `onSearch` is not
    called: every edit cancels the pending timer, and the one left pending is
    the last edit's, 500 ms after it.
  */
  lemma {:induction false} BurstCommitsNothing(s: Snapshot, ks: seq<Keystroke>)
    requires Consistent(s) && Chronological(s.clock, ks) && ks != []
    requires s.timer.None? || ks[0].at < s.timer.value
    requires Burst(s.searchTerm, ks)
    decreases |ks|
    ensures Type(s, ks).debouncedTerm == s.debouncedTerm
    ensures Type(s, ks).calls == s.calls
    ensures Type(s, ks).searchTerm == ks[|ks| - 1].value
    ensures Type(s, ks).timer == Some(ks[|ks| - 1].at + DebounceMs)
  {
    var c := Change(s, ks[0].value, ks[0].at);
    assert Type(s, ks) == Type(c, ks[1..]);
    if |ks| > 1 {
      BurstCommitsNothing(c, ks[1..]);
    }
  }

  /**
    After a burst, the last text alone is committed, exactly when 500 ms
    have passed since the last edit, and it is resolved once if it differs
    from the committed term before the burst.
  */
  lemma QuietPeriodCommitsLast(s: Snapshot, ks: seq<Keystroke>, now: int)
    requires Consistent(s) && Chronological(s.clock, ks) && ks != []
    requires s.timer.None? || ks[0].at < s.timer.value
    requires Burst(s.searchTerm, ks)
    requires ks[|ks| - 1].at <= now
    ensures var r := Elapse(Type(s, ks), now);
      var last := ks[|ks| - 1];
      if now < last.at + DebounceMs then
        r.debouncedTerm == s.debouncedTerm && r.calls == s.calls
      else
        && r.debouncedTerm == last.value
        && r.calls == s.calls +
             (if last.value != s.debouncedTerm then Calls(Resolve(last.value), Selected(s.calls)) else [])
  {
    BurstCommitsNothing(s, ks);
  }

  /** Typing the decimal text of a positive id selects exactly that id. */
  lemma ResolvePositiveNumeral(k: int)
    requires k > 0
    ensures Resolve(IntToDecimal(k)) == Emit(Some(k))
  {
    JsParseInt.ParseIntInvertsIntToDecimal(k);
  }

  /** parseInt reads the leading integer and stops at the first non-digit. */
  lemma ResolveTrailingText()
    ensures Resolve("12abc") == Emit(Some(12))
  {
    assert JsParseInt.DigitsValue("12", 10) == 12 by {
      assert "12"[..1] == "1";
    }
    ResolveDecimalPrefix("12abc", "12", "abc", 12);
  }

  /** A plain numeral selects that user: "123" selects user 123. */
  lemma ResolveWholeNumeral()
    ensures Resolve("123") == Emit(Some(123))
  {
    assert JsParseInt.DigitsValue("123", 10) == 123 by {
      assert "123"[..2] == "12" && "12"[..1] == "1";
    }
    ResolveDecimalPrefix("123", "123", "", 123);
  }

  /** A decimal fraction is cut at the point: "3.7" selects user 3. */
  lemma ResolveFraction()
    ensures Resolve("3.7") == Emit(Some(3))
  {
    assert JsParseInt.DigitsValue("3", 10) == 3;
    ResolveDecimalPrefix("3.7", "3", ".7", 3);
  }

  /** Text without digits is NaN and selects nothing. */
  lemma ResolveNonNumeric()
    ensures Resolve("abc") == Silent
  {
    JsParseInt.NoDigitIsNaN("abc");
  }

  /** A negative number selects nothing. */
  lemma ResolveNegativeNumber()
    ensures Resolve("-5") == Silent
  {
    ResolveNegative("-5", "5");
  }

  /** Zero selects nothing. */
  lemma ResolveZero()
    ensures Resolve("0") == Silent
  {
    assert JsParseInt.DigitsValue("0", 10) == 0;
    ResolveDecimalPrefix("0", "0", "", 0);
  }

  lemma ResolveDecimalPrefix(s: string, d: string, rest: string, n: int)
    requires s == d + rest
    requires d != [] && AllDigits(d)
    requires rest == [] || !IsDigit(rest[0])
    requires !(d == "0" && rest != [] && (rest[0] == 'x' || rest[0] == 'X'))
    requires JsParseInt.DigitsValue(d, 10) == n
    ensures Resolve(s) == if n > 0 then Emit(Some(n)) else Silent
  {
    JsParseInt.ParseNumeral(d, rest);
    assert s[0] == d[0];
  }

  lemma ResolveNegative(s: string, d: string)
    requires s == "-" + d
    requires d != [] && AllDigits(d)
    ensures Resolve(s) == Silent
  {
    JsParseInt.NegativeNumeral(d);
  }

  /**
    The search box as a stateful component. Its methods are the source's
    events and are proved against the functions above.
  */
  class Component {
    var searchTerm: string
    var debouncedTerm: string
    var timer: Option<int>
    var calls: seq<Option<int>>
    var clock: int

    function State(): Snapshot
      reads this
    {
      Snapshot(searchTerm, debouncedTerm, timer, calls, clock)
    }

    ghost predicate Valid()
      reads this
    {
      Consistent(State())
    }

    constructor (now: int)
      ensures State() == Mount(now) && Valid()
    {
      searchTerm, debouncedTerm := "", "";
      timer := Some(now + DebounceMs);
      calls := [None];
      clock := now;
    }

    /** Lets the clock run to `now`, firing the debounce timer if it is due. */
    method Tick(now: int)
      requires Valid() && clock <= now
      modifies this
      ensures State() == Elapse(old(State()), now) && Valid()
    {
      if timer.Some? && timer.value <= now {
        if debouncedTerm != searchTerm {
          var r := Resolve(searchTerm);
          if r.Emit? {
            var changesSelection := r.key != Selected(calls);
            calls := calls + [r.key];
            if changesSelection {
              // the page re-renders and the effect runs again on its new onSearch
              calls := calls + [r.key];
            }
          }
        }
        debouncedTerm := searchTerm;
        timer := None;
      }
      clock := now;
    }

    /** The text of the box becomes `v` at time `now`. */
    method Input(v: string, now: int)
      requires Valid() && clock <= now
      modifies this
      ensures State() == Change(old(State()), v, now) && Valid()
    {
      Tick(now);
      if v != searchTerm {
        searchTerm := v;
        timer := Some(now + DebounceMs);
      }
    }

    /** The clear button is pressed at time `now`. */
    method Clear(now: int)
      requires Valid() && clock <= now
      modifies this
      ensures State() == Cleared(old(State()), now) && Valid()
    {
      Tick(now);
      var again := if debouncedTerm != "" then [None] else [];
      var t := if searchTerm != "" then Some(now + DebounceMs) else timer;
      searchTerm, debouncedTerm, timer, calls := "", "", t, calls + [None] + again;
    }

    /** The page renders again and hands over a new `onSearch`. */
    method ParentRender()
      requires Valid()
      modifies this
      ensures State() == Rerender(old(State())) && Valid()
    {
      var r := Resolve(debouncedTerm);
      if r.Emit? {
        calls := calls + [r.key];
      }
    }
  }

  /** A fresh search box after "1", "12" and "123" are typed 100 ms apart. */
  method TypeOneTwoThree() returns (c: Component)
    ensures fresh(c) && c.Valid()
    ensures c.State() == Snapshot("123", "", Some(300 + DebounceMs), [None], 300)
  {
    c := new Component(0);
    c.Input("1", 100);
    assert c.State() == Snapshot("1", "", Some(600), [None], 100);
    c.Input("12", 200);
    assert c.State() == Snapshot("12", "", Some(700), [None], 200);
    c.Input("123", 300);
  }

  /**
    The pending timer fires at `now` on a text that differs from the
    committed term and resolves to `key`: the page is asked for `key`, and
    asked again by its own re-render when that changes its selection.
  */
  method CommitPending(c: Component, now: int, key: Option<int>) returns (committed: string, calls: seq<Option<int>>)
    requires c.Valid() && c.clock <= now && c.timer == Some(now)
    requires c.debouncedTerm != c.searchTerm && Resolve(c.searchTerm) == Emit(key)
    modifies c
    ensures committed == old(c.searchTerm)
    ensures key == Selected(old(c.calls)) ==> calls == old(c.calls) + [key]
    ensures key != Selected(old(c.calls)) ==> calls == old(c.calls) + [key, key]
  {
    c.Tick(now);
    committed, calls := c.debouncedTerm, c.calls;
  }

  /**
    "1", "12" and "123" typed 100 ms apart commit only "123", 500 ms after
    the last edit. The commit asks the page for user 123, and the page's
    re-render on that new selection makes the search box ask once more.
  */
  method TypingBurst() returns (committedAt799: string, committed: string, calls: seq<Option<int>>)
    ensures committedAt799 == "" && committed == "123"
    ensures calls == [None, Some(123), Some(123)]
  {
    var c := TypeOneTwoThree();
    c.Tick(799);
    committedAt799 := c.debouncedTerm;
    ResolveWholeNumeral();
    committed, calls := CommitPending(c, 800, Some(123));
  }
}
