# Posts page with a debounced user filter — Dafny model

The application is a single Next.js page that lists blog posts from
`https://jsonplaceholder.typicode.com/posts`. A search box filters the list
by user id. Three pieces of logic sit behind the markup, and this project
models each of them and proves what it promises:

- **The search box** (`SearchInput`): a restartable 500 ms debounce.
  - Every edit of the text cancels the pending timer and arms a new one.
  - When the timer fires, the text becomes the committed term.
  - A resolution rule turns the committed term into the user id handed to
    the page's `onSearch`. The rule reads the term with JavaScript's
    `parseInt`, modelled after section 19.2.5 of ECMA-262 in `JsParseInt`.
  - The clear button commits the empty term at once.
- **The page** (`PostsPage`):
  - A one-shot 3000 ms stall timer raises a "slow connection" notice while
    a load is under way without an error. The notice can be dismissed.
  - The page chooses what it shows from the hook's flags: the loading
    banner, the error banner, the grid, the empty state, the count line
    and the "Updating..." badge.
- **The `usePosts` hook** (`UsePosts`): it builds the request URL from the
  optional user id. That URL is also the SWR cache key. The hook then shapes
  SWR's answer for the page: `posts` defaults to the empty list and the
  error is passed on.

Timers are deadlines on a virtual millisecond clock. An event that arrives
at time `now` first lets a timer that is due by `now` fire. React effects
run as part of the event that triggers them. Setting a state to the value
it already has re-runs no effect, as React bails out of such updates.

The page does not memoise `handleSearch`, so every render of the page hands
the search box a new `onSearch`, and the key-resolution effect runs again.
When a call to `onSearch` changes the page's selection, the page re-renders
at once, so that call is followed by a second call with the same key; the
second one changes nothing and ends the chain. This repeat is part of the
event that made the first call. Renders of the page for other reasons
(the hook's flags changing, say) are a separate `Rerender` event.

Both stateful components have two forms:
- a datatype of their state, with pure step functions that keep a
  `Consistent` invariant;
- a class whose fields are the component's state, and whose methods (the
  source's handlers and timer callbacks) are proved to produce exactly what
  the step functions describe.

The properties are stated over the step functions.

Modules:
- `Wrappers`: `Option`.
- `Decimal`: the decimal text of an integer, which is what
  `${userId}` and `{posts.length}` produce.
- `JsParseInt`: `parseInt` without a radix.
- `SearchInput`, `PostsPage` and `UsePosts`: the three pieces above.

## Model

| member | source | states |
|---|---|---|
| SearchInput.Resolve | src/components/SearchInput.tsx:24-33 | the empty term emits "no filter" and only the empty term does; otherwise a key is emitted exactly when parseInt of the term is a positive number, and it is that number; NaN or a value ≤ 0 emits nothing |
| SearchInput.Mount | src/components/SearchInput.tsx:11-26 | on mount both terms are empty, a debounce timer is armed 500 ms ahead, and the first and only call is `onSearch(undefined)`, which leaves the page's empty selection as it is |
| SearchInput.Elapse | src/components/SearchInput.tsx:15-33 | a due debounce timer copies the text into the committed term and disarms; if that changed the committed term, the resolution runs and its key is sent, twice when it changes the page's selection (the page's re-render runs the effect again); if not, no call is made; with no due timer nothing but the clock changes; the invariant is kept |
| SearchInput.Change | src/components/SearchInput.tsx:35-38 | a new text re-arms the timer 500 ms ahead without touching the committed term or the calls; the same text again leaves the state as the elapsed time alone makes it, pending deadline included; the invariant is kept |
| SearchInput.Cleared | src/components/SearchInput.tsx:40-44 | both terms become empty at once; earlier calls are kept; one or two calls are appended, all of them `onSearch(undefined)`; there are two exactly when the committed term was not empty; the selected id ends as none |
| SearchInput.Rerender | src/components/SearchInput.tsx:24-33 | a new `onSearch` from the parent re-runs the resolution: when the committed term emits, the key already selected is sent once more, otherwise no call is made; nothing else changes and the invariant is kept |
| SearchInput.RerenderIsIdempotent | src/components/SearchInput.tsx:24-33 | re-running the resolution on the same committed term leaves the selected id and both terms as they were |
| SearchInput.BurstCommitsNothing | src/components/SearchInput.tsx:15-21 | during edits less than 500 ms apart nothing is committed and `onSearch` is not called; the only pending timer is the last edit's, 500 ms after it |
| SearchInput.QuietPeriodCommitsLast | src/components/SearchInput.tsx:15-33 | after such a burst the last text is committed exactly when 500 ms have passed since the last edit, and only if it differs from the previously committed term is it resolved, its key sent once, or twice when it changes the page's selection |
| SearchInput.ResolvePositiveNumeral | src/components/SearchInput.tsx:27-30 | the decimal text of any positive k emits exactly k |
| SearchInput.ResolveWholeNumeral | src/components/SearchInput.tsx:28-30 | "123" emits 123 |
| SearchInput.ResolveTrailingText | src/components/SearchInput.tsx:28-30 | "12abc" emits 12 |
| SearchInput.ResolveFraction | src/components/SearchInput.tsx:28-30 | "3.7" emits 3 |
| SearchInput.ResolveNonNumeric | src/components/SearchInput.tsx:28-31 | "abc" emits nothing |
| SearchInput.ResolveNegativeNumber | src/components/SearchInput.tsx:28-31 | "-5" emits nothing |
| SearchInput.ResolveZero | src/components/SearchInput.tsx:28-31 | "0" emits nothing |
| SearchInput.Component.constructor | src/components/SearchInput.tsx:11-26 | the component's fields are the mounted state |
| SearchInput.Component.Tick | src/components/SearchInput.tsx:15-33 | the fields after the clock runs to `now` are `Elapse` of the fields before |
| SearchInput.Component.Input | src/components/SearchInput.tsx:35-38 | the fields after an edit are `Change` of the fields before |
| SearchInput.Component.Clear | src/components/SearchInput.tsx:40-44 | the fields after a click on clear are `Cleared` of the fields before |
| SearchInput.Component.ParentRender | src/components/SearchInput.tsx:24-33 | the fields after a parent render are `Rerender` of the fields before |
| SearchInput.TypeOneTwoThree | src/components/SearchInput.tsx:15-21 | after "1", "12" and "123" are typed 100 ms apart, "123" is in the box, nothing is committed, and the timer is due at 800 ms |
| SearchInput.CommitPending | src/components/SearchInput.tsx:15-33 | a due timer on a changed text commits that text and sends its resolved key: once if the page already selects it, twice if the key changes the selection |
| SearchInput.TypingBurst | src/components/SearchInput.tsx:15-33 | "1", "12" and "123" typed 100 ms apart commit nothing by 799 ms; at 800 ms they commit "123", and the calls are `onSearch(undefined)` on mount, then `onSearch(123)` and its repeat from the page's re-render |
| JsParseInt.TrimStart | src/components/SearchInput.tsx:28 | the result is the input without its longest run of leading white space |
| JsParseInt.DigitPrefix | src/components/SearchInput.tsx:28 | the result is the longest prefix of digits of the radix |
| JsParseInt.ParseDecimal | src/components/SearchInput.tsx:28 | white space, an optional sign and a decimal numeral, followed by any non-digit, read as the signed value of the numeral (a lone "0" before "x" excepted) |
| JsParseInt.ParseHex | src/components/SearchInput.tsx:28 | after white space and an optional sign, "0x" or "0X" switches the reading to radix 16 |
| JsParseInt.NoDigitIsNaN | src/components/SearchInput.tsx:28-29 | text without a decimal digit reads as NaN |
| JsParseInt.ParseIntInvertsIntToDecimal | src/hooks/usePosts.ts:7-8 | parseInt reads the decimal text of every integer back as that integer |
| JsParseInt.IntToDecimalInjective | src/hooks/usePosts.ts:7-8 | distinct integers have distinct decimal texts |
| JsParseInt.DecimalValue | src/hooks/usePosts.ts:8 | the decimal text of n is made of digits whose value is n |
| Decimal.NatToDecimal | src/hooks/usePosts.ts:8 | the text is a non-empty run of digits, has no leading zero, and is one digit long exactly for n < 10 |
| Decimal.IntToDecimal | src/hooks/usePosts.ts:8 | the text starts with '-' exactly for negative numbers; a negative number's text is '-' followed by digits, any other text is all digits |
| UsePosts.RequestUrl | src/hooks/usePosts.ts:7-9 | every URL starts with the base URL; it is exactly the base URL iff the id is falsy (absent or 0) |
| UsePosts.RequestUrlCarriesUserId | src/hooks/usePosts.ts:7-8 | a truthy id k gives the base URL, then "?userId=", then text that parseInt reads back as k |
| UsePosts.RequestUrlDistinguishesUsers | src/hooks/usePosts.ts:7-8 | equal URLs come from ids that are both falsy or equal, so each filter has its own cache key |
| UsePosts.ToPostsResult | src/hooks/usePosts.ts:27-33 | `posts` is the fetched list when there is one and the empty list otherwise; the error is present iff SWR reports one; the flags pass through |
| PostsPage.Mount | src/app/posts/page.tsx:11-33 | on mount the notice is down, the flags are recorded, and a timer due 3000 ms ahead is armed iff the hook is loading without an error |
| PostsPage.Elapse | src/app/posts/page.tsx:20-22 | a due stall timer raises the notice and disarms; otherwise only the clock moves; the invariant is kept |
| PostsPage.Observe | src/app/posts/page.tsx:15-33 | new flags: anything but loading without an error lowers the notice and leaves no timer; starting to load without an error arms a fresh 3000 ms timer with the notice down; the same flags reported again change nothing but the passing of time, so the pending timer is not pushed back |
| PostsPage.Dismiss | src/app/posts/page.tsx:39-41 | dismissing lowers the notice and changes nothing else |
| PostsPage.Run | src/app/posts/page.tsx:15-41 | every chronological run of flag changes, waits and dismissals keeps the invariant: at most one timer, armed only while loading without an error |
| PostsPage.NotSlowBeforeStallDelay | src/app/posts/page.tsx:15-33 | whatever happens within 3000 ms of a start with the notice down and no earlier timer, the notice stays down, so a load that ends or fails in time never shows it and a superseded timer never raises it |
| PostsPage.SlowAtStallDelay | src/app/posts/page.tsx:18-22 | a load that starts at `now` raises the notice at `later` iff `later` ≥ `now` + 3000 |
| PostsPage.SlowOnceDue | src/app/posts/page.tsx:15-33 | while a load without an error goes on and nothing is dismissed, any run of waits and repeated flags whose last event is at or after the armed deadline ends with the notice up, and a notice already up stays up |
| PostsPage.MountedLoadTurnsSlow | src/app/posts/page.tsx:11-33 | a page mounted while loading without an error shows the notice by any event at or after 3000 ms, as long as the load goes on and nothing is dismissed |
| PostsPage.DismissThenReload | src/app/posts/page.tsx:15-41 | after a dismissal, the next load raises the notice again after 3000 ms |
| PostsPage.Page.constructor | src/app/posts/page.tsx:10-33 | the page starts with no selected user and the mounted stall state |
| PostsPage.Page.Tick | src/app/posts/page.tsx:20-22 | the stall fields after the clock runs to `now` are `Elapse` of those before; the selected user is unchanged |
| PostsPage.Page.FlagsChanged | src/app/posts/page.tsx:15-33 | the stall fields after new hook flags are `Observe` of those before; the selected user is unchanged |
| PostsPage.Page.HandleSearch | src/app/posts/page.tsx:35-37 | the selected user becomes the given id and the stall state is unchanged |
| PostsPage.Page.HandleDismissSlowConnection | src/app/posts/page.tsx:39-41 | the stall fields become `Dismiss` of those before; the selected user is unchanged |
| PostsPage.Render | src/app/posts/page.tsx:60-124 | the grid and the count line appear iff not loading, no error and posts exist; the empty state appears iff not loading, no error and no posts, naming the user iff the id is truthy; the banners follow the flags; "Updating..." shows iff validating and not loading; the grid holds the posts |
| PostsPage.ListingIsExclusive | src/app/posts/page.tsx:81-106 | the grid and the empty state never appear together, and exactly one of them appears iff neither banner does |
| PostsPage.CountTextWording | src/app/posts/page.tsx:111-112 | "post" for one post and "posts" otherwise; " for user ID k" follows iff the id is truthy; an id of 0 leaves a stray "0" |
| PostsPage.CountTextReportsCount | src/app/posts/page.tsx:111 | the number after "Showing " reads back as the number of posts |

## Left out

- SWR itself is not modelled: fetching, caching, deduplication, retries, revalidation on focus or reconnect, and `mutate`. Its answer enters as a `SwrResponse` value.
- The `fetch` and JSON decoding in `fetcher` are not modelled (network I/O), and neither is the `console.error` log.
- React's scheduling and batching are not modelled. Effects run within the event that triggers them, and timers are deadlines on a virtual clock.
- Markup, styling, `PostCard`, and `SlowConnectionNotification` are not modelled. The notice is a flag in the view.
- The input's `type="number"` keystroke filter and its `disabled={isLoading}` state are not modelled. The text is any string.
- SearchInput.Component.Clear: it may be called with an empty text, although the button is rendered only for a non-empty text.
- JsParseInt.ParseInt: values are unbounded integers. Numbers beyond 2^53 would be rounded in JavaScript, and that rounding is not modelled. "-0" reads as 0; it fails the `> 0` test either way. A numeral of about 309 digits or more is Infinity in JavaScript: it passes the `> 0` test and would put "?userId=Infinity" in the URL, whereas the model reads the exact integer and writes its digits.
- Decimal.IntToDecimal: writes every integer in plain digits. JavaScript switches to exponent notation at 10^21; post counts and user ids never come near that.
- PostsPage: the page keeps only the truthiness of `isError`. A new error object replacing an old one re-runs the stall effect, but it then only lowers a notice that is already down.
