/**
  The main window's decisions between the resource cache and the network:
  when cached channels and programmes are good enough, when a request goes
  out, how manual refreshes are debounced, and when a poster is shown or
  fetched.
 */
module Freshness {
  import opened Guide

  /** A forced refresh still accepts a cached programme list younger than this many minutes. */
  const MaxRefreshAge: int := 30

  /** A refresh within this many seconds of the last accepted one is ignored. */
  const RefreshInterval: int := 3

  /** Bit of `Programme.flags` that marks a programme without a poster. */
  const NoPosterFlag: bv32 := 0x08

  /** Where a fetch gets its data from. */
  datatype Source =
    | Ignored      // the request names no channel or no date: nothing happens
    | FromCache    // the cached list is shown
    | FromNetwork  // a request is sent to the network client
    | Unavailable  // a cache miss without valid credentials: nothing is shown or sent

  /** `fetchChannels`: the cache is used unless a refresh was asked for. */
  function ChannelSource(lookup: ChannelLookup, refresh: bool, credentialsValid: bool): Source
  {
    if lookup.ok && !refresh then FromCache
    else if credentialsValid then FromNetwork
    else Unavailable
  }

  /** An empty cached programme list counts as a miss. */
  predicate ProgrammeHit(lookup: ProgrammeLookup)
  {
    lookup.ok && |lookup.programmes| > 0
  }

  /**
    `fetchProgrammes`: nothing without a channel and a date; otherwise the
    cached list when it is a hit and either no refresh was asked for or it is
    younger than the refresh threshold; otherwise a network request when the
    credentials are valid.
   */
  function ProgrammeSource(channelId: int, date: Date, lookup: ProgrammeLookup,
                           refresh: bool, credentialsValid: bool): Source
  {
    if channelId < 0 || date.IsNull() then Ignored
    else if ProgrammeHit(lookup) && (!refresh || lookup.age < MaxRefreshAge) then FromCache
    else if credentialsValid then FromNetwork
    else Unavailable
  }

  /** The channel rule: cached channels are used exactly when found and not refreshing. */
  lemma ChannelRule(lookup: ChannelLookup, refresh: bool, credentialsValid: bool)
    ensures var r := ChannelSource(lookup, refresh, credentialsValid);
            && (r == FromCache <==> lookup.ok && !refresh)
            && (r == FromNetwork <==> !(lookup.ok && !refresh) && credentialsValid)
            && r != Ignored
  {
  }

  /**
    The programme rule: with a channel and a date, the cache is used exactly
    when it holds a non-empty list that is fresh enough for the request, and
    the network is asked exactly when it does not and the credentials are
    valid.
   */
  lemma ProgrammeRule(channelId: int, date: Date, lookup: ProgrammeLookup, refresh: bool, credentialsValid: bool)
    ensures var r := ProgrammeSource(channelId, date, lookup, refresh, credentialsValid);
            && (r == Ignored <==> channelId < 0 || date == NullDate)
            && (r == FromCache <==> channelId >= 0 && date != NullDate
                                    && lookup.ok && lookup.programmes != [] && (!refresh || lookup.age < MaxRefreshAge))
            && (r == FromNetwork <==> channelId >= 0 && date != NullDate && credentialsValid
                                      && !(lookup.ok && lookup.programmes != [] && (!refresh || lookup.age < MaxRefreshAge)))
  {
  }

  /** A refresh never shows a cached list that is 30 minutes old or older. */
  lemma RefreshRejectsStale(channelId: int, date: Date, lookup: ProgrammeLookup, credentialsValid: bool)
    requires lookup.age >= MaxRefreshAge
    ensures ProgrammeSource(channelId, date, lookup, true, credentialsValid) != FromCache
  {
  }

  /** Whatever a refresh takes from the cache, a plain fetch takes from it too. */
  lemma RefreshOnlyNarrowsCache(channelId: int, date: Date, lookup: ProgrammeLookup, credentialsValid: bool)
    ensures ProgrammeSource(channelId, date, lookup, true, credentialsValid) == FromCache
            ==> ProgrammeSource(channelId, date, lookup, false, credentialsValid) == FromCache
  {
  }

  /** A request is sent only with valid credentials, for channels and programmes alike. */
  lemma NetworkNeedsCredentials(channelId: int, date: Date, p: ProgrammeLookup, c: ChannelLookup, refresh: bool)
    ensures ProgrammeSource(channelId, date, p, refresh, false) != FromNetwork
    ensures ChannelSource(c, refresh, false) != FromNetwork
  {
  }

  /**
    The staleness examples: a list updated 40 minutes ago is fetched again on
    a refresh, one updated 10 minutes ago is not.
   */
  lemma StalenessExamples(channelId: int, day: int, programmes: seq<Programme>)
    requires channelId >= 0 && programmes != []
    ensures ProgrammeSource(channelId, Day(day), ProgrammeLookup(programmes, true, 40), true, true) == FromNetwork
    ensures ProgrammeSource(channelId, Day(day), ProgrammeLookup(programmes, true, 10), true, true) == FromCache
  {
  }

  // ---------------------------------------------------------------------------
  // Refresh debounce (refreshProgrammes)
  // ---------------------------------------------------------------------------

  /**
    Whether a refresh at `now` (seconds) goes ahead after the last accepted
    one. `None` is the null time of a window that has not refreshed yet,
    which is any number of seconds away from a real time.
   */
  predicate RefreshAccepted(last: Option<int>, now: int)
  {
    match last
    case None => true
    case Some(t) => now - t >= RefreshInterval
  }

  /** The last accepted refresh time after an attempt at `now`: `now` when it goes ahead. */
  function AfterRefresh(last: Option<int>, now: int): (r: Option<int>)
    ensures r == last || r == Some(now)
  {
    if RefreshAccepted(last, now) then Some(now) else last
  }

  /** The last accepted refresh time after attempts at each of `times`, in order. */
  function LastAccepted(last: Option<int>, times: seq<int>): Option<int>
  {
    if times == [] then last
    else AfterRefresh(LastAccepted(last, times[..|times| - 1]), times[|times| - 1])
  }

  /** Whether the attempt at `times[i]` goes ahead, after the attempts before it. */
  predicate AcceptedAt(last: Option<int>, times: seq<int>, i: int)
    requires 0 <= i < |times|
  {
    RefreshAccepted(LastAccepted(last, times[..i]), times[i])
  }

  /** Until the next accepted attempt, the last accepted time stays that of attempt `i`. */
  lemma {:induction false} LastAcceptedSince(last: Option<int>, times: seq<int>, i: int, j: int)
    requires 0 <= i < j <= |times|
    requires AcceptedAt(last, times, i)
    requires forall k :: i < k < j ==> !AcceptedAt(last, times, k)
    ensures LastAccepted(last, times[..j]) == Some(times[i])
  {
    assert times[..j][..j - 1] == times[..j - 1];
    if j > i + 1 {
      LastAcceptedSince(last, times, i, j - 1);
      assert !AcceptedAt(last, times, j - 1);
    }
  }

  /**
    The debounce over a run of refresh attempts: after an accepted attempt,
    a later one, with none accepted in between, goes ahead exactly when it
    comes at least three seconds after the accepted one. So consecutive
    accepted refreshes are at least three seconds apart, and every ignored
    one falls within three seconds of the last accepted one.
   */
  lemma DebounceSpacing(last: Option<int>, times: seq<int>, i: int, j: int)
    requires 0 <= i < j < |times|
    requires AcceptedAt(last, times, i)
    requires forall k :: i < k < j ==> !AcceptedAt(last, times, k)
    ensures AcceptedAt(last, times, j) <==> times[j] - times[i] >= RefreshInterval
  {
    LastAcceptedSince(last, times, i, j);
  }

  /** Attempt `i` is the last accepted one before attempt `j`. */
  predicate LatestBefore(last: Option<int>, times: seq<int>, i: int, j: int)
    requires 0 <= j <= |times|
  {
    0 <= i < j && AcceptedAt(last, times, i) && forall k :: i < k < j ==> !AcceptedAt(last, times, k)
  }

  /** In a window that has not refreshed yet, the first attempt goes ahead. */
  lemma FirstRefreshAccepted(times: seq<int>)
    requires |times| > 0
    ensures AcceptedAt(None, times, 0)
  {
    assert times[..0] == [];
  }

  /**
    In a window that has not refreshed yet, every attempt after the first
    has a last accepted one before it.
   */
  lemma {:induction false} LatestAccepted(times: seq<int>, j: int)
    requires 0 < j <= |times|
    ensures exists i :: LatestBefore(None, times, i, j)
  {
    if j == 1 {
      FirstRefreshAccepted(times);
      assert LatestBefore(None, times, 0, 1);
    } else if AcceptedAt(None, times, j - 1) {
      assert LatestBefore(None, times, j - 1, j);
    } else {
      LatestAccepted(times, j - 1);
      var i :| LatestBefore(None, times, i, j - 1);
      assert LatestBefore(None, times, i, j);
    }
  }

  /**
    The debounce test exactly as written, `secsTo(now) < 3` meaning
    "ignore": `secsFromNull(now)` is what `QDateTime::secsTo` yields from the
    null date-time the last refresh time starts as.
   */
  predicate RefreshAcceptedAsWritten(last: Option<int>, now: int, secsFromNull: int -> int)
  {
    match last
    case None => secsFromNull(now) >= RefreshInterval
    case Some(t) => now - t >= RefreshInterval
  }

  /** The last accepted time after `times`, under the test as written. */
  function LastAcceptedAsWritten(last: Option<int>, times: seq<int>, secsFromNull: int -> int): Option<int>
  {
    if times == [] then last
    else
      var prev := LastAcceptedAsWritten(last, times[..|times| - 1], secsFromNull);
      if RefreshAcceptedAsWritten(prev, times[|times| - 1], secsFromNull) then Some(times[|times| - 1]) else prev
  }

  /**
    When the null time lies fewer than three seconds before every attempt,
    no refresh of a new window ever goes ahead: the last refresh time stays
    null whatever the attempts.
   */
  lemma {:induction false} NullTimeBlocksRefresh(times: seq<int>, secsFromNull: int -> int)
    requires forall k :: 0 <= k < |times| ==> secsFromNull(times[k]) < RefreshInterval
    ensures LastAcceptedAsWritten(None, times, secsFromNull) == None
  {
    if times != [] {
      var front := times[..|times| - 1];
      assert forall k :: 0 <= k < |front| ==> front[k] == times[k];
      NullTimeBlocksRefresh(front, secsFromNull);
    }
  }

  /** `x` as a 32-bit two's-complement `int`. */
  function Int32(x: int): (r: int)
    ensures -0x8000_0000 <= r < 0x8000_0000
    ensures (x - r) % 0x1_0000_0000 == 0
  {
    var m := x % 0x1_0000_0000;
    if m >= 0x8000_0000 then m - 0x1_0000_0000 else m
  }

  /**
    Qt 4's `QDateTime::secsTo` from the null date-time (day 0 at midnight)
    to `secs` past midnight on Julian day `julianDay`: the day difference
    times 86400 plus the seconds, in 32-bit `int` arithmetic.
   */
  function Qt4SecsFromNull(julianDay: int, secs: int): int
  {
    Int32(Int32(julianDay * 86400) + secs)
  }

  /**
    On 15 October 2026 (Julian day 2461329) the product overflows to a
    negative count at every second of the day, so every refresh attempt
    that day finds the null time "less than three seconds" ago.
   */
  lemma Qt4NullTimeNegative(secs: int)
    requires 0 <= secs < 86400
    ensures Qt4SecsFromNull(2461329, secs) < 0
  {
    assert Int32(2461329 * 86400) == -2089539200;
    var sum := -2089539200 + secs;
    assert sum % 0x1_0000_0000 == sum + 0x1_0000_0000;
  }

  /**
    A window built with Qt 4 that has not refreshed yet ignores every
    refresh attempted on 15 October 2026 (`times` are seconds past
    midnight that day).
   */
  lemma Qt4RefreshBlockedAllDay(times: seq<int>)
    requires forall k :: 0 <= k < |times| ==> 0 <= times[k] < 86400
    ensures LastAcceptedAsWritten(None, times, t => Qt4SecsFromNull(2461329, t)) == None
  {
    var f := t => Qt4SecsFromNull(2461329, t);
    forall k | 0 <= k < |times|
      ensures f(times[k]) < RefreshInterval
    {
      Qt4NullTimeNegative(times[k]);
    }
    NullTimeBlocksRefresh(times, f);
  }

  // ---------------------------------------------------------------------------
  // Posters (programmeSelectionChanged and updateDescription)
  // ---------------------------------------------------------------------------

  /** A programme can have a poster: it is a real programme without the no-poster flag. */
  predicate HasPoster(p: Programme)
  {
    p.id >= 0 && p.flags & NoPosterFlag == 0
  }

  /** What selecting a programme does about its poster. */
  datatype PosterOutcome = PosterOutcome(placeholder: bool, request: bool)

  /**
    The placeholder image is used when the programme has no poster, posters
    are hidden, or the poster is not cached; in the last case, and only then,
    the poster is requested from the network. The cache is consulted only
    after the first three conditions pass.
   */
  function SelectPoster(p: Programme, posterVisible: bool, cached: bool): PosterOutcome
  {
    if p.id < 0 || p.flags & NoPosterFlag > 0 || !posterVisible then PosterOutcome(true, false)
    else if !cached then PosterOutcome(true, true)
    else PosterOutcome(false, false)
  }

  /**
    The real poster is shown exactly when the programme has one, posters are
    visible and the cache holds it; a request goes out exactly when the
    programme has one, posters are visible and the cache misses.
   */
  lemma PosterRule(p: Programme, posterVisible: bool, cached: bool)
    ensures var o := SelectPoster(p, posterVisible, cached);
            && (!o.placeholder <==> HasPoster(p) && posterVisible && cached)
            && (o.request <==> HasPoster(p) && posterVisible && !cached)
  {
    assert p.flags & NoPosterFlag > 0 <==> p.flags & NoPosterFlag != 0;
  }

  /** An image the description can embed. */
  datatype Image = PlaceholderImage | PosterImage(programmeId: int)

  /**
    The image `updateDescription` embeds for programme `p`: none unless the
    programme is real and not flagged, otherwise whatever selecting it left
    in place, the placeholder or the programme's poster.
   */
  function DescriptionImage(p: Programme, posterVisible: bool, cached: bool): Option<Image>
  {
    if p.id >= 0 && p.flags & NoPosterFlag == 0 then
      Some(if SelectPoster(p, posterVisible, cached).placeholder then PlaceholderImage else PosterImage(p.id))
    else None
  }

  /**
    The description embeds an image exactly when the programme has a
    poster, whether or not posters are visible; with posters hidden that
    image is the placeholder, and it is the poster itself exactly when
    posters are visible and the cache holds it.
   */
  lemma DescriptionRule(p: Programme, posterVisible: bool, cached: bool)
    ensures var img := DescriptionImage(p, posterVisible, cached);
            && (img.Some? <==> HasPoster(p))
            && (HasPoster(p) && !posterVisible ==> img == Some(PlaceholderImage))
            && (img == Some(PosterImage(p.id)) <==> HasPoster(p) && posterVisible && cached)
  {
    PosterRule(p, posterVisible, cached);
  }
}
