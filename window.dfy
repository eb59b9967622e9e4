/**
  The main window's own state and the operations that change it: fetching
  channels and programmes (from the cache or the network), switching between
  the day's programmes and the search results, debounced refreshes and the
  search box.

  The resource cache, the network client and the clock are not modelled:
  what the cache returns, whether the credentials are valid and the current
  time are parameters, and the requests handed to the network client are
  appended to `requests`.
 */
module Window {
  import opened Guide
  import Freshness
  import SearchHistory

  /**
    What a scroll of the programme table consults besides the window:
    `defaultRow` is the table model's default programme row (-1 when it has
    none), `posterVisible` the stored setting, and `cachedPosters` the ids
    of the programmes whose posters the cache holds.
   */
  datatype Scroll = Scroll(defaultRow: int, posterVisible: bool, cachedPosters: set<int>)

  /** A cache miss with no programmes, for fetches that only show search results. */
  const NoLookup := ProgrammeLookup([], false, 0)
  /** A scroll with no default row, for the same fetches. */
  const NoScroll := Scroll(-1, false, {})

  /** The programme scrolling `programmes` selects, if any. */
  function Selected(programmes: seq<Programme>, s: Scroll): Option<Programme>
    requires s.defaultRow < |programmes|
  {
    if s.defaultRow < 0 then None else Some(programmes[s.defaultRow])
  }

  /** The current programme id after scrolling `programmes`: -1 when no row is selected. */
  function SelectedId(programmes: seq<Programme>, s: Scroll): int
    requires s.defaultRow < |programmes|
  {
    match Selected(programmes, s)
    case None => -1
    case Some(p) => p.id
  }

  /** The poster requests selecting the default row of `programmes` sends. */
  function PosterRequests(programmes: seq<Programme>, s: Scroll): seq<Request>
    requires s.defaultRow < |programmes|
  {
    match Selected(programmes, s)
    case None => []
    case Some(p) => if Freshness.SelectPoster(p, s.posterVisible, p.id in s.cachedPosters).request then [PosterRequest(p.id)] else []
  }

  /**
    Scrolling requests at most one poster, that of the selected programme,
    and does so exactly when that programme has a poster, posters are
    visible and the cache does not hold it.
   */
  lemma ScrollPosterRule(programmes: seq<Programme>, s: Scroll)
    requires s.defaultRow < |programmes|
    ensures var r := PosterRequests(programmes, s);
            && (r == [] || r == [PosterRequest(SelectedId(programmes, s))])
            && (r != [] <==> && 0 <= s.defaultRow
                             && var p := programmes[s.defaultRow];
                                Freshness.HasPoster(p) && s.posterVisible && p.id !in s.cachedPosters)
  {
    if 0 <= s.defaultRow {
      var p := programmes[s.defaultRow];
      Freshness.PosterRule(p, s.posterVisible, p.id in s.cachedPosters);
    }
  }

  class MainWindow {
    /** The phrases offered by the search box, most recent first. */
    var searchHistory: seq<string>
    /** The phrase of the last search sent to the network. */
    var searchPhrase: string
    var searchResultsVisible: bool
    /** The results of the last search, as received so far. */
    var searchResults: seq<Programme>
    /** When the last refresh went ahead (seconds); `None` before the first one. */
    var lastRefreshTime: Option<int>
    var currentChannelId: int
    var currentDate: Date
    /** The id of the selected programme; -1 when none is selected. */
    var currentProgrammeId: int
    var channels: seq<Channel>
    /** The rows of the programme table. */
    var shown: seq<Programme>
    /** The requests handed to the network client, oldest first. */
    var requests: seq<Request>

    /**
      A new window: no channel, today's date, the stored search history as it
      was saved, the programme list shown rather than search results.
     */
    constructor (storedHistory: seq<string>, today: Date)
      ensures searchHistory == storedHistory && currentDate == today
      ensures currentChannelId == -1 && currentProgrammeId == -1
      ensures !searchResultsVisible && lastRefreshTime == None
      ensures searchPhrase == [] && searchResults == [] && channels == [] && shown == [] && requests == []
    {
      searchHistory := storedHistory;
      searchPhrase := [];
      searchResultsVisible := false;
      searchResults := [];
      lastRefreshTime := None;
      currentChannelId := -1;
      currentDate := today;
      currentProgrammeId := -1;
      channels := [];
      shown := [];
      requests := [];
    }

    /**
      Shows the cached channels when the cache has them and no refresh was
      asked for; otherwise requests them when the credentials are valid.
     */
    method FetchChannels(refresh: bool, lookup: ChannelLookup, credentialsValid: bool)
      modifies this
      ensures var source := Freshness.ChannelSource(lookup, refresh, credentialsValid);
              && channels == (if source == Freshness.FromCache then lookup.channels else old(channels))
              && requests == (if source == Freshness.FromNetwork then old(requests) + [ChannelRequest] else old(requests))
      ensures searchHistory == old(searchHistory) && searchPhrase == old(searchPhrase)
      ensures searchResultsVisible == old(searchResultsVisible) && searchResults == old(searchResults)
      ensures lastRefreshTime == old(lastRefreshTime) && currentChannelId == old(currentChannelId)
      ensures currentDate == old(currentDate) && currentProgrammeId == old(currentProgrammeId) && shown == old(shown)
    {
      if lookup.ok && !refresh {
        channels := lookup.channels;
        return;
      }
      if credentialsValid {
        requests := requests + [ChannelRequest];
      }
    }

    /**
      Shows the programmes of a channel on a day. Without a channel or a date
      nothing happens. A cached non-empty list is shown when no refresh was
      asked for or it is younger than 30 minutes; showing it makes the channel
      and day current, hides the search results and scrolls to the default
      row. Otherwise the list is requested when the credentials are valid.
      `lookup` is what the cache holds for the channel and day, `scroll` what
      scrolling that list consults.
     */
    method FetchProgrammes(channelId: int, date: Date, refresh: bool, lookup: ProgrammeLookup, scroll: Scroll,
                           credentialsValid: bool)
      requires scroll.defaultRow < |lookup.programmes|
      modifies this
      decreases if searchResultsVisible then 1 else 0, 1
      ensures var source := Freshness.ProgrammeSource(channelId, date, lookup, refresh, credentialsValid);
              && (source == Freshness.FromCache ==>
                    && currentChannelId == channelId && currentDate == date
                    && shown == lookup.programmes && !searchResultsVisible
                    && currentProgrammeId == SelectedId(lookup.programmes, scroll)
                    // Hiding the results scrolls the same list once before.
                    && requests == old(requests) + (if old(searchResultsVisible)
                                                    then PosterRequests(lookup.programmes, scroll) + PosterRequests(lookup.programmes, scroll)
                                                    else PosterRequests(lookup.programmes, scroll)))
              && (source != Freshness.FromCache ==>
                    && currentChannelId == old(currentChannelId) && currentDate == old(currentDate)
                    && shown == old(shown) && searchResultsVisible == old(searchResultsVisible)
                    && currentProgrammeId == old(currentProgrammeId)
                    && requests == (if source == Freshness.FromNetwork then old(requests) + [ProgrammeRequest(channelId, date)]
                                    else old(requests)))
      ensures searchHistory == old(searchHistory) && searchPhrase == old(searchPhrase)
      ensures searchResults == old(searchResults) && lastRefreshTime == old(lastRefreshTime) && channels == old(channels)
    {
      if channelId < 0 || date.IsNull() {
        return;
      }
      var ok := lookup.ok;
      if lookup.programmes == [] {
        ok := false;
      }
      if ok && (!refresh || lookup.age < Freshness.MaxRefreshAge) {
        currentChannelId := channelId;
        currentDate := date;
        if searchResultsVisible {
          // Hiding the results fetches the current day again; the cache still
          // holds the same list for it.
          ToggleSearchResults(lookup, scroll, credentialsValid);
        }
        shown := lookup.programmes;
        ScrollProgrammes(scroll);
        return;
      }
      if credentialsValid {
        requests := requests + [ProgrammeRequest(channelId, date)];
      }
    }

    /**
      Selecting the table row holding `p`: it becomes the current programme,
      and its poster is requested when it has one, posters are visible and
      the cache does not hold it.
     */
    method ProgrammeSelectionChanged(p: Programme, posterVisible: bool, cachedPosters: set<int>)
      modifies this
      ensures currentProgrammeId == p.id
      ensures requests == old(requests) + (if Freshness.HasPoster(p) && posterVisible && p.id !in cachedPosters
                                           then [PosterRequest(p.id)] else [])
      ensures searchHistory == old(searchHistory) && searchPhrase == old(searchPhrase)
      ensures searchResultsVisible == old(searchResultsVisible) && searchResults == old(searchResults)
      ensures lastRefreshTime == old(lastRefreshTime) && channels == old(channels) && shown == old(shown)
      ensures currentChannelId == old(currentChannelId) && currentDate == old(currentDate)
    {
      currentProgrammeId := p.id;
      var outcome := Freshness.SelectPoster(p, posterVisible, p.id in cachedPosters);
      Freshness.PosterRule(p, posterVisible, p.id in cachedPosters);
      if outcome.request {
        requests := requests + [PosterRequest(p.id)];
      }
    }

    /**
      Scrolls the table to its default row and selects it, which makes its
      programme current; with no default row nothing is selected.
     */
    method ScrollProgrammes(scroll: Scroll)
      requires scroll.defaultRow < |shown|
      modifies this
      ensures currentProgrammeId == SelectedId(old(shown), scroll)
      ensures requests == old(requests) + PosterRequests(old(shown), scroll)
      ensures searchHistory == old(searchHistory) && searchPhrase == old(searchPhrase)
      ensures searchResultsVisible == old(searchResultsVisible) && searchResults == old(searchResults)
      ensures lastRefreshTime == old(lastRefreshTime) && channels == old(channels) && shown == old(shown)
      ensures currentChannelId == old(currentChannelId) && currentDate == old(currentDate)
    {
      if scroll.defaultRow < 0 {
        currentProgrammeId := -1;
      } else {
        ProgrammeSelectionChanged(shown[scroll.defaultRow], scroll.posterVisible, scroll.cachedPosters);
      }
    }

    /**
      Switches between the search results and the day's programmes, and
      deselects the programme. Showing the results puts the stored results in
      the table. Hiding them empties the table and fetches the current
      channel's programmes for the current day again, without a refresh;
      `lookup` is what the cache holds for them and `scroll` what scrolling
      them consults.
     */
    method ToggleSearchResults(lookup: ProgrammeLookup, scroll: Scroll, credentialsValid: bool)
      requires scroll.defaultRow < |lookup.programmes|
      modifies this
      decreases if searchResultsVisible then 1 else 0, 0
      ensures searchResultsVisible == !old(searchResultsVisible)
      ensures searchResultsVisible ==> shown == searchResults && currentProgrammeId == -1 && requests == old(requests)
      ensures !searchResultsVisible ==>
                var source := Freshness.ProgrammeSource(old(currentChannelId), old(currentDate), lookup, false, credentialsValid);
                && shown == (if source == Freshness.FromCache then lookup.programmes else [])
                && currentProgrammeId == (if source == Freshness.FromCache then SelectedId(lookup.programmes, scroll) else -1)
                && requests == old(requests) + (if source == Freshness.FromCache then PosterRequests(lookup.programmes, scroll)
                                                else if source == Freshness.FromNetwork
                                                then [ProgrammeRequest(old(currentChannelId), old(currentDate))]
                                                else [])
      ensures currentChannelId == old(currentChannelId) && currentDate == old(currentDate)
      ensures searchHistory == old(searchHistory) && searchPhrase == old(searchPhrase)
      ensures searchResults == old(searchResults) && lastRefreshTime == old(lastRefreshTime) && channels == old(channels)
    {
      searchResultsVisible := !searchResultsVisible;
      currentProgrammeId := -1;
      if searchResultsVisible {
        shown := searchResults;
      } else {
        shown := [];
        FetchProgrammes(currentChannelId, currentDate, false, lookup, scroll, credentialsValid);
      }
    }

    /**
      Sends a search for `phrase` when the credentials are valid: the phrase
      becomes the current one, the old results are dropped and the (now
      empty) results are shown.
     */
    method FetchSearchResults(phrase: string, credentialsValid: bool)
      modifies this
      ensures credentialsValid ==>
                && requests == old(requests) + [SearchRequest(phrase)]
                && searchPhrase == phrase && searchResults == [] && searchResultsVisible
                && shown == (if old(searchResultsVisible) then old(shown) else [])
                && currentProgrammeId == (if old(searchResultsVisible) then old(currentProgrammeId) else -1)
      ensures !credentialsValid ==>
                && requests == old(requests) && searchPhrase == old(searchPhrase) && searchResults == old(searchResults)
                && searchResultsVisible == old(searchResultsVisible) && shown == old(shown)
                && currentProgrammeId == old(currentProgrammeId)
      ensures searchHistory == old(searchHistory) && lastRefreshTime == old(lastRefreshTime) && channels == old(channels)
      ensures currentChannelId == old(currentChannelId) && currentDate == old(currentDate)
    {
      if !credentialsValid {
        return;
      }
      requests := requests + [SearchRequest(phrase)];
      searchPhrase := phrase;
      searchResults := [];
      if !searchResultsVisible {
        ToggleSearchResults(NoLookup, NoScroll, credentialsValid);
      }
    }

    /**
      A refresh at time `now`: ignored, changing nothing, within three seconds
      of the last accepted one; otherwise it is recorded and repeats the
      current search when the results are shown, or fetches the current day
      with a refresh. `lookup` is what the cache holds for the current day and
      `scroll` what scrolling it consults.
     */
    method RefreshProgrammes(now: int, lookup: ProgrammeLookup, scroll: Scroll, credentialsValid: bool)
      requires scroll.defaultRow < |lookup.programmes|
      modifies this
      ensures lastRefreshTime == Freshness.AfterRefresh(old(lastRefreshTime), now)
      ensures !Freshness.RefreshAccepted(old(lastRefreshTime), now) ==>
                && requests == old(requests)
                && searchPhrase == old(searchPhrase) && searchResults == old(searchResults)
                && searchResultsVisible == old(searchResultsVisible) && shown == old(shown)
                && currentProgrammeId == old(currentProgrammeId)
      ensures Freshness.RefreshAccepted(old(lastRefreshTime), now) && old(searchResultsVisible) ==>
                && searchResultsVisible && searchPhrase == old(searchPhrase)
                && shown == old(shown) && currentProgrammeId == old(currentProgrammeId)
                && requests == old(requests) + (if credentialsValid then [SearchRequest(old(searchPhrase))] else [])
                && searchResults == (if credentialsValid then [] else old(searchResults))
      ensures Freshness.RefreshAccepted(old(lastRefreshTime), now) && !old(searchResultsVisible) ==>
                var source := Freshness.ProgrammeSource(old(currentChannelId), old(currentDate), lookup, true, credentialsValid);
                && !searchResultsVisible && searchPhrase == old(searchPhrase) && searchResults == old(searchResults)
                && shown == (if source == Freshness.FromCache then lookup.programmes else old(shown))
                && currentProgrammeId == (if source == Freshness.FromCache then SelectedId(lookup.programmes, scroll)
                                          else old(currentProgrammeId))
                && requests == old(requests) + (if source == Freshness.FromCache then PosterRequests(lookup.programmes, scroll)
                                                else if source == Freshness.FromNetwork
                                                then [ProgrammeRequest(old(currentChannelId), old(currentDate))]
                                                else [])
      ensures searchHistory == old(searchHistory) && channels == old(channels)
      ensures currentChannelId == old(currentChannelId) && currentDate == old(currentDate)
    {
      if !Freshness.RefreshAccepted(lastRefreshTime, now) {
        return;
      }
      lastRefreshTime := Some(now);
      if searchResultsVisible {
        FetchSearchResults(searchPhrase, credentialsValid);
      } else {
        FetchProgrammes(currentChannelId, currentDate, true, lookup, scroll, credentialsValid);
      }
    }

    /**
      Puts `phrase` at the head of the search history: every earlier copy is
      removed and the oldest entries beyond ten are dropped.
     */
    method RememberPhrase(phrase: string)
      modifies this
      ensures searchHistory == SearchHistory.Updated(old(searchHistory), phrase)
      ensures searchPhrase == old(searchPhrase) && searchResults == old(searchResults)
      ensures searchResultsVisible == old(searchResultsVisible) && shown == old(shown) && requests == old(requests)
      ensures lastRefreshTime == old(lastRefreshTime) && channels == old(channels)
      ensures currentChannelId == old(currentChannelId) && currentDate == old(currentDate)
      ensures currentProgrammeId == old(currentProgrammeId)
    {
      var h := SearchHistory.RemoveAll(searchHistory, phrase);
      ghost var full := [phrase] + h;
      h := [phrase] + h;
      while |h| > SearchHistory.MaxHistory
        invariant |h| <= |full| && h == full[..|h|]
        invariant |h| >= SearchHistory.MaxHistory || h == full
      {
        h := h[..|h| - 1];
      }
      searchHistory := h;
    }

    /**
      The search box: the entered text, trimmed, goes to the head of the
      history. A phrase other than the current one is searched for. The
      current phrase shows the results if they are hidden and refreshes them,
      subject to the refresh debounce. Only search results are shown on the
      way, so the cache's programme lists are never consulted.
     */
    method Search(text: string, now: int, credentialsValid: bool)
      modifies this
      ensures searchHistory == SearchHistory.Updated(old(searchHistory), SearchHistory.Trimmed(text))
      ensures SearchHistory.Trimmed(text) != old(searchPhrase) && credentialsValid ==>
                && requests == old(requests) + [SearchRequest(SearchHistory.Trimmed(text))]
                && searchPhrase == SearchHistory.Trimmed(text) && searchResults == [] && searchResultsVisible
                && shown == (if old(searchResultsVisible) then old(shown) else [])
                && currentProgrammeId == (if old(searchResultsVisible) then old(currentProgrammeId) else -1)
                && lastRefreshTime == old(lastRefreshTime)
      ensures SearchHistory.Trimmed(text) != old(searchPhrase) && !credentialsValid ==>
                && requests == old(requests) && searchPhrase == old(searchPhrase) && searchResults == old(searchResults)
                && searchResultsVisible == old(searchResultsVisible) && shown == old(shown)
                && currentProgrammeId == old(currentProgrammeId) && lastRefreshTime == old(lastRefreshTime)
      ensures SearchHistory.Trimmed(text) == old(searchPhrase) ==>
                var sent := Freshness.RefreshAccepted(old(lastRefreshTime), now) && credentialsValid;
                && searchResultsVisible && searchPhrase == old(searchPhrase)
                && shown == (if old(searchResultsVisible) then old(shown) else old(searchResults))
                && currentProgrammeId == (if old(searchResultsVisible) then old(currentProgrammeId) else -1)
                && lastRefreshTime == Freshness.AfterRefresh(old(lastRefreshTime), now)
                && requests == old(requests) + (if sent then [SearchRequest(old(searchPhrase))] else [])
                && searchResults == (if sent then [] else old(searchResults))
      ensures channels == old(channels) && currentChannelId == old(currentChannelId) && currentDate == old(currentDate)
    {
      var phrase := SearchHistory.Trimmed(text);
      RememberPhrase(phrase);
      if phrase == searchPhrase {
        if !searchResultsVisible {
          ToggleSearchResults(NoLookup, NoScroll, credentialsValid);
        }
        RefreshProgrammes(now, NoLookup, NoScroll, credentialsValid);
      } else {
        FetchSearchResults(phrase, credentialsValid);
      }
    }
  }
}
