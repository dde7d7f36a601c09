/** settings-app/app.h: the settings app's navigation state, a history of
    visited pages and the index of the page shown. */
module Settings {
  import opened Base

  datatype Page =
    | Home | Account | Personalization | Applications | System
    | Network | Security | Updates | About

  /** `State`; `historyIndex` is a `usize`. */
  datatype State = State(sidebarOpen: bool, history: seq<Page>, historyIndex: U64)
  {
    /** The index names a page of the history, whose length is a `usize`. */
    ghost predicate Valid()
    {
      historyIndex < |history| <= U64_LIMIT
    }

    /** `page()`: the history entry under the index (`Vec` indexing demands it exists). */
    function Page(): (r: Page)
      requires Valid()
      ensures r in history && r == history[historyIndex]
    {
      history[historyIndex]
    }

    /** `canGoBack()`: some page comes before the current one. */
    function CanGoBack(): (r: bool)
      ensures r <==> historyIndex > 0
    {
      historyIndex > 0
    }

    /** `canGoForward()`: `history.len() - 1` is `usize` arithmetic, so on an
        empty history it wraps to the largest `usize`. */
    function CanGoForward(): (r: bool)
      ensures 0 < |history| <= U64_LIMIT ==> (r <==> historyIndex < |history| - 1)
      ensures |history| == 0 ==> (r <==> historyIndex < U64_LIMIT - 1)
    {
      historyIndex < ToUsize(|history| - 1)
    }
  }

  /** The default `State`: sidebar closed, history `[HOME]`, index 0. */
  function Initial(): (s: State)
    ensures s.Valid() && !s.sidebarOpen
    ensures s.history == [Home] && s.historyIndex == 0
  {
    State(false, [Home], 0)
  }

  /** On a valid state, going forward is possible exactly when a later page
      is recorded and going back exactly when an earlier one is. */
  lemma NavigationWithinHistory(s: State)
    requires s.Valid()
    ensures s.CanGoForward() <==> s.historyIndex + 1 < |s.history|
    ensures s.CanGoBack() <==> 0 <= s.historyIndex - 1 < |s.history|
  {
  }

  /** The initial state shows the home page and allows neither direction. */
  lemma InitialCannotNavigate()
    ensures Initial().Page() == Home
    ensures !Initial().CanGoBack() && !Initial().CanGoForward()
  {
  }

  /** An empty history is not `Valid`, yet `canGoForward` holds at index 0. */
  lemma EmptyHistoryGoesForward()
    ensures State(false, [], 0).CanGoForward()
    ensures !State(false, [], 0).Valid()
  {
  }
}
