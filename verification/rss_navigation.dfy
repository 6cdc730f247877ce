/**
 * The RSS reader's browsing history: the list of loaded feed addresses, the
 * current position in it, the back and forward buttons, the address bar and
 * the current feed title. A load either succeeds (the feed's title is known)
 * or fails; only a successful load touches the history and the buttons.
 */
module RssNavigation {
  import opened Wrappers
  import opened Strings

  /** The server's answer to `/parse-rss`: the parsed feed's title, or an error. */
  datatype FetchResult = Loaded(title: Option<string>) | Failed

  datatype Reader = Reader(
    history: seq<string>,
    index: int,
    backDisabled: bool,
    forwardDisabled: bool,
    address: string,
    feedTitle: string)

  /** The page's state once initialised: empty history at position -1, both buttons disabled. */
  const Start: Reader := Reader([], -1, true, true, "", "")

  /** The position is -1 exactly when the history is empty, and otherwise indexes it; no entry is empty. */
  ghost predicate Valid(r: Reader) {
    && -1 <= r.index < |r.history|
    && (r.index == -1 <==> r.history == [])
    && (forall i :: 0 <= i < |r.history| ==> r.history[i] != "")
  }

  /** The buttons show whether there is somewhere to go. */
  ghost predicate ButtonsAgree(r: Reader) {
    && (r.backDisabled <==> r.index <= 0)
    && (r.forwardDisabled <==> r.index >= |r.history| - 1)
  }

  /** `updateRssNavButtons`. */
  function UpdateButtons(r: Reader): (r': Reader)
    ensures ButtonsAgree(r')
    ensures r'.history == r.history && r'.index == r.index
    ensures r'.address == r.address && r'.feedTitle == r.feedTitle
  {
    r.(backDisabled := r.index <= 0, forwardDisabled := r.index >= |r.history| - 1)
  }

  /** `feed.title || 'Untitled Feed'`. */
  function FeedTitle(title: Option<string>): (t: string)
    ensures t != []
    ensures title.Some? && title.value != [] ==> t == title.value
  {
    if title.Some? && title.value != [] then title.value else "Untitled Feed"
  }

  /**
   * `fetchRss(url, addToHistory)`. An empty address is refused; a failed load
   * changes nothing of the navigation state; a successful one shows the
   * address and title, and with `addToHistory` drops every entry after the
   * current one and appends the address as the new current entry.
   */
  function Fetch(r: Reader, url: string, addToHistory: bool, result: FetchResult): (r': Reader)
    requires -1 <= r.index < |r.history|
    ensures url == "" || result.Failed? ==> r' == r
    ensures url != "" && result.Loaded? ==>
      && ButtonsAgree(r')
      && r'.address == url && r'.feedTitle == FeedTitle(result.title)
      && (addToHistory ==> r'.history == r.history[..r.index + 1] + [url] && r'.index == r.index + 1)
      && (!addToHistory ==> r'.history == r.history && r'.index == r.index)
  {
    if url == "" then r
    else match result
      case Failed => r
      case Loaded(title) =>
        var shown := r.(address := url, feedTitle := FeedTitle(title));
        if addToHistory then
          UpdateButtons(shown.(history := r.history[..r.index + 1] + [url], index := r.index + 1))
        else UpdateButtons(shown)
  }

  /** The address bar's typed text. */
  function Type(r: Reader, text: string): Reader {
    r.(address := text)
  }

  /** The fetch button or Enter in the address bar: load the trimmed address as a new entry. */
  function Go(r: Reader, result: FetchResult): (r': Reader)
    requires -1 <= r.index < |r.history|
    ensures Trim(r.address) == [] || result.Failed? ==> r' == r
    ensures Trim(r.address) != [] && result.Loaded? ==>
      r'.history == r.history[..r.index + 1] + [Trim(r.address)] && r'.index == r.index + 1
  {
    LoadNewEntry(r, Trim(r.address), result)
  }

  /** `fetchRss(url)` with the default `addToHistory`. */
  function LoadNewEntry(r: Reader, url: string, result: FetchResult): (r': Reader)
    requires -1 <= r.index < |r.history|
    ensures url == [] || result.Failed? ==> r' == r
    ensures url != [] && result.Loaded? ==> r'.history == r.history[..r.index + 1] + [url] && r'.index == r.index + 1
  {
    Fetch(r, url, true, result)
  }

  /** The back button: move one entry back before loading it again, if there is one. */
  function Back(r: Reader, result: FetchResult): (r': Reader)
    requires Valid(r)
    ensures r.index <= 0 ==> r' == r
    ensures r.index > 0 ==> r'.index == r.index - 1 && r'.history == r.history
    ensures r.index > 0 && result.Loaded? ==> r'.address == r.history[r.index - 1] && ButtonsAgree(r')
  {
    if r.index > 0 then
      var moved := r.(index := r.index - 1);
      Fetch(moved, moved.history[moved.index], false, result)
    else r
  }

  /** The forward button: move one entry forward before loading it again, if there is one. */
  function Forward(r: Reader, result: FetchResult): (r': Reader)
    requires Valid(r)
    ensures r.index >= |r.history| - 1 ==> r' == r
    ensures r.index < |r.history| - 1 ==> r'.index == r.index + 1 && r'.history == r.history
    ensures r.index < |r.history| - 1 && result.Loaded? ==> r'.address == r.history[r.index + 1] && ButtonsAgree(r')
  {
    if r.index < |r.history| - 1 then
      var moved := r.(index := r.index + 1);
      Fetch(moved, moved.history[moved.index], false, result)
    else r
  }

  /** The reload button: load the current entry again, if there is one. */
  function Reload(r: Reader, result: FetchResult): (r': Reader)
    requires Valid(r)
    ensures r'.history == r.history && r'.index == r.index
    ensures r.index >= 0 && result.Loaded? ==> r'.address == r.history[r.index]
  {
    if r.index >= 0 then Fetch(r, r.history[r.index], false, result) else r
  }

  // ---------------------------------------------------------------- properties

  lemma StartValid()
    ensures Valid(Start) && ButtonsAgree(Start)
  {
  }

  lemma FetchKeepsValid(r: Reader, url: string, addToHistory: bool, result: FetchResult)
    requires Valid(r)
    ensures Valid(Fetch(r, url, addToHistory, result))
  {
    if url != "" && result.Loaded? && addToHistory {
      var h := r.history[..r.index + 1] + [url];
      assert forall i :: 0 <= i < |h| - 1 ==> h[i] == r.history[i];
    }
  }

  datatype Action = TypeAddress(text: string) | GoTo(result: FetchResult) | GoBack(result: FetchResult)
                  | GoForward(result: FetchResult) | ReloadFeed(result: FetchResult)

  /** One user action. A disabled back or forward button delivers no click, so pressing it does nothing. */
  function Apply(r: Reader, a: Action): Reader
    requires Valid(r)
  {
    match a
    case TypeAddress(t) => Type(r, t)
    case GoTo(res) => Go(r, res)
    case GoBack(res) => if r.backDisabled then r else Back(r, res)
    case GoForward(res) => if r.forwardDisabled then r else Forward(r, res)
    case ReloadFeed(res) => Reload(r, res)
  }

  lemma ApplyKeepsValid(r: Reader, a: Action)
    requires Valid(r)
    ensures Valid(Apply(r, a))
  {
    match a
    case TypeAddress(t) =>
    case GoTo(res) => FetchKeepsValid(r, Trim(r.address), true, res);
    case GoBack(res) =>
      if !r.backDisabled && r.index > 0 {
        var moved := r.(index := r.index - 1);
        FetchKeepsValid(moved, moved.history[moved.index], false, res);
      }
    case GoForward(res) =>
      if !r.forwardDisabled && r.index < |r.history| - 1 {
        var moved := r.(index := r.index + 1);
        FetchKeepsValid(moved, moved.history[moved.index], false, res);
      }
    case ReloadFeed(res) => if r.index >= 0 { FetchKeepsValid(r, r.history[r.index], false, res); }
  }

  /** The position always indexes the history, whatever the user does and however the loads end. */
  function Session(r: Reader, actions: seq<Action>): (r': Reader)
    requires Valid(r)
    ensures Valid(r')
    decreases |actions|
  {
    if actions == [] then r
    else
      ApplyKeepsValid(r, actions[0]);
      Session(Apply(r, actions[0]), actions[1..])
  }

  /** A successful back followed by a successful forward returns to the same entry. */
  lemma BackThenForward(r: Reader, title1: Option<string>, title2: Option<string>)
    requires Valid(r) && r.index > 0
    ensures var b := Back(r, Loaded(title1));
            Valid(b) && Forward(b, Loaded(title2)).index == r.index
            && Forward(b, Loaded(title2)).history == r.history
            && Forward(b, Loaded(title2)).address == r.history[r.index]
  {
    var moved := r.(index := r.index - 1);
    FetchKeepsValid(moved, moved.history[moved.index], false, Loaded(title1));
  }

  /** A successful forward followed by a successful back returns to the same entry. */
  lemma ForwardThenBack(r: Reader, title1: Option<string>, title2: Option<string>)
    requires Valid(r) && r.index < |r.history| - 1
    ensures var f := Forward(r, Loaded(title1));
            Valid(f) && Back(f, Loaded(title2)).index == r.index
            && Back(f, Loaded(title2)).history == r.history
            && Back(f, Loaded(title2)).address == r.history[r.index]
  {
    var moved := r.(index := r.index + 1);
    FetchKeepsValid(moved, moved.history[moved.index], false, Loaded(title1));
  }

  /** Loading a new address after going back discards the entries that were ahead. */
  lemma NewLoadDropsForwardEntries(r: Reader, result: FetchResult)
    requires Valid(r) && Trim(r.address) != [] && result.Loaded?
    ensures var g := Go(r, result);
            && g.history[..r.index + 1] == r.history[..r.index + 1]
            && |g.history| == r.index + 2
            && g.forwardDisabled
  {
    var g := Go(r, result);
    assert g.history == r.history[..r.index + 1] + [Trim(r.address)];
  }

  /**
   * The back and forward buttons change the position before loading, and
   * only a successful load refreshes the buttons: after a failed back the
   * position has moved while the forward button is still disabled.
   */
  lemma FailedBackLeavesButtonsStale(r: Reader)
    requires Valid(r) && ButtonsAgree(r) && r.index > 0 && r.index == |r.history| - 1
    ensures var b := Back(r, Failed);
            b.index == r.index - 1 && b.forwardDisabled && !ButtonsAgree(b)
  {
  }

  /**
   * After the failed back of `FailedBackLeavesButtonsStale`, an entry lies
   * ahead but the forward button is still disabled: pressing it does nothing
   * until another load succeeds.
   */
  lemma StaleForwardIsInert(r: Reader, res: FetchResult)
    requires Valid(r) && ButtonsAgree(r) && r.index > 0 && r.index == |r.history| - 1
    ensures var b := Back(r, Failed);
            Valid(b) && b.index < |b.history| - 1 && Apply(b, GoForward(res)) == b
  {
    var moved := r.(index := r.index - 1);
    FetchKeepsValid(moved, moved.history[moved.index], false, Failed);
  }
}
