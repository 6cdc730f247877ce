/**
 * The RSS reader's bookmarks: the add-bookmark button, which bookmarks the
 * trimmed address under a name the user confirms, and `saveBookmark`, which
 * refuses a second bookmark for an address already saved.
 */
module Bookmarks {
  import opened Wrappers
  import opened Strings
  import opened RssNavigation

  datatype Bookmark = Bookmark(title: string, url: string)

  /** What the user is told. */
  datatype Notice = Added(title: string) | AlreadySaved | EmptyAddress | NoNotice

  datatype Saved = Saved(bookmarks: seq<Bookmark>, notice: Notice)

  /** `bookmarks.some(b => b.url === url)`. */
  predicate HasUrl(bs: seq<Bookmark>, url: string) {
    exists i :: 0 <= i < |bs| && bs[i].url == url
  }

  /** No address is bookmarked twice. */
  ghost predicate UniqueUrls(bs: seq<Bookmark>) {
    forall i, j :: 0 <= i < j < |bs| ==> bs[i].url != bs[j].url
  }

  /** `saveBookmark(title, url)`. */
  function SaveBookmark(bs: seq<Bookmark>, title: string, url: string): (r: Saved)
    ensures HasUrl(bs, url) ==> r == Saved(bs, AlreadySaved)
    ensures !HasUrl(bs, url) ==> r == Saved(bs + [Bookmark(title, url)], Added(title))
    ensures HasUrl(r.bookmarks, url)
    ensures UniqueUrls(bs) ==> UniqueUrls(r.bookmarks)
  {
    if HasUrl(bs, url) then Saved(bs, AlreadySaved)
    else
      var bs' := bs + [Bookmark(title, url)];
      assert bs'[|bs|].url == url;
      Saved(bs', Added(title))
  }

  /** Saving the same address again changes nothing. */
  lemma SaveTwiceIsSaveOnce(bs: seq<Bookmark>, title: string, again: string, url: string)
    ensures SaveBookmark(SaveBookmark(bs, title, url).bookmarks, again, url).bookmarks
            == SaveBookmark(bs, title, url).bookmarks
  {
  }

  /** Saving never loses or reorders a bookmark. */
  lemma SaveKeepsExisting(bs: seq<Bookmark>, title: string, url: string)
    ensures bs <= SaveBookmark(bs, title, url).bookmarks
    ensures |SaveBookmark(bs, title, url).bookmarks| <= |bs| + 1
  {
  }

  /** The name the prompt proposes: `currentFeedTitle || url`. */
  function ProposedTitle(r: Reader, url: string): (t: string)
    ensures r.feedTitle != [] ==> t == r.feedTitle
    ensures r.feedTitle == [] ==> t == url
  {
    if r.feedTitle != [] then r.feedTitle else url
  }

  /**
   * The add-bookmark button. `answer` is the prompt's result: `None` when the
   * user cancels. An empty address is refused; an empty or cancelled name
   * saves nothing.
   */
  function AddBookmark(r: Reader, bs: seq<Bookmark>, answer: Option<string>): (s: Saved)
    ensures Trim(r.address) == [] ==> s == Saved(bs, EmptyAddress)
    ensures Trim(r.address) != [] && (answer.None? || answer.value == []) ==> s == Saved(bs, NoNotice)
    ensures Trim(r.address) != [] && answer.Some? && answer.value != [] ==>
              s == SaveBookmark(bs, answer.value, Trim(r.address))
  {
    var url := Trim(r.address);
    if url != [] then
      if answer.Some? && answer.value != [] then SaveBookmark(bs, answer.value, url)
      else Saved(bs, NoNotice)
    else Saved(bs, EmptyAddress)
  }

  /** A trimmed, non-empty address: no whitespace at either end. */
  predicate Tidy(url: string) {
    url != [] && !IsWhitespace(url[0]) && !IsWhitespace(url[|url| - 1])
  }

  /** Every saved address is tidy, so clicking a bookmark always starts a load of exactly that address. */
  ghost predicate Loadable(bs: seq<Bookmark>) {
    forall i :: 0 <= i < |bs| ==> Tidy(bs[i].url)
  }

  lemma AddBookmarkKeepsInvariants(r: Reader, bs: seq<Bookmark>, answer: Option<string>)
    requires UniqueUrls(bs) && Loadable(bs)
    ensures UniqueUrls(AddBookmark(r, bs, answer).bookmarks)
    ensures Loadable(AddBookmark(r, bs, answer).bookmarks)
  {
    var url := Trim(r.address);
    if url != [] && answer.Some? && answer.value != [] {
      SaveKeepsLoadable(bs, answer.value, url);
    }
  }

  lemma SaveKeepsLoadable(bs: seq<Bookmark>, title: string, url: string)
    requires Loadable(bs) && Tidy(url)
    ensures Loadable(SaveBookmark(bs, title, url).bookmarks)
  {
    if !HasUrl(bs, url) {
      var s := bs + [Bookmark(title, url)];
      assert SaveBookmark(bs, title, url).bookmarks == s;
      forall i | 0 <= i < |s| ensures Tidy(s[i].url) {
        if i < |bs| {
          assert s[i] == bs[i];
        }
      }
    }
  }

  /** A tidy address is unchanged by `trim`. */
  lemma TidyIsTrimmed(url: string)
    requires Tidy(url)
    ensures Trim(url) == url
  {
    var t := TrimStart(url);
    assert t == url;
    assert TrimEnd(t) == t;
  }

  /** Clicking a bookmark: `fetchRss(bookmark.url)`, which adds it to the history when it loads. */
  function OpenBookmark(r: Reader, b: Bookmark, result: FetchResult): (r': Reader)
    requires -1 <= r.index < |r.history|
    ensures b.url != [] && result.Loaded? ==>
              r'.history == r.history[..r.index + 1] + [b.url] && r'.address == b.url
  {
    Fetch(r, b.url, true, result)
  }
}
