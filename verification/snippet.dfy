/**
 * The text the RSS reader shows for one feed item: the snippet source with
 * every tag-like run removed by `/<[^>]*>?/gm`, cut to 200 characters with
 * `...` appended when it was longer, and the title with its fallback.
 */
module Snippet {
  import opened Wrappers

  const SnippetLimit: nat := 200
  const Ellipsis: string := "..."

  /** A feed item's optional text fields, as the server's parser returns them. */
  datatype FeedItem = FeedItem(title: Option<string>, contentSnippet: Option<string>, content: Option<string>)

  /** A string field is truthy when present and non-empty. */
  predicate Truthy(v: Option<string>) {
    v.Some? && v.value != []
  }

  /** `item.contentSnippet || item.content || ''`. */
  function SnippetSource(item: FeedItem): (s: string)
    ensures Truthy(item.contentSnippet) ==> s == item.contentSnippet.value
    ensures !Truthy(item.contentSnippet) && Truthy(item.content) ==> s == item.content.value
    ensures !Truthy(item.contentSnippet) && !Truthy(item.content) ==> s == []
  {
    if Truthy(item.contentSnippet) then item.contentSnippet.value
    else if Truthy(item.content) then item.content.value
    else []
  }

  /** `item.title || 'No Title'`. */
  function ItemTitle(item: FeedItem): (t: string)
    ensures t != []
    ensures Truthy(item.title) ==> t == item.title.value
  {
    if Truthy(item.title) then item.title.value else "No Title"
  }

  /**
   * What `[^>]*>?` consumes after a `<`: everything up to and including the
   * next `>`, or the rest of the text when there is none.
   */
  function AfterTag(s: string): (rest: string)
    ensures |rest| <= |s|
    ensures rest == s[|s| - |rest|..]
    decreases |s|
  {
    if s == [] then []
    else if s[0] == '>' then s[1..]
    else AfterTag(s[1..])
  }

  /** `text.replace(/<[^>]*>?/gm, '')`: each match is found leftmost and removed. */
  function StripTags(s: string): (r: string)
    ensures '<' !in r
    ensures |r| <= |s|
    decreases |s|
  {
    if s == [] then []
    else if s[0] == '<' then StripTags(AfterTag(s[1..]))
    else [s[0]] + StripTags(s[1..])
  }

  /** Text without `<` has nothing to remove. */
  lemma {:induction false} StripPlain(s: string)
    requires '<' !in s
    ensures StripTags(s) == s
    decreases |s|
  {
    if s != [] {
      assert s[0] in s;
      assert forall c :: c in s[1..] ==> c in s;
      StripPlain(s[1..]);
    }
  }

  /** Removing tags twice is removing them once. */
  lemma StripIdempotent(s: string)
    ensures StripTags(StripTags(s)) == StripTags(s)
  {
    StripPlain(StripTags(s));
  }

  /** Text before the first `<` is kept verbatim. */
  lemma {:induction false} StripKeepsPlainPrefix(a: string, b: string)
    requires '<' !in a
    ensures StripTags(a + b) == a + StripTags(b)
    decreases |a|
  {
    if a != [] {
      assert a[0] in a;
      assert forall c :: c in a[1..] ==> c in a;
      assert (a + b)[1..] == a[1..] + b;
      StripKeepsPlainPrefix(a[1..], b);
      assert (a + b)[0] == a[0] && a[0] != '<';
      assert StripTags(a + b) == [a[0]] + StripTags(a[1..] + b);
      assert a == [a[0]] + a[1..];
    } else {
      assert a + b == b;
    }
  }

  /** `<` … `>` with no `>` in between is removed together with its brackets. */
  lemma ClosedTagRemoved(inner: string, rest: string)
    requires '>' !in inner
    ensures StripTags("<" + inner + ">" + rest) == StripTags(rest)
  {
    AfterTagSkipsClosed(inner, rest);
    assert ("<" + inner + ">" + rest)[1..] == inner + ">" + rest;
  }

  lemma {:induction false} AfterTagSkipsClosed(inner: string, rest: string)
    requires '>' !in inner
    ensures AfterTag(inner + ">" + rest) == rest
    decreases |inner|
  {
    if inner != [] {
      assert inner[0] in inner;
      assert forall c :: c in inner[1..] ==> c in inner;
      assert (inner + ">" + rest)[1..] == inner[1..] + ">" + rest;
      AfterTagSkipsClosed(inner[1..], rest);
    } else {
      assert inner + ">" + rest == [">"[0]] + rest;
    }
  }

  /** A `<` that is never closed removes everything after it. */
  lemma UnclosedTagRemovesRest(inner: string)
    requires '>' !in inner
    ensures StripTags("<" + inner) == []
  {
    AfterTagUnclosed(inner);
    assert ("<" + inner)[1..] == inner;
  }

  lemma {:induction false} AfterTagUnclosed(inner: string)
    requires '>' !in inner
    ensures AfterTag(inner) == []
    decreases |inner|
  {
    if inner != [] {
      assert inner[0] in inner;
      assert forall c :: c in inner[1..] ==> c in inner;
      AfterTagUnclosed(inner[1..]);
    }
  }

  /** `text.substring(0, 200) + (text.length > 200 ? '...' : '')`. */
  function Truncate(s: string): (r: string)
    ensures |r| <= SnippetLimit + |Ellipsis|
    ensures |s| <= SnippetLimit ==> r == s
    ensures |s| > SnippetLimit ==> |r| == SnippetLimit + |Ellipsis| && r[..SnippetLimit] == s[..SnippetLimit]
                                   && r[SnippetLimit..] == Ellipsis
  {
    if |s| > SnippetLimit then s[..SnippetLimit] + Ellipsis else s
  }

  /** The snippet paragraph of one item. */
  function ItemSnippet(item: FeedItem): string {
    Truncate(StripTags(SnippetSource(item)))
  }

  /** A shown snippet holds no `<`, is at most 203 characters, and begins with the stripped source. */
  lemma SnippetShape(item: FeedItem)
    ensures '<' !in ItemSnippet(item)
    ensures |ItemSnippet(item)| <= 203
    ensures var plain := StripTags(SnippetSource(item));
            var keep := if |plain| <= SnippetLimit then |plain| else SnippetLimit;
            ItemSnippet(item)[..keep] == plain[..keep]
  {
    var plain := StripTags(SnippetSource(item));
    if |plain| > SnippetLimit {
      assert ItemSnippet(item) == plain[..SnippetLimit] + Ellipsis;
      forall c | c in ItemSnippet(item) ensures c != '<' {
        var i :| 0 <= i < |ItemSnippet(item)| && ItemSnippet(item)[i] == c;
        if i < SnippetLimit {
          assert c == plain[i];
          assert plain[i] in plain;
        }
      }
    }
  }
}
