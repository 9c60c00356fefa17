/**
 * The per-post extractor that runs inside the page: for every post element past
 * the already-consumed offset it builds one article record, field by field with
 * defaults, or a null slot when building the record throws.
 *
 * The document is abstract: a post element carries, for each sub-element the
 * extractor queries, either nothing (the query found no element) or the one
 * attribute or text the extractor reads from it.
 */
module Extractor {
  import opened Wrappers
  import opened Counter

  /** A <time> element; `year` is the calendar year of its dateTime attribute, None when that is not a valid date. */
  datatype TimeTag = TimeTag(year: Option<int>)

  /** The author link: its href and its text content. */
  datatype AuthorLink = AuthorLink(href: string, text: string)

  /**
   * One post element. Post lists what each sub-element query can find: the <time>,
   * the author link, the claps button's text, the <h3> heading's text, the
   * "read more" link's href and the title attribute of the read-time span.
   * Faulty is an element whose shape makes building its record throw.
   */
  datatype PostElement =
    | Post(time: Option<TimeTag>, author: Option<AuthorLink>, clapsButton: Option<CounterText>,
           heading: Option<string>, readMore: Option<string>, minReadSpan: Option<string>)
    | Faulty

  /** The stored date string: '' when there is no <time>, otherwise the UTC text of its date. */
  datatype DateText = Empty | Utc(year: Option<int>)

  /** The calendar year the stored date string parses back to; '' and an invalid date have none. */
  function YearOf(d: DateText): (y: Option<int>)
    ensures d.Empty? ==> y.None?
  {
    match d
    case Empty => None
    case Utc(y) => y
  }

  /**
   * An article record. None in articleTitle, articleUrl and minRead is null; None in
   * authorUrl and authorName is undefined (what destructuring the empty object gives).
   */
  datatype Article = Article(
    claps: Num,
    articleTitle: Option<string>,
    articleUrl: Option<string>,
    date: DateText,
    authorUrl: Option<string>,
    authorName: Option<string>,
    minRead: Option<string>)

  /** The fallback when the element is absent, otherwise the callback applied to the element. */
  function SafeGet<T, K>(element: Option<T>, callback: T -> K, fallback: K): (r: K)
    ensures element.None? ==> r == fallback
    ensures element.Some? ==> r == callback(element.value)
  {
    match element
    case None => fallback
    case Some(el) => callback(el)
  }

  /** The part of a URL before its first '?': split on '?' and keep the first piece. */
  function StripQuery(url: string): (r: string)
    ensures r <= url
    ensures '?' !in r
    ensures |r| < |url| ==> url[|r|] == '?'
    ensures '?' !in url ==> r == url
  {
    if url == [] || url[0] == '?' then [] else [url[0]] + StripQuery(url[1..])
  }

  lemma StripQueryIdempotent(url: string)
    ensures StripQuery(StripQuery(url)) == StripQuery(url)
  {
  }

  /** When the first '?' stands at index k (or there is none and k is the length), the result is the first k characters. */
  lemma {:induction false} StripQueryAt(url: string, k: nat)
    requires k <= |url|
    requires k < |url| ==> url[k] == '?'
    requires forall i :: 0 <= i < k ==> url[i] != '?'
    ensures StripQuery(url) == url[..k]
  {
    if k > 0 {
      StripQueryAt(url[1..], k - 1);
      assert url[..k] == [url[0]] + url[1..][..k - 1];
    }
  }

  lemma StripQueryExample()
    ensures StripQuery("https://x/y?ref=abc") == "https://x/y"
  {
    StripQueryAt("https://x/y?ref=abc", 11);
  }

  /** The claps number of a post: 0 without a button, otherwise the value its text shows. */
  function ClapsCount(button: Option<CounterText>): (n: Num)
    ensures button.None? ==> n == Num(0, 0)
    ensures button.Some? ==> n == ClapsValue(button.value)
  {
    SafeGet(button, ClapsValue, Num(0, 0))
  }

  /** The record for one post element, or None (the null slot) when building it throws. */
  function BuildRecord(post: PostElement): (r: Option<Article>)
    ensures r.None? <==> post.Faulty?
  {
    match post
    case Faulty => None
    case Post(time, author, button, heading, readMore, minReadSpan) =>
      var date := SafeGet(time, (t: TimeTag) => Utc(t.year), Empty);
      var authorFields := SafeGet(author, (el: AuthorLink) => (Some(StripQuery(el.href)), Some(el.text)), (None, None));
      var claps := ClapsCount(button);
      var articleTitle := SafeGet(heading, (text: string) => Some(text), None);
      var articleUrl := SafeGet(readMore, (href: string) => Some(StripQuery(href)), None);
      var minRead := SafeGet(minReadSpan, (title: string) => Some(title), None);
      Some(Article(claps, articleTitle, articleUrl, date, authorFields.0, authorFields.1, minRead))
  }

  /** What a missing sub-element turns into, and what a present one contributes, field by field. */
  lemma RecordFields(post: PostElement)
    requires post.Post?
    ensures BuildRecord(post).Some?
    ensures var a := BuildRecord(post).value;
      && a.claps == ClapsCount(post.clapsButton)
      && (post.time.None? ==> a.date == Empty)
      && (post.time.Some? ==> YearOf(a.date) == post.time.value.year)
      && (post.author.None? <==> a.authorUrl.None?)
      && (post.author.None? <==> a.authorName.None?)
      && (post.author.Some? ==> a.authorUrl == Some(StripQuery(post.author.value.href))
                                && a.authorName == Some(post.author.value.text))
      && a.articleTitle == post.heading
      && (post.readMore.None? <==> a.articleUrl.None?)
      && (post.readMore.Some? ==> a.articleUrl == Some(StripQuery(post.readMore.value)))
      && a.minRead == post.minReadSpan
      && (a.articleUrl.Some? ==> '?' !in a.articleUrl.value)
  {
  }

  /** One record slot per element, in document order (the map over the elements). */
  function Records(posts: seq<PostElement>): (r: seq<Option<Article>>)
    ensures |r| == |posts|
  {
    if posts == [] then [] else [BuildRecord(posts[0])] + Records(posts[1..])
  }

  lemma {:induction false} RecordsAt(posts: seq<PostElement>, i: nat)
    requires i < |posts|
    ensures Records(posts)[i] == BuildRecord(posts[i])
  {
    if i > 0 {
      RecordsAt(posts[1..], i - 1);
    }
  }

  /**
   * The extractor: the posts after the first `offset` ones, each turned into a
   * record slot; the batch has max(0, total - offset) slots, null slots included.
   */
  function Extract(posts: seq<PostElement>, offset: nat): (batch: seq<Option<Article>>)
    ensures |batch| == if offset <= |posts| then |posts| - offset else 0
  {
    Records(if offset <= |posts| then posts[offset..] else [])
  }

  /** Slot i of a batch is the record of the post offset + i places into the document; it is null exactly when that post is faulty. */
  lemma ExtractAt(posts: seq<PostElement>, offset: nat, i: nat)
    requires i < |Extract(posts, offset)|
    ensures Extract(posts, offset)[i] == BuildRecord(posts[offset + i])
    ensures Extract(posts, offset)[i].None? <==> posts[offset + i].Faulty?
  {
    RecordsAt(posts[offset..], i);
  }
}
