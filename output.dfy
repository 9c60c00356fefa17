/**
 * What the scraper does with the records once the loop returns: it sorts them
 * in place by claps, most first, and renders them into an HTML ordered list
 * (the records also go to a JSON file, which is not part of this model).
 */
module Output {
  import opened Wrappers
  import opened Counter
  import opened Extractor
  import opened Pagination

  // ---------------------------------------------------------------------------
  // Sorting by claps

  /** Every record has at least as many claps as every record after it. */
  predicate ClapsNonIncreasing(s: seq<Article>) {
    forall i, j :: 0 <= i < j < |s| ==> Value(s[j].claps) <= Value(s[i].claps)
  }

  /**
   * Sorts the records in place so that claps never increase along the array:
   * the comparator puts the second record first exactly when it has more claps.
   */
  method SortByClaps(a: array<Article>)
    modifies a
    ensures ClapsNonIncreasing(a[..])
    ensures multiset(a[..]) == multiset(old(a[..]))
  {
    var i := 0;
    while i < a.Length
      invariant 0 <= i <= a.Length
      invariant ClapsNonIncreasing(a[..i])
      invariant multiset(a[..]) == multiset(old(a[..]))
    {
      Insert(a, i);
      i := i + 1;
    }
  }

  /** Moves a[i] down past the records with fewer claps, so that a[..i + 1] is ordered. */
  method Insert(a: array<Article>, i: nat)
    requires i < a.Length && ClapsNonIncreasing(a[..i])
    modifies a
    ensures ClapsNonIncreasing(a[..i + 1])
    ensures multiset(a[..i + 1]) == multiset(old(a[..i + 1]))
    ensures a[i + 1..] == old(a[i + 1..])
    ensures multiset(a[..]) == multiset(old(a[..]))
  {
    var j := i;
    InsertStart(a[..], i);
    while j > 0 && Value(a[j - 1].claps) < Value(a[j].claps)
      invariant 0 <= j <= i
      invariant multiset(a[..i + 1]) == multiset(old(a[..i + 1]))
      invariant a[i + 1..] == old(a[i + 1..])
      invariant multiset(a[..]) == multiset(old(a[..]))
      invariant OrderedAround(a[..], i, j)
    {
      ghost var s := a[..];
      a[j - 1], a[j] := a[j], a[j - 1];
      assert a[..] == Swapped(s, j);
      SwapWithin(s, i, j);
      SwapDown(s, i, j);
      j := j - 1;
    }
    InsertDone(a[..], i, j);
  }

  /**
   * The insertion's invariant: the records of s[..i + 1] other than the one
   * being moved, at j, are ordered, and those after j have fewer claps than it.
   */
  ghost predicate OrderedAround(s: seq<Article>, i: nat, j: nat)
  {
    && j <= i < |s|
    && (forall p, q :: 0 <= p < q <= i && p != j && q != j ==> Value(s[q].claps) <= Value(s[p].claps))
    && (forall q :: j < q <= i ==> Value(s[q].claps) < Value(s[j].claps))
  }

  /** s with the records at j - 1 and j exchanged. */
  function Swapped(s: seq<Article>, j: nat): (r: seq<Article>)
    requires 0 < j < |s|
    ensures |r| == |s| && r[j - 1] == s[j] && r[j] == s[j - 1]
    ensures forall k :: 0 <= k < |s| && k != j - 1 && k != j ==> r[k] == s[k]
    ensures multiset(r) == multiset(s)
  {
    s[j - 1 := s[j]][j := s[j - 1]]
  }

  /** A swap below i + 1 stays inside s[..i + 1]: it rearranges that prefix and leaves the rest alone. */
  lemma SwapWithin(s: seq<Article>, i: nat, j: nat)
    requires 0 < j <= i < |s|
    ensures Swapped(s, j)[..i + 1] == Swapped(s[..i + 1], j)
    ensures Swapped(s, j)[i + 1..] == s[i + 1..]
  {
  }

  lemma InsertStart(s: seq<Article>, i: nat)
    requires i < |s| && ClapsNonIncreasing(s[..i])
    ensures OrderedAround(s, i, i)
  {
    forall p, q | 0 <= p < q <= i && p != i && q != i ensures Value(s[q].claps) <= Value(s[p].claps) {
      assert s[p] == s[..i][p] && s[q] == s[..i][q];
    }
  }

  /** Moving the record down past one with fewer claps keeps the invariant. */
  lemma SwapDown(s: seq<Article>, i: nat, j: nat)
    requires 0 < j && OrderedAround(s, i, j) && Value(s[j - 1].claps) < Value(s[j].claps)
    ensures OrderedAround(Swapped(s, j), i, j - 1)
  {
    var r := Swapped(s, j);
    forall p, q | 0 <= p < q <= i && p != j - 1 && q != j - 1 ensures Value(r[q].claps) <= Value(r[p].claps) {
      if q == j {
        assert Value(r[q].claps) == Value(s[j - 1].claps);
      }
    }
  }

  /** Once the record has no predecessor with fewer claps, s[..i + 1] is ordered. */
  lemma InsertDone(s: seq<Article>, i: nat, j: nat)
    requires OrderedAround(s, i, j) && (j == 0 || Value(s[j - 1].claps) >= Value(s[j].claps))
    ensures ClapsNonIncreasing(s[..i + 1])
  {
    var t := s[..i + 1];
    forall p, q | 0 <= p < q < |t| ensures Value(t[q].claps) <= Value(t[p].claps) {
      if q == j {
        assert Value(s[j].claps) <= Value(s[j - 1].claps);
      }
    }
  }

  /** Two claps-ordered arrangements of the same records agree on every claps value, position by position. */
  lemma {:induction false} SortedClapsUnique(s: seq<Article>, t: seq<Article>)
    requires ClapsNonIncreasing(s) && ClapsNonIncreasing(t)
    requires multiset(s) == multiset(t)
    ensures |s| == |t|
    ensures forall i :: 0 <= i < |s| ==> Value(s[i].claps) == Value(t[i].claps)
  {
    assert |s| == |multiset(s)| == |multiset(t)| == |t|;
    if |s| > 0 {
      assert s[0] in multiset(s);
      var j :| 0 <= j < |t| && t[j] == s[0];
      LeadingClaps(s, t, j);
      // drop the first record of s, and the same record from t
      var s', t' := Without(s, 0), Without(t, j);
      WithoutOrdered(s, 0);
      WithoutOrdered(t, j);
      SortedClapsUnique(s', t');
      UniqueStep(s, t, j);
    }
  }

  /** Matching the rest of s against t without its record j, which leads with s[0]'s claps, matches s against t. */
  lemma UniqueStep(s: seq<Article>, t: seq<Article>, j: nat)
    requires 0 < |s| == |t| && j < |t| && t[j] == s[0]
    requires forall i :: 0 <= i <= j ==> Value(t[i].claps) == Value(s[0].claps)
    requires forall i :: 0 <= i < |s| - 1 ==> Value(Without(s, 0)[i].claps) == Value(Without(t, j)[i].claps)
    ensures forall i :: 0 <= i < |s| ==> Value(s[i].claps) == Value(t[i].claps)
  {
    var s', t' := Without(s, 0), Without(t, j);
    forall i | 0 < i < |s| ensures Value(s[i].claps) == Value(t[i].claps) {
      assert s'[i - 1] == s[i];
      assert Value(s[i].claps) == Value(t'[i - 1].claps);
      if i <= j {
        assert t'[i - 1] == t[i - 1];
      } else {
        assert t'[i - 1] == t[i];
      }
    }
  }

  /** The first record of s sits at j in t: then t's records up to j all have the claps of s[0]. */
  lemma LeadingClaps(s: seq<Article>, t: seq<Article>, j: nat)
    requires ClapsNonIncreasing(s) && ClapsNonIncreasing(t)
    requires multiset(s) == multiset(t)
    requires 0 < |s| && j < |t| && t[j] == s[0]
    ensures forall i :: 0 <= i <= j ==> Value(t[i].claps) == Value(s[0].claps)
  {
    assert t[0] in multiset(t);
    var k :| 0 <= k < |s| && s[k] == t[0];
    assert Value(t[0].claps) <= Value(s[0].claps);
  }

  /** t without its record at j. */
  function Without(t: seq<Article>, j: nat): (r: seq<Article>)
    requires j < |t|
    ensures |r| == |t| - 1
    ensures forall k :: 0 <= k < j ==> r[k] == t[k]
    ensures forall k :: j <= k < |r| ==> r[k] == t[k + 1]
    ensures multiset(r) == multiset(t) - multiset{t[j]}
  {
    assert t == t[..j] + [t[j]] + t[j + 1..];
    t[..j] + t[j + 1..]
  }

  lemma WithoutOrdered(t: seq<Article>, j: nat)
    requires j < |t| && ClapsNonIncreasing(t)
    ensures ClapsNonIncreasing(Without(t, j))
  {
    var r := Without(t, j);
    forall p, q | 0 <= p < q < |r| ensures Value(r[q].claps) <= Value(r[p].claps) {
      var p0 := if p < j then p else p + 1;
      var q0 := if q < j then q else q + 1;
      assert r[p] == t[p0] && r[q] == t[q0];
    }
  }

  // ---------------------------------------------------------------------------
  // The HTML representation

  /** How the template shows an optional field: its text, or the name of the missing value. */
  function Show(field: Option<string>, missing: string): (r: string)
    ensures field.Some? ==> r == field.value
    ensures field.None? ==> r == missing
  {
    match field
    case Some(s) => s
    case None => missing
  }

  /** The part of a list item before the article link's target. */
  const ItemOpen: string := "\n        <li>\n          <a href=\""

  /**
   * The pieces of one list item's template, in order: fixed markup at even
   * positions, the interpolated fields at odd ones (the article link's target,
   * the title, the author's link and name, the reading time, the claps).
   * A missing title, link or reading time prints as "null" (the extractor
   * stores null for them); a missing author link or name prints as "undefined"
   * (they are read from an empty object when the author element is absent).
   */
  function ItemParts(a: Article): (r: seq<string>)
    ensures |r| == 13
  {
    [ItemOpen, Show(a.articleUrl, "null"), "\">", Show(a.articleTitle, "null"),
     "</a> by\n          <a href=\"", Show(a.authorUrl, "undefined"), "\">", Show(a.authorName, "undefined"),
     "</a>\n          [", Show(a.minRead, "null"), "] (", Text(a.claps), ")\n        </li>\n      "]
  }

  /** One list item: the article link, the author link, the reading time and the claps. */
  function ListItem(a: Article): string {
    Join(ItemParts(a))
  }

  /** The strings one after another, with nothing between them (a join on the empty separator). */
  function Join(parts: seq<string>): string {
    if parts == [] then "" else parts[0] + Join(parts[1..])
  }

  /** The list item of each record, in record order. */
  function Rendered(xs: seq<Article>): (r: seq<string>)
    ensures |r| == |xs|
  {
    if xs == [] then [] else [ListItem(xs[0])] + Rendered(xs[1..])
  }

  /** The list items of the records in order, joined with nothing between them. */
  function Items(xs: seq<Article>): string {
    Join(Rendered(xs))
  }

  const Head: string :=
    "\n    <!DOCTYPE html>\n    <html lang=\"en\">\n      <head>\n        <meta charset=\"UTF-8\" />\n"
    + "        <meta name=\"viewport\" content=\"width=device-width, initial-scale=1.0\" />\n"
    + "        <meta http-equiv=\"X-UA-Compatible\" content=\"ie=edge\" />\n"
    + "        <title>Articles</title>\n      </head>\n      <body>\n        <ol>\n          "

  const Tail: string := "\n        </ol>\n      </body>\n    </html>\n  "

  /** The whole page: the document head, the ordered list of the records, and the closing tags. */
  function Html(xs: seq<Article>): (r: string)
    ensures |r| == |Head| + |Items(xs)| + |Tail|
    ensures r[..|Head|] == Head && r[|r| - |Tail|..] == Tail
  {
    Ends(Head, Items(xs), Tail);
    Head + Items(xs) + Tail
  }

  lemma Ends(a: string, b: string, c: string)
    ensures (a + b + c)[..|a|] == a && (a + b + c)[|a| + |b|..] == c
  {
    var s := a + b + c;
    assert s[..|a|] == (a + b)[..|a|];
  }

  lemma {:induction false} JoinAppend(xs: seq<string>, ys: seq<string>)
    ensures Join(xs + ys) == Join(xs) + Join(ys)
  {
    if xs == [] {
      assert xs + ys == ys;
    } else {
      assert (xs + ys)[1..] == xs[1..] + ys;
      JoinAppend(xs[1..], ys);
    }
  }

  lemma {:induction false} RenderedAppend(xs: seq<Article>, ys: seq<Article>)
    ensures Rendered(xs + ys) == Rendered(xs) + Rendered(ys)
  {
    if xs == [] {
      assert xs + ys == ys;
    } else {
      assert (xs + ys)[1..] == xs[1..] + ys;
      RenderedAppend(xs[1..], ys);
    }
  }

  /** Rendering a concatenation renders each part. */
  lemma ItemsAppend(xs: seq<Article>, ys: seq<Article>)
    ensures Items(xs + ys) == Items(xs) + Items(ys)
  {
    RenderedAppend(xs, ys);
    JoinAppend(Rendered(xs), Rendered(ys));
  }

  /** The list has one item per record, in record order: the k-th item follows the items of the records before it. */
  lemma ItemAt(xs: seq<Article>, k: nat)
    requires k < |xs|
    ensures var start := |Head| + |Items(xs[..k])|;
      start + |ListItem(xs[k])| <= |Html(xs)| && Html(xs)[start..start + |ListItem(xs[k])|] == ListItem(xs[k])
  {
    ItemsSplit(xs, k);
    Middle(Head, Items(xs[..k]), ListItem(xs[k]), Items(xs[k + 1..]), Tail);
  }

  lemma ItemsSplit(xs: seq<Article>, k: nat)
    requires k < |xs|
    ensures Items(xs) == Items(xs[..k]) + (ListItem(xs[k]) + Items(xs[k + 1..]))
  {
    var after := xs[k + 1..];
    assert xs == xs[..k] + ([xs[k]] + after);
    RenderedAppend(xs[..k], [xs[k]] + after);
    RenderedAppend([xs[k]], after);
    assert [xs[k]][1..] == [];
    var item := ListItem(xs[k]);
    assert Rendered([xs[k]]) == [item];
    var rest := [item] + Rendered(after);
    JoinAppend(Rendered(xs[..k]), rest);
    assert rest[0] == item && rest[1..] == Rendered(after);
  }

  lemma Middle(a: string, p: string, b: string, q: string, c: string)
    ensures |a| + |p| + |b| <= |a + (p + (b + q)) + c|
    ensures (a + (p + (b + q)) + c)[|a| + |p|..|a| + |p| + |b|] == b
  {
    var s := a + (p + (b + q)) + c;
    forall k | 0 <= k < |b| ensures s[|a| + |p| + k] == b[k] {
      assert s[|a| + |p| + k] == (p + (b + q))[|p| + k];
      assert (p + (b + q))[|p| + k] == (b + q)[k];
    }
  }

  /** No records: the page holds the head and the closing tags and nothing between them. */
  lemma HtmlEmpty()
    ensures Html([]) == Head + Tail
  {
    assert Head + "" == Head;
  }

  /** In a join, piece k sits right after the pieces before it. */
  lemma JoinAt(parts: seq<string>, k: nat)
    requires k < |parts|
    ensures var start := |Join(parts[..k])|;
      start + |parts[k]| <= |Join(parts)| && Join(parts)[start..start + |parts[k]|] == parts[k]
  {
    var front, back := parts[..k], parts[k + 1..];
    var rest := [parts[k]] + back;
    assert parts == front + rest;
    JoinAppend(front, rest);
    assert rest[0] == parts[k] && rest[1..] == back;
    Middle([], Join(front), parts[k], Join(back), []);
    assert [] + (Join(front) + (parts[k] + Join(back))) + [] == Join(parts);
  }

  /**
   * Every field of the record appears in its item verbatim, with no escaping,
   * right after the markup before it; the claps appear as a numeral that reads
   * back as the record's claps.
   */
  lemma ItemShowsFields(a: Article, k: nat)
    requires k < 13 && k % 2 == 1
    ensures var parts := ItemParts(a);
      var start := |Join(parts[..k])|;
      && start + |parts[k]| <= |ListItem(a)|
      && ListItem(a)[start..start + |parts[k]|] == parts[k]
      && parts[k] == match k
           case 1 => Show(a.articleUrl, "null")
           case 3 => Show(a.articleTitle, "null")
           case 5 => Show(a.authorUrl, "undefined")
           case 7 => Show(a.authorName, "undefined")
           case 9 => Show(a.minRead, "null")
           case _ => Text(a.claps)
  {
    JoinAt(ItemParts(a), k);
  }

  /** The claps shown in an item read back as the record's claps. */
  lemma ItemShowsClaps(a: Article)
    ensures var shown := ItemParts(a)[11];
      IsNumeral(shown) && Value(ParseNumber(shown)) == Value(a.claps)
  {
    TextRoundTrip(a.claps);
  }

  // ---------------------------------------------------------------------------
  // The entry point

  /**
   * The scrape, then the records sorted by claps: the JSON representation is
   * the sorted records and the HTML representation renders them in that order.
   */
  method Scrap(navigation: Option<DriverError>, frames: seq<Frame>)
    returns (r: Result<(seq<Article>, string), DriverError>)
    requires |frames| > 0
    ensures var session := Session(navigation, frames, ListingUrl);
      && (session.outcome.Failure? ==> r == Failure(session.outcome.error))
      && (session.outcome.Success? ==>
            && r.Success?
            && multiset(r.value.0) == multiset(session.outcome.value)
            && ClapsNonIncreasing(r.value.0)
            && (forall a :: a in r.value.0 ==> InFloorYear(a))
            && r.value.1 == Html(r.value.0))
  {
    var scraped, page := ScrapArticles(navigation, frames);
    if scraped.Failure? {
      return Failure(scraped.error);
    }
    var xs := scraped.value;
    var articles := new Article[|xs|](i requires 0 <= i < |xs| => xs[i]);
    assert articles[..] == xs;
    SortByClaps(articles);
    var json := articles[..];
    forall a | a in json ensures InFloorYear(a) {
      assert a in multiset(json);
    }
    r := Success((json, Html(json)));
  }
}
