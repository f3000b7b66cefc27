/**
 * What `fetch_articles` does with the extracted records: it gathers them in a
 * dictionary keyed by URL across the listing batches, then turns each into an
 * article row whose slug is the URL's last path segment and whose publication
 * status is "D" for a draft and "P" otherwise.
 */
module Loader {
  import opened Strings
  import opened Markup
  import opened Extract
  import opened Links

  /** `pub_status`: "D" for a draft, "P" for a published article. */
  function PubStatus(isDraft: bool): (r: string)
    ensures r == "D" || r == "P"
    ensures r == "D" <==> isDraft
  {
    if isDraft then "D" else "P"
  }

  /** A page is stored as a draft exactly when a metadata marker precedes its first `center` child. */
  lemma {:induction false} PubStatusOfPage(content: seq<Element>)
    ensures PubStatus(Reference(content).isDraft) == "D"
        <==> exists i :: 0 <= i < CenterIndex(content) && IsMarker(content[i])
  {
    WalkFromStart(content);
    DraftIffMarker(content);
  }

  /** The fields `Article.objects.create` receives; the slug before `slugify`, the sections by title. */
  datatype ArticleRow<D> = ArticleRow(
    title: string,
    slug: string,
    pubStatus: string,
    body: seq<Element>,
    pubDate: D,
    summary: string,
    sections: seq<string>)

  function RowFor<D>(url: string, rec: ArticleRecord<D>): (row: ArticleRow<D>)
    ensures '/' !in row.slug && |row.slug| <= |url| && row.slug == url[|url| - |row.slug|..]
    ensures |row.slug| < |url| ==> url[|url| - |row.slug| - 1] == '/'
    ensures row.pubStatus == "D" <==> rec.isDraft
    ensures row.title == rec.title && row.body == rec.body && row.summary == rec.summary
    ensures row.pubDate == rec.publishedDate && row.sections == rec.categories
  {
    ArticleRow(rec.title, Slug(url), PubStatus(rec.isDraft), rec.body, rec.publishedDate,
               rec.summary, rec.categories)
  }

  /**
   * The last path segment taken from a fetched URL when its row is built is the
   * segment the scan looked up among the known slugs. Both are taken before
   * `slugify`, so this is not a claim about the slug that is stored.
   */
  lemma {:induction false} FetchedSlugIsCheckedSlug(href: string)
    requires '/' in href
    ensures Slug(BASE_URL + href) == Slug(href)
  {
    AfterLastOfConcat(BASE_URL, href, '/');
  }

  /** The dictionary `data` after `data[urls[i]] = records[i]` for each `i` in turn. */
  function Stored<D>(data: map<string, ArticleRecord<D>>, urls: seq<string>, records: seq<ArticleRecord<D>>)
    : map<string, ArticleRecord<D>>
    requires |urls| == |records|
    decreases |urls|
  {
    if urls == [] then data
    else Stored(data, urls[..|urls| - 1], records[..|urls| - 1])[urls[|urls| - 1] := records[|urls| - 1]]
  }

  /** The keys afterwards are the old keys and the batch's URLs. */
  lemma {:induction false} StoredKeys<D>(data: map<string, ArticleRecord<D>>, urls: seq<string>,
                                         records: seq<ArticleRecord<D>>, u: string)
    requires |urls| == |records|
    ensures u in Stored(data, urls, records) <==> u in data || u in urls
    decreases |urls|
  {
    if urls != [] {
      var n := |urls| - 1;
      StoredKeys(data, urls[..n], records[..n], u);
      assert urls == urls[..n] + [urls[n]];
    }
  }

  /** For a URL of the batch, the record of its last occurrence wins. */
  lemma {:induction false} StoredLastWriteWins<D>(data: map<string, ArticleRecord<D>>, urls: seq<string>,
                                                  records: seq<ArticleRecord<D>>, i: nat)
    requires |urls| == |records| && i < |urls|
    requires forall j :: i < j < |urls| ==> urls[j] != urls[i]
    ensures urls[i] in Stored(data, urls, records) && Stored(data, urls, records)[urls[i]] == records[i]
    decreases |urls|
  {
    var n := |urls| - 1;
    if i < n {
      StoredLastWriteWins(data, urls[..n], records[..n], i);
    }
  }

  /** A URL outside the batch keeps its earlier record. */
  lemma {:induction false} StoredLeavesOthers<D>(data: map<string, ArticleRecord<D>>, urls: seq<string>,
                                                 records: seq<ArticleRecord<D>>, u: string)
    requires |urls| == |records| && u in data && u !in urls
    ensures u in Stored(data, urls, records) && Stored(data, urls, records)[u] == data[u]
    decreases |urls|
  {
    if urls != [] {
      var n := |urls| - 1;
      assert urls[..n] + [urls[n]] == urls;
      StoredLeavesOthers(data, urls[..n], records[..n], u);
    }
  }

  /** Records one batch of fetched URLs and their extracted records into the dictionary, in order. */
  method StoreBatch<D>(data: map<string, ArticleRecord<D>>, urls: seq<string>, records: seq<ArticleRecord<D>>)
    returns (updated: map<string, ArticleRecord<D>>)
    requires |urls| == |records|
    ensures updated == Stored(data, urls, records)
  {
    updated := data;
    for i := 0 to |urls|
      invariant updated == Stored(data, urls[..i], records[..i])
    {
      assert urls[..i + 1][..i] == urls[..i] && records[..i + 1][..i] == records[..i];
      updated := updated[urls[i] := records[i]];
    }
    assert urls[..|urls|] == urls && records[..|urls|] == records;
  }
}
