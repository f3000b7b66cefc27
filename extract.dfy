/**
 * `process_page`: one article page becomes an article record. The page is
 * given already parsed: the texts of its `h1` elements, the texts of its
 * `.published` elements, the children of its content container and the hrefs
 * of the `#catlinks li a` anchors. The date parser and the clock are parameters.
 */
module Extract {
  import opened Basics
  import opened Strings
  import opened Markup

  datatype Page = Page(
    headings: seq<string>,
    published: seq<string>,
    content: seq<Element>,
    categoryHrefs: seq<string>)

  /** The dictionary `process_page` returns; `D` is the date type of the parser. */
  datatype ArticleRecord<D> = ArticleRecord(
    title: string,
    publishedDate: D,
    isDraft: bool,
    body: seq<Element>,
    categories: seq<string>,
    summary: string)

  /** `strptime` rejected the text of the `.published` marker. */
  datatype ExtractError = DateParseError(text: string)

  /** The category name an href yields: the part after its last colon, or none when it holds an underscore. */
  function CategoryOf(href: string): (r: seq<string>)
    ensures |r| <= 1
    ensures r != [] ==> '_' !in r[0] && ':' !in r[0]
  {
    if '_' in href then []
    else
      var c := AfterLast(href, ':');
      assert forall j :: 0 <= j < |c| ==> c[j] == href[|href| - |c| + j];
      [c]
  }

  /** The category names: for each href without an underscore, in link order, the part after its last colon. */
  function Categories(hrefs: seq<string>): (r: seq<string>)
    ensures |r| <= |hrefs|
    ensures forall k :: 0 <= k < |r| ==> '_' !in r[k] && ':' !in r[k]
  {
    if hrefs == [] then [] else CategoryOf(hrefs[0]) + Categories(hrefs[1..])
  }

  lemma {:induction false} CategoriesConcat(a: seq<string>, b: seq<string>)
    ensures Categories(a + b) == Categories(a) + Categories(b)
  {
    if a == [] {
      assert a + b == b;
    } else {
      assert (a + b)[0] == a[0] && (a + b)[1..] == a[1..] + b;
      CategoriesConcat(a[1..], b);
      ConcatAssoc(CategoryOf(a[0]), Categories(a[1..]), Categories(b));
    }
  }

  /** The href `h` yields the category name `c`. */
  predicate Yields(h: string, c: string) {
    '_' !in h && c == AfterLast(h, ':')
  }

  /** A name is listed exactly when some href without `_` ends with it after its last colon. */
  lemma {:induction false} CategoriesMembers(hrefs: seq<string>, c: string)
    ensures c in Categories(hrefs) <==> exists i :: 0 <= i < |hrefs| && Yields(hrefs[i], c)
  {
    if hrefs != [] {
      var h, t := hrefs[0], hrefs[1..];
      CategoriesMembers(t, c);
      assert c in CategoryOf(h) <==> Yields(h, c);
      assert c in Categories(hrefs) <==> c in CategoryOf(h) || c in Categories(t);
      if c in Categories(t) {
        var i :| 0 <= i < |t| && Yields(t[i], c);
        assert hrefs[i + 1] == t[i];
      }
      if exists i :: 0 <= i < |hrefs| && Yields(hrefs[i], c) {
        var i :| 0 <= i < |hrefs| && Yields(hrefs[i], c);
        if i > 0 {
          assert t[i - 1] == hrefs[i];
        }
      }
    }
  }

  /** The body's children that are not `div` elements, in order. */
  function NonDiv(body: seq<Element>): (r: seq<Element>)
    ensures |r| <= |body|
    ensures forall k :: 0 <= k < |r| ==> r[k].tag != "div"
  {
    if body == [] then []
    else (if body[0].tag == "div" then [] else [body[0]]) + NonDiv(body[1..])
  }

  /** The text of the third non-`div` child of the body, or "" when there are fewer than three. */
  function Summary(body: seq<Element>): string
  {
    var p := NonDiv(body);
    if |p| >= 3 then p[2].text else ""
  }

  lemma {:induction false} NonDivConcat(a: seq<Element>, b: seq<Element>)
    ensures NonDiv(a + b) == NonDiv(a) + NonDiv(b)
  {
    if a == [] {
      assert a + b == b;
    } else {
      assert (a + b)[1..] == a[1..] + b;
      NonDivConcat(a[1..], b);
    }
  }

  /** One child in front: it joins the non-`div` children unless it is a `div`. */
  lemma {:induction false} NonDivCons(x: Element, t: seq<Element>)
    ensures NonDiv([x] + t) == (if x.tag == "div" then [] else [x]) + NonDiv(t)
  {
    assert ([x] + t)[0] == x && ([x] + t)[1..] == t;
  }

  /** The child at `k` is the `j`-th non-`div` child: it is no `div` and `j` non-`div` children precede it. */
  predicate IsNthNonDiv(body: seq<Element>, j: nat, k: nat)
  {
    k < |body| && body[k].tag != "div" && |NonDiv(body[..k])| == j
    && j < |NonDiv(body)| && NonDiv(body)[j] == body[k]
  }

  /** The `j`-th non-`div` child sits at a position with exactly `j` non-`div` children before it. */
  lemma {:induction false} NthNonDiv(body: seq<Element>, j: nat)
    requires j < |NonDiv(body)|
    ensures exists k: nat :: IsNthNonDiv(body, j, k)
  {
    var x, rest := body[0], body[1..];
    assert body == [x] + rest;
    NonDivCons(x, rest);
    if x.tag != "div" && j == 0 {
      assert body[..0] == [];
      assert IsNthNonDiv(body, j, 0);
    } else {
      var j' := if x.tag == "div" then j else j - 1;
      NthNonDiv(rest, j');
      var k: nat :| IsNthNonDiv(rest, j', k);
      assert body[..k + 1] == [x] + rest[..k];
      NonDivCons(x, rest[..k]);
      assert IsNthNonDiv(body, j, k + 1);
    }
  }

  /** The summary is the text of the child at index 2 among the non-`div` children, if there is one. */
  lemma {:induction false} SummaryIsThirdNonDiv(body: seq<Element>)
    ensures |NonDiv(body)| < 3 ==> Summary(body) == ""
    ensures |NonDiv(body)| >= 3 ==> exists k: nat :: IsNthNonDiv(body, 2, k) && Summary(body) == body[k].text
  {
    if |NonDiv(body)| >= 3 {
      NthNonDiv(body, 2);
    }
  }

  /** The title: the texts of the page's `h1` elements joined by spaces; "" when there is none. */
  function Title(headings: seq<string>): (r: string)
    ensures headings == [] ==> r == ""
    ensures |headings| == 1 ==> r == headings[0]
  {
    Join(headings, " ")
  }

  /**
   * The publication date: `now` when the page has no `.published` element;
   * otherwise the parse of its text, and an error when that text does not parse.
   */
  function PublishedDate<D>(published: seq<string>, parse: string -> Option<D>, now: D): (r: Result<D, ExtractError>)
    ensures published == [] ==> r == Ok(now)
    ensures published != [] ==>
              match parse(Join(published, " "))
              case None => r.Err?
              case Some(d) => r == Ok(d)
  {
    if published == [] then Ok(now)
    else
      var text := Join(published, " ");
      match parse(text)
      case None => Err(DateParseError(text))
      case Some(d) => Ok(d)
  }

  /** `process_page`, with the re-parse of the serialised body taken to give back the body itself. */
  method ProcessPage<D>(page: Page, parse: string -> Option<D>, now: D)
    returns (r: Result<ArticleRecord<D>, ExtractError>)
    ensures r.Err? <==> page.published != [] && parse(Join(page.published, " ")).None?
    ensures r.Ok? ==>
              && r.value.title == Title(page.headings)
              && PublishedDate(page.published, parse, now) == Ok(r.value.publishedDate)
              && Selection(r.value.body, r.value.isDraft) == Reference(page.content)
              && r.value.categories == Categories(page.categoryHrefs)
              && r.value.summary == Summary(r.value.body)
    ensures r.Ok? ==>
              (r.value.isDraft <==> exists i :: 0 <= i < CenterIndex(page.content) && IsMarker(page.content[i]))
  {
    var date := PublishedDate(page.published, parse, now);
    if date.Err? {
      return Err(date.error);
    }
    var body, isDraft := SelectBody(page.content);
    var categories := Categories(page.categoryHrefs);
    var summary := Summary(body);
    r := Ok(ArticleRecord(Title(page.headings), date.value, isDraft, body, categories, summary));
  }
}
