/**
 * Link classification and the category-listing scan of `fetch_articles`: the
 * anchors of a listing page's content container are walked in document order,
 * recap posts and anchors whose last path segment is an already known article
 * slug are dropped, and every other anchor yields the URL `BASE_URL + href`.
 */
module Links {
  import opened Strings

  const BASE_URL := "http://en.wikinews.org"

  /**
   * Where a match of the recap pattern may end under the anchor `$`. `$` matches at
   * the very end and, when the string ends in a newline, also just before it. The
   * pattern ends in a digit, so in the second case no match can end after the
   * newline, and the position before it is the only one left.
   */
  function AnchorEnd(s: string): (e: nat)
    ensures e <= |s|
    ensures e == |s| - 1 <==> |s| > 0 && s[|s| - 1] == '\n'
  {
    if |s| > 0 && s[|s| - 1] == '\n' then |s| - 1 else |s|
  }

  /** The length of the longest run of word characters ending just before index `hi` of `s`. */
  function WordRunBefore(s: string, hi: nat): (n: nat)
    requires hi <= |s|
    ensures n <= hi
    ensures WordIn(s, hi - n, hi)
    ensures n < hi ==> !IsWordChar(s[hi - n - 1])
  {
    if hi == 0 || !IsWordChar(s[hi - 1]) then 0 else 1 + WordRunBefore(s, hi - 1)
  }

  /** Any run of word characters that ends at `hi` and cannot be extended to the left is the longest one. */
  lemma {:induction false} WordRunExact(s: string, lo: nat, hi: nat)
    requires lo <= hi <= |s| && WordIn(s, lo, hi)
    requires lo == 0 || !IsWordChar(s[lo - 1])
    ensures WordRunBefore(s, hi) == hi - lo
    decreases hi - lo
  {
    if lo < hi {
      WordRunExact(s, lo, hi - 1);
    }
  }

  /** `s[..e]` ends with four digits, `/`, one or more word characters, `/` and `d` digits. */
  predicate DatePathEndsAt(s: string, e: nat, d: nat)
    requires e <= |s|
  {
    d + 1 <= e &&
    var b := e - d - 1;
    s[b] == '/' && DigitsIn(s, b + 1, e) &&
    var w := WordRunBefore(s, b);
    w >= 1 && b - w >= 5 && s[b - w - 1] == '/' && DigitsIn(s, b - w - 5, b - w - 1)
  }

  /** `is_recap_post`: the href matches `\d{4}/\w+/\d{1,2}$`. */
  predicate IsRecapPost(href: string)
  {
    var e := AnchorEnd(href);
    DatePathEndsAt(href, e, 1) || DatePathEndsAt(href, e, 2)
  }

  /** The pattern `\d{4}/\w+/\d{1,2}` occurs in `h` with its slashes at `a` and `b`, ending at `e`. */
  ghost predicate PatternAt(h: string, a: int, b: int, e: int)
  {
    && 4 <= a && a + 1 < b && b + 1 < e <= b + 3 && e <= |h|
    && DigitsIn(h, a - 4, a) && h[a] == '/' && WordIn(h, a + 1, b) && h[b] == '/' && DigitsIn(h, b + 1, e)
  }

  /** Python's `$` without MULTILINE matches at the end and just before a final newline. */
  ghost predicate EndAnchorAt(h: string, e: int)
  {
    e == |h| || (0 <= e == |h| - 1 && h[e] == '\n')
  }

  /** The recap pattern occurs in `h` ending where the end anchor matches (a regular-expression search). */
  ghost predicate MatchesRecapPattern(h: string)
  {
    exists a, b, e :: EndAnchorAt(h, e) && PatternAt(h, a, b, e)
  }

  lemma {:induction false} RecapPostSound(href: string, d: nat)
    requires d == 1 || d == 2
    requires DatePathEndsAt(href, AnchorEnd(href), d)
    ensures MatchesRecapPattern(href)
  {
    var e := AnchorEnd(href);
    var b := e - d - 1;
    var a := b - WordRunBefore(href, b) - 1;
    assert EndAnchorAt(href, e) && PatternAt(href, a, b, e);
  }

  lemma {:induction false} RecapPostComplete(href: string, a: int, b: int, e: int)
    requires EndAnchorAt(href, e) && PatternAt(href, a, b, e)
    ensures IsRecapPost(href)
  {
    assert IsDigit(href[e - 1]);
    assert e == AnchorEnd(href);
    WordRunExact(href, a + 1, b);
    assert DatePathEndsAt(href, e, e - b - 1);
  }

  /** The recap test is exactly a search for the regular expression of `is_recap_post`. */
  lemma {:induction false} RecapPostIffPattern(href: string)
    ensures IsRecapPost(href) <==> MatchesRecapPattern(href)
  {
    var e := AnchorEnd(href);
    if DatePathEndsAt(href, e, 1) {
      RecapPostSound(href, 1);
    } else if DatePathEndsAt(href, e, 2) {
      RecapPostSound(href, 2);
    }
    if MatchesRecapPattern(href) {
      var a, b, e :| EndAnchorAt(href, e) && PatternAt(href, a, b, e);
      RecapPostComplete(href, a, b, e);
    }
  }

  /** The provisional identifier of an anchor: the href's last `/` segment. */
  function Slug(href: string): (r: string)
    ensures '/' !in r
  {
    AfterLast(href, '/')
  }

  /** An anchor that the scan keeps. */
  predicate IsNewArticle(href: string, known: set<string>)
  {
    !IsRecapPost(href) && Slug(href) !in known
  }

  /** What one anchor adds to the collected URLs. */
  function UrlsOf(href: string, known: set<string>): seq<string>
  {
    if IsNewArticle(href, known) then [BASE_URL + href] else []
  }

  /** The URLs the scan collects, one per kept anchor, in document order. */
  function NewArticleUrls(hrefs: seq<string>, known: set<string>): seq<string>
  {
    if hrefs == [] then [] else UrlsOf(hrefs[0], known) + NewArticleUrls(hrefs[1..], known)
  }

  lemma {:induction false} NewArticleUrlsConcat(a: seq<string>, b: seq<string>, known: set<string>)
    ensures NewArticleUrls(a + b, known) == NewArticleUrls(a, known) + NewArticleUrls(b, known)
  {
    if a == [] {
      assert a + b == b;
    } else {
      assert (a + b)[0] == a[0] && (a + b)[1..] == a[1..] + b;
      NewArticleUrlsConcat(a[1..], b, known);
    }
  }

  /** A URL is collected exactly when it is `BASE_URL` followed by a kept anchor's href. */
  lemma {:induction false} NewArticleUrlsMembers(hrefs: seq<string>, known: set<string>, u: string)
    ensures u in NewArticleUrls(hrefs, known)
        <==> exists i :: 0 <= i < |hrefs| && IsNewArticle(hrefs[i], known) && u == BASE_URL + hrefs[i]
  {
    if hrefs != [] {
      var h, t := hrefs[0], hrefs[1..];
      NewArticleUrlsMembers(t, known, u);
      if u in NewArticleUrls(t, known) {
        var i :| 0 <= i < |t| && IsNewArticle(t[i], known) && u == BASE_URL + t[i];
        assert hrefs[i + 1] == t[i];
      }
      if exists i :: 0 <= i < |hrefs| && IsNewArticle(hrefs[i], known) && u == BASE_URL + hrefs[i] {
        var i :| 0 <= i < |hrefs| && IsNewArticle(hrefs[i], known) && u == BASE_URL + hrefs[i];
        if i > 0 {
          assert t[i - 1] == hrefs[i];
        }
      }
    }
  }

  function CountRecap(hrefs: seq<string>): nat
  {
    if hrefs == [] then 0 else (if IsRecapPost(hrefs[0]) then 1 else 0) + CountRecap(hrefs[1..])
  }

  function CountKnown(hrefs: seq<string>, known: set<string>): nat
  {
    if hrefs == [] then 0 else (if Slug(hrefs[0]) in known then 1 else 0) + CountKnown(hrefs[1..], known)
  }

  function CountRecapAndKnown(hrefs: seq<string>, known: set<string>): nat
  {
    if hrefs == [] then 0
    else (if IsRecapPost(hrefs[0]) && Slug(hrefs[0]) in known then 1 else 0)
         + CountRecapAndKnown(hrefs[1..], known)
  }

  /** Anchors minus recap anchors minus known anchors, each anchor counted once. */
  lemma {:induction false} NewArticleUrlsLength(hrefs: seq<string>, known: set<string>)
    ensures |NewArticleUrls(hrefs, known)|
         == |hrefs| - CountRecap(hrefs) - CountKnown(hrefs, known) + CountRecapAndKnown(hrefs, known)
  {
    if hrefs != [] {
      NewArticleUrlsLength(hrefs[1..], known);
    }
  }

  /** Scanning one more anchor appends what that anchor adds. */
  lemma {:induction false} ScanStep(hrefs: seq<string>, i: nat, known: set<string>)
    requires i < |hrefs|
    ensures NewArticleUrls(hrefs[..i + 1], known) == NewArticleUrls(hrefs[..i], known) + UrlsOf(hrefs[i], known)
  {
    assert hrefs[..i + 1] == hrefs[..i] + [hrefs[i]];
    NewArticleUrlsConcat(hrefs[..i], [hrefs[i]], known);
    assert [hrefs[i]][1..] == [];
  }

  /** The scan loop of `fetch_articles` over one listing page's anchors. */
  method ScanListing(hrefs: seq<string>, known: set<string>) returns (urls: seq<string>)
    ensures urls == NewArticleUrls(hrefs, known)
  {
    urls := [];
    for i := 0 to |hrefs|
      invariant urls == NewArticleUrls(hrefs[..i], known)
    {
      var href := hrefs[i];
      ScanStep(hrefs, i, known);
      if IsRecapPost(href) {
        continue;
      }
      var slug := Slug(href);
      if slug in known {
        continue;
      }
      urls := urls + [BASE_URL + href];
    }
    assert hrefs[..|hrefs|] == hrefs;
  }

  /** Repeated anchors to the same new article are each collected. */
  lemma {:induction false} DuplicatesKept(h: string, known: set<string>)
    requires IsNewArticle(h, known)
    ensures NewArticleUrls([h, h], known) == [BASE_URL + h, BASE_URL + h]
  {
    assert [h, h] == [h] + [h];
    NewArticleUrlsConcat([h], [h], known);
    assert [h][1..] == [];
  }

  lemma {:induction false} OneDigitDayRecap()
    ensures IsRecapPost("http://x/2020/march/5")
  {
    RecapPostComplete("http://x/2020/march/5", 13, 19, 21);
  }

  lemma {:induction false} TwoDigitDayRecap()
    ensures IsRecapPost("/wiki/2012/March/17\n")
  {
    RecapPostComplete("/wiki/2012/March/17\n", 10, 16, 19);
  }

  lemma {:induction false} NonRecapExamples()
    ensures !IsRecapPost("http://x/articles/some-title")
    ensures !IsRecapPost("/wiki/Some_title")
    ensures !IsRecapPost("/wiki/2012/March/123")
  {
  }

  lemma {:induction false} SlugExample(title: string)
    requires '/' !in title
    ensures Slug("/wiki/" + title) == title
  {
    assert "/wiki/" + title == "/wiki" + ['/'] + title;
    AfterLastIsFinalSegment("/wiki", '/', title);
  }

  lemma {:induction false} RecapAnchorDropped()
    ensures NewArticleUrls(["/wiki/2012/March/5"], {"Old_story"}) == []
  {
    RecapPostComplete("/wiki/2012/March/5", 10, 16, 18);
  }

  lemma {:induction false} KnownAnchorDropped()
    ensures NewArticleUrls(["/wiki/Old_story"], {"Old_story"}) == []
  {
    SlugExample("Old_story");
    assert "/wiki/" + "Old_story" == "/wiki/Old_story";
  }

  lemma {:induction false} NewAnchorKept()
    ensures NewArticleUrls(["/wiki/New_story"], {"Old_story"}) == [BASE_URL + "/wiki/New_story"]
  {
    var h := "/wiki/New_story";
    SlugExample("New_story");
    assert "/wiki/" + "New_story" == h;
    assert !IsRecapPost(h);
    assert [h][1..] == [];
  }

  /** Three anchors, one a recap post and one already imported, give one URL to fetch. */
  lemma {:induction false} ListingExample()
    ensures NewArticleUrls(["/wiki/2012/March/5", "/wiki/Old_story", "/wiki/New_story"], {"Old_story"})
         == [BASE_URL + "/wiki/New_story"]
  {
    var recap, seen, unseen := "/wiki/2012/March/5", "/wiki/Old_story", "/wiki/New_story";
    RecapAnchorDropped();
    KnownAnchorDropped();
    NewAnchorKept();
    assert [recap, seen, unseen] == [recap] + [seen] + [unseen];
    NewArticleUrlsConcat([recap] + [seen], [unseen], {"Old_story"});
    NewArticleUrlsConcat([recap], [seen], {"Old_story"});
  }
}
