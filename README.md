# Wikinews demo-data import: article extraction and link filtering

This project models the core of the `load_demo_data` command:

- It turns a Wikinews article page into an article record: title, publication date, draft flag, body, categories and summary.
- It decides which links on a daily category listing are new articles to fetch.
- It maps the records to the article rows the command stores.

The page is modelled as already parsed. An article page is a `Page` value holding:

- the texts of its `h1` elements;
- the texts of its `.published` elements;
- the children of its `div.mw-content-ltr` content container, each an `Element(tag, cls, headline, text)`;
- the hrefs of its category links.

A listing page is the sequence of its anchors' hrefs. The set of slugs already in the database is an input set.

Modules:

- `Strings`: Python's substring test, `split(c)[-1]`, `join`, and the ASCII `\d`/`\w` classes.
- `Markup`: the body-selection loop. The method `SelectBody` is proved equal to two things: the loop's step-by-step meaning (`Walk`), and a declarative `Reference` (truncate at the first `center`, drop the first marker, emit every other child that is not skipped, rewriting `h2`). Lemmas prove the truncation, skip, draft and length properties about them.
- `Extract`: categories, summary, title, publication date and the whole `process_page`.
- `Links`: `is_recap_post`, proved equal to a regular-expression match; the slug; and the listing scan `ScanListing` with its counting and membership lemmas.
- `Loader`: `pub_status`, the stored row, the agreement between the path segment the scan looks up and the one the row is built from (both before `slugify`), and the URL-keyed record dictionary, where the last write wins.

The model follows the code, including where it departs from the design one would expect:

- Children visited before the first metadata marker are kept in the body. The marker itself is dropped, and later markers are kept.
- The `infobox`/`toc` test is an exact class match. The metadata test is a substring match on the class.
- There is no image extraction. `Element` has no thumbnail handling.
- A page without `h1` gets the title `""` and is not an error.
- A `.published` text that does not parse is an error (`DateParseError`), not a fallback to the current time. The current time is used only when there is no `.published` element.
- Categories keep their link order and are not de-duplicated.
- Duplicate anchors on a listing page each yield a URL.

## Model

| member | source | states |
|---|---|---|
| `Strings.ContainsIffOccurs` | armstrong/cli/experimental/commands/load_demo_data.py:26 | the substring test used for the metadata class holds exactly when the text occurs at some position |
| `Strings.AfterLast` | armstrong/cli/experimental/commands/load_demo_data.py:35 | `split(c)[-1]` is the suffix that holds no `c` and is preceded by `c` or is the whole string |
| `Strings.AfterLastIsFinalSegment` | armstrong/cli/experimental/commands/load_demo_data.py:98 | the last segment of `a + c + b`, when `b` holds no `c`, is `b` |
| `Strings.AfterLastOfConcat` | armstrong/cli/experimental/commands/load_demo_data.py:101 | prefixing a string that holds `c` does not change its last `c`-segment |
| `Markup.Emit` | armstrong/cli/experimental/commands/load_demo_data.py:29-33 | an emitted child keeps its tag; a non-`h2` child is unchanged; an `h2` becomes a class-less `h2` whose text is its headline |
| `Markup.CenterIndex` | armstrong/cli/experimental/commands/load_demo_data.py:20-22 | the position of the first `center` child, or the child count when there is none |
| `Markup.FirstMarker` | armstrong/cli/experimental/commands/load_demo_data.py:25-28 | the position of the first child that is not skipped and whose class contains `metadata`, or the length |
| `Markup.WalkStep` | armstrong/cli/experimental/commands/load_demo_data.py:20-33 | a non-`center` child at the front is consumed by exactly one pass of the loop body (`Visit`) and the loop goes on with the rest |
| `Markup.VisitEmitsKept` | armstrong/cli/experimental/commands/load_demo_data.py:23-33 | a pass that does not set the draft flag appends the child's emitted image, or nothing when it is skipped |
| `Markup.WalkDrafted` | armstrong/cli/experimental/commands/load_demo_data.py:25-33 | once `is_draft` is set, every child before the first `center` that is not skipped is emitted, metadata children included |
| `Markup.SelectPrefixCons` | armstrong/cli/experimental/commands/load_demo_data.py:25-33 | a non-marker child in front of the children adds its emitted image in front of the declarative selection and leaves the draft flag alone |
| `Markup.WalkMatchesReference` | armstrong/cli/experimental/commands/load_demo_data.py:19-33 | the loop from a container with the draft flag off appends the declarative selection: truncate at `center`, drop the first marker, set the draft flag exactly when a marker was found, and emit the rest in order |
| `Markup.WalkFromStart` | armstrong/cli/experimental/commands/load_demo_data.py:19-33 | the loop from an empty container and the flag off yields exactly the declarative selection |
| `Markup.EmitKeptConcat` | armstrong/cli/experimental/commands/load_demo_data.py:29-33 | the body is an order-preserving image: the emission of `s + t` is that of `s` followed by that of `t` |
| `Markup.EmitKeptLength` | armstrong/cli/experimental/commands/load_demo_data.py:23-24 | one emitted element per child that is not skipped |
| `Markup.EmitKeptSound` | armstrong/cli/experimental/commands/load_demo_data.py:23-33 | every emitted element is the image of a child that is not skipped |
| `Markup.CenterCutsOff` | armstrong/cli/experimental/commands/load_demo_data.py:20-22 | nothing from the first `center` child onwards, that child included, affects the body or the draft flag |
| `Markup.NoCenterKeepsAll` | armstrong/cli/experimental/commands/load_demo_data.py:20-22 | without a `center` child no child is lost to truncation |
| `Markup.SkippedIsInvisible` | armstrong/cli/experimental/commands/load_demo_data.py:23-24 | an exact `infobox`/`toc` child is never emitted and never sets the draft flag: removing it changes nothing |
| `Markup.FirstMarkerOnlyDropped` | armstrong/cli/experimental/commands/load_demo_data.py:25-33 | the first marker is dropped and sets the draft flag; children before it are emitted; later children, markers included, are emitted unless skipped |
| `Markup.DraftIffMarker` | armstrong/cli/experimental/commands/load_demo_data.py:19-28 | `is_draft` holds exactly when some child before the first `center` is a marker |
| `Markup.BodyLength` | armstrong/cli/experimental/commands/load_demo_data.py:20-33 | body length = children before the first `center` − skipped ones − 1 if draft |
| `Markup.SelectBody` | armstrong/cli/experimental/commands/load_demo_data.py:19-33 | the loop with `break`/`continue` returns the loop semantics and the declarative selection, and `is_draft` iff a marker precedes the first `center` |
| `Extract.CategoryOf` | armstrong/cli/experimental/commands/load_demo_data.py:35-36 | an href yields at most one name, and that name holds neither `_` nor `:` |
| `Extract.Categories` | armstrong/cli/experimental/commands/load_demo_data.py:35-36 | no category contains `_` or `:`; at most one per link |
| `Extract.CategoriesConcat` | armstrong/cli/experimental/commands/load_demo_data.py:35-36 | categories keep link order; an href with `_` anywhere contributes nothing |
| `Extract.CategoriesMembers` | armstrong/cli/experimental/commands/load_demo_data.py:35-36 | a name is listed iff some href without `_` has it after its last `:` |
| `Extract.NonDiv` | armstrong/cli/experimental/commands/load_demo_data.py:39 | the selected children are never `div`s and are no more than the body |
| `Extract.NonDivConcat` | armstrong/cli/experimental/commands/load_demo_data.py:39 | the non-`div` selection keeps body order |
| `Extract.NthNonDiv` | armstrong/cli/experimental/commands/load_demo_data.py:39-40 | the j-th non-`div` child is at a body position with exactly j non-`div` children before it |
| `Extract.SummaryIsThirdNonDiv` | armstrong/cli/experimental/commands/load_demo_data.py:38-40 | the summary is `""` with fewer than three non-`div` children, else the text of the child at index 2 among them |
| `Extract.Title` | armstrong/cli/experimental/commands/load_demo_data.py:42 | a page without `h1` gets `""`, no error; one `h1` gives its text |
| `Extract.PublishedDate` | armstrong/cli/experimental/commands/load_demo_data.py:12-17 | no `.published` element gives `now`; otherwise the parsed date, or an error when it does not parse |
| `Extract.ProcessPage` | armstrong/cli/experimental/commands/load_demo_data.py:10-48 | fails exactly on an unparsable date; otherwise title, date, body/draft (the declarative selection), categories and summary of the body; draft iff a marker precedes `center` |
| `Links.AnchorEnd` | armstrong/cli/experimental/commands/load_demo_data.py:52 | the only position where a match of this pattern can satisfy `$`: `$` also matches at the very end of a string ending in a newline, but a match ending in a digit cannot end there, so it must end before that newline |
| `Links.WordRunBefore` | armstrong/cli/experimental/commands/load_demo_data.py:52 | the longest run of `\w` characters ending at a position |
| `Links.WordRunExact` | armstrong/cli/experimental/commands/load_demo_data.py:52 | a run of `\w` characters that cannot be extended to the left is the one computed |
| `Links.RecapPostSound` | armstrong/cli/experimental/commands/load_demo_data.py:51-52 | a positive recap test exhibits a match of four digits `/` word `/` one or two digits at the end anchor |
| `Links.RecapPostComplete` | armstrong/cli/experimental/commands/load_demo_data.py:51-52 | every such match makes the recap test positive |
| `Links.RecapPostIffPattern` | armstrong/cli/experimental/commands/load_demo_data.py:51-52 | `is_recap_post` holds iff the href has the pattern ending at its end or before a final newline |
| `Links.OneDigitDayRecap` | armstrong/cli/experimental/commands/load_demo_data.py:51-52 | `http://x/2020/march/5` is a recap post |
| `Links.TwoDigitDayRecap` | armstrong/cli/experimental/commands/load_demo_data.py:51-52 | `/wiki/2012/March/17` followed by a newline is a recap post |
| `Links.NonRecapExamples` | armstrong/cli/experimental/commands/load_demo_data.py:51-52 | `.../articles/some-title`, `/wiki/Some_title` and a three-digit day are not recap posts |
| `Links.Slug` | armstrong/cli/experimental/commands/load_demo_data.py:98 | the slug holds no `/` |
| `Links.SlugExample` | armstrong/cli/experimental/commands/load_demo_data.py:98 | the slug of `/wiki/<title>` is the title |
| `Links.NewArticleUrlsConcat` | armstrong/cli/experimental/commands/load_demo_data.py:95-101 | the scan keeps document order and never de-duplicates |
| `Links.NewArticleUrlsMembers` | armstrong/cli/experimental/commands/load_demo_data.py:95-101 | a URL is collected iff it is `BASE_URL` + the href of an anchor that is neither a recap post nor has a known slug |
| `Links.NewArticleUrlsLength` | armstrong/cli/experimental/commands/load_demo_data.py:95-101 | URLs = anchors − recap anchors − known-slug anchors + anchors that are both |
| `Links.ScanStep` | armstrong/cli/experimental/commands/load_demo_data.py:95-101 | scanning one more anchor appends exactly what that anchor contributes |
| `Links.ScanListing` | armstrong/cli/experimental/commands/load_demo_data.py:94-101 | the loop with `continue` collects exactly the scan's URLs |
| `Links.DuplicatesKept` | armstrong/cli/experimental/commands/load_demo_data.py:101 | a new article linked twice yields its URL twice |
| `Links.ListingExample` | armstrong/cli/experimental/commands/load_demo_data.py:95-101 | three anchors, one a recap post and one known, give exactly one URL |
| `Loader.PubStatus` | armstrong/cli/experimental/commands/load_demo_data.py:112 | the status is `"D"` or `"P"`, and `"D"` iff the record is a draft |
| `Loader.PubStatusOfPage` | armstrong/cli/experimental/commands/load_demo_data.py:112 | a page is stored with `"D"` iff a metadata marker precedes its first `center` child |
| `Loader.RowFor` | armstrong/cli/experimental/commands/load_demo_data.py:107-116 | the row's slug is the URL's last `/` segment; status `"D"` iff draft; the other fields come from the record |
| `Loader.FetchedSlugIsCheckedSlug` | armstrong/cli/experimental/commands/load_demo_data.py:98-108 | for an href holding `/`, the last path segment of `BASE_URL + href` (line 108, before `slugify` at line 111) is the segment the scan looked up at lines 98-99 |
| `Loader.StoredKeys` | armstrong/cli/experimental/commands/load_demo_data.py:103-104 | afterwards the dictionary's keys are the old keys and the batch's URLs |
| `Loader.StoredLastWriteWins` | armstrong/cli/experimental/commands/load_demo_data.py:103-104 | a URL of the batch maps to the record of its last occurrence |
| `Loader.StoredLeavesOthers` | armstrong/cli/experimental/commands/load_demo_data.py:103-104 | a URL outside the batch keeps its earlier record |
| `Loader.StoreBatch` | armstrong/cli/experimental/commands/load_demo_data.py:103-104 | the loop of assignments yields the dictionary described by the lemmas above |

## Left out

- Network I/O is a caller's concern. This covers `requests.get` of the listing page, the status-code check that raises, and the concurrent `async.get`/`async.map` fetch of articles. The scan returns the URLs to fetch, and `StoreBatch` takes the extracted records.
- The Django ORM and persistence are not modelled. The database lookup of known slugs is the `known` input set. Creating articles, sections, the well type and the front-page well (`create_front_page_well`) is external.
- `slugify` is an external filter. Rows carry the slug before it is applied, and sections carry the category names.
- The command plumbing is not modelled: option parsing, `__call__`, the progress `print` and the module-level command object.
- HTML parsing and serialisation are not modelled. The page arrives parsed. The body is the element sequence, not the stripped `html()` string. The summary reads that sequence, on the assumption that re-parsing the serialised body gives back the same top-level elements. That assumption fails for a one-element body, where the parser would yield that element's children instead.
- The parser's tree mutation is not modelled. Appending a child to the article moves it out of the document, so lookups after the loop would miss the elements inside moved children. That covers the category links (lines 35-36) and the `h1` lookup for the title (line 42). The model takes both `Page.categoryHrefs` and `Page.headings` as separate inputs.
- The clock and the date library are parameters. `datetime.now` is the `now` argument and `strptime` is the `parse` argument. The day loop is not modelled: it walks back `number` days from today and builds each category URL with `strftime`.
- Anchors without an `href` attribute are not modelled. Each anchor is its href here, while an anchor lacking one raises `KeyError` in the source.
- Loader.FetchedSlugIsCheckedSlug: requires the href to contain `/`. For an href without one, the segment taken after prefixing `BASE_URL` differs from the segment that was looked up.
- Loader.FetchedSlugIsCheckedSlug: relates the raw segments only. The row stores `slugify(slug)` (line 111), while the scan looks up the raw segment (lines 98-99). The two agree only when `slugify` leaves the segment unchanged: `/wiki/Some_Title` is stored as `some_title` and looked up as `Some_Title` on a later run, so an earlier import can go unrecognised. `slugify` is external, so the model does not promise this agreement.
- Extract.Title: the contract states only the cases of no heading and one heading. Several `h1` texts are joined by single spaces (`Join`), and older parser versions returned no text at all for an empty selection.
