/**
 * The body-selection loop of `process_page`: the children of the page's
 * `div.mw-content-ltr` container are walked in document order; the walk stops
 * at the first `center` child (the "contribute" call to action), skips the
 * children whose class is exactly `infobox` or `toc`, lets the first child whose
 * class contains `metadata` mark the article as a draft (that child itself is
 * dropped), rewrites `h2` children to their headline text and keeps everything
 * else as it is.
 */
module Markup {
  import opened Basics
  import opened Strings

  /**
   * One child of the content container as the extractor sees it: its tag, its
   * class attribute ("" when it has none), the text of its `.mw-headline`
   * descendant ("" when it has none) and its text content.
   */
  datatype Element = Element(tag: string, cls: string, headline: string, text: string)

  /** The footer call to action that ends the article. */
  predicate IsCenter(e: Element) {
    e.tag == "center"
  }

  /** Infobox and table of contents: an exact class match, not a class list. */
  predicate IsSkipped(e: Element) {
    e.cls == "infobox" || e.cls == "toc"
  }

  /** A child that turns the draft flag on when it is seen before any other. */
  predicate IsMarker(e: Element) {
    !IsSkipped(e) && Contains(e.cls, "metadata")
  }

  /** What the article container receives for a retained child. */
  function Emit(e: Element): (r: Element)
    ensures r.tag == e.tag
    ensures e.tag != "h2" ==> r == e
    ensures e.tag == "h2" ==> r.text == e.headline && r.cls == "" && r.headline == ""
  {
    if e.tag == "h2" then Element("h2", "", "", e.headline) else e
  }

  /** The article container built so far and the draft flag. */
  datatype Selection = Selection(body: seq<Element>, isDraft: bool)

  /** The state before the first child: an empty container, not a draft. */
  const Start := Selection([], false)

  /** One pass of the loop body on a child that is not the `center` child. */
  function Visit(acc: Selection, e: Element): Selection
  {
    if IsSkipped(e) then acc
    else if !acc.isDraft && IsMarker(e) then Selection(acc.body, true)
    else Selection(acc.body + [Emit(e)], acc.isDraft)
  }

  /** The loop over `cs` from the state `acc`, child by child, up to the first `center` child. */
  function Walk(cs: seq<Element>, acc: Selection): Selection
    decreases |cs|
  {
    if cs == [] || IsCenter(cs[0]) then acc else Walk(cs[1..], Visit(acc, cs[0]))
  }

  /** The position of the first `center` child, or `|cs|` when there is none. */
  function CenterIndex(cs: seq<Element>): (k: nat)
    ensures k <= |cs|
    ensures forall i :: 0 <= i < k ==> !IsCenter(cs[i])
    ensures k < |cs| ==> IsCenter(cs[k])
  {
    if cs == [] || IsCenter(cs[0]) then 0 else 1 + CenterIndex(cs[1..])
  }

  /** The position of the first draft marker in `s`, or `|s|` when there is none. */
  function FirstMarker(s: seq<Element>): (k: nat)
    ensures k <= |s|
    ensures forall i :: 0 <= i < k ==> !IsMarker(s[i])
    ensures k < |s| ==> IsMarker(s[k])
  {
    if s == [] || IsMarker(s[0]) then 0 else 1 + FirstMarker(s[1..])
  }

  /** The emitted images of the children of `s` that are not skipped, in order. */
  function EmitKept(s: seq<Element>): seq<Element>
  {
    if s == [] then [] else (if IsSkipped(s[0]) then [] else [Emit(s[0])]) + EmitKept(s[1..])
  }

  /**
   * The selection from children none of which is `center`, described as a whole:
   * the first marker is dropped and sets the draft flag; every other child that is
   * not skipped is emitted in order.
   */
  function SelectPrefix(p: seq<Element>): Selection
  {
    var m := FirstMarker(p);
    if m < |p| then Selection(EmitKept(p[..m]) + EmitKept(p[m + 1..]), true)
    else Selection(EmitKept(p), false)
  }

  /** The reference selection: only the children before the first `center` matter. */
  function Reference(cs: seq<Element>): Selection
  {
    SelectPrefix(cs[..CenterIndex(cs)])
  }

  lemma {:induction false} EmitKeptConcat(s: seq<Element>, t: seq<Element>)
    ensures EmitKept(s + t) == EmitKept(s) + EmitKept(t)
  {
    if s == [] {
      assert s + t == t;
    } else {
      assert (s + t)[1..] == s[1..] + t;
      EmitKeptConcat(s[1..], t);
    }
  }

  lemma {:induction false} EmitKeptLength(s: seq<Element>)
    ensures |EmitKept(s)| == |s| - Count(s, IsSkipped)
  {
    if s != [] {
      EmitKeptLength(s[1..]);
    }
  }

  /** Each emitted element is the image of a child that is not skipped. */
  lemma {:induction false} EmitKeptSound(s: seq<Element>, k: nat)
    requires k < |EmitKept(s)|
    ensures exists i :: 0 <= i < |s| && !IsSkipped(s[i]) && EmitKept(s)[k] == Emit(s[i])
  {
    if IsSkipped(s[0]) {
      EmitKeptSound(s[1..], k);
      var i :| 0 <= i < |s[1..]| && !IsSkipped(s[1..][i]) && EmitKept(s[1..])[k] == Emit(s[1..][i]);
      assert s[i + 1] == s[1..][i];
    } else if k > 0 {
      EmitKeptSound(s[1..], k - 1);
      var i :| 0 <= i < |s[1..]| && !IsSkipped(s[1..][i]) && EmitKept(s[1..])[k - 1] == Emit(s[1..][i]);
      assert s[i + 1] == s[1..][i];
    } else {
      assert EmitKept(s)[0] == Emit(s[0]);
    }
  }

  /** One step of the loop on a child that is not the `center` child. */
  lemma {:induction false} WalkStep(x: Element, rest: seq<Element>, acc: Selection)
    requires !IsCenter(x)
    ensures Walk([x] + rest, acc) == Walk(rest, Visit(acc, x))
  {
    assert ([x] + rest)[0] == x && ([x] + rest)[1..] == rest;
  }

  /** A child that does not set the draft flag adds its emitted image unless it is skipped. */
  lemma {:induction false} VisitEmitsKept(acc: Selection, x: Element)
    requires acc.isDraft || !IsMarker(x)
    ensures Visit(acc, x) == Selection(acc.body + EmitKept([x]), acc.isDraft)
  {
    assert [x][0] == x && [x][1..] == [];
    if IsSkipped(x) {
      assert acc.body + [] == acc.body;
    } else {
      assert EmitKept([x]) == [Emit(x)] + [];
    }
  }

  /** One step of the loop on a child that leaves the draft flag as it is. */
  lemma {:induction false} WalkStepKept(x: Element, rest: seq<Element>, b: seq<Element>, draft: bool)
    requires !IsCenter(x) && (draft || !IsMarker(x))
    ensures Walk([x] + rest, Selection(b, draft)) == Walk(rest, Selection(b + EmitKept([x]), draft))
  {
    WalkStep(x, rest, Selection(b, draft));
    VisitEmitsKept(Selection(b, draft), x);
  }

  /** Emitting one child and then a list is emitting the list with that child in front. */
  lemma {:induction false} EmitKeptCons(b: seq<Element>, x: Element, t: seq<Element>)
    ensures b + EmitKept([x]) + EmitKept(t) == b + EmitKept([x] + t)
  {
    EmitKeptConcat([x], t);
    ConcatAssoc(b, EmitKept([x]), EmitKept(t));
  }

  /** Once the draft flag is set, the loop emits every child before the first `center` that is not skipped. */
  lemma {:induction false} WalkDrafted(cs: seq<Element>, b: seq<Element>)
    ensures Walk(cs, Selection(b, true)) == Selection(b + EmitKept(cs[..CenterIndex(cs)]), true)
    decreases |cs|
  {
    if cs == [] || IsCenter(cs[0]) {
      assert cs[..CenterIndex(cs)] == [];
      assert b + [] == b;
    } else {
      var x, rest := cs[0], cs[1..];
      assert cs == [x] + rest;
      WalkStepKept(x, rest, b, true);
      WalkDrafted(rest, b + EmitKept([x]));
      assert cs[..CenterIndex(cs)] == [x] + rest[..CenterIndex(rest)];
      EmitKeptCons(b, x, rest[..CenterIndex(rest)]);
    }
  }

  /** A child that is not `center` in front of a list moves its first `center` one place on. */
  lemma {:induction false} CenterIndexCons(x: Element, rest: seq<Element>)
    requires !IsCenter(x)
    ensures CenterIndex([x] + rest) == 1 + CenterIndex(rest)
    ensures ([x] + rest)[..CenterIndex([x] + rest)] == [x] + rest[..CenterIndex(rest)]
  {
    assert ([x] + rest)[0] == x && ([x] + rest)[1..] == rest;
  }

  /** A child in front of a list is its first marker, or moves the first marker one place on. */
  lemma {:induction false} FirstMarkerCons(x: Element, q: seq<Element>)
    ensures FirstMarker([x] + q) == if IsMarker(x) then 0 else 1 + FirstMarker(q)
  {
    assert ([x] + q)[0] == x && ([x] + q)[1..] == q;
  }

  /** The reference selection of a list that starts with a marker. */
  lemma {:induction false} ReferenceAfterMarker(x: Element, rest: seq<Element>)
    requires !IsCenter(x) && IsMarker(x)
    ensures Reference([x] + rest) == Selection(EmitKept(rest[..CenterIndex(rest)]), true)
  {
    var q := rest[..CenterIndex(rest)];
    CenterIndexCons(x, rest);
    FirstMarkerCons(x, q);
    assert ([x] + q)[..0] == [] && ([x] + q)[1..] == q;
  }

  /** Slicing around position `1 + n` of `[x] + q` is slicing around `n` in `q`. */
  lemma {:induction false} ConsSlices(x: Element, q: seq<Element>, n: nat)
    requires n < |q|
    ensures ([x] + q)[..1 + n] == [x] + q[..n]
    ensures ([x] + q)[1 + n + 1..] == q[n + 1..]
  {
  }

  /** A child that is not a marker in front of a center-free list adds its emitted image in front. */
  lemma {:induction false} SelectPrefixCons(x: Element, q: seq<Element>)
    requires !IsMarker(x)
    ensures SelectPrefix([x] + q) == Selection(EmitKept([x]) + SelectPrefix(q).body, SelectPrefix(q).isDraft)
  {
    FirstMarkerCons(x, q);
    var n := FirstMarker(q);
    if n < |q| {
      ConsSlices(x, q, n);
      EmitKeptConcat([x], q[..n]);
      ConcatAssoc(EmitKept([x]), EmitKept(q[..n]), EmitKept(q[n + 1..]));
    } else {
      EmitKeptConcat([x], q);
    }
  }

  /** The reference selection of a list that starts with a child that is not a marker. */
  lemma {:induction false} ReferenceAfterOther(x: Element, rest: seq<Element>)
    requires !IsCenter(x) && !IsMarker(x)
    ensures Reference([x] + rest)
         == Selection(EmitKept([x]) + Reference(rest).body, Reference(rest).isDraft)
  {
    CenterIndexCons(x, rest);
    SelectPrefixCons(x, rest[..CenterIndex(rest)]);
  }

  /** The loop, from a container `b` with the draft flag off, appends the reference selection to `b`. */
  lemma {:induction false} WalkMatchesReference(cs: seq<Element>, b: seq<Element>)
    ensures Walk(cs, Selection(b, false)) == Selection(b + Reference(cs).body, Reference(cs).isDraft)
    decreases |cs|
  {
    if cs == [] || IsCenter(cs[0]) {
      assert cs[..CenterIndex(cs)] == [];
      assert b + [] == b;
    } else {
      var x, rest := cs[0], cs[1..];
      assert cs == [x] + rest;
      if IsMarker(x) {
        WalkDrafted(rest, b);
        ReferenceAfterMarker(x, rest);
      } else {
        WalkStepKept(x, rest, b, false);
        WalkMatchesReference(rest, b + EmitKept([x]));
        ReferenceAfterOther(x, rest);
        ConcatAssoc(b, EmitKept([x]), Reference(rest).body);
      }
    }
  }

  /** The loop from the start state yields the reference selection. */
  lemma {:induction false} WalkFromStart(cs: seq<Element>)
    ensures Walk(cs, Start) == Reference(cs)
  {
    WalkMatchesReference(cs, []);
    assert [] + Reference(cs).body == Reference(cs).body;
  }

  /** Nothing at or after the first `center` child reaches the result. */
  lemma {:induction false} CenterCutsOff(pre: seq<Element>, c: Element, post: seq<Element>, acc: Selection)
    requires forall i :: 0 <= i < |pre| ==> !IsCenter(pre[i])
    requires IsCenter(c)
    ensures Walk(pre + [c] + post, acc) == Walk(pre, acc)
    decreases |pre|
  {
    if pre == [] {
      assert ([] + [c] + post)[0] == c;
    } else {
      assert (pre + [c] + post)[0] == pre[0];
      assert (pre + [c] + post)[1..] == pre[1..] + [c] + post;
      CenterCutsOff(pre[1..], c, post, Visit(acc, pre[0]));
    }
  }

  /** Without a `center` child no child is lost to truncation. */
  lemma {:induction false} NoCenterKeepsAll(cs: seq<Element>)
    requires forall i :: 0 <= i < |cs| ==> !IsCenter(cs[i])
    ensures CenterIndex(cs) == |cs|
    ensures var m := FirstMarker(cs);
            Walk(cs, Start).body == if m < |cs| then EmitKept(cs[..m]) + EmitKept(cs[m + 1..]) else EmitKept(cs)
  {
    WalkFromStart(cs);
    assert CenterIndex(cs) == |cs|;
    assert cs[..|cs|] == cs;
  }

  /** An exact `infobox` or `toc` child is never emitted and never sets the draft flag. */
  lemma {:induction false} SkippedIsInvisible(pre: seq<Element>, e: Element, post: seq<Element>, acc: Selection)
    requires forall i :: 0 <= i < |pre| ==> !IsCenter(pre[i])
    requires IsSkipped(e) && !IsCenter(e)
    ensures Walk(pre + [e] + post, acc) == Walk(pre + post, acc)
    decreases |pre|
  {
    if pre == [] {
      assert ([] + [e] + post)[0] == e && ([] + [e] + post)[1..] == post;
      assert [] + post == post;
    } else {
      assert (pre + [e] + post)[0] == pre[0] && (pre + post)[0] == pre[0];
      assert (pre + [e] + post)[1..] == pre[1..] + [e] + post;
      assert (pre + post)[1..] == pre[1..] + post;
      SkippedIsInvisible(pre[1..], e, post, Visit(acc, pre[0]));
    }
  }

  /**
   * The first marker is dropped and sets the draft flag; the children before it
   * are emitted normally and the ones after it, later markers included, are emitted
   * unless skipped (up to the first `center`).
   */
  lemma {:induction false} FirstMarkerOnlyDropped(pre: seq<Element>, m: Element, post: seq<Element>, b: seq<Element>)
    requires forall i :: 0 <= i < |pre| ==> !IsCenter(pre[i]) && !IsMarker(pre[i])
    requires IsMarker(m) && !IsCenter(m)
    ensures Walk(pre + [m] + post, Selection(b, false))
         == Selection(b + EmitKept(pre) + EmitKept(post[..CenterIndex(post)]), true)
    decreases |pre|
  {
    if pre == [] {
      assert [] + [m] + post == [m] + post;
      WalkStep(m, post, Selection(b, false));
      WalkDrafted(post, b);
    } else {
      var x := pre[0];
      assert pre + [m] + post == [x] + (pre[1..] + [m] + post);
      WalkStepKept(x, pre[1..] + [m] + post, b, false);
      FirstMarkerOnlyDropped(pre[1..], m, post, b + EmitKept([x]));
      assert pre == [x] + pre[1..];
      EmitKeptCons(b, x, pre[1..]);
    }
  }

  /** The draft flag is set exactly when a marker precedes the first `center`. */
  lemma {:induction false} DraftIffMarker(cs: seq<Element>)
    ensures Walk(cs, Start).isDraft <==> exists i :: 0 <= i < CenterIndex(cs) && IsMarker(cs[i])
  {
    WalkFromStart(cs);
    var p := cs[..CenterIndex(cs)];
    if exists i :: 0 <= i < CenterIndex(cs) && IsMarker(cs[i]) {
      var i :| 0 <= i < CenterIndex(cs) && IsMarker(cs[i]);
      assert IsMarker(p[i]);
    }
  }

  /** The body has one element per child before the first `center` that is neither skipped nor the first marker. */
  lemma {:induction false} BodyLength(cs: seq<Element>)
    ensures var p := cs[..CenterIndex(cs)];
            |Walk(cs, Start).body| == CenterIndex(cs) - Count(p, IsSkipped) - (if Walk(cs, Start).isDraft then 1 else 0)
  {
    WalkFromStart(cs);
    var p := cs[..CenterIndex(cs)];
    var m := FirstMarker(p);
    if m < |p| {
      assert p == p[..m] + [p[m]] + p[m + 1..];
      CountConcat(p[..m] + [p[m]], p[m + 1..], IsSkipped);
      CountConcat(p[..m], [p[m]], IsSkipped);
      EmitKeptLength(p[..m]);
      EmitKeptLength(p[m + 1..]);
    } else {
      EmitKeptLength(p);
    }
  }

  /** The loop of `process_page` over the content container's children. */
  method SelectBody(children: seq<Element>) returns (body: seq<Element>, isDraft: bool)
    ensures Selection(body, isDraft) == Walk(children, Start) == Reference(children)
    ensures isDraft <==> exists i :: 0 <= i < CenterIndex(children) && IsMarker(children[i])
  {
    body, isDraft := [], false;
    for i := 0 to |children|
      invariant Walk(children, Start) == Walk(children[i..], Selection(body, isDraft))
    {
      var e := children[i];
      assert children[i..][0] == e && children[i..][1..] == children[i + 1..];
      if e.tag == "center" {
        break;
      }
      if e.cls == "infobox" || e.cls == "toc" {
        continue;
      }
      if !isDraft {
        isDraft := Contains(e.cls, "metadata");
        if isDraft {
          continue;
        }
      }
      if e.tag == "h2" {
        body := body + [Element("h2", "", "", e.headline)];
      } else {
        body := body + [e];
      }
    }
    WalkFromStart(children);
    DraftIffMarker(children);
  }
}
