/** String helpers with the meaning Python 2 gives them on byte strings. */
module Strings {
  import opened Basics

  /** The regular-expression class `\d` without the UNICODE flag. */
  predicate IsDigit(c: char) {
    '0' <= c <= '9'
  }

  /** The regular-expression class `\w` without the UNICODE flag. */
  predicate IsWordChar(c: char) {
    'a' <= c <= 'z' || 'A' <= c <= 'Z' || IsDigit(c) || c == '_'
  }

  /** Every character of `s[lo..hi]` is a digit. */
  predicate DigitsIn(s: string, lo: nat, hi: nat)
    requires lo <= hi <= |s|
  {
    forall i :: lo <= i < hi ==> IsDigit(s[i])
  }

  /** Every character of `s[lo..hi]` is a word character. */
  predicate WordIn(s: string, lo: nat, hi: nat)
    requires lo <= hi <= |s|
  {
    forall i :: lo <= i < hi ==> IsWordChar(s[i])
  }

  /** `sub` occurs in `s` starting at index `i`. */
  ghost predicate OccursAt(s: string, sub: string, i: int) {
    0 <= i && i + |sub| <= |s| && s[i..i + |sub|] == sub
  }

  /** Python's `sub in s` on strings. */
  predicate Contains(s: string, sub: string)
    decreases |s|
  {
    sub <= s || (s != [] && Contains(s[1..], sub))
  }

  /** An occurrence in the tail of `s` is an occurrence in `s` one place further on. */
  lemma {:induction false} OccursInTail(s: string, sub: string, i: nat)
    requires s != []
    ensures OccursAt(s[1..], sub, i) <==> OccursAt(s, sub, i + 1)
  {
    if i + |sub| <= |s| - 1 {
      assert s[1..][i..i + |sub|] == s[i + 1..i + 1 + |sub|];
    }
  }

  lemma {:induction false} ContainsIffOccurs(s: string, sub: string)
    ensures Contains(s, sub) <==> exists i :: OccursAt(s, sub, i)
    decreases |s|
  {
    if s != [] {
      ContainsIffOccurs(s[1..], sub);
    }
    if Contains(s, sub) {
      if sub <= s {
        assert OccursAt(s, sub, 0);
      } else {
        var j :| OccursAt(s[1..], sub, j);
        OccursInTail(s, sub, j);
      }
    }
    if exists i :: OccursAt(s, sub, i) {
      var i :| OccursAt(s, sub, i);
      if i == 0 {
        assert s[..|sub|] == sub;
      } else {
        OccursInTail(s, sub, i - 1);
      }
    }
  }

  /** Python's `s.split(c)[-1]`: the part of `s` after its last `c`, or all of `s` when it has none. */
  function AfterLast(s: string, c: char): (r: string)
    ensures |r| <= |s| && r == s[|s| - |r|..]
    ensures c !in r
    ensures |r| < |s| ==> s[|s| - |r| - 1] == c
  {
    if s == [] then []
    else if s[|s| - 1] == c then []
    else AfterLast(s[..|s| - 1], c) + [s[|s| - 1]]
  }

  /** One more character at the end either ends the last segment or extends it. */
  lemma {:induction false} AfterLastSnoc(s: string, x: char, c: char)
    ensures AfterLast(s + [x], c) == if x == c then [] else AfterLast(s, c) + [x]
  {
    assert (s + [x])[|s|] == x && (s + [x])[..|s|] == s;
  }

  /** The part after the last `c` of `a + [c] + b`, when `b` holds no `c`, is `b`. */
  lemma {:induction false} AfterLastIsFinalSegment(a: string, c: char, b: string)
    requires c !in b
    ensures AfterLast(a + [c] + b, c) == b
    decreases |b|
  {
    if b == [] {
      assert a + [c] + b == a + [c];
      AfterLastSnoc(a, c, c);
    } else {
      var b', x := b[..|b| - 1], b[|b| - 1];
      assert b == b' + [x];
      ConcatAssoc(a + [c], b', [x]);
      AfterLastIsFinalSegment(a, c, b');
      AfterLastSnoc(a + [c] + b', x, c);
    }
  }

  /** When `b` holds a `c`, what follows the last `c` of `a + b` lies in `b`. */
  lemma {:induction false} AfterLastOfConcat(a: string, b: string, c: char)
    requires c in b
    ensures AfterLast(a + b, c) == AfterLast(b, c)
    decreases |b|
  {
    var b', x := b[..|b| - 1], b[|b| - 1];
    assert b == b' + [x];
    ConcatAssoc(a, b', [x]);
    AfterLastSnoc(a + b', x, c);
    AfterLastSnoc(b', x, c);
    if x != c {
      AfterLastOfConcat(a, b', c);
    }
  }

  /** Python's `sep.join(parts)`. */
  function Join(parts: seq<string>, sep: string): (r: string)
    ensures parts == [] ==> r == []
    ensures |parts| == 1 ==> r == parts[0]
  {
    if parts == [] then []
    else if |parts| == 1 then parts[0]
    else parts[0] + sep + Join(parts[1..], sep)
  }
}
