/**
 * The string layer of the scraper: a literal, left-to-right, non-overlapping
 * replace-all (what `str.replace(new RegExp(find, 'g'), replace)` does when
 * `find` holds no regular-expression metacharacter), the `split`/`join` pair
 * it is equivalent to, and the entity unescaping built from it.
 */
module Text {

  import opened Wrappers

  /** The three entities the scraper decodes. */
  const LT_ENTITY := "&lt;"
  const GT_ENTITY := "&gt;"
  const QUOT_ENTITY := "&quot;"

  /** JavaScript's `s.startsWith(p)`. */
  predicate StartsWith(s: string, p: string) {
    p <= s
  }

  /** `p` occurs in `s` as a contiguous substring. */
  predicate Contains(s: string, p: string)
    decreases |s|
  {
    StartsWith(s, p) || (|s| > 0 && Contains(s[1..], p))
  }

  /** No character of `x` is a character of `y`. */
  predicate SharesNoChar(x: string, y: string) {
    forall i, j :: 0 <= i < |x| && 0 <= j < |y| ==> x[i] != y[j]
  }

  /**
   * Replace every occurrence of `find` by `rep`, scanning left to right: where
   * `find` starts, emit `rep` and continue after the match; otherwise keep one
   * character and move on by one.
   */
  function ReplaceAll(s: string, find: string, rep: string): (r: string)
    requires |find| > 0
    ensures |rep| == |find| ==> |r| == |s|
    ensures |rep| < |find| ==> |r| <= |s|
    decreases |s|
  {
    if |s| == 0 then []
    else if StartsWith(s, find) then rep + ReplaceAll(s[|find|..], find, rep)
    else [s[0]] + ReplaceAll(s[1..], find, rep)
  }

  /** JavaScript's `s.split(sep)` for a non-empty literal separator. */
  function Split(s: string, sep: string): (parts: seq<string>)
    requires |sep| > 0
    ensures |parts| >= 1
    decreases |s|
  {
    if |s| == 0 then [[]]
    else if StartsWith(s, sep) then [[]] + Split(s[|sep|..], sep)
    else
      var rest := Split(s[1..], sep);
      [[s[0]] + rest[0]] + rest[1..]
  }

  /** JavaScript's `parts.join(sep)`. */
  function Join(parts: seq<string>, sep: string): string
    decreases |parts|
  {
    if |parts| == 0 then []
    else if |parts| == 1 then parts[0]
    else parts[0] + sep + Join(parts[1..], sep)
  }

  /** `getHTML`: unescape `&lt;` to `<`, then `&gt;` to `>`; nothing else. */
  function GetHtml(s: string): (html: string)
    ensures !Contains(html, LT_ENTITY) && !Contains(html, GT_ENTITY)
    ensures !Contains(s, LT_ENTITY) && !Contains(s, GT_ENTITY) ==> html == s
  {
    var once := ReplaceAll(s, LT_ENTITY, "<");
    ReplaceAllOccurrences(s, LT_ENTITY, "<", LT_ENTITY);
    ReplaceAllOccurrences(once, GT_ENTITY, ">", GT_ENTITY);
    ReplaceAllOccurrences(once, GT_ENTITY, ">", LT_ENTITY);
    ReplaceAllNoMatch(s, LT_ENTITY, "<");
    ReplaceAllNoMatch(s, GT_ENTITY, ">");
    ReplaceAll(once, GT_ENTITY, ">")
  }

  // ---------------------------------------------------------------------------
  // Substrings

  /** An occurrence in a suffix is an occurrence in the whole string. */
  lemma {:induction false} ContainsFromSuffix(s: string, p: string, k: nat)
    requires k <= |s| && Contains(s[k..], p)
    ensures Contains(s, p)
  {
    if k > 0 {
      assert s[k - 1..][1..] == s[k..];
      ContainsFromSuffix(s, p, k - 1);
    }
  }

  /** An occurrence of a non-empty `p` contains the first character of `p`. */
  lemma {:induction false} ContainsHead(s: string, p: string)
    requires |p| > 0
    ensures Contains(s, p) ==> p[0] in s
    decreases |s|
  {
    if |s| > 0 && !StartsWith(s, p) {
      ContainsHead(s[1..], p);
      assert p[0] in s[1..] ==> p[0] in s;
    }
  }

  /** An occurrence in `a + b` cannot start inside `a` when `a` lacks the first character of `p`. */
  lemma {:induction false} ContainsSkip(a: string, b: string, p: string)
    requires |p| > 0 && p[0] !in a
    ensures Contains(a + b, p) ==> Contains(b, p)
    decreases |a|
  {
    if |a| == 0 {
      assert a + b == b;
    } else {
      assert (a + b)[0] == a[0];
      assert (a + b)[1..] == a[1..] + b;
      assert forall c :: c in a[1..] ==> c in a;
      ContainsSkip(a[1..], b, p);
    }
  }

  // ---------------------------------------------------------------------------
  // What replace-all does to prefixes and occurrences

  /** A prefix of the output that has no character of `rep` was already a prefix of the input. */
  lemma {:induction false} PrefixSurvives(t: string, find: string, rep: string, w: string)
    requires |find| > 0 && |rep| > 0 && SharesNoChar(rep, w)
    ensures StartsWith(ReplaceAll(t, find, rep), w) ==> StartsWith(t, w)
    decreases |t|
  {
    var r := ReplaceAll(t, find, rep);
    if |w| > 0 && StartsWith(r, w) {
      assert |t| > 0;
      assert r[0] == w[0];
      assert StartsWith(t, find) ==> StartsWith(r, rep);
      assert rep[0] != w[0];
      assert !StartsWith(t, find);
      assert r == [t[0]] + ReplaceAll(t[1..], find, rep);
      assert StartsWith(ReplaceAll(t[1..], find, rep), w[1..]);
      PrefixSurvives(t[1..], find, rep, w[1..]);
    }
  }

  /** A prefix of the input that holds no first character of `find` is kept in the output. */
  lemma {:induction false} PrefixKept(t: string, find: string, rep: string, w: string)
    requires |find| > 0 && find[0] !in w
    ensures StartsWith(t, w) ==> StartsWith(ReplaceAll(t, find, rep), w)
    decreases |t|
  {
    if |w| > 0 && StartsWith(t, w) {
      assert t[0] == w[0];
      assert !StartsWith(t, find);
      assert forall c :: c in w[1..] ==> c in w;
      PrefixKept(t[1..], find, rep, w[1..]);
    }
  }

  /**
   * Every occurrence of a pattern `pat` that shares no character with `rep`
   * in the output of replace-all was already in the input, and `pat` is not
   * `find` itself: replacing never creates such a pattern, and leaves no
   * occurrence of `find` behind.
   */
  lemma {:induction false} ReplaceAllOccurrences(s: string, find: string, rep: string, pat: string)
    requires |find| > 0 && |rep| > 0 && |pat| > 0 && SharesNoChar(rep, pat)
    ensures Contains(ReplaceAll(s, find, rep), pat) ==> pat != find && Contains(s, pat)
    decreases |s|
  {
    var r := ReplaceAll(s, find, rep);
    if Contains(r, pat) {
      assert |s| > 0;
      if StartsWith(s, find) {
        var rest := ReplaceAll(s[|find|..], find, rep);
        assert r == rep + rest;
        assert pat[0] !in rep;
        ContainsSkip(rep, rest, pat);
        ReplaceAllOccurrences(s[|find|..], find, rep, pat);
        ContainsFromSuffix(s, pat, |find|);
      } else {
        var rest := ReplaceAll(s[1..], find, rep);
        assert r == [s[0]] + rest;
        assert r[1..] == rest;
        if StartsWith(r, pat) {
          PrefixSurvives(s[1..], find, rep, pat[1..]);
          assert StartsWith(s, pat);
        } else {
          ReplaceAllOccurrences(s[1..], find, rep, pat);
          ContainsFromSuffix(s, pat, 1);
        }
      }
    }
  }

  /** Replace-all leaves a string without any occurrence of `find` unchanged. */
  lemma {:induction false} ReplaceAllNoMatch(s: string, find: string, rep: string)
    requires |find| > 0
    ensures !Contains(s, find) ==> ReplaceAll(s, find, rep) == s
    decreases |s|
  {
    if |s| > 0 && !Contains(s, find) {
      ReplaceAllNoMatch(s[1..], find, rep);
    }
  }

  // ---------------------------------------------------------------------------
  // Replace-all is split on `find`, then join with `rep`

  /** Prepending a character to the first part prepends it to the joined string. */
  lemma JoinPrepend(c: char, parts: seq<string>, sep: string)
    requires |parts| > 0
    ensures Join([[c] + parts[0]] + parts[1..], sep) == [c] + Join(parts, sep)
  {
    var ps := [[c] + parts[0]] + parts[1..];
    if |parts| > 1 {
      assert ps[1..] == parts[1..];
    }
  }

  /** Replace-all is the same as splitting on `find` and joining the parts with `rep`. */
  lemma {:induction false} ReplaceAllIsSplitJoin(s: string, find: string, rep: string)
    requires |find| > 0
    ensures ReplaceAll(s, find, rep) == Join(Split(s, find), rep)
    decreases |s|
  {
    if |s| > 0 {
      if StartsWith(s, find) {
        var rest := Split(s[|find|..], find);
        ReplaceAllIsSplitJoin(s[|find|..], find, rep);
        assert ([[]] + rest)[1..] == rest;
      } else {
        ReplaceAllIsSplitJoin(s[1..], find, rep);
        JoinPrepend(s[0], Split(s[1..], find), rep);
      }
    }
  }

  /** Replacing `find` with itself leaves every string unchanged. */
  lemma {:induction false} ReplaceAllSelf(s: string, find: string)
    requires |find| > 0
    ensures ReplaceAll(s, find, find) == s
    decreases |s|
  {
    if |s| > 0 {
      if StartsWith(s, find) {
        ReplaceAllSelf(s[|find|..], find);
        assert s == find + s[|find|..];
      } else {
        ReplaceAllSelf(s[1..], find);
        assert s == [s[0]] + s[1..];
      }
    }
  }

  /** Joining the parts of a split with the separator gives the string back. */
  lemma SplitJoinRoundTrip(s: string, sep: string)
    requires |sep| > 0
    ensures Join(Split(s, sep), sep) == s
  {
    ReplaceAllIsSplitJoin(s, sep, sep);
    ReplaceAllSelf(s, sep);
  }

  /** The first part of a split is a prefix of the string. */
  lemma {:induction false} SplitHeadIsPrefix(s: string, sep: string)
    requires |sep| > 0
    ensures StartsWith(s, Split(s, sep)[0])
    decreases |s|
  {
    if |s| > 0 && !StartsWith(s, sep) {
      SplitHeadIsPrefix(s[1..], sep);
      assert s == [s[0]] + s[1..];
    }
  }

  /** No part of a split contains the separator. */
  lemma {:induction false} SplitPartsAvoidSep(s: string, sep: string)
    requires |sep| > 0
    ensures forall i :: 0 <= i < |Split(s, sep)| ==> !Contains(Split(s, sep)[i], sep)
    decreases |s|
  {
    var parts := Split(s, sep);
    if |s| == 0 {
      assert parts == [[]];
    } else if StartsWith(s, sep) {
      var rest := Split(s[|sep|..], sep);
      SplitPartsAvoidSep(s[|sep|..], sep);
      assert parts == [[]] + rest;
      forall i | 0 <= i < |parts| ensures !Contains(parts[i], sep) {
        if i > 0 {
          assert parts[i] == rest[i - 1];
        }
      }
    } else {
      var rest := Split(s[1..], sep);
      SplitPartsAvoidSep(s[1..], sep);
      SplitHeadIsPrefix(s[1..], sep);
      var head := [s[0]] + rest[0];
      assert parts == [head] + rest[1..];
      assert StartsWith(s, head) by {
        assert s == [s[0]] + s[1..];
      }
      assert StartsWith(head, sep) ==> StartsWith(s, sep);
      assert head[1..] == rest[0];
      assert !Contains(head, sep);
      forall i | 0 <= i < |parts| ensures !Contains(parts[i], sep) {
        if i > 0 {
          assert parts[i] == rest[i];
        }
      }
    }
  }

  /** The number of occurrences of `c` in `s`. */
  function CountChar(s: string, c: char): nat
    decreases |s|
  {
    if |s| == 0 then 0 else (if s[0] == c then 1 else 0) + CountChar(s[1..], c)
  }

  /** Splitting on one character gives one more part than the character occurs. */
  lemma {:induction false} SplitCount(s: string, c: char)
    ensures |Split(s, [c])| == CountChar(s, c) + 1
    decreases |s|
  {
    if |s| > 0 {
      SplitCount(s[1..], c);
      assert StartsWith(s, [c]) <==> s[0] == c;
    }
  }

  /** The text after the `n`-th occurrence of `c` in `s`, if `c` occurs at least `n` times. */
  function DropSegments(s: string, c: char, n: nat): Option<string>
    decreases |s|
  {
    if n == 0 then Some(s)
    else if |s| == 0 then None
    else if s[0] == c then DropSegments(s[1..], c, n - 1)
    else DropSegments(s[1..], c, n)
  }

  /** The text of `s` before the first occurrence of `c` (all of `s` if there is none). */
  function SegmentHead(s: string, c: char): string
    decreases |s|
  {
    if |s| == 0 || s[0] == c then [] else [s[0]] + SegmentHead(s[1..], c)
  }

  /**
   * Part `n` of a split on one character is the text between the `n`-th
   * occurrence of that character and the next one, and it exists exactly
   * when the character occurs at least `n` times.
   */
  lemma {:induction false} SplitAt(s: string, c: char, n: nat)
    ensures n < |Split(s, [c])| <==> DropSegments(s, c, n).Some?
    ensures n < |Split(s, [c])| <==> n <= CountChar(s, c)
    ensures n < |Split(s, [c])| ==> Split(s, [c])[n] == SegmentHead(DropSegments(s, c, n).value, c)
    decreases |s|
  {
    SplitCount(s, c);
    if |s| > 0 {
      assert StartsWith(s, [c]) <==> s[0] == c;
      if s[0] == c {
        if n > 0 {
          SplitAt(s[1..], c, n - 1);
        }
      } else {
        SplitAt(s[1..], c, n);
      }
    }
  }

  /** Dropping `n + 1` segments skips the first one and its separator. */
  lemma {:induction false} DropSegmentsSkip(p: string, c: char, s: string, n: nat)
    requires c !in p
    ensures DropSegments(p + [c] + s, c, n + 1) == DropSegments(s, c, n)
    decreases |p|
  {
    if |p| > 0 {
      assert (p + [c] + s)[1..] == p[1..] + [c] + s;
      DropSegmentsSkip(p[1..], c, s, n);
    } else {
      assert (p + [c] + s)[1..] == s;
    }
  }

  /** The head segment is everything up to the first separator. */
  lemma {:induction false} SegmentHeadStop(p: string, c: char, s: string)
    requires c !in p
    ensures SegmentHead(p + [c] + s, c) == p
    decreases |p|
  {
    if |p| > 0 {
      assert (p + [c] + s)[1..] == p[1..] + [c] + s;
      SegmentHeadStop(p[1..], c, s);
    }
  }

  /** Text without the first character of `find` is copied through unchanged. */
  lemma {:induction false} ReplaceAllPlainPrefix(p: string, s: string, find: string, rep: string)
    requires |find| > 0 && find[0] !in p
    ensures ReplaceAll(p + s, find, rep) == p + ReplaceAll(s, find, rep)
    decreases |p|
  {
    if |p| > 0 {
      assert (p + s)[0] == p[0];
      assert !StartsWith(p + s, find);
      assert (p + s)[1..] == p[1..] + s;
      ReplaceAllPlainPrefix(p[1..], s, find, rep);
    } else {
      assert p + s == s;
    }
  }

  /** An occurrence of `find` at the start is replaced and the scan resumes after it. */
  lemma ReplaceAllAtMatch(s: string, find: string, rep: string)
    requires |find| > 0
    ensures ReplaceAll(find + s, find, rep) == rep + ReplaceAll(s, find, rep)
  {
    assert (find + s)[|find|..] == s;
  }

  // ---------------------------------------------------------------------------
  // Replace-all over a concatenation, and entities that getHTML passes through

  /** No occurrence of `find` in `a + b` starts inside `a` and ends inside `b`. */
  predicate NoStraddle(a: string, b: string, find: string) {
    forall k :: 0 <= k < |a| < k + |find| ==> !StartsWith((a + b)[k..], find)
  }

  /** Dropping a prefix of the left string keeps the boundary free of straddling matches. */
  lemma NoStraddleShift(a: string, b: string, find: string, d: nat)
    requires d <= |a| && NoStraddle(a, b, find)
    ensures NoStraddle(a[d..], b, find)
  {
    forall k | 0 <= k < |a[d..]| < k + |find|
      ensures !StartsWith((a[d..] + b)[k..], find)
    {
      assert (a[d..] + b)[k..] == (a + b)[k + d..];
    }
  }

  /** A boundary that starts with a character found nowhere in `find` after its head is never straddled. */
  lemma NoStraddleAtHead(a: string, b: string, find: string)
    requires |find| > 0 && |b| > 0 && b[0] !in find[1..]
    ensures NoStraddle(a, b, find)
  {
    forall k | 0 <= k < |a| < k + |find|
      ensures !StartsWith((a + b)[k..], find)
    {
      var j := |a| - k;
      assert (a + b)[k..][j] == b[0];
      assert find[1..][j - 1] == find[j];
    }
  }

  /** A left part at least as long as `find`, with the head of `find` only at its start, is never straddled. */
  lemma NoStraddleAtTail(a: string, b: string, find: string)
    requires 0 < |find| <= |a| && find[0] !in a[1..]
    ensures NoStraddle(a, b, find)
  {
    forall k | 0 <= k < |a| < k + |find|
      ensures !StartsWith((a + b)[k..], find)
    {
      assert (a + b)[k..][0] == a[k];
      assert a[1..][k - 1] == a[k];
    }
  }

  /** Replace-all distributes over a concatenation whose boundary no match straddles. */
  lemma {:induction false} ReplaceAllConcat(a: string, b: string, find: string, rep: string)
    requires |find| > 0 && NoStraddle(a, b, find)
    ensures ReplaceAll(a + b, find, rep) == ReplaceAll(a, find, rep) + ReplaceAll(b, find, rep)
    decreases |a|
  {
    if |a| == 0 {
      assert a + b == b;
    } else if StartsWith(a + b, find) {
      assert (a + b)[0..] == a + b;
      assert |find| <= |a|;
      assert (a + b)[..|find|] == a[..|find|];
      assert StartsWith(a, find);
      assert (a + b)[|find|..] == a[|find|..] + b;
      NoStraddleShift(a, b, find, |find|);
      ReplaceAllConcat(a[|find|..], b, find, rep);
    } else {
      assert StartsWith(a, find) ==> StartsWith(a + b, find);
      assert (a + b)[1..] == a[1..] + b;
      NoStraddleShift(a, b, find, 1);
      ReplaceAllConcat(a[1..], b, find, rep);
    }
  }

  /** An entity `&name;` other than `find`, whose `&` is its only one, passes through replace-all unchanged. */
  lemma ReplaceAllKeepsEntity(a: string, e: string, b: string, find: string, rep: string)
    requires |find| > 0 && find[0] == '&' && '&' !in find[1..]
    requires |find| <= |e| && e[0] == '&' && '&' !in e[1..] && !StartsWith(e, find)
    ensures ReplaceAll(a + e + b, find, rep) == ReplaceAll(a, find, rep) + e + ReplaceAll(b, find, rep)
  {
    assert a + e + b == a + (e + b);
    NoStraddleAtHead(a, e + b, find);
    ReplaceAllConcat(a, e + b, find, rep);
    NoStraddleAtTail(e, b, find);
    ReplaceAllConcat(e, b, find, rep);
    ContainsHead(e[1..], find);
    assert !Contains(e, find);
    ReplaceAllNoMatch(e, find, rep);
  }

  /** getHTML leaves every entity other than `&lt;` and `&gt;` in place, `&quot;` among them. */
  lemma GetHtmlKeepsEntity(a: string, e: string, b: string)
    requires |e| >= 4 && e[0] == '&' && '&' !in e[1..]
    requires !StartsWith(e, LT_ENTITY) && !StartsWith(e, GT_ENTITY)
    ensures GetHtml(a + e + b) == GetHtml(a) + e + GetHtml(b)
  {
    assert '&' !in LT_ENTITY[1..] && '&' !in GT_ENTITY[1..];
    ReplaceAllKeepsEntity(a, e, b, LT_ENTITY, "<");
    var a1 := ReplaceAll(a, LT_ENTITY, "<");
    var b1 := ReplaceAll(b, LT_ENTITY, "<");
    ReplaceAllKeepsEntity(a1, e, b1, GT_ENTITY, ">");
  }

  /** `&quot;` passes through `getHTML` in place. */
  lemma GetHtmlKeepsQuot(a: string, b: string)
    ensures GetHtml(a + QUOT_ENTITY + b) == GetHtml(a) + QUOT_ENTITY + GetHtml(b)
  {
    assert QUOT_ENTITY[1..] == "quot;";
    assert QUOT_ENTITY[..4][1] == 'q' && QUOT_ENTITY[..4] != LT_ENTITY && QUOT_ENTITY[..4] != GT_ENTITY;
    GetHtmlKeepsEntity(a, QUOT_ENTITY, b);
  }
}
