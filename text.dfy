/**
 * The string operations the flow parser relies on, as JavaScript defines them:
 * `String.prototype.split` with a one-character separator, `Array.prototype.join`
 * and `String.prototype.trim`.
 */
module Text {

  /** The step separator typed between flow steps: RIGHTWARDS ARROW, U+2192. */
  const Arrow: char := '→'

  /**
   * The characters `trim` removes: ECMAScript's WhiteSpace (tab, vertical tab,
   * form feed, no-break space, zero-width no-break space and every space
   * separator) and LineTerminator (line feed, carriage return, line and
   * paragraph separators).
   */
  predicate IsWhitespace(c: char)
  {
    c == '\t' || c == '\n' || c == '\U{000B}' || c == '\U{000C}' || c == '\r' ||
    c == ' ' || c == '\U{00A0}' || c == '\U{1680}' ||
    ('\U{2000}' <= c <= '\U{200A}') ||
    c == '\U{2028}' || c == '\U{2029}' || c == '\U{202F}' || c == '\U{205F}' ||
    c == '\U{3000}' || c == '\U{FEFF}'
  }

  /** A string with no whitespace at either end: what `trim` produces. */
  predicate Trimmed(s: string)
  {
    s == [] || (!IsWhitespace(s[0]) && !IsWhitespace(s[|s| - 1]))
  }

  /** Number of occurrences of `d` in `s`. */
  function Count(s: string, d: char): nat
  {
    if s == [] then 0 else (if s[0] == d then 1 else 0) + Count(s[1..], d)
  }

  /** The index of the first non-whitespace character of `s` at or after `i`, or `|s|` if there is none. */
  function ContentStart(s: string, i: nat): (m: nat)
    requires i <= |s|
    ensures i <= m <= |s|
    ensures forall k :: i <= k < m ==> IsWhitespace(s[k])
    ensures m < |s| ==> !IsWhitespace(s[m])
    decreases |s| - i
  {
    if i < |s| && IsWhitespace(s[i]) then ContentStart(s, i + 1) else i
  }

  /** The index just past the last non-whitespace character of `s[lo..j]`, or `lo` if there is none. */
  function ContentEnd(s: string, lo: nat, j: nat): (m: nat)
    requires lo <= j <= |s|
    ensures lo <= m <= j
    ensures forall k :: m <= k < j ==> IsWhitespace(s[k])
    ensures m > lo ==> !IsWhitespace(s[m - 1])
  {
    if j > lo && IsWhitespace(s[j - 1]) then ContentEnd(s, lo, j - 1) else j
  }

  /** `r` is the slice of `s` that starts at `i`, and everything around it in `s` is whitespace. */
  predicate StripsTo(s: string, i: nat, r: string)
  {
    i + |r| <= |s| && s[i..i + |r|] == r &&
    (forall k :: 0 <= k < i ==> IsWhitespace(s[k])) &&
    (forall k :: i + |r| <= k < |s| ==> IsWhitespace(s[k]))
  }

  /**
   * `String.prototype.trim`: the result is the part of `s` between its leading
   * and its trailing whitespace.
   */
  function Trim(s: string): (r: string)
    ensures Trimmed(r)
    ensures exists i :: StripsTo(s, i, r)
  {
    var i := ContentStart(s, 0);
    var j := ContentEnd(s, i, |s|);
    assert StripsTo(s, i, s[i..j]);
    s[i..j]
  }

  /**
   * `s.split(d)` for a one-character separator `d`: the maximal runs between
   * separators, in order. There is always one more part than separators, so the
   * empty string splits into one empty part.
   */
  function Split(s: string, d: char): (parts: seq<string>)
    ensures |parts| == Count(s, d) + 1
    ensures forall i :: 0 <= i < |parts| ==> d !in parts[i]
  {
    if s == [] then [[]]
    else
      var rest := Split(s[1..], d);
      if s[0] == d then [[]] + rest
      else [[s[0]] + rest[0]] + rest[1..]
  }

  /** `parts.join(d)`: the parts with one separator between each adjacent pair. */
  function Join(parts: seq<string>, d: char): string
  {
    if |parts| == 0 then []
    else if |parts| == 1 then parts[0]
    else parts[0] + [d] + Join(parts[1..], d)
  }

  /** The scan for the first non-whitespace character stops at `m` when only whitespace lies before it. */
  lemma {:induction false} ContentStartAt(s: string, i: nat, m: nat)
    requires i <= m < |s|
    requires forall k :: i <= k < m ==> IsWhitespace(s[k])
    requires !IsWhitespace(s[m])
    ensures ContentStart(s, i) == m
    decreases m - i
  {
    if i < m {
      ContentStartAt(s, i + 1, m);
    }
  }

  /** The scan for the last non-whitespace character stops at `m` when only whitespace lies after it. */
  lemma {:induction false} ContentEndAt(s: string, lo: nat, j: nat, m: nat)
    requires lo < m <= j <= |s|
    requires forall k :: m <= k < j ==> IsWhitespace(s[k])
    requires !IsWhitespace(s[m - 1])
    ensures ContentEnd(s, lo, j) == m
    decreases j - m
  {
    if m < j {
      ContentEndAt(s, lo, j - 1, m);
    }
  }

  /** Trimming a trimmed string wrapped in whitespace gives back that string; an empty core leaves nothing. */
  lemma TrimAround(pre: string, core: string, post: string)
    requires forall k :: 0 <= k < |pre| ==> IsWhitespace(pre[k])
    requires forall k :: 0 <= k < |post| ==> IsWhitespace(post[k])
    requires Trimmed(core)
    ensures Trim(pre + core + post) == core
  {
    var s := pre + core + post;
    if core == [] {
      forall k | 0 <= k < |s| ensures IsWhitespace(s[k]) {
        if k < |pre| {
          assert s[k] == pre[k];
        } else {
          assert s[k] == post[k - |pre|];
        }
      }
      assert ContentStart(s, 0) == |s|;
    } else {
      var i, j := |pre|, |pre| + |core|;
      ContentStartAt(s, 0, i);
      ContentEndAt(s, i, |s|, j);
      assert s[i..j] == core;
    }
  }

  /**
   * `Trim`'s contract pins its result down: the only trimmed slice of `s` with
   * nothing but whitespace around it is `Trim(s)`.
   */
  lemma TrimUnique(s: string, i: nat, r: string)
    requires Trimmed(r) && StripsTo(s, i, r)
    ensures Trim(s) == r
  {
    var pre, post := s[..i], s[i + |r|..];
    assert s == pre + r + post;
    forall k | 0 <= k < |post| ensures IsWhitespace(post[k]) {
      assert post[k] == s[i + |r| + k];
    }
    TrimAround(pre, r, post);
  }

  /** Trimming changes nothing on a string that is already trimmed. */
  lemma TrimOfTrimmed(s: string)
    requires Trimmed(s)
    ensures Trim(s) == s
  {
    assert StripsTo(s, 0, s);
    TrimUnique(s, 0, s);
  }

  /** Trimming never introduces a character: in particular it never introduces a separator. */
  lemma TrimKeepsAbsent(s: string, d: char)
    requires d !in s
    ensures d !in Trim(s)
  {
    var r := Trim(s);
    var i: nat :| StripsTo(s, i, r);
    forall k | 0 <= k < |r| ensures r[k] != d {
      assert r[k] == s[i + k];
    }
  }

  /** Prepending a separator-free string `p` extends the first part of the split. */
  lemma {:induction false} SplitPrepend(p: string, t: string, d: char)
    requires d !in p
    ensures Split(p + t, d) == [p + Split(t, d)[0]] + Split(t, d)[1..]
    decreases |p|
  {
    if p == [] {
      assert p + t == t;
      assert Split(t, d) == [Split(t, d)[0]] + Split(t, d)[1..];
      assert p + Split(t, d)[0] == Split(t, d)[0];
    } else {
      var p' := p[1..];
      SplitPrepend(p', t, d);
      assert (p + t)[1..] == p' + t;
      assert (p + t)[0] == p[0];
      assert [p[0]] + (p' + Split(t, d)[0]) == p + Split(t, d)[0];
    }
  }

  /** A separator-free string followed by a separator contributes exactly one part. */
  lemma SplitPartThenSeparator(p: string, t: string, d: char)
    requires d !in p
    ensures Split(p + [d] + t, d) == [p] + Split(t, d)
  {
    var dt := [d] + t;
    SplitPrepend(p, dt, d);
    assert p + [d] + t == p + dt;
    assert dt[0] == d && dt[1..] == t;
    assert Split(dt, d) == [[]] + Split(t, d);
    assert p + [] == p;
  }

  /** Joining a list whose first part starts with `c` puts `c` in front of the join. */
  lemma JoinConsChar(c: char, q: string, tail: seq<string>, d: char)
    ensures Join([[c] + q] + tail, d) == [c] + Join([q] + tail, d)
  {
    var parts := [[c] + q] + tail;
    var parts' := [q] + tail;
    assert parts[1..] == tail && parts'[1..] == tail;
  }

  /** Joining the parts of a split gives back the original string. */
  lemma {:induction false} JoinSplit(s: string, d: char)
    ensures Join(Split(s, d), d) == s
    decreases |s|
  {
    if s != [] {
      var rest := Split(s[1..], d);
      JoinSplit(s[1..], d);
      assert s == [s[0]] + s[1..];
      if s[0] == d {
        var parts := [[]] + rest;
        assert Split(s, d) == parts;
        assert parts[1..] == rest;
        assert Join(parts, d) == [] + [d] + Join(rest, d);
      } else {
        assert Split(s, d) == [[s[0]] + rest[0]] + rest[1..];
        JoinConsChar(s[0], rest[0], rest[1..], d);
        assert [rest[0]] + rest[1..] == rest;
      }
    }
  }

  /** Splitting a join of separator-free parts gives back those parts. */
  lemma {:induction false} SplitJoin(parts: seq<string>, d: char)
    requires |parts| >= 1
    requires forall i :: 0 <= i < |parts| ==> d !in parts[i]
    ensures Split(Join(parts, d), d) == parts
    decreases |parts|
  {
    if |parts| == 1 {
      SplitPrepend(parts[0], [], d);
      assert parts[0] + [] == parts[0];
    } else {
      SplitJoin(parts[1..], d);
      SplitPartThenSeparator(parts[0], Join(parts[1..], d), d);
      assert [parts[0]] + parts[1..] == parts;
    }
  }
}
