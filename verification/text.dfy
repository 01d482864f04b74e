/**
 * The JavaScript string primitives the two services rely on, as pure functions
 * over `string` (= `seq<char>`): the `\D` character class, `trim()`,
 * `startsWith()` and `split()` on a one-character separator; plus `Join`, the
 * inverse of `split()` that the round-trip lemmas are stated with.
 */
module Text {

  /** `[0-9]`, the complement of the `\D` class (no `u` flag, so ASCII digits only). */
  predicate IsDigit(c: char) {
    '0' <= c <= '9'
  }

  predicate AllDigits(s: string) {
    forall i :: 0 <= i < |s| ==> IsDigit(s[i])
  }

  /** The characters `String.prototype.trim` removes: WhiteSpace and LineTerminator. */
  predicate IsWhitespace(c: char) {
    || c == '\t' || c == '\n' || c == '\U{000B}' || c == '\U{000C}' || c == '\r'
    || c == ' ' || c == '\U{00A0}' || c == '\U{1680}'
    || ('\U{2000}' <= c <= '\U{200A}')
    || c == '\U{2028}' || c == '\U{2029}' || c == '\U{202F}' || c == '\U{205F}'
    || c == '\U{3000}' || c == '\U{FEFF}'
  }

  predicate AllWhitespace(s: string) {
    forall i :: 0 <= i < |s| ==> IsWhitespace(s[i])
  }

  /** Neither starts nor ends with whitespace: what `trim()` leaves behind. */
  predicate Trimmed(s: string) {
    s == [] || (!IsWhitespace(s[0]) && !IsWhitespace(s[|s| - 1]))
  }

  /** `a` can be obtained from `b` by deleting characters. */
  predicate IsSubsequence(a: string, b: string)
    decreases |b|
  {
    if a == [] then true
    else if b == [] then false
    else (a[0] == b[0] && IsSubsequence(a[1..], b[1..])) || IsSubsequence(a, b[1..])
  }

  /** Number of whitespace characters at the front of `s`. */
  function LeadingWhitespace(s: string): (n: nat)
    ensures n <= |s|
    ensures AllWhitespace(s[..n])
    ensures n < |s| ==> !IsWhitespace(s[n])
  {
    if s == [] || !IsWhitespace(s[0]) then 0
    else
      var m := LeadingWhitespace(s[1..]);
      assert s[..m + 1] == [s[0]] + s[1..][..m];
      m + 1
  }

  /** Number of whitespace characters at the back of `s`. */
  function TrailingWhitespace(s: string): (n: nat)
    ensures n <= |s|
    ensures AllWhitespace(s[|s| - n..])
    ensures n < |s| ==> !IsWhitespace(s[|s| - n - 1])
  {
    if s == [] || !IsWhitespace(s[|s| - 1]) then 0
    else
      var init := s[..|s| - 1];
      var m := TrailingWhitespace(init);
      assert s[|s| - (m + 1)..] == init[|init| - m..] + [s[|s| - 1]];
      m + 1
  }

  /** `String.prototype.trim`. */
  function Trim(s: string): (r: string)
    ensures Trimmed(r)
    ensures |r| <= |s|
    ensures r == [] <==> AllWhitespace(s)
  {
    var lead := LeadingWhitespace(s);
    var trail := TrailingWhitespace(s[lead..]);
    TrimmedSlice(s, lead, trail);
    s[lead..|s| - trail]
  }

  /**
   * Cutting `lead` whitespace characters off the front and then `trail` off the
   * back, each run maximal, leaves a trimmed slice that is empty exactly when
   * `s` is all whitespace.
   */
  lemma TrimmedSlice(s: string, lead: nat, trail: nat)
    requires lead <= |s| && trail <= |s| - lead
    requires AllWhitespace(s[..lead]) && (lead < |s| ==> !IsWhitespace(s[lead]))
    requires AllWhitespace(s[lead..][|s| - lead - trail..])
    requires trail < |s| - lead ==> !IsWhitespace(s[lead..][|s| - lead - trail - 1])
    ensures Trimmed(s[lead..|s| - trail])
    ensures s[lead..|s| - trail] == [] <==> AllWhitespace(s)
  {
    var rest := s[lead..];
    var r := s[lead..|s| - trail];
    assert r == rest[..|rest| - trail];
    if r != [] {
      assert r[0] == s[lead];
      assert r[|r| - 1] == rest[|rest| - trail - 1];
    } else {
      EmptyMiddle(s, lead, rest);
    }
  }

  /** A maximal whitespace prefix followed by an all-whitespace rest: all of `s` is whitespace. */
  lemma EmptyMiddle(s: string, lead: nat, rest: string)
    requires lead <= |s| && rest == s[lead..]
    requires AllWhitespace(s[..lead]) && (lead < |s| ==> !IsWhitespace(s[lead]))
    ensures AllWhitespace(s) <==> rest == []
  {
    if rest == [] {
      assert s == s[..lead];
    } else {
      assert rest[0] == s[lead];
    }
  }

  /** Trimming only removes characters: whatever is left occurs in the original. */
  lemma TrimChars(s: string)
    ensures forall c :: c in Trim(s) ==> c in s
  {
    var lead := LeadingWhitespace(s);
    SliceChars(s, lead, |s| - TrailingWhitespace(s[lead..]));
  }

  /** Every character of a slice occurs in the whole. */
  lemma SliceChars(s: string, lo: nat, hi: nat)
    requires lo <= hi <= |s|
    ensures forall c :: c in s[lo..hi] ==> c in s
  {
    forall c | c in s[lo..hi]
      ensures c in s
    {
      var i :| 0 <= i < hi - lo && s[lo..hi][i] == c;
      assert s[lo + i] == c;
    }
  }

  /** `s.startsWith(p)`. */
  predicate StartsWith(s: string, p: string) {
    |p| <= |s| && s[..|p|] == p
  }

  /** `s.split(sep)` for a one-character separator: never empty, separators dropped. */
  function Split(s: string, sep: char): (parts: seq<string>)
    ensures |parts| >= 1
    ensures forall i :: 0 <= i < |parts| ==> sep !in parts[i]
    decreases |s|
  {
    if s == [] then [[]]
    else
      var rest := Split(s[1..], sep);
      if s[0] == sep then [[]] + rest
      else [[s[0]] + rest[0]] + rest[1..]
  }

  /** `parts.join(sep)`. */
  function Join(parts: seq<string>, sep: char): string {
    if |parts| == 0 then []
    else if |parts| == 1 then parts[0]
    else parts[0] + [sep] + Join(parts[1..], sep)
  }

  /** The number of separator characters in `s`. */
  function Occurrences(s: string, c: char): nat {
    if s == [] then 0 else (if s[0] == c then 1 else 0) + Occurrences(s[1..], c)
  }

  // ---------------------------------------------------------------------------
  // Lemmas
  // ---------------------------------------------------------------------------

  lemma {:induction false} LeadingWhitespaceOfPadded(w: string, x: string)
    requires AllWhitespace(w)
    ensures LeadingWhitespace(w + x) == |w| + LeadingWhitespace(x)
    decreases |w|
  {
    if w != [] {
      assert (w + x)[1..] == w[1..] + x;
      LeadingWhitespaceOfPadded(w[1..], x);
    } else {
      assert w + x == x;
    }
  }

  lemma {:induction false} TrailingWhitespaceOfPadded(x: string, w: string)
    requires AllWhitespace(w)
    ensures TrailingWhitespace(x + w) == TrailingWhitespace(x) + |w|
    decreases |w|
  {
    if w != [] {
      assert (x + w)[..|x + w| - 1] == x + w[..|w| - 1];
      TrailingWhitespaceOfPadded(x, w[..|w| - 1]);
    } else {
      assert x + w == x;
    }
  }

  /**
   * `trim()` as a reference definition: whitespace padding on either side of a
   * trimmed text is exactly what gets removed, and nothing else.
   */
  lemma {:induction false} TrimOfPadded(a: string, t: string, b: string)
    requires AllWhitespace(a) && AllWhitespace(b) && Trimmed(t)
    ensures Trim(a + t + b) == t
  {
    var s := a + t + b;
    assert s == a + (t + b);
    LeadingWhitespaceOfPadded(a, t + b);
    if t == [] {
      assert t + b == b;
      LeadingWhitespaceOfPadded(b, []);
      assert b + [] == b;
      assert LeadingWhitespace([]) == 0;
      assert s[LeadingWhitespace(s)..] == [];
    } else {
      assert LeadingWhitespace(t + b) == 0 by {
        assert (t + b)[0] == t[0];
      }
      var rest := s[|a|..];
      assert rest == t + b;
      TrailingWhitespaceOfPadded(t, b);
      assert TrailingWhitespace(t) == 0;
      assert rest[..|rest| - |b|] == t;
    }
  }

  /** A text that is already trimmed is left as it is. */
  lemma TrimOfTrimmed(t: string)
    requires Trimmed(t)
    ensures Trim(t) == t
  {
    TrimOfPadded([], t, []);
    assert [] + t + [] == t;
  }

  lemma TrimIdempotent(s: string)
    ensures Trim(Trim(s)) == Trim(s)
  {
    TrimOfTrimmed(Trim(s));
  }

  /** Joining the pieces of a split with the same separator gives back the text. */
  lemma {:induction false} JoinSplit(s: string, sep: char)
    ensures Join(Split(s, sep), sep) == s
    decreases |s|
  {
    if s != [] {
      var rest := Split(s[1..], sep);
      JoinSplit(s[1..], sep);
      if s[0] == sep {
        assert s == [sep] + s[1..];
      } else if |rest| == 1 {
        assert s == [s[0]] + s[1..];
      } else {
        assert Join(rest, sep) == rest[0] + [sep] + Join(rest[1..], sep);
        assert s == [s[0]] + s[1..];
      }
    }
  }

  lemma {:induction false} SplitWithoutSeparator(x: string, sep: char)
    requires sep !in x
    ensures Split(x, sep) == [x]
    decreases |x|
  {
    if x != [] {
      SplitWithoutSeparator(x[1..], sep);
      assert x == [x[0]] + x[1..];
    }
  }

  lemma {:induction false} SplitAtSeparator(x: string, sep: char, y: string)
    requires sep !in x
    ensures Split(x + [sep] + y, sep) == [x] + Split(y, sep)
    decreases |x|
  {
    var s := x + [sep] + y;
    if x == [] {
      assert s[1..] == y;
    } else {
      assert s[1..] == x[1..] + [sep] + y;
      SplitAtSeparator(x[1..], sep, y);
      assert x == [x[0]] + x[1..];
    }
  }

  /** Splitting a join gives back the pieces, provided no piece holds the separator. */
  lemma {:induction false} SplitJoin(parts: seq<string>, sep: char)
    requires |parts| >= 1
    requires forall i :: 0 <= i < |parts| ==> sep !in parts[i]
    ensures Split(Join(parts, sep), sep) == parts
    decreases |parts|
  {
    if |parts| == 1 {
      SplitWithoutSeparator(parts[0], sep);
    } else {
      SplitJoin(parts[1..], sep);
      SplitAtSeparator(parts[0], sep, Join(parts[1..], sep));
      assert parts == [parts[0]] + parts[1..];
    }
  }

  /** `s.split(sep)` has one piece more than `s` has separators. */
  lemma {:induction false} SplitCount(s: string, sep: char)
    ensures |Split(s, sep)| == Occurrences(s, sep) + 1
    decreases |s|
  {
    if s != [] {
      SplitCount(s[1..], sep);
    }
  }
}
