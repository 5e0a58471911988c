/** Character classes and the string operations the build scripts use:
    `split`, `trim`, `parseInt(_, 10)`, `path.basename(_, ext)` and the global
    literal `replace`. Strings are `seq<char>`; only the ASCII behaviour the
    scripts rely on is modelled. */
module Text {

  /** Regular-expression `\d` in JavaScript: the ASCII digits only. */
  predicate IsDigit(c: char) {
    '0' <= c <= '9'
  }

  /** `[0-9A-Fa-f]` */
  predicate IsHexDigit(c: char) {
    IsDigit(c) || 'a' <= c <= 'f' || 'A' <= c <= 'F'
  }

  /** ECMAScript WhiteSpace and LineTerminator code points: what `\s` matches
      and what `String.prototype.trim` strips. */
  predicate IsJsSpace(c: char) {
    || c == '\t' || c == '\n' || c == '\U{B}' || c == '\U{C}' || c == '\r'
    || c == ' ' || c == '\U{A0}' || c == '\U{1680}'
    || ('\U{2000}' <= c <= '\U{200A}')
    || c == '\U{2028}' || c == '\U{2029}' || c == '\U{202F}' || c == '\U{205F}'
    || c == '\U{3000}' || c == '\U{FEFF}'
  }

  /** `char.ToUpperInvariant` restricted to ASCII: only `a`..`z` change. */
  function UpperAscii(c: char): char {
    if 'a' <= c <= 'z' then (c as int - 32) as char else c
  }

  /** `char.ToLowerInvariant` restricted to ASCII: only `A`..`Z` change. */
  function LowerAscii(c: char): char {
    if 'A' <= c <= 'Z' then (c as int + 32) as char else c
  }

  /** `ToUpperInvariant` on a whole string, character by character. */
  function UpperAll(s: string): (u: string)
    ensures |u| == |s|
    ensures forall i | 0 <= i < |s| :: u[i] == UpperAscii(s[i])
  {
    seq(|s|, i requires 0 <= i < |s| => UpperAscii(s[i]))
  }

  predicate AllDigits(s: string) {
    forall i | 0 <= i < |s| :: IsDigit(s[i])
  }

  /** A non-empty run of decimal digits: the language of `\d+`. */
  predicate IsDigits(s: string) {
    |s| > 0 && AllDigits(s)
  }

  /** `#` followed by exactly six hex digits: the only colour form that leaves
      the argument parser. */
  predicate IsHexColor(c: string) {
    |c| == 7 && c[0] == '#' && forall i | 1 <= i < 7 :: IsHexDigit(c[i])
  }

  function DigitValue(c: char): (d: nat)
    requires IsDigit(c)
    ensures d < 10
  {
    (c as int) - ('0' as int)
  }

  /** The value `parseInt(s, 10)` gives for a string of decimal digits (leading
      zeros allowed). */
  function DecimalValue(s: string): (n: nat)
    requires AllDigits(s)
    decreases |s|
  {
    if |s| == 0 then 0
    else 10 * DecimalValue(s[..|s| - 1]) + DigitValue(s[|s| - 1])
  }

  /** Number of characters of `s` that belong to `cs`. */
  function CountIn(s: string, cs: set<char>): (n: nat)
    ensures n <= |s|
  {
    if |s| == 0 then 0
    else (if s[0] in cs then 1 else 0) + CountIn(s[1..], cs)
  }

  predicate NoneIn(s: string, cs: set<char>) {
    forall i | 0 <= i < |s| :: s[i] !in cs
  }

  /** `String.split` on one or more separator characters, keeping empty
      fields: JavaScript's `s.split(',')` and .NET's `s.Split('-', '_')`. */
  function Split(s: string, seps: set<char>): (parts: seq<string>)
    ensures |parts| == CountIn(s, seps) + 1
    ensures forall i | 0 <= i < |parts| :: NoneIn(parts[i], seps)
  {
    if |s| == 0 then [""]
    else
      var rest := Split(s[1..], seps);
      if s[0] in seps then [""] + rest
      else [[s[0]] + rest[0]] + rest[1..]
  }

  /** `parts.join(sep)` */
  function JoinWith(parts: seq<string>, sep: char): string
    requires |parts| > 0
  {
    if |parts| == 1 then parts[0]
    else parts[0] + [sep] + JoinWith(parts[1..], sep)
  }

  /** Splitting on one separator loses nothing: joining the fields back with
      that separator gives the original string. */
  lemma {:induction false} JoinSplit(s: string, sep: char)
    ensures JoinWith(Split(s, {sep}), sep) == s
  {
    if |s| > 0 {
      var rest := Split(s[1..], {sep});
      JoinSplit(s[1..], sep);
      if s[0] == sep {
        assert Split(s, {sep}) == [""] + rest;
        assert ([""] + rest)[1..] == rest;
        assert s == [sep] + s[1..];
      } else {
        var parts := Split(s, {sep});
        assert parts == [[s[0]] + rest[0]] + rest[1..];
        if |rest| == 1 {
          assert s == [s[0]] + s[1..];
        } else {
          assert parts[1..] == rest[1..];
          assert JoinWith(rest, sep) == rest[0] + [sep] + JoinWith(rest[1..], sep);
          assert s == [s[0]] + s[1..];
        }
      }
    }
  }

  /** A string without separators is a single field. */
  lemma {:induction false} SplitNoSep(a: string, seps: set<char>)
    requires NoneIn(a, seps)
    ensures Split(a, seps) == [a]
  {
    if |a| > 0 {
      SplitNoSep(a[1..], seps);
      assert a == [a[0]] + a[1..];
    }
  }

  /** A leading field followed by a separator splits off as the first part. */
  lemma {:induction false} SplitField(a: string, c: char, r: string, seps: set<char>)
    requires NoneIn(a, seps) && c in seps
    ensures Split(a + [c] + r, seps) == [a] + Split(r, seps)
  {
    if |a| == 0 {
      assert a + [c] + r == [c] + r;
      assert ([c] + r)[1..] == r;
    } else {
      SplitField(a[1..], c, r, seps);
      assert (a + [c] + r)[1..] == a[1..] + [c] + r;
      assert a == [a[0]] + a[1..];
    }
  }

  /** Text without white space is left alone by `trim`. */
  lemma TrimNoSpace(s: string)
    requires forall i | 0 <= i < |s| :: !IsJsSpace(s[i])
    ensures Trim(s) == s
  {
  }

  function TrimStart(s: string): (t: string)
    ensures |t| <= |s|
    ensures t == s[|s| - |t|..]
    ensures |t| > 0 ==> !IsJsSpace(t[0])
    ensures forall i | 0 <= i < |s| - |t| :: IsJsSpace(s[i])
  {
    if |s| > 0 && IsJsSpace(s[0]) then TrimStart(s[1..]) else s
  }

  function TrimEnd(s: string): (t: string)
    ensures |t| <= |s|
    ensures t == s[..|t|]
    ensures |t| > 0 ==> !IsJsSpace(t[|t| - 1])
    ensures forall i | |t| <= i < |s| :: IsJsSpace(s[i])
  {
    if |s| > 0 && IsJsSpace(s[|s| - 1]) then TrimEnd(s[..|s| - 1]) else s
  }

  /** `String.prototype.trim` */
  function Trim(s: string): string {
    TrimEnd(TrimStart(s))
  }

  /** `path.basename(name, ext)` for a bare file name: the extension is removed
      when the name ends with it and is longer than it. */
  function StripSuffix(name: string, ext: string): (base: string)
    ensures name == base + ext || base == name
  {
    if |ext| < |name| && name[|name| - |ext|..] == ext then name[..|name| - |ext|] else name
  }

  lemma StripSuffixOf(base: string, ext: string)
    requires |base| > 0
    ensures StripSuffix(base + ext, ext) == base
  {
    assert (base + ext)[|base|..] == ext;
    assert (base + ext)[..|base|] == base;
  }

  // ---------------------------------------------------------------------
  // Global literal replacement, as `s.replace(/literal/g, replacement)` does
  // it when the replacement contains no `$` pattern: the text is scanned left
  // to right, a match is replaced and scanning resumes after it.
  // ---------------------------------------------------------------------

  predicate StartsWith(s: string, p: string) {
    |p| <= |s| && s[..|p|] == p
  }

  predicate Occurs(s: string, p: string) {
    exists i | 0 <= i <= |s| :: StartsWith(s[i..], p)
  }

  function ReplaceAll(s: string, p: string, r: string): string
    requires |p| > 0
    decreases |s|
  {
    if StartsWith(s, p) then r + ReplaceAll(s[|p|..], p, r)
    else if |s| == 0 then []
    else [s[0]] + ReplaceAll(s[1..], p, r)
  }

  /** Number of matches the same left-to-right scan replaces. */
  function CountMatches(s: string, p: string): nat
    requires |p| > 0
    decreases |s|
  {
    if StartsWith(s, p) then 1 + CountMatches(s[|p|..], p)
    else if |s| == 0 then 0
    else CountMatches(s[1..], p)
  }

  /** Every match grows or shrinks the text by the difference in length. */
  lemma {:induction false} ReplaceAllLength(s: string, p: string, r: string)
    requires |p| > 0
    ensures |ReplaceAll(s, p, r)| == |s| + CountMatches(s, p) * (|r| - |p|)
    decreases |s|
  {
    var d := |r| - |p|;
    if StartsWith(s, p) {
      var n := CountMatches(s[|p|..], p);
      ReplaceAllLength(s[|p|..], p, r);
      assert CountMatches(s, p) == 1 + n;
      assert |ReplaceAll(s, p, r)| == |r| + |ReplaceAll(s[|p|..], p, r)|;
      MulStep(n, d);
    } else if |s| > 0 {
      ReplaceAllLength(s[1..], p, r);
    }
  }

  lemma MulStep(n: int, d: int)
    ensures (1 + n) * d == d + n * d
  {
  }

  /** A string that starts with a character `c` followed by `t` starts with
      `w` exactly when `c` is the first character of `w` and `t` starts with
      the rest of `w`. */
  lemma StartsWithCons(c: char, t: string, w: string)
    requires |w| > 0
    ensures StartsWith([c] + t, w) <==> c == w[0] && StartsWith(t, w[1..])
  {
    assert w == [w[0]] + w[1..];
    if |w| - 1 <= |t| {
      assert ([c] + t)[..|w|] == [c] + t[..|w| - 1];
    }
  }

  /** An occurrence in `c :: t` is either at the front or an occurrence in `t`. */
  lemma OccursCons(c: char, t: string, p: string)
    ensures Occurs([c] + t, p) <==> StartsWith([c] + t, p) || Occurs(t, p)
  {
    assert ([c] + t)[0..] == [c] + t;
    forall i | 1 <= i <= |[c] + t| ensures ([c] + t)[i..] == t[i - 1..] { }
    if Occurs(t, p) {
      var i :| 0 <= i <= |t| && StartsWith(t[i..], p);
      assert ([c] + t)[i + 1..] == t[i..];
    }
  }

  /** The scan finds a match exactly when the pattern occurs somewhere. */
  lemma {:induction false} CountMatchesZero(s: string, p: string)
    requires |p| > 0
    ensures CountMatches(s, p) == 0 <==> !Occurs(s, p)
    decreases |s|
  {
    if StartsWith(s, p) {
      assert s[0..] == s;
    } else if |s| == 0 {
      assert !StartsWith(s[0..], p);
    } else {
      CountMatchesZero(s[1..], p);
      assert s == [s[0]] + s[1..];
      OccursCons(s[0], s[1..], p);
    }
  }

  /** Text without the pattern comes back unchanged. */
  lemma {:induction false} ReplaceAbsent(s: string, p: string, r: string)
    requires |p| > 0
    requires !Occurs(s, p)
    ensures ReplaceAll(s, p, r) == s
    decreases |s|
  {
    assert s[0..] == s;
    if |s| > 0 {
      assert s == [s[0]] + s[1..];
      OccursCons(s[0], s[1..], p);
      ReplaceAbsent(s[1..], p, r);
    }
  }

  /** No suffix of `a` is a prefix of `q` or has `q` as a prefix: an
      occurrence of `q` can neither start inside `a` nor lie within it. */
  predicate NoOverlap(a: string, q: string) {
    forall k | 0 <= k < |a| :: !StartsWith(a[k..], q) && !StartsWith(q, a[k..])
  }

  /** Neither a match of `q` in `a + x` can start inside `a`. */
  lemma NotStartingInBlock(a: string, x: string, q: string)
    requires NoOverlap(a, q)
    requires |a| > 0
    ensures !StartsWith(a + x, q)
  {
    assert a[0..] == a;
    if |q| <= |a| {
      assert (a + x)[..|q|] == a[..|q|];
    } else {
      assert (a + x)[..|a|] == a;
      if |q| <= |a + x| {
        assert (a + x)[..|q|][..|a|] == a;
      }
    }
  }

  /** Scanning through a block that cannot host the start of a match does
      not change the count. */
  lemma {:induction false} CountThrough(a: string, x: string, p: string)
    requires |p| > 0
    requires NoOverlap(a, p)
    ensures CountMatches(a + x, p) == CountMatches(x, p)
    decreases |a|
  {
    if |a| > 0 {
      NotStartingInBlock(a, x, p);
      assert (a + x)[1..] == a[1..] + x;
      forall k | 0 <= k < |a[1..]|
        ensures !StartsWith(a[1..][k..], p) && !StartsWith(p, a[1..][k..])
      {
        assert a[1..][k..] == a[k + 1..];
      }
      CountThrough(a[1..], x, p);
    } else {
      assert a + x == x;
    }
  }

  /** Positions that cannot start a match are skipped without counting. */
  lemma {:induction false} CountSkip(s: string, m: nat, p: string)
    requires |p| > 0
    requires m <= |s|
    requires forall k | 0 <= k < m :: s[k] != p[0]
    ensures CountMatches(s, p) == CountMatches(s[m..], p)
    decreases m
  {
    if m > 0 {
      assert s == [s[0]] + s[1..];
      StartsWithCons(s[0], s[1..], p);
      assert s[1..][m - 1..] == s[m..];
      forall k | 0 <= k < m - 1 ensures s[1..][k] != p[0] {
        assert s[1..][k] == s[k + 1];
      }
      CountSkip(s[1..], m - 1, p);
    }
  }

  /** When the output of a replacement starts with `w`, and `w` cannot contain
      the first character of the replacement, the input already started with
      `w`. */
  lemma {:induction false} PrefixBeforeReplace(t: string, p: string, r: string, w: string)
    requires |p| > 0 && |r| > 0
    requires r[0] !in w
    ensures StartsWith(ReplaceAll(t, p, r), w) ==> StartsWith(t, w)
    decreases |t|
  {
    var out := ReplaceAll(t, p, r);
    if |w| > 0 {
      if StartsWith(t, p) {
        assert out[0] == r[0];
        assert !StartsWith(out, w) by {
          if |w| <= |out| {
            assert out[..|w|][0] == r[0];
          }
        }
      } else if |t| > 0 {
        var rest := ReplaceAll(t[1..], p, r);
        assert out == [t[0]] + rest;
        StartsWithCons(t[0], rest, w);
        PrefixBeforeReplace(t[1..], p, r, w[1..]);
        assert t == [t[0]] + t[1..];
        StartsWithCons(t[0], t[1..], w);
      }
    }
  }

  /** A block of text where the pattern cannot start is copied through by the
      replacement unchanged. */
  lemma {:induction false} ReplaceThrough(w: string, u: string, p: string, r: string)
    requires |p| > 0
    requires p[0] !in w
    ensures ReplaceAll(w + u, p, r) == w + ReplaceAll(u, p, r)
    decreases |w|
  {
    if |w| > 0 {
      assert w + u == [w[0]] + (w[1..] + u);
      StartsWithCons(w[0], w[1..] + u, p);
      ReplaceThrough(w[1..], u, p, r);
      assert [w[0]] + (w[1..] + ReplaceAll(u, p, r)) == w + ReplaceAll(u, p, r);
    } else {
      assert w + u == u;
    }
  }

  /** An occurrence of `q` in `a + x` lies in `x`, provided none can start
      inside `a`. */
  lemma {:induction false} OccursAfterBlock(a: string, x: string, q: string)
    requires NoOverlap(a, q)
    ensures Occurs(a + x, q) ==> Occurs(x, q)
    decreases |a|
  {
    if |a| > 0 {
      NotStartingInBlock(a, x, q);
      assert a + x == [a[0]] + (a[1..] + x);
      OccursCons(a[0], a[1..] + x, q);
      forall k | 0 <= k < |a[1..]|
        ensures !StartsWith(a[1..][k..], q) && !StartsWith(q, a[1..][k..])
      {
        assert a[1..][k..] == a[k + 1..];
      }
      OccursAfterBlock(a[1..], x, q);
    } else {
      assert a + x == x;
    }
  }

  lemma OccursInSuffix(s: string, k: nat, q: string)
    requires k <= |s|
    ensures Occurs(s[k..], q) ==> Occurs(s, q)
  {
    if Occurs(s[k..], q) {
      var i :| 0 <= i <= |s[k..]| && StartsWith(s[k..][i..], q);
      assert s[k..][i..] == s[k + i..];
    }
  }

  /** Replacing `p` by `r` leaves no occurrence of `q` behind, when either `q`
      is `p` itself or `q` did not occur to begin with, and the replacement
      text cannot take part in an occurrence of `q`. */
  lemma {:induction false} ReplaceLeavesNo(s: string, p: string, r: string, q: string)
    requires |p| > 0 && |r| > 0 && |q| > 0
    requires r[0] !in q[1..]
    requires NoOverlap(r, q)
    requires q == p || !Occurs(s, q)
    ensures !Occurs(ReplaceAll(s, p, r), q)
    decreases |s|
  {
    if StartsWith(s, p) {
      var tail := s[|p|..];
      assert s == s[..|p|] + tail;
      if q != p {
        OccursInSuffix(s, |p|, q);
      }
      ReplaceLeavesNo(tail, p, r, q);
      OccursAfterBlock(r, ReplaceAll(tail, p, r), q);
    } else if |s| == 0 {
      assert ReplaceAll(s, p, r) == s;
    } else {
      assert s == [s[0]] + s[1..];
      OccursCons(s[0], s[1..], q);
      ReplaceLeavesNo(s[1..], p, r, q);
      var rest := ReplaceAll(s[1..], p, r);
      OccursCons(s[0], rest, q);
      StartsWithCons(s[0], rest, q);
      StartsWithCons(s[0], s[1..], q);
      PrefixBeforeReplace(s[1..], p, r, q[1..]);
      if q == p {
        assert !StartsWith(s, q);
      } else {
        assert s[0..] == s;
        assert !StartsWith(s, q);
      }
    }
  }

  /** Replacing `p1` by `r1` does not change how many matches of `p2` the scan
      finds, when neither pattern can start inside the other and `r1` cannot
      host a match of `p2`. */
  lemma {:induction false} CountAfterReplace(s: string, p1: string, r1: string, p2: string)
    requires |p1| > 0 && |r1| > 0 && |p2| > 0
    requires p1[0] !in p2 && p2[0] !in p1
    requires r1[0] !in p2[1..]
    requires NoOverlap(r1, p2)
    ensures CountMatches(ReplaceAll(s, p1, r1), p2) == CountMatches(s, p2)
    decreases |s|, 1
  {
    if StartsWith(s, p1) {
      CountAfterReplaceAtFirst(s, p1, r1, p2);
    } else if |s| > 0 {
      CountAfterReplaceElsewhere(s, p1, r1, p2);
    }
  }

  /** The case where a match of `p1` is replaced at the front. */
  lemma {:induction false} CountAfterReplaceAtFirst(s: string, p1: string, r1: string, p2: string)
    requires |p1| > 0 && |r1| > 0 && |p2| > 0
    requires p1[0] !in p2 && p2[0] !in p1
    requires r1[0] !in p2[1..]
    requires NoOverlap(r1, p2)
    requires StartsWith(s, p1)
    ensures CountMatches(ReplaceAll(s, p1, r1), p2) == CountMatches(s, p2)
    decreases |s|, 0
  {
    assert s[..|p1|][0] == p1[0];
    assert !StartsWith(s, p2) by {
      if |p2| <= |s| {
        assert s[..|p2|][0] == s[0];
      }
    }
    CountAfterReplace(s[|p1|..], p1, r1, p2);
    CountThrough(r1, ReplaceAll(s[|p1|..], p1, r1), p2);
    forall k | 0 <= k < |p1| ensures s[k] != p2[0] {
      assert s[k] == s[..|p1|][k];
    }
    CountSkip(s, |p1|, p2);
  }

  /** The case where the front character is kept. */
  lemma {:induction false} CountAfterReplaceElsewhere(s: string, p1: string, r1: string, p2: string)
    requires |p1| > 0 && |r1| > 0 && |p2| > 0
    requires p1[0] !in p2 && p2[0] !in p1
    requires r1[0] !in p2[1..]
    requires NoOverlap(r1, p2)
    requires !StartsWith(s, p1) && |s| > 0
    ensures CountMatches(ReplaceAll(s, p1, r1), p2) == CountMatches(s, p2)
    decreases |s|, 0
  {
    var out := ReplaceAll(s, p1, r1);
    var rest := ReplaceAll(s[1..], p1, r1);
    assert out == [s[0]] + rest;
    assert s == [s[0]] + s[1..];
    StartsWithCons(s[0], rest, p2);
    StartsWithCons(s[0], s[1..], p2);
    if StartsWith(s, p2) {
      var after := s[|p2|..];
      assert s[1..] == p2[1..] + after by {
        assert s == s[..|p2|] + after;
      }
      ReplaceThrough(p2[1..], after, p1, r1);
      assert out == p2 + ReplaceAll(after, p1, r1) by {
        assert p2 == [p2[0]] + p2[1..];
      }
      assert out[..|p2|] == p2;
      assert out[|p2|..] == ReplaceAll(after, p1, r1);
      CountAfterReplace(after, p1, r1, p2);
    } else {
      PrefixBeforeReplace(s[1..], p1, r1, p2[1..]);
      assert out[1..] == rest;
      CountAfterReplace(s[1..], p1, r1, p2);
    }
  }
}
