/**
 * The Python `str` and `bytes` operations that the server and the client use
 * to frame and unframe messages, each written as the Python library defines it:
 * `find`, `split(sep)`, `split()` on whitespace, `join`, `strip()`,
 * `lstrip(chars)` and `replace(old, '')`.
 */
module Text {
  import opened Wrappers

  /** One octet of a Python `bytes` object. */
  newtype byte = x: int | 0 <= x < 256

  const CRLF: string := "\r\n"

  /** Python's `str.isspace()` for a single character. */
  predicate IsSpace(c: char) {
    || c == ' '
    || '\t' <= c <= '\r'
    || '\U{1c}' <= c <= '\U{1f}'
    || c == '\U{85}'
    || c == '\U{a0}'
    || c == '\U{1680}'
    || '\U{2000}' <= c <= '\U{200a}'
    || c == '\U{2028}'
    || c == '\U{2029}'
    || c == '\U{202f}'
    || c == '\U{205f}'
    || c == '\U{3000}'
  }

  predicate NoSpace(s: string) {
    forall k :: 0 <= k < |s| ==> !IsSpace(s[k])
  }

  /** `c` does not occur in `s`. */
  predicate Lacks<T(==)>(s: seq<T>, c: T) {
    forall k :: 0 <= k < |s| ==> s[k] != c
  }

  lemma LacksConcat<T>(a: seq<T>, b: seq<T>, c: T)
    requires Lacks(a, c) && Lacks(b, c)
    ensures Lacks(a + b, c)
  {
    forall k | 0 <= k < |a + b| ensures (a + b)[k] != c {
      if k >= |a| { assert (a + b)[k] == b[k - |a|]; }
    }
  }

  // ---------------------------------------------------------------------------
  // find
  // ---------------------------------------------------------------------------

  /** `pat` occurs in `s` starting at index `j`. */
  predicate MatchAt<T(==)>(s: seq<T>, pat: seq<T>, j: nat) {
    j + |pat| <= |s| && s[j..j + |pat|] == pat
  }

  /** The first occurrence of `pat` at or after index `i`. */
  function FindFrom<T(==)>(s: seq<T>, pat: seq<T>, i: nat): (r: Option<nat>)
    requires |pat| > 0
    ensures r.Some? ==> i <= r.value && MatchAt(s, pat, r.value)
    ensures r.Some? ==> forall j :: i <= j < r.value ==> !MatchAt(s, pat, j)
    ensures r.None? ==> forall j :: i <= j ==> !MatchAt(s, pat, j)
    decreases |s| - i
  {
    if i + |pat| > |s| then None
    else if MatchAt(s, pat, i) then Some(i)
    else FindFrom(s, pat, i + 1)
  }

  /** Python's `s.find(pat)`, with `None` standing for -1. */
  function Find<T(==)>(s: seq<T>, pat: seq<T>): (r: Option<nat>)
    requires |pat| > 0
    ensures r.Some? ==> MatchAt(s, pat, r.value)
    ensures r.Some? ==> forall j :: 0 <= j < r.value ==> !MatchAt(s, pat, j)
    ensures r.None? ==> forall j :: 0 <= j ==> !MatchAt(s, pat, j)
  {
    FindFrom(s, pat, 0)
  }

  /** The first occurrence is determined by where `pat` occurs. */
  lemma FindIs<T>(s: seq<T>, pat: seq<T>, k: nat)
    requires |pat| > 0
    requires MatchAt(s, pat, k)
    requires forall j :: 0 <= j < k ==> !MatchAt(s, pat, j)
    ensures Find(s, pat) == Some(k)
  {
  }

  /** An occurrence agrees with the pattern at every offset. */
  lemma MatchNeeds<T>(s: seq<T>, pat: seq<T>, j: nat, m: nat)
    requires m < |pat| && j + m < |s| && s[j + m] != pat[m]
    ensures !MatchAt(s, pat, j)
  {
    assert j + |pat| <= |s| ==> s[j..j + |pat|][m] == s[j + m];
  }

  lemma MatchShift<T>(a: seq<T>, b: seq<T>, pat: seq<T>, j: nat)
    ensures MatchAt(a + b, pat, |a| + j) <==> MatchAt(b, pat, j)
  {
    if j + |pat| <= |b| {
      assert (a + b)[|a| + j..|a| + j + |pat|] == b[j..j + |pat|];
    }
  }

  /**
   * When no occurrence starts inside `a`, searching `a + b` is searching `b`,
   * shifted by `|a|`.
   */
  lemma FindPast<T>(a: seq<T>, b: seq<T>, pat: seq<T>)
    requires |pat| > 0
    requires forall j :: 0 <= j < |a| ==> !MatchAt(a + b, pat, j)
    ensures Find(a + b, pat) == match Find(b, pat) case None => None case Some(i) => Some(|a| + i)
  {
    match Find(b, pat)
    case None =>
      forall j: nat ensures !MatchAt(a + b, pat, j) {
        if j >= |a| { MatchShift(a, b, pat, j - |a|); }
      }
    case Some(i) =>
      MatchShift(a, b, pat, i);
      forall j: nat | j < |a| + i ensures !MatchAt(a + b, pat, j) {
        if j >= |a| { MatchShift(a, b, pat, j - |a|); }
      }
      FindIs(a + b, pat, |a| + i);
  }

  /**
   * When the first element of `pat` does not occur in `a`, searching `a + b`
   * is searching `b`, shifted by `|a|`.
   */
  lemma FindAfter<T>(a: seq<T>, b: seq<T>, pat: seq<T>)
    requires |pat| > 0 && Lacks(a, pat[0])
    ensures Find(a + b, pat) == match Find(b, pat) case None => None case Some(i) => Some(|a| + i)
  {
    forall j: nat | j < |a|
      ensures !MatchAt(a + b, pat, j)
    {
      assert (a + b)[j] == a[j];
      MatchNeeds(a + b, pat, j, 0);
    }
    FindPast(a, b, pat);
  }

  /** A sequence that lacks the first element of `pat` does not contain `pat`. */
  lemma FindLacking<T>(a: seq<T>, pat: seq<T>)
    requires |pat| > 0 && Lacks(a, pat[0])
    ensures Find(a, pat) == None
  {
    FindAfter(a, [], pat);
    assert a + [] == a;
  }

  /** A sequence that starts with `pat` finds it at 0. */
  lemma FindAtStart<T>(s: seq<T>, pat: seq<T>)
    requires |pat| > 0 && |pat| <= |s| && s[..|pat|] == pat
    ensures Find(s, pat) == Some(0)
  {
    FindIs(s, pat, 0);
  }

  /** Appending after the first occurrence does not move it. */
  lemma FindExtend<T>(x: seq<T>, y: seq<T>, pat: seq<T>)
    requires |pat| > 0 && Find(x, pat).Some?
    ensures Find(x + y, pat) == Find(x, pat)
  {
    var i := Find(x, pat).value;
    assert (x + y)[i..i + |pat|] == x[i..i + |pat|];
    forall j: nat | j < i ensures !MatchAt(x + y, pat, j) {
      assert !MatchAt(x, pat, j);
      assert (x + y)[j..j + |pat|] == x[j..j + |pat|];
    }
    FindIs(x + y, pat, i);
  }

  // ---------------------------------------------------------------------------
  // join and split(sep)
  // ---------------------------------------------------------------------------

  /** Python's `sep.join(parts)`. */
  function Join(parts: seq<string>, sep: string): string
  {
    if |parts| == 0 then ""
    else if |parts| == 1 then parts[0]
    else parts[0] + sep + Join(parts[1..], sep)
  }

  /**
   * Python's `s.split(sep)`: the pieces between successive non-overlapping
   * occurrences of `sep`, scanning left to right.
   */
  function SplitOn(s: string, sep: string): (parts: seq<string>)
    requires |sep| > 0
    ensures |parts| >= 1
    ensures Join(parts, sep) == s
    ensures forall k :: 0 <= k < |parts| ==> Find(parts[k], sep) == None
    decreases |s|
  {
    match Find(s, sep)
    case None => [s]
    case Some(i) =>
      var rest := SplitOn(s[i + |sep|..], sep);
      assert Find(s[..i], sep) == None by {
        forall j: nat ensures !MatchAt(s[..i], sep, j) {
          if j + |sep| <= i {
            assert !MatchAt(s, sep, j);
            assert s[..i][j..j + |sep|] == s[j..j + |sep|];
          }
        }
      }
      assert s[..i] + sep + s[i + |sep|..] == s by {
        assert s[i..i + |sep|] == sep;
        assert s == s[..i] + s[i..i + |sep|] + s[i + |sep|..];
      }
      [s[..i]] + rest
  }

  /**
   * Splitting undoes joining when no part holds the separator's first
   * character (so no occurrence can start inside a part).
   */
  lemma {:induction false} SplitJoin(parts: seq<string>, sep: string)
    requires |sep| > 0 && |parts| >= 1
    requires forall k :: 0 <= k < |parts| ==> Lacks(parts[k], sep[0])
    ensures SplitOn(Join(parts, sep), sep) == parts
  {
    if |parts| == 1 {
      FindLacking(parts[0], sep);
    } else {
      var p := parts[0];
      var tail := Join(parts[1..], sep);
      var s := Join(parts, sep);
      assert s == p + (sep + tail);
      FindAfter(p, sep + tail, sep);
      FindAtStart(sep + tail, sep);
      assert Find(s, sep) == Some(|p|);
      assert s[..|p|] == p;
      assert s[|p| + |sep|..] == tail;
      SplitJoin(parts[1..], sep);
      assert SplitOn(s, sep) == [p] + SplitOn(tail, sep);
      assert parts == [p] + parts[1..];
    }
  }

  lemma JoinStartsWith(parts: seq<string>, sep: string)
    requires |parts| >= 1
    ensures |Join(parts, sep)| >= |parts[0]| && Join(parts, sep)[..|parts[0]|] == parts[0]
  {
    if |parts| > 1 {
      assert Join(parts, sep) == parts[0] + (sep + Join(parts[1..], sep));
    }
  }

  lemma {:induction false} JoinAppend(parts: seq<string>, sep: string, x: string)
    requires |parts| >= 1
    ensures Join(parts + [x], sep) == Join(parts, sep) + sep + x
  {
    if |parts| == 1 {
      assert (parts + [x])[1..] == [x];
    } else {
      assert (parts + [x])[1..] == parts[1..] + [x];
      JoinAppend(parts[1..], sep, x);
    }
  }

  /** The blank line that ends a header block. */
  const CRLFCRLF: string := "\r\n\r\n"

  /**
   * In a block of non-empty lines without '\r', joined by CRLF and followed
   * by CRLF CRLF, the first CRLF CRLF is the one after the last line.
   */
  lemma {:induction false} BlankLineEndsBlock(lines: seq<string>)
    requires |lines| >= 1
    requires forall k :: 0 <= k < |lines| ==> lines[k] != [] && Lacks(lines[k], '\r')
    ensures Find(Join(lines, CRLF) + CRLFCRLF, CRLFCRLF) == Some(|Join(lines, CRLF)|)
  {
    var l0 := lines[0];
    if |lines| == 1 {
      FindAfter(l0, CRLFCRLF, CRLFCRLF);
      FindAtStart(CRLFCRLF, CRLFCRLF);
    } else {
      var rest := lines[1..];
      forall k | 0 <= k < |rest| ensures rest[k] != [] && Lacks(rest[k], '\r') {
        assert rest[k] == lines[k + 1];
      }
      BlankLineEndsBlock(rest);
      JoinStartsWith(rest, CRLF);
      assert Join(rest, CRLF)[0] == rest[0][0];
      BlankLineAfterLine(l0, Join(rest, CRLF));
    }
  }

  /** A line without '\r' and a CRLF in front of a block keep its first CRLF CRLF where it was, shifted. */
  lemma BlankLineAfterLine(line: string, tail: string)
    requires Lacks(line, '\r') && tail != [] && tail[0] != '\r'
    requires Find(tail + CRLFCRLF, CRLFCRLF) == Some(|tail|)
    ensures Find(line + CRLF + tail + CRLFCRLF, CRLFCRLF) == Some(|line| + 2 + |tail|)
  {
    var x := "\r\n" + (tail + CRLFCRLF);
    assert line + CRLF + tail + CRLFCRLF == line + x;
    FindAfter(line, x, CRLFCRLF);
    assert x[2] == tail[0];
    MatchNeeds(x, CRLFCRLF, 0, 2);
    MatchNeeds(x, CRLFCRLF, 1, 0);
    FindPast("\r\n", tail + CRLFCRLF, CRLFCRLF);
  }

  // ---------------------------------------------------------------------------
  // split() on whitespace
  // ---------------------------------------------------------------------------

  /** Length of the run of non-whitespace characters that starts `s`. */
  function TokenLength(s: string): (n: nat)
    ensures n <= |s| && NoSpace(s[..n])
    ensures n < |s| ==> IsSpace(s[n])
  {
    if s == [] || IsSpace(s[0]) then 0
    else
      var m := TokenLength(s[1..]);
      assert s[..1 + m] == [s[0]] + s[1..][..m];
      1 + m
  }

  /** Python's `s.split()`: the maximal runs of non-whitespace characters. */
  function Words(s: string): (ws: seq<string>)
    ensures forall k :: 0 <= k < |ws| ==> ws[k] != [] && NoSpace(ws[k])
    decreases |s|
  {
    if s == [] then []
    else if IsSpace(s[0]) then Words(s[1..])
    else
      var n := TokenLength(s);
      [s[..n]] + Words(s[n..])
  }

  lemma {:induction false} TokenLengthOfWord(w: string, x: string)
    requires NoSpace(w)
    requires x == [] || IsSpace(x[0])
    ensures TokenLength(w + x) == |w|
  {
    if w == [] {
      assert w + x == x;
    } else {
      assert (w + x)[1..] == w[1..] + x;
      TokenLengthOfWord(w[1..], x);
    }
  }

  /** Splitting a single-space join of words gives the words back. */
  lemma {:induction false} WordsJoin(ws: seq<string>)
    requires forall k :: 0 <= k < |ws| ==> ws[k] != [] && NoSpace(ws[k])
    ensures Words(Join(ws, " ")) == ws
  {
    if |ws| == 1 {
      var w := ws[0];
      TokenLengthOfWord(w, []);
      assert w + [] == w;
      assert w[|w|..] == [];
    } else if |ws| > 1 {
      var w := ws[0];
      var rest := Join(ws[1..], " ");
      var s := w + " " + rest;
      assert s == w + (" " + rest);
      TokenLengthOfWord(w, " " + rest);
      assert s[..|w|] == w;
      assert s[|w|..] == " " + rest;
      assert (" " + rest)[1..] == rest;
      WordsJoin(ws[1..]);
      assert ws == [w] + ws[1..];
    }
  }

  /** `split()` of whitespace alone gives no piece at all. */
  lemma WordsOfSpace(p: string)
    requires forall k :: 0 <= k < |p| ==> IsSpace(p[k])
    ensures Words(p) == []
  {
    WordsSkipSpace(p, []);
    assert p + [] == p;
  }

  /**
   * `split()` takes the first maximal run of non-whitespace after any
   * leading whitespace as its first piece, then splits what follows the run.
   */
  lemma WordsSplit(p: string, w: string, q: string)
    requires forall k :: 0 <= k < |p| ==> IsSpace(p[k])
    requires w != [] && NoSpace(w)
    requires q == [] || IsSpace(q[0])
    ensures Words(p + w + q) == [w] + Words(q)
  {
    assert p + w + q == p + (w + q);
    WordsSkipSpace(p, w + q);
    TokenLengthOfWord(w, q);
    assert (w + q)[..|w|] == w;
    assert (w + q)[|w|..] == q;
  }

  /** Leading whitespace does not change the pieces of `split()`. */
  lemma {:induction false} WordsSkipSpace(p: string, t: string)
    requires forall k :: 0 <= k < |p| ==> IsSpace(p[k])
    ensures Words(p + t) == Words(t)
    decreases |p|
  {
    if p != [] {
      assert (p + t)[0] == p[0];
      assert (p + t)[1..] == p[1..] + t;
      assert Words(p + t) == Words(p[1..] + t);
      WordsSkipSpace(p[1..], t);
    } else {
      assert p + t == t;
    }
  }

  // ---------------------------------------------------------------------------
  // strip(), lstrip(c) and replace(pat, '')
  // ---------------------------------------------------------------------------

  /** Python's `s.lstrip()`. */
  function LStripSpace(s: string): (r: string)
    ensures |r| <= |s| && r == s[|s| - |r|..]
    ensures forall k :: 0 <= k < |s| - |r| ==> IsSpace(s[k])
    ensures r == [] || !IsSpace(r[0])
  {
    if s != [] && IsSpace(s[0]) then LStripSpace(s[1..]) else s
  }

  /** Python's `s.rstrip()`. */
  function RStripSpace(s: string): (r: string)
    ensures |r| <= |s| && r == s[..|r|]
    ensures forall k :: |r| <= k < |s| ==> IsSpace(s[k])
    ensures r == [] || !IsSpace(r[|r| - 1])
  {
    if s != [] && IsSpace(s[|s| - 1]) then RStripSpace(s[..|s| - 1]) else s
  }

  /** Python's `s.strip()`. */
  function Strip(s: string): string {
    RStripSpace(LStripSpace(s))
  }

  /** `strip()` never lengthens a string and leaves no whitespace at either end of what it keeps. */
  lemma StripEnds(s: string)
    ensures |Strip(s)| <= |s|
    ensures Strip(s) == [] || (!IsSpace(Strip(s)[0]) && !IsSpace(Strip(s)[|Strip(s)| - 1]))
  {
    var l := LStripSpace(s);
    var r := RStripSpace(l);
    if r != [] {
      assert r[0] == l[0];
    }
  }

  /**
   * What `strip()` keeps is a slice of `s`, starting where the leading
   * whitespace ends, with only whitespace outside it.
   */
  lemma StripIsSlice(s: string)
    ensures var a := |s| - |LStripSpace(s)|;
      && a + |Strip(s)| <= |s|
      && Strip(s) == s[a..a + |Strip(s)|]
      && (forall k :: 0 <= k < a ==> IsSpace(s[k]))
      && (forall k :: a + |Strip(s)| <= k < |s| ==> IsSpace(s[k]))
  {
    var l := LStripSpace(s);
    var r := RStripSpace(l);
    assert Strip(s) == r;
    StripSlice(s, l, r);
  }

  /** Right-stripping the left-stripped suffix `l` of `s` leaves a slice of `s` with only whitespace around it. */
  lemma StripSlice(s: string, l: string, r: string)
    requires |l| <= |s| && l == s[|s| - |l|..]
    requires forall k :: 0 <= k < |s| - |l| ==> IsSpace(s[k])
    requires |r| <= |l| && r == l[..|r|]
    requires forall k :: |r| <= k < |l| ==> IsSpace(l[k])
    ensures var a := |s| - |l|;
      && a + |r| <= |s|
      && r == s[a..a + |r|]
      && (forall k :: 0 <= k < a ==> IsSpace(s[k]))
      && (forall k :: a + |r| <= k < |s| ==> IsSpace(s[k]))
  {
    var a := |s| - |l|;
    forall k | a + |r| <= k < |s|
      ensures IsSpace(s[k])
    {
      assert s[k] == l[k - a];
    }
  }

  /** A string with no surrounding whitespace is its own `strip()`. */
  lemma StripUnpadded(s: string)
    requires s == [] || (!IsSpace(s[0]) && !IsSpace(s[|s| - 1]))
    ensures Strip(s) == s
  {
  }

  /** Python's `s.lstrip(c)` for a single character `c`. */
  function LStripChar(s: string, c: char): (r: string)
    ensures |r| <= |s| && r == s[|s| - |r|..]
    ensures forall k :: 0 <= k < |s| - |r| ==> s[k] == c
    ensures r == [] || r[0] != c
  {
    if s != [] && s[0] == c then
      var r := LStripChar(s[1..], c);
      LStripCharStep(s, c, r);
      r
    else s
  }

  /** One more leading `c` in front of a stripped suffix is stripped too. */
  lemma LStripCharStep(s: string, c: char, r: string)
    requires s != [] && s[0] == c
    requires |r| <= |s| - 1 && r == s[1..][|s| - 1 - |r|..]
    requires forall k :: 0 <= k < |s| - 1 - |r| ==> s[1..][k] == c
    ensures r == s[|s| - |r|..]
    ensures forall k :: 0 <= k < |s| - |r| ==> s[k] == c
  {
    forall k | 0 <= k < |s| - |r| ensures s[k] == c {
      if k > 0 { assert s[k] == s[1..][k - 1]; }
    }
  }

  /**
   * Python's `s.replace(pat, '')`: every occurrence of `pat` found scanning
   * left to right, without overlap, is removed.
   */
  function RemoveAll(s: string, pat: string): (r: string)
    requires |pat| > 0
    ensures |r| <= |s|
    decreases |s|
  {
    if s == [] then ""
    else if MatchAt(s, pat, 0) then RemoveAll(s[|pat|..], pat)
    else [s[0]] + RemoveAll(s[1..], pat)
  }

  /** No two adjacent dots. */
  predicate NoDotPair(r: string) {
    forall j :: 0 <= j < |r| - 1 ==> !(r[j] == '.' && r[j + 1] == '.')
  }

  /** `s.replace('..', '')` leaves no two adjacent dots behind. */
  lemma {:induction false} RemoveDotDotLeavesNone(s: string)
    ensures NoDotPair(RemoveAll(s, ".."))
    decreases |s|
  {
    if s != [] {
      if MatchAt(s, "..", 0) {
        RemoveDotDotLeavesNone(s[2..]);
      } else {
        var rest := RemoveAll(s[1..], "..");
        RemoveDotDotLeavesNone(s[1..]);
        if s[0] == '.' && |s| > 1 {
          assert s[1] != '.' by {
            assert s[0..2] == [s[0], s[1]];
          }
          assert !MatchAt(s[1..], "..", 0) by {
            MatchNeeds(s[1..], "..", 0, 0);
          }
          assert rest == [s[1]] + RemoveAll(s[2..], "..") by {
            assert s[1..][1..] == s[2..];
          }
        }
      }
    }
  }

  /** A string with no two adjacent dots does not contain "..". */
  lemma NoDotPairFind(r: string)
    requires NoDotPair(r)
    ensures Find(r, "..") == None
  {
    forall j: nat ensures !MatchAt(r, "..", j) {
      if j + 1 < |r| {
        if r[j] != '.' {
          MatchNeeds(r, "..", j, 0);
        } else {
          MatchNeeds(r, "..", j, 1);
        }
      }
    }
  }

  /** A slice of `s[1..]` is the slice of `s` one place further on. */
  lemma SliceOfTail<T>(s: seq<T>, j: nat, n: nat)
    requires 1 + j + n <= |s|
    ensures s[1..][j..j + n] == s[j + 1..j + 1 + n]
  {
    var a, b := s[1..][j..j + n], s[j + 1..j + 1 + n];
    forall k | 0 <= k < |a|
      ensures a[k] == b[k]
    {
    }
  }

  /** Removing a pattern that does not occur leaves the text unchanged. */
  lemma {:induction false} RemoveAllAbsent(s: string, pat: string)
    requires |pat| > 0 && Find(s, pat) == None
    ensures RemoveAll(s, pat) == s
    decreases |s|
  {
    if s != [] {
      assert !MatchAt(s, pat, 0);
      assert Find(s[1..], pat) == None by {
        forall j: nat ensures !MatchAt(s[1..], pat, j) {
          assert !MatchAt(s, pat, j + 1);
          if j + |pat| <= |s[1..]| {
            SliceOfTail(s, j, |pat|);
          }
        }
      }
      RemoveAllAbsent(s[1..], pat);
      assert s == [s[0]] + s[1..];
    }
  }
}
