/**
 * The few Python `str` operations the download utility relies on, written as
 * functions over `seq<char>`, each with the property a caller relies on.
 */
module Text {
  import opened Wrappers

  predicate StartsWith(s: string, prefix: string)
  {
    |prefix| <= |s| && s[..|prefix|] == prefix
  }

  predicate EndsWith(s: string, suffix: string)
  {
    |suffix| <= |s| && s[|s| - |suffix|..] == suffix
  }

  /** The `chars` argument of `str.strip`: the set of characters to drop. */
  type Chars = set<char>

  /** No argument: the characters `str.isspace` accepts. */
  const Whitespace: Chars := {
    ' ', '\t', '\n', '\U{0B}', '\U{0C}', '\r', '\U{1C}', '\U{1D}', '\U{1E}', '\U{1F}', '\U{85}', '\U{A0}',
    '\U{1680}', '\U{2000}', '\U{2001}', '\U{2002}', '\U{2003}', '\U{2004}', '\U{2005}', '\U{2006}',
    '\U{2007}', '\U{2008}', '\U{2009}', '\U{200A}', '\U{2028}', '\U{2029}', '\U{202F}', '\U{205F}', '\U{3000}'
  }

  /** " \n\t." */
  const UrlBlank: Chars := {' ', '\n', '\t', '.'}

  /** ' \t"' */
  const QuoteBlank: Chars := {' ', '\t', '"'}

  /** The line boundaries `str.splitlines` splits on ("\r\n" counts as one). */
  predicate IsLineBreak(c: char)
  {
    || '\n' <= c <= '\r' || '\U{1C}' <= c <= '\U{1E}' || c == '\U{85}' || c == '\U{2028}' || c == '\U{2029}'
  }

  /** Every character of `s` is one of `cs`; true of the empty string. */
  predicate AllIn(s: string, cs: Chars)
  {
    forall k :: 0 <= k < |s| ==> s[k] in cs
  }

  /** `s.lstrip(chars)`: the suffix left after dropping leading characters in `cs`. */
  function LStrip(s: string, cs: Chars): (r: string)
    ensures |r| <= |s| && r == s[|s| - |r|..]
    ensures forall k :: 0 <= k < |s| - |r| ==> s[k] in cs
    ensures |r| > 0 ==> r[0] !in cs
  {
    if |s| > 0 && s[0] in cs then LStrip(s[1..], cs) else s
  }

  /** `s.rstrip(chars)`: the prefix left after dropping trailing characters in `cs`. */
  function RStrip(s: string, cs: Chars): (r: string)
    ensures |r| <= |s| && r == s[..|r|]
    ensures forall k :: |r| <= k < |s| ==> s[k] in cs
    ensures |r| > 0 ==> r[|r| - 1] !in cs
  {
    if |s| > 0 && s[|s| - 1] in cs then RStrip(s[..|s| - 1], cs) else s
  }

  /** `s.strip(chars)`, with `cs` standing for `chars`. */
  function Strip(s: string, cs: Chars): (r: string)
    ensures |r| == 0 <==> AllIn(s, cs)
    ensures |r| > 0 ==> r[0] !in cs && r[|r| - 1] !in cs
    ensures |r| <= |s|
  {
    var l := LStrip(s, cs);
    var r := RStrip(l, cs);
    assert r == s[|s| - |l|..][..|r|];
    r
  }

  /** What `strip` keeps: the middle of `s` between a leading run and a
      trailing run of characters in `cs`. Both runs are as long as they can
      be, since a non-empty result neither starts nor ends with one of `cs`. */
  lemma StripIsMiddle(s: string, cs: Chars)
    ensures var r, a := Strip(s, cs), |s| - |LStrip(s, cs)|;
      && a + |r| <= |s| && (forall k :: 0 <= k < |r| ==> r[k] == s[a + k])
      && (forall k :: 0 <= k < a ==> s[k] in cs)
      && (forall k :: a + |r| <= k < |s| ==> s[k] in cs)
  {
    var l := LStrip(s, cs);
    assert Strip(s, cs) == RStrip(l, cs);
    DropThenTake(s, l, RStrip(l, cs));
  }

  /** A prefix `r` of a suffix `l` of `s` is a slice of `s`, and what follows
      `r` in `l` is what follows it in `s`. */
  lemma DropThenTake(s: string, l: string, r: string)
    requires |l| <= |s| && l == s[|s| - |l|..] && |r| <= |l| && r == l[..|r|]
    ensures forall k :: 0 <= k < |r| ==> r[k] == s[|s| - |l| + k]
    ensures forall k :: |s| - |l| + |r| <= k < |s| ==> s[k] == l[k - (|s| - |l|)]
  {
  }

  /** `os.path.basename` on a POSIX path: what follows the last '/'. */
  function Basename(p: string): (r: string)
    ensures '/' !in r
    ensures |r| <= |p| && r == p[|p| - |r|..]
    ensures |r| < |p| ==> p[|p| - |r| - 1] == '/'
  {
    if |p| == 0 || p[|p| - 1] == '/' then [] else Basename(p[..|p| - 1]) + [p[|p| - 1]]
  }

  lemma {:induction false} BasenameAfterSlash(dir: string, name: string)
    requires '/' !in name
    ensures Basename(dir + ['/'] + name) == name
  {
    if |name| > 0 {
      var front := name[..|name| - 1];
      BasenameAfterSlash(dir, front);
      assert (dir + ['/'] + name)[..|dir| + |name|] == dir + ['/'] + front;
      assert front + [name[|name| - 1]] == name;
    }
  }

  /** `s.split(sep)` for a one-character separator. */
  function Split(s: string, sep: char): (parts: seq<string>)
    ensures |parts| >= 1
    ensures forall k :: 0 <= k < |parts| ==> sep !in parts[k]
    ensures |parts| == 1 <==> sep !in s
  {
    if |s| == 0 then [[]]
    else if s[0] == sep then [[]] + Split(s[1..], sep)
    else
      var rest := Split(s[1..], sep);
      [[s[0]] + rest[0]] + rest[1..]
  }

  /** The first field is the text up to the first separator; the remaining
      fields are those of the text after it. */
  lemma {:induction false} SplitFirst(s: string, sep: char)
    ensures var first := Split(s, sep)[0];
      && |first| <= |s| && s[..|first|] == first
      && (|first| == |s| || s[|first|] == sep)
      && (|first| < |s| ==> Split(s, sep)[1..] == Split(s[|first| + 1..], sep))
  {
    if |s| > 0 && s[0] != sep {
      var rest := Split(s[1..], sep);
      SplitFirst(s[1..], sep);
      assert Split(s, sep) == [[s[0]] + rest[0]] + rest[1..];
      var first := rest[0];
      if |first| < |s| - 1 {
        assert s[1..][|first| + 1..] == s[|first| + 2..];
      }
    }
  }

  /** With a separator present, the second field is the text between the first
      two separators (or up to the end). */
  lemma SplitSecond(s: string, sep: char)
    requires sep in s
    ensures |Split(s, sep)| >= 2
    ensures var first, second := Split(s, sep)[0], Split(s, sep)[1];
      && |first| + 1 + |second| <= |s|
      && s[..|first|] == first && s[|first|] == sep
      && s[|first| + 1..|first| + 1 + |second|] == second
      && (|first| + 1 + |second| == |s| || s[|first| + 1 + |second|] == sep)
  {
    SplitFirst(s, sep);
    var first := Split(s, sep)[0];
    var t := s[|first| + 1..];
    SplitFirst(t, sep);
    assert Split(s, sep)[1] == Split(t, sep)[0];
    DropThenSlice(s, |first| + 1, |Split(t, sep)[0]|);
  }

  lemma DropThenSlice(s: string, i: nat, n: nat)
    requires i + n <= |s|
    ensures s[i..i + n] == s[i..][..n]
    ensures i + n < |s| ==> s[i + n] == s[i..][n]
  {
  }

  /** `s.split(sep, 1)`: the text before the first `sep` and the text after it. */
  function SplitOnce(s: string, sep: char): (r: Option<(string, string)>)
    ensures r.None? <==> sep !in s
    ensures r.Some? ==> s == r.value.0 + [sep] + r.value.1 && sep !in r.value.0
  {
    if |s| == 0 then None
    else if s[0] == sep then Some(([], s[1..]))
    else match SplitOnce(s[1..], sep)
      case None => None
      case Some((a, b)) => Some(([s[0]] + a, b))
  }

  /** `s.rsplit(sep, 1)`: the text before the last `sep` and the text after it. */
  function RSplitOnce(s: string, sep: char): (r: Option<(string, string)>)
    ensures r.None? <==> sep !in s
    ensures r.Some? ==> s == r.value.0 + [sep] + r.value.1 && sep !in r.value.1
  {
    if |s| == 0 then None
    else if s[|s| - 1] == sep then Some((s[..|s| - 1], []))
    else match RSplitOnce(s[..|s| - 1], sep)
      case None => None
      case Some((a, b)) => Some((a, b + [s[|s| - 1]]))
  }

  /** `s.rsplit('.', 1)[0]`: `s` without its last extension, or `s` itself. */
  function DropExtension(s: string): (r: string)
    ensures '.' in s ==> exists ext :: '.' !in ext && s == r + ['.'] + ext
    ensures '.' !in s ==> r == s
  {
    match RSplitOnce(s, '.')
    case None => s
    case Some((stem, ext)) => stem
  }

  lemma {:induction false} DropAppendedExtension(stem: string, ext: string)
    requires '.' !in ext
    ensures RSplitOnce(stem + ['.'] + ext, '.') == Some((stem, ext))
    ensures DropExtension(stem + ['.'] + ext) == stem
  {
    var s := stem + ['.'] + ext;
    if |ext| == 0 {
      assert s[..|s| - 1] == stem;
    } else {
      var front := ext[..|ext| - 1];
      assert s[..|s| - 1] == stem + ['.'] + front;
      DropAppendedExtension(stem, front);
      assert front + [ext[|ext| - 1]] == ext;
    }
  }

  /** `s.replace(pat, '')`: every non-overlapping occurrence of `pat`, scanned
      from the left, removed; an empty `pat` leaves `s` unchanged. */
  function RemoveAll(s: string, pat: string): (r: string)
    ensures |r| <= |s|
    decreases |s|
  {
    if |pat| == 0 || |s| == 0 then s
    else if StartsWith(s, pat) then RemoveAll(s[|pat|..], pat)
    else [s[0]] + RemoveAll(s[1..], pat)
  }

  /** `pat` occurs in `s` starting at index `i`. */
  predicate OccursAt(s: string, pat: string, i: int)
  {
    0 <= i <= |s| - |pat| && s[i..i + |pat|] == pat
  }

  /** A non-empty `pat` occurs somewhere in `s`. */
  predicate Occurs(s: string, pat: string)
  {
    |pat| > 0 && exists i :: 0 <= i <= |s| && OccursAt(s, pat, i)
  }

  /** Removing a non-empty pattern changes the text exactly when the pattern occurs in it. */
  lemma {:induction false} RemoveAllUnchanged(s: string, pat: string)
    requires |pat| > 0
    ensures RemoveAll(s, pat) == s <==> !Occurs(s, pat)
  {
    if Occurs(s, pat) {
      RemoveAllShortens(s, pat);
    } else {
      RemoveAllAbsent(s, pat);
    }
  }

  lemma {:induction false} RemoveAllAbsent(s: string, pat: string)
    requires |pat| > 0 && !Occurs(s, pat)
    ensures RemoveAll(s, pat) == s
    decreases |s|
  {
    if |s| > 0 {
      assert !StartsWith(s, pat) by {
        if StartsWith(s, pat) {
          assert OccursAt(s, pat, 0);
        }
      }
      assert !Occurs(s[1..], pat) by {
        if Occurs(s[1..], pat) {
          var i :| 0 <= i <= |s[1..]| && OccursAt(s[1..], pat, i);
          assert s[i + 1..i + 1 + |pat|] == s[1..][i..i + |pat|];
          assert OccursAt(s, pat, i + 1);
        }
      }
      RemoveAllAbsent(s[1..], pat);
    }
  }

  lemma {:induction false} RemoveAllShortens(s: string, pat: string)
    requires Occurs(s, pat)
    ensures |RemoveAll(s, pat)| < |s|
    decreases |s|
  {
    if !StartsWith(s, pat) {
      var i :| 0 <= i <= |s| && OccursAt(s, pat, i);
      assert s[1..][i - 1..i - 1 + |pat|] == s[i..i + |pat|];
      assert OccursAt(s[1..], pat, i - 1);
      RemoveAllShortens(s[1..], pat);
    }
  }

  /** A leading occurrence of `pat` is removed and the scan goes on after it. */
  lemma RemoveAllLeading(pat: string, t: string)
    ensures RemoveAll(pat + t, pat) == RemoveAll(t, pat)
  {
    if |pat| > 0 {
      assert (pat + t)[..|pat|] == pat;
      assert (pat + t)[|pat|..] == t;
    }
  }

  /** Removal only drops characters: one absent from `s` is absent from the result. */
  lemma {:induction false} RemoveAllKeepsOut(s: string, pat: string, c: char)
    requires c !in s
    ensures c !in RemoveAll(s, pat)
    decreases |s|
  {
    if |pat| > 0 && |s| > 0 {
      if StartsWith(s, pat) {
        assert forall k :: |pat| <= k < |s| ==> s[|pat|..][k - |pat|] == s[k];
        RemoveAllKeepsOut(s[|pat|..], pat, c);
      } else {
        assert forall k :: 1 <= k < |s| ==> s[1..][k - 1] == s[k];
        RemoveAllKeepsOut(s[1..], pat, c);
      }
    }
  }

  /** `s.lower()` restricted to ASCII letters. */
  function LowerAscii(s: string): (r: string)
  {
    seq(|s|, k requires 0 <= k < |s| => if 'A' <= s[k] <= 'Z' then s[k] - 'A' + 'a' else s[k])
  }

  /** Comparing `s.lower()` with a lower-case word accepts exactly the
      spellings of that word in any mix of cases. */
  lemma LowerAsciiMatches(s: string, word: string)
    requires forall k :: 0 <= k < |word| ==> 'a' <= word[k] <= 'z'
    ensures LowerAscii(s) == word <==>
      |s| == |word| && forall k :: 0 <= k < |s| ==> s[k] == word[k] || s[k] == word[k] - 'a' + 'A'
  {
    if |s| == |word| && forall k :: 0 <= k < |s| ==> s[k] == word[k] || s[k] == word[k] - 'a' + 'A' {
      assert forall k :: 0 <= k < |s| ==> LowerAscii(s)[k] == word[k];
    }
  }

  /** `s.splitlines()`: no trailing empty line, "\r\n" is one boundary. */
  function SplitLines(s: string): (lines: seq<string>)
    ensures forall k, j :: 0 <= k < |lines| && 0 <= j < |lines[k]| ==> !IsLineBreak(lines[k][j])
    ensures |lines| == 0 <==> |s| == 0
    decreases |s|
  {
    if |s| == 0 then []
    else
      var i := FirstBreak(s);
      if i == |s| then [s]
      else
        var width := if s[i] == '\r' && i + 1 < |s| && s[i + 1] == '\n' then 2 else 1;
        [s[..i]] + SplitLines(s[i + width..])
  }

  /** `"\n".join(lines)`. */
  function JoinLines(lines: seq<string>): string
  {
    if |lines| == 0 then []
    else if |lines| == 1 then lines[0]
    else lines[0] + "\n" + JoinLines(lines[1..])
  }

  /** On text whose only boundaries are '\n' and which does not end with one,
      `splitlines` is undone by joining with '\n'. */
  lemma {:induction false} SplitLinesJoin(s: string)
    requires forall k :: 0 <= k < |s| && IsLineBreak(s[k]) ==> s[k] == '\n'
    requires |s| == 0 || s[|s| - 1] != '\n'
    ensures JoinLines(SplitLines(s)) == s
    decreases |s|
  {
    if |s| > 0 && FirstBreak(s) < |s| {
      var i := FirstBreak(s);
      var rest := s[i + 1..];
      assert forall k :: 0 <= k < |rest| ==> rest[k] == s[i + 1 + k];
      SplitLinesJoin(rest);
      SplitLinesAtNewline(s, i);
      JoinLinesCons(s[..i], SplitLines(rest));
    }
  }

  /** A '\n' at the first boundary ends the first line. */
  lemma SplitLinesAtNewline(s: string, i: nat)
    requires i == FirstBreak(s) < |s| - 1 && s[i] == '\n'
    ensures SplitLines(s) == [s[..i]] + SplitLines(s[i + 1..])
    ensures s == s[..i] + "\n" + s[i + 1..]
  {
    assert s[i] != '\r';
    SplitAround(s, i);
  }

  lemma SplitAround(s: string, i: nat)
    requires i < |s|
    ensures s == s[..i] + [s[i]] + s[i + 1..]
  {
  }

  lemma JoinLinesCons(line: string, lines: seq<string>)
    requires |lines| > 0
    ensures JoinLines([line] + lines) == line + "\n" + JoinLines(lines)
  {
    assert ([line] + lines)[1..] == lines;
  }

  /** "\r\n" is a single boundary: the line before it is followed directly
      by the lines after it. */
  lemma SplitLinesCrLf(a: string, b: string)
    requires forall k :: 0 <= k < |a| ==> !IsLineBreak(a[k])
    ensures SplitLines(a + "\r\n" + b) == [a] + SplitLines(b)
  {
    var s := a + "\r\n" + b;
    var i := FirstBreak(s);
    assert s[|a|] == '\r';
    assert i == |a|;
    assert s[i + 1] == '\n';
    assert s[..i] == a;
    assert s[i + 2..] == b;
  }

  /** Index of the first line boundary in `s`, or `|s|` when there is none. */
  function FirstBreak(s: string): (i: nat)
    ensures i <= |s|
    ensures forall k :: 0 <= k < i ==> !IsLineBreak(s[k])
    ensures i < |s| ==> IsLineBreak(s[i])
  {
    if |s| == 0 || IsLineBreak(s[0]) then 0 else 1 + FirstBreak(s[1..])
  }

  predicate IsDigit(c: char) { '0' <= c <= '9' }

  /** `set(s) <= set('0123456789')`; true of the empty string. */
  predicate AllDigits(s: string)
  {
    forall k :: 0 <= k < |s| ==> IsDigit(s[k])
  }

  /** `int(s)` for a non-empty string of ASCII digits. */
  function DigitsValue(s: string): nat
    requires AllDigits(s)
  {
    if |s| == 0 then 0 else 10 * DigitsValue(s[..|s| - 1]) + (s[|s| - 1] - '0') as nat
  }

  /** `str(n)` for a natural number. */
  function NatToString(n: nat): (r: string)
    ensures |r| > 0 && AllDigits(r)
    ensures DigitsValue(r) == n
    ensures r[0] == '0' ==> n == 0
  {
    var d := ['0' + (n % 10) as char];
    if n < 10 then d
    else
      var front := NatToString(n / 10);
      var r := front + d;
      assert r[..|r| - 1] == front;
      r
  }
}
