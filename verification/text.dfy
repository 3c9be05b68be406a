/** String operations of the Rust standard library that the shell relies
    on, over `string` (a sequence of Unicode scalar values). */
module Text {
  import opened Options

  /** Rust's `char::is_whitespace`: the characters with the Unicode
      White_Space property. */
  predicate IsWhitespace(c: char) {
    || c == ' '
    || ('\t' <= c <= '\r')
    || c == '\U{85}' || c == '\U{A0}' || c == '\U{1680}'
    || ('\U{2000}' <= c <= '\U{200A}')
    || c == '\U{2028}' || c == '\U{2029}' || c == '\U{202F}'
    || c == '\U{205F}' || c == '\U{3000}'
  }

  /** How many leading characters of `s` satisfy `strip`. */
  function LeadingLen(s: string, strip: char -> bool): (n: nat)
    ensures n <= |s|
    ensures forall i :: 0 <= i < n ==> strip(s[i])
    ensures n == |s| || !strip(s[n])
  {
    if s != [] && strip(s[0]) then 1 + LeadingLen(s[1..], strip) else 0
  }

  /** How many trailing characters of `s` satisfy `strip`. */
  function TrailingLen(s: string, strip: char -> bool): (n: nat)
    ensures n <= |s|
    ensures forall i :: |s| - n <= i < |s| ==> strip(s[i])
    ensures n == |s| || !strip(s[|s| - n - 1])
  {
    if s != [] && strip(s[|s| - 1]) then 1 + TrailingLen(s[..|s| - 1], strip) else 0
  }

  /** Removes every leading and every trailing character satisfying `strip`. */
  function TrimBy(s: string, strip: char -> bool): string {
    var t := s[LeadingLen(s, strip)..];
    t[..|t| - TrailingLen(t, strip)]
  }

  /** Rust's `str::trim`. */
  function Trim(s: string): string {
    TrimBy(s, IsWhitespace)
  }

  /** `inner` is `outer` without its first `a` and its last
      `|outer| - a - |inner|` characters, all of which are `c`, and neither
      end of `inner` is `c`. */
  predicate PeeledAt(outer: string, inner: string, c: char, a: int) {
    && 0 <= a && a + |inner| <= |outer| && inner == outer[a..a + |inner|]
    && (forall i :: 0 <= i < a ==> outer[i] == c)
    && (forall i :: a + |inner| <= i < |outer| ==> outer[i] == c)
    && (inner == [] || (inner[0] != c && inner[|inner| - 1] != c))
  }

  /** `inner` is what is left of `outer` once every leading and every
      trailing `c` is removed. */
  predicate Peeled(outer: string, inner: string, c: char) {
    exists a :: 0 <= a <= |outer| && PeeledAt(outer, inner, c, a)
  }

  /** Rust's `str::trim_matches` with a single character pattern: strips
      every leading and every trailing occurrence of `c`. */
  function TrimMatches(s: string, c: char): (r: string)
    ensures Peeled(s, r, c)
  {
    TrimBySpec(s, x => x == c);
    assert PeeledAt(s, TrimBy(s, x => x == c), c, LeadingLen(s, x => x == c));
    TrimBy(s, x => x == c)
  }

  /** Rust's `str::strip_prefix`. */
  function StripPrefix(s: string, prefix: string): (r: Option<string>)
    ensures r.Some? <==> prefix <= s
    ensures r.Some? ==> s == prefix + r.value
  {
    if prefix <= s then Some(s[|prefix|..]) else None
  }

  /** The index of the first occurrence of `c` in `s` (Rust's `str::find`). */
  function IndexOf(s: string, c: char): (r: Option<nat>)
    ensures r.None? <==> c !in s
    ensures r.Some? ==> r.value < |s| && s[r.value] == c && c !in s[..r.value]
  {
    if s == [] then None
    else if s[0] == c then Some(0)
    else match IndexOf(s[1..], c)
      case None => None
      case Some(i) =>
        assert s[..i + 1] == [s[0]] + s[1..][..i];
        Some(i + 1)
  }

  /** The index of the last occurrence of `c` in `s` (Rust's `str::rfind`). */
  function LastIndexOf(s: string, c: char): (r: Option<nat>)
    ensures r.None? <==> c !in s
    ensures r.Some? ==> r.value < |s| && s[r.value] == c && c !in s[r.value + 1..]
  {
    if s == [] then None
    else if s[|s| - 1] == c then Some(|s| - 1)
    else match LastIndexOf(s[..|s| - 1], c)
      case None =>
        assert s == s[..|s| - 1] + [s[|s| - 1]];
        None
      case Some(i) =>
        assert s[i + 1..] == s[..|s| - 1][i + 1..] + [s[|s| - 1]];
        Some(i)
  }

  /** Rust's `str::split_once` with a character pattern: the text before and
      after the first occurrence of `c`. */
  function SplitOnce(s: string, c: char): (r: Option<(string, string)>)
    ensures r.None? <==> c !in s
    ensures r.Some? ==> s == r.value.0 + [c] + r.value.1 && c !in r.value.0
  {
    match IndexOf(s, c)
    case None => None
    case Some(i) =>
      assert s == s[..i] + [c] + s[i + 1..];
      Some((s[..i], s[i + 1..]))
  }

  /** Rust's `str::replacen(c, with, 1)`: the first occurrence of `c`, if
      any, replaced by `with`. */
  function ReplaceFirst(s: string, c: char, with: string): string {
    match IndexOf(s, c)
    case None => s
    case Some(i) => s[..i] + with + s[i + 1..]
  }

  /** Trimming leaves a string alone when neither end would be stripped. */
  lemma TrimByUnchanged(s: string, strip: char -> bool)
    requires s == [] || (!strip(s[0]) && !strip(s[|s| - 1]))
    ensures TrimBy(s, strip) == s
  {
    assert LeadingLen(s, strip) == 0;
    assert s[0..] == s;
  }

  /** Trimming by `strip` returns the middle of `s`: what it drops on either
      side satisfies `strip`, and what it keeps neither starts nor ends with
      a character satisfying `strip`. */
  lemma TrimBySpec(s: string, strip: char -> bool)
    ensures var t, a := TrimBy(s, strip), LeadingLen(s, strip);
      && a + |t| <= |s| && t == s[a..a + |t|]
      && (forall i :: 0 <= i < a ==> strip(s[i]))
      && (forall i :: a + |t| <= i < |s| ==> strip(s[i]))
      && (t == [] || (!strip(t[0]) && !strip(t[|t| - 1])))
  {
    TrimBySlice(s, strip);
    TrimByRight(s, strip);
    TrimByEnds(s, strip);
  }

  lemma TrimBySlice(s: string, strip: char -> bool)
    ensures var t, a := TrimBy(s, strip), LeadingLen(s, strip);
      a + |t| <= |s| && t == s[a..a + |t|]
  {
    var a := LeadingLen(s, strip);
    var u := s[a..];
    var k := |u| - TrailingLen(u, strip);
    assert TrimBy(s, strip) == u[..k];
    assert u[..k] == s[a..a + k];
  }

  lemma TrimByRight(s: string, strip: char -> bool)
    ensures var t, a := TrimBy(s, strip), LeadingLen(s, strip);
      forall i :: a + |t| <= i < |s| ==> strip(s[i])
  {
    var a := LeadingLen(s, strip);
    var u := s[a..];
    var n := TrailingLen(u, strip);
    assert |TrimBy(s, strip)| == |u| - n;
    forall i | a + |u| - n <= i < |s| ensures strip(s[i]) {
      assert s[i] == u[i - a];
    }
  }

  lemma TrimByEnds(s: string, strip: char -> bool)
    ensures var t := TrimBy(s, strip); t == [] || (!strip(t[0]) && !strip(t[|t| - 1]))
  {
    var a := LeadingLen(s, strip);
    var u := s[a..];
    var n := TrailingLen(u, strip);
    var t := u[..|u| - n];
    assert TrimBy(s, strip) == t;
    if t != [] {
      assert t[0] == u[0] && u[0] == s[a];
      assert t[|t| - 1] == u[|u| - n - 1];
    }
  }

  /** `str::trim` returns the middle of `s`: what it drops on either side is
      whitespace, and what it keeps neither starts nor ends with whitespace. */
  lemma TrimSpec(s: string)
    ensures var t, a := Trim(s), LeadingLen(s, IsWhitespace);
      && a + |t| <= |s| && t == s[a..a + |t|]
      && (forall i :: 0 <= i < a ==> IsWhitespace(s[i]))
      && (forall i :: a + |t| <= i < |s| ==> IsWhitespace(s[i]))
      && (t == [] || (!IsWhitespace(t[0]) && !IsWhitespace(t[|t| - 1])))
  {
    TrimBySpec(s, IsWhitespace);
  }

  /** Trimming removes exactly the padding around a text whose ends would
      not be stripped. */
  lemma TrimByPadded(p: string, s: string, q: string, strip: char -> bool)
    requires forall i :: 0 <= i < |p| ==> strip(p[i])
    requires forall i :: 0 <= i < |q| ==> strip(q[i])
    requires s == [] || (!strip(s[0]) && !strip(s[|s| - 1]))
    ensures TrimBy(p + s + q, strip) == s
  {
    var x := p + s + q;
    TrimBySpec(x, strip);
    var t, a := TrimBy(x, strip), LeadingLen(x, strip);
    forall i | 0 <= i < |p| ensures x[i] == p[i] && strip(x[i]) {
    }
    forall i | |p| + |s| <= i < |x| ensures x[i] == q[i - |p| - |s|] && strip(x[i]) {
    }
    if s != [] {
      assert x[|p|] == s[0] && x[|p| + |s| - 1] == s[|s| - 1];
      assert t != [];
      assert t[0] == x[a] && t[|t| - 1] == x[a + |t| - 1];
      assert a == |p|;
      assert a + |t| == |p| + |s|;
      assert x[|p|..|p| + |s|] == s;
    }
  }

  /** What is left after peeling `c` neither starts nor ends with `c`. */
  lemma PeelEnds(outer: string, inner: string, c: char)
    requires Peeled(outer, inner, c)
    ensures inner == [] || (inner[0] != c && inner[|inner| - 1] != c)
  {
  }

  /** Peeling `c` off both ends has one outcome. */
  lemma PeeledUnique(outer: string, x: string, y: string, c: char)
    requires Peeled(outer, x, c) && Peeled(outer, y, c)
    ensures x == y
  {
    var a :| 0 <= a <= |outer| && PeeledAt(outer, x, c, a);
    var b :| 0 <= b <= |outer| && PeeledAt(outer, y, c, b);
    if x != [] && y != [] {
      assert outer[a] == x[0] && outer[b] == y[0];
      assert a == b;
      assert outer[a + |x| - 1] == x[|x| - 1] && outer[b + |y| - 1] == y[|y| - 1];
      assert |x| == |y|;
    }
  }

  /** The first `c` after a `c`-free prefix is at the end of that prefix. */
  lemma {:induction false} IndexOfAt(a: string, c: char, b: string)
    requires c !in a
    ensures IndexOf(a + [c] + b, c) == Some(|a|)
    decreases |a|
  {
    if a != [] {
      assert (a + [c] + b)[1..] == a[1..] + [c] + b;
      IndexOfAt(a[1..], c, b);
    }
  }

  /** Splitting at the first `c` finds the `c` that follows a `c`-free
      prefix. */
  lemma SplitOnceAt(a: string, c: char, b: string)
    requires c !in a
    ensures SplitOnce(a + [c] + b, c) == Some((a, b))
  {
    var s := a + [c] + b;
    IndexOfAt(a, c, b);
    assert s[..|a|] == a && s[|a| + 1..] == b;
  }

  // Splitting into words is stated for any separator predicate `sep`, and
  // `split_whitespace` is the case `sep == IsWhitespace`.

  /** A word: non-empty, with no separator inside. */
  predicate IsWordBy(w: string, sep: char -> bool) {
    w != [] && forall i :: 0 <= i < |w| ==> !sep(w[i])
  }

  /** The length of the longest separator-free prefix of `s`. */
  function WordLenBy(s: string, sep: char -> bool): (n: nat)
    ensures n <= |s|
    ensures forall i :: 0 <= i < n ==> !sep(s[i])
    ensures n == |s| || sep(s[n])
  {
    if s == [] || sep(s[0]) then 0 else 1 + WordLenBy(s[1..], sep)
  }

  /** The maximal separator-free runs of `s`, left to right. */
  function WordsBy(s: string, sep: char -> bool): (r: seq<string>)
    decreases |s|
    ensures forall i :: 0 <= i < |r| ==> IsWordBy(r[i], sep)
  {
    if s == [] then []
    else if sep(s[0]) then WordsBy(s[1..], sep)
    else
      var n := WordLenBy(s, sep);
      [s[..n]] + WordsBy(s[n..], sep)
  }

  /** A token of `split_whitespace`: non-empty, no whitespace inside. */
  predicate IsToken(w: string) {
    IsWordBy(w, IsWhitespace)
  }

  /** Rust's `str::split_whitespace`: the maximal whitespace-free runs of
      `s`, left to right. */
  function Words(s: string): (r: seq<string>)
    ensures forall i :: 0 <= i < |r| ==> IsToken(r[i])
  {
    WordsBy(s, IsWhitespace)
  }

  /** Rust's `[String]::join(sep)`. */
  function Join(ws: seq<string>, sep: string): string
    decreases |ws|
  {
    if |ws| == 0 then ""
    else if |ws| == 1 then ws[0]
    else ws[0] + sep + Join(ws[1..], sep)
  }

  /** The separator-free prefix length is the only length with its
      defining property. */
  lemma {:induction false} WordLenUnique(s: string, sep: char -> bool, n: nat)
    requires n <= |s|
    requires forall i :: 0 <= i < n ==> !sep(s[i])
    requires n == |s| || sep(s[n])
    ensures WordLenBy(s, sep) == n
    decreases n
  {
    if n > 0 {
      WordLenUnique(s[1..], sep, n - 1);
    }
  }

  /** A separator splits the words on its left from the words on its
      right. */
  lemma {:induction false} WordsBySplit(a: string, c: char, b: string, sep: char -> bool)
    requires sep(c)
    ensures WordsBy(a + [c] + b, sep) == WordsBy(a, sep) + WordsBy(b, sep)
    decreases |a|
  {
    var x := a + [c] + b;
    if a == [] {
      assert x[1..] == b;
    } else if sep(a[0]) {
      assert x[1..] == a[1..] + [c] + b;
      WordsBySplit(a[1..], c, b, sep);
    } else {
      var n := WordLenBy(a, sep);
      WordLenUnique(x, sep, n);
      assert x[..n] == a[..n];
      assert x[n..] == a[n..] + [c] + b;
      WordsBySplit(a[n..], c, b, sep);
    }
  }

  /** A whitespace character separates the words on its left from the words
      on its right. */
  lemma WordsSplit(a: string, c: char, b: string)
    requires IsWhitespace(c)
    ensures Words(a + [c] + b) == Words(a) + Words(b)
  {
    WordsBySplit(a, c, b, IsWhitespace);
  }

  /** A string made only of separators has no words. */
  lemma {:induction false} WordsByNone(s: string, sep: char -> bool)
    requires forall i :: 0 <= i < |s| ==> sep(s[i])
    ensures WordsBy(s, sep) == []
    decreases |s|
  {
    if s != [] {
      WordsByNone(s[1..], sep);
    }
  }

  /** Separators in front of a string add no words. */
  lemma {:induction false} WordsByLeading(p: string, s: string, sep: char -> bool)
    requires forall i :: 0 <= i < |p| ==> sep(p[i])
    ensures WordsBy(p + s, sep) == WordsBy(s, sep)
    decreases |p|
  {
    if p != [] {
      assert (p + s)[0] == p[0] && (p + s)[1..] == p[1..] + s;
      WordsByLeading(p[1..], s, sep);
    } else {
      assert p + s == s;
    }
  }

  /** Separators after a string add no words. */
  lemma WordsByTrailing(s: string, q: string, sep: char -> bool)
    requires forall i :: 0 <= i < |q| ==> sep(q[i])
    ensures WordsBy(s + q, sep) == WordsBy(s, sep)
  {
    if q != [] {
      assert s + q == s + [q[0]] + q[1..];
      WordsBySplit(s, q[0], q[1..], sep);
      WordsByNone(q[1..], sep);
      assert WordsBy(s, sep) + [] == WordsBy(s, sep);
    } else {
      assert s + q == s;
    }
  }

  /** Trimming a line keeps its words, and it leaves nothing exactly when
      the line has no words. */
  lemma WordsOfTrim(s: string)
    ensures Words(Trim(s)) == Words(s)
    ensures Trim(s) == [] <==> Words(s) == []
  {
    TrimSpec(s);
    var t, a := Trim(s), LeadingLen(s, IsWhitespace);
    var p, q := s[..a], s[a + |t|..];
    assert s == p + (t + q);
    WordsByLeading(p, t + q, IsWhitespace);
    WordsByTrailing(t, q, IsWhitespace);
    if t != [] {
      assert !IsWhitespace(t[0]);
      var n := WordLenBy(t, IsWhitespace);
      assert WordsBy(t, IsWhitespace) == [t[..n]] + WordsBy(t[n..], IsWhitespace);
    }
  }

  /** A single token splits into itself. */
  lemma WordsOfToken(w: string)
    requires IsToken(w)
    ensures Words(w) == [w]
  {
    WordLenUnique(w, IsWhitespace, |w|);
    assert !IsWhitespace(w[0]);
    assert WordsBy(w, IsWhitespace) == [w[..|w|]] + WordsBy(w[|w|..], IsWhitespace);
    assert w[..|w|] == w && w[|w|..] == [];
  }

  /** Splitting a space-joined list of tokens gives the list back. */
  lemma {:induction false} WordsJoin(ws: seq<string>)
    requires forall i :: 0 <= i < |ws| ==> IsToken(ws[i])
    ensures Words(Join(ws, " ")) == ws
    decreases |ws|
  {
    if |ws| == 0 {
    } else if |ws| == 1 {
      WordsOfToken(ws[0]);
    } else {
      WordsOfToken(ws[0]);
      WordsJoin(ws[1..]);
      WordsSplit(ws[0], ' ', Join(ws[1..], " "));
      assert ws == [ws[0]] + ws[1..];
    }
  }

  /** Joining tokens gives the empty string exactly when there are none. */
  lemma JoinEmpty(ws: seq<string>, sep: string)
    requires forall i :: 0 <= i < |ws| ==> IsToken(ws[i])
    ensures Join(ws, sep) == "" <==> |ws| == 0
  {
    if |ws| == 1 {
      assert IsToken(ws[0]);
    } else if |ws| > 1 {
      assert IsToken(ws[0]);
      assert |Join(ws, sep)| >= |ws[0]|;
    }
  }

  /** Lexicographic order on strings by code point, which is the order
      Rust's `str::cmp` gives (UTF-8 byte order preserves code point
      order). */
  predicate LexLe(a: string, b: string)
    decreases |a|
  {
    a == [] || (b != [] && (a[0] < b[0] || (a[0] == b[0] && LexLe(a[1..], b[1..]))))
  }

  lemma {:induction false} LexReflexive(a: string)
    ensures LexLe(a, a)
    decreases |a|
  {
    if a != [] {
      LexReflexive(a[1..]);
    }
  }

  lemma {:induction false} LexTotal(a: string, b: string)
    ensures LexLe(a, b) || LexLe(b, a)
    decreases |a|
  {
    if a != [] && b != [] && a[0] == b[0] {
      LexTotal(a[1..], b[1..]);
    }
  }

  lemma {:induction false} LexTransitive(a: string, b: string, c: string)
    requires LexLe(a, b) && LexLe(b, c)
    ensures LexLe(a, c)
    decreases |a|
  {
    if a != [] && a[0] == b[0] && b[0] == c[0] {
      LexTransitive(a[1..], b[1..], c[1..]);
    }
  }

  lemma {:induction false} LexAntisymmetric(a: string, b: string)
    requires LexLe(a, b) && LexLe(b, a)
    ensures a == b
    decreases |a|
  {
    if a != [] {
      LexAntisymmetric(a[1..], b[1..]);
      assert a == [a[0]] + a[1..] && b == [b[0]] + b[1..];
    }
  }
}
