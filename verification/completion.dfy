/** Directory-name completion (`RshHelper::complete`). */
module Completion {
  import opened Options
  import opened Text
  import opened Paths
  import opened Host

  /** rustyline's `Pair`: what is shown and what is inserted. */
  datatype Pair = Pair(display: string, replacement: string)

  /** The start of the word that ends at the cursor: just after the last
      space before `pos`, or the start of the line. */
  function WordStart(line: string, pos: nat): (start: nat)
    requires pos <= |line|
    ensures start <= pos
    ensures ' ' !in line[start..pos]
    ensures start == 0 || line[start - 1] == ' '
  {
    match LastIndexOf(line[..pos], ' ')
    case Some(i) =>
      assert line[..pos][i + 1..] == line[i + 1..pos];
      i + 1
    case None => 0
  }

  /** The directory to list and the name prefix to filter by: the path
      itself with no filter when it is a directory, and otherwise its parent
      (`.` when it has none) filtered by its last component. */
  function Target(w: World, cwd: string, path: string): (string, string) {
    if w.isDir(cwd, path) then (path, "")
    else (w.parent(path).UnwrapOr("."), w.fileName(path).UnwrapOr(""))
  }

  /** The entries of `dir`; none when it cannot be read. */
  function Listing(w: World, cwd: string, dir: string): seq<Entry> {
    w.readDir(cwd, dir).UnwrapOr([])
  }

  /** An entry is offered when it is a directory with a readable name that
      starts with the filter. */
  predicate Accepted(e: Entry, filter: string) {
    e.fileType == Some(Directory) && e.name.Some? && filter <= e.name.value
  }

  /** The candidate for a directory: its name with a trailing `/`, both as
      display and as replacement. */
  function Candidate(name: string): (p: Pair)
    ensures p.display == p.replacement && |p.display| == |name| + 1
    ensures p.display[..|name|] == name && p.display[|name|] == '/'
  {
    Pair(name + "/", name + "/")
  }

  /** The candidates of the accepted entries, in listing order. */
  function Candidates(entries: seq<Entry>, filter: string): (r: seq<Pair>)
    ensures |r| <= |entries|
    ensures forall i :: 0 <= i < |r| ==> r[i].display == r[i].replacement
    decreases |entries|
  {
    if entries == [] then []
    else
      var rest := Candidates(entries[1..], filter);
      if Accepted(entries[0], filter) then [Candidate(entries[0].name.value)] + rest else rest
  }

  /** Some entry at index `i` of `entries` yields candidate `p`. */
  predicate OfferedBy(entries: seq<Entry>, filter: string, i: int, p: Pair) {
    0 <= i < |entries| && Accepted(entries[i], filter) && p == Candidate(entries[i].name.value)
  }

  /** A pair is a candidate exactly when some accepted entry yields it. */
  lemma {:induction false} CandidatesMembers(entries: seq<Entry>, filter: string, p: Pair)
    ensures p in Candidates(entries, filter) <==> exists i :: OfferedBy(entries, filter, i, p)
    decreases |entries|
  {
    if entries != [] {
      var tail := entries[1..];
      CandidatesMembers(tail, filter, p);
      if p in Candidates(tail, filter) {
        var j :| OfferedBy(tail, filter, j, p);
        assert OfferedBy(entries, filter, j + 1, p);
      }
      if Accepted(entries[0], filter) && p == Candidate(entries[0].name.value) {
        assert OfferedBy(entries, filter, 0, p);
      }
      if exists i :: OfferedBy(entries, filter, i, p) {
        var i :| OfferedBy(entries, filter, i, p);
        if i > 0 {
          assert OfferedBy(tail, filter, i - 1, p);
        }
      }
    }
  }

  // ---------------------------------------------------------------------
  // Ordering: `sort_by(|a, b| a.display.cmp(&b.display))`

  predicate SortedByDisplay(s: seq<Pair>) {
    forall i, j :: 0 <= i < j < |s| ==> LexLe(s[i].display, s[j].display)
  }

  /** A pair no larger than the head of a sorted list is no larger than
      any of it. */
  lemma BelowHead(p: Pair, s: seq<Pair>)
    requires SortedByDisplay(s) && s != [] && LexLe(p.display, s[0].display)
    ensures forall j :: 0 <= j < |s| ==> LexLe(p.display, s[j].display)
  {
    forall j | 0 <= j < |s| ensures LexLe(p.display, s[j].display) {
      if j > 0 { LexTransitive(p.display, s[0].display, s[j].display); }
    }
  }

  /** The head of a sorted list is no larger than anything in the rest with
      a larger pair inserted. */
  lemma AboveHead(p: Pair, s: seq<Pair>, t: seq<Pair>)
    requires SortedByDisplay(s) && s != [] && LexLe(s[0].display, p.display)
    requires multiset(t) == multiset(s[1..]) + multiset{p}
    ensures forall j :: 0 <= j < |t| ==> LexLe(s[0].display, t[j].display)
  {
    forall j | 0 <= j < |t| ensures LexLe(s[0].display, t[j].display) {
      assert t[j] in multiset(t);
      if t[j] != p {
        assert t[j] in multiset(s[1..]);
        var k :| 0 <= k < |s[1..]| && s[1..][k] == t[j];
        assert s[k + 1] == t[j];
      }
    }
  }

  /** Inserts `p` before the first element whose display is not smaller. */
  function Insert(p: Pair, s: seq<Pair>): seq<Pair>
    decreases |s|
  {
    if s == [] then [p]
    else if LexLe(p.display, s[0].display) then [p] + s
    else [s[0]] + Insert(p, s[1..])
  }

  /** Insertion adds exactly `p`. */
  lemma {:induction false} InsertPermutes(p: Pair, s: seq<Pair>)
    ensures multiset(Insert(p, s)) == multiset(s) + multiset{p}
    decreases |s|
  {
    if s != [] && !LexLe(p.display, s[0].display) {
      InsertPermutes(p, s[1..]);
      assert s == [s[0]] + s[1..];
    }
  }

  /** Inserting into a display-sorted list keeps it sorted. */
  lemma {:induction false} InsertSorted(p: Pair, s: seq<Pair>)
    requires SortedByDisplay(s)
    ensures SortedByDisplay(Insert(p, s))
    decreases |s|
  {
    if s == [] {
    } else if LexLe(p.display, s[0].display) {
      BelowHead(p, s);
    } else {
      LexTotal(p.display, s[0].display);
      var t := Insert(p, s[1..]);
      InsertSorted(p, s[1..]);
      InsertPermutes(p, s[1..]);
      AboveHead(p, s, t);
    }
  }

  /** Insertion sort by display text. */
  function SortByDisplay(s: seq<Pair>): seq<Pair>
    decreases |s|
  {
    if s == [] then [] else Insert(s[0], SortByDisplay(s[1..]))
  }

  /** The sort's result is in display order. */
  lemma {:induction false} SortSorted(s: seq<Pair>)
    ensures SortedByDisplay(SortByDisplay(s))
    decreases |s|
  {
    if s != [] {
      SortSorted(s[1..]);
      InsertSorted(s[0], SortByDisplay(s[1..]));
    }
  }

  /** The sort's result is a permutation of its input. */
  lemma {:induction false} SortPermutes(s: seq<Pair>)
    ensures multiset(SortByDisplay(s)) == multiset(s)
    decreases |s|
  {
    if s != [] {
      SortPermutes(s[1..]);
      InsertPermutes(s[0], SortByDisplay(s[1..]));
      assert s == [s[0]] + s[1..];
    }
  }

  /** Display and replacement agree for every pair. */
  predicate SameText(s: seq<Pair>) {
    forall i :: 0 <= i < |s| ==> s[i].display == s[i].replacement
  }

  /** Dropping the head of a sequence drops one copy of it from the
      multiset. */
  lemma MultisetTail(s: seq<Pair>)
    requires s != []
    ensures multiset(s[1..]) == multiset(s) - multiset{s[0]}
  {
    assert s == [s[0]] + s[1..];
    assert multiset(s) == multiset{s[0]} + multiset(s[1..]);
  }

  /** Two display-sorted arrangements of the same candidates start with the
      same pair. */
  lemma SortedHeads(a: seq<Pair>, b: seq<Pair>)
    requires SortedByDisplay(a) && SortedByDisplay(b) && a != [] && b != []
    requires multiset(a) == multiset(b) && SameText(a)
    ensures a[0] == b[0]
  {
    assert a[0] in multiset(b) && b[0] in multiset(a);
    var j :| 0 <= j < |b| && b[j] == a[0];
    var k :| 0 <= k < |a| && a[k] == b[0];
    LexReflexive(a[0].display);
    LexReflexive(b[0].display);
    LexAntisymmetric(a[0].display, b[0].display);
  }

  /** The order of the candidates is fully determined: two display-sorted
      arrangements of the same candidates are identical, so the stable
      `sort_by` of the source and `SortByDisplay` give the same list. */
  lemma {:induction false} SortedUnique(a: seq<Pair>, b: seq<Pair>)
    requires SortedByDisplay(a) && SortedByDisplay(b)
    requires multiset(a) == multiset(b) && SameText(a)
    ensures a == b
    decreases |a|
  {
    assert |b| == |multiset(b)| == |multiset(a)| == |a|;
    if a != [] {
      SortedHeads(a, b);
      MultisetTail(a);
      MultisetTail(b);
      SortedUnique(a[1..], b[1..]);
      assert a == [a[0]] + a[1..] && b == [b[0]] + b[1..];
    }
  }

  /** Sorting neither adds nor loses candidates. */
  lemma SortedMembers(entries: seq<Entry>, filter: string)
    ensures forall p :: p in SortByDisplay(Candidates(entries, filter)) <==> exists i :: OfferedBy(entries, filter, i, p)
  {
    var found := Candidates(entries, filter);
    var sorted := SortByDisplay(found);
    SortPermutes(found);
    forall p ensures p in sorted <==> exists i :: OfferedBy(entries, filter, i, p) {
      assert p in sorted <==> p in multiset(sorted);
      assert p in found <==> p in multiset(found);
      CandidatesMembers(entries, filter, p);
    }
  }

  /** `RshHelper::complete(line, pos)`: the start of the word under the
      cursor, and the directory candidates for it, sorted by display. The
      word is tilde-expanded; when it names a directory its entries are
      offered, otherwise the entries of its parent whose names start with
      its last component. */
  function Complete(w: World, cwd: string, line: string, pos: nat): (r: (nat, seq<Pair>))
    requires pos <= |line|
    // the word being completed runs from just after the last space to the cursor
    ensures r.0 <= pos && ' ' !in line[r.0..pos] && (r.0 == 0 || line[r.0 - 1] == ' ')
    // the candidates: exactly the accepted entries of the target directory, each once per entry,
    // in display order
    ensures var target := Target(w, cwd, ExpandTilde(line[r.0..pos], w.home));
      var entries := Listing(w, cwd, target.0);
      && SortedByDisplay(r.1)
      && multiset(r.1) == multiset(Candidates(entries, target.1))
      && forall p :: p in r.1 <==> exists i :: OfferedBy(entries, target.1, i, p)
  {
    var start := WordStart(line, pos);
    var target := Target(w, cwd, ExpandTilde(line[start..pos], w.home));
    var entries := Listing(w, cwd, target.0);
    var found := Candidates(entries, target.1);
    var sorted := SortByDisplay(found);
    SortSorted(found);
    SortPermutes(found);
    SortedMembers(entries, target.1);
    (start, sorted)
  }

  // ---------------------------------------------------------------------
  // Examples

  /** A directory `foo` and a file `bar.txt`: the filter `f` offers `foo/`
      alone, and no filter never offers the file. */
  lemma OnlyDirectoriesOffered()
    ensures var entries := [Entry(Some("foo"), Some(Directory)), Entry(Some("bar.txt"), Some(NotDirectory))];
      && SortByDisplay(Candidates(entries, "f")) == [Candidate("foo")]
      && Candidate("bar.txt") !in SortByDisplay(Candidates(entries, ""))
  {
    var entries := [Entry(Some("foo"), Some(Directory)), Entry(Some("bar.txt"), Some(NotDirectory))];
    assert "f" <= "foo";
    assert Candidates(entries, "f") == [Candidate("foo")];
    assert Candidates(entries, "") == [Candidate("foo")];
  }

  /** Directories `zeta`, `alpha`, `mid` are all found, in listing order.
      The literal comes in as a parameter fixed by `requires`, so that the
      solver treats it as one term instead of re-expanding it at every use. */
  lemma ThreeDirectoriesFound(entries: seq<Entry>)
    requires entries == [Entry(Some("zeta"), Some(Directory)), Entry(Some("alpha"), Some(Directory)),
                         Entry(Some("mid"), Some(Directory))]
    ensures Candidates(entries, "") == [Candidate("zeta"), Candidate("alpha"), Candidate("mid")]
  {
    assert Candidates(entries[2..], "") == [Candidate("mid")];
    assert entries[1..][1..] == entries[2..];
    assert Candidates(entries[1..], "") == [Candidate("alpha"), Candidate("mid")];
  }

  /** `alpha/`, `mid/`, `zeta/` are in display order.
      The literal comes in as a parameter fixed by `requires`, so that the
      solver treats it as one term instead of re-expanding it at every use. */
  lemma ThreeDirectoriesSorted(want: seq<Pair>)
    requires want == [Candidate("alpha"), Candidate("mid"), Candidate("zeta")]
    ensures SortedByDisplay(want) && SameText(want)
  {
    assert LexLe("alpha/", "mid/") && LexLe("mid/", "zeta/") && LexLe("alpha/", "zeta/");
  }

  /** Directories `zeta`, `alpha`, `mid` are offered as `alpha/`, `mid/`,
      `zeta/`.
      The literal comes in as a parameter fixed by `requires`, so that the
      solver treats it as one term instead of re-expanding it at every use. */
  lemma CandidatesInOrder(entries: seq<Entry>)
    requires entries == [Entry(Some("zeta"), Some(Directory)), Entry(Some("alpha"), Some(Directory)),
                         Entry(Some("mid"), Some(Directory))]
    ensures SortByDisplay(Candidates(entries, "")) == [Candidate("alpha"), Candidate("mid"), Candidate("zeta")]
  {
    ThreeDirectoriesFound(entries);
    var found := Candidates(entries, "");
    var want := [Candidate("alpha"), Candidate("mid"), Candidate("zeta")];
    ThreeDirectoriesSorted(want);
    assert want == [found[1], found[2], found[0]];
    assert multiset(want) == multiset(found);
    SortIsUnique(found, want);
  }

  /** Any display-sorted arrangement of the candidates is their sort. */
  lemma SortIsUnique(found: seq<Pair>, want: seq<Pair>)
    requires SortedByDisplay(want) && SameText(want) && multiset(want) == multiset(found)
    ensures SortByDisplay(found) == want
  {
    SortSorted(found);
    SortPermutes(found);
    SortedUnique(want, SortByDisplay(found));
  }
}
