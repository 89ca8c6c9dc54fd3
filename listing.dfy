/**
 * `find_pdf_files`: the `.pdf` entries of the working directory, sorted by
 * modification time, newest first. Python's sort is stable, also with
 * `reverse=True`, so entries with equal times keep their listing order.
 *
 * A directory is the sequence of its entries in listing order; times are
 * opaque ordered integers.
 */
module Listing {

  datatype Entry = Entry(name: string, mtime: int)

  /** Matches the glob `*.pdf`: the name ends in ".pdf" (case-sensitive). */
  predicate IsPdf(name: string) {
    |name| >= 4 && name[|name| - 4..] == ".pdf"
  }

  /** The `.pdf` entries of `dir`, in listing order. */
  function PdfEntries(dir: seq<Entry>): seq<Entry> {
    if dir == [] then []
    else (if IsPdf(dir[0].name) then [dir[0]] else []) + PdfEntries(dir[1..])
  }

  /** The filter keeps exactly the `.pdf` entries, and keeps all of them. */
  lemma {:induction false} PdfEntriesMembers(dir: seq<Entry>)
    ensures forall e :: e in PdfEntries(dir) <==> e in dir && IsPdf(e.name)
    ensures multiset(PdfEntries(dir)) <= multiset(dir)
    decreases |dir|
  {
    if dir != [] {
      PdfEntriesMembers(dir[1..]);
      assert dir == [dir[0]] + dir[1..];
    }
  }

  /** The entries of `s` whose time is `t`, in the order of `s`. */
  function WithMtime(s: seq<Entry>, t: int): seq<Entry> {
    if s == [] then []
    else (if s[0].mtime == t then [s[0]] else []) + WithMtime(s[1..], t)
  }

  /** Ordered by non-increasing modification time. */
  predicate NewestFirst(s: seq<Entry>) {
    forall i, j :: 0 <= i < j < |s| ==> s[i].mtime >= s[j].mtime
  }

  /** No two entries share a name, as in any directory. */
  predicate DistinctNames(s: seq<Entry>) {
    forall i, j :: 0 <= i < j < |s| ==> s[i].name != s[j].name
  }

  function Names(s: seq<Entry>): (r: seq<string>)
    ensures |r| == |s| && forall i :: 0 <= i < |s| ==> r[i] == s[i].name
  {
    if s == [] then [] else [s[0].name] + Names(s[1..])
  }

  /** Stable insertion of `e` into a newest-first sequence: `e` goes after
      every entry at least as new as it is. */
  function Insert(t: seq<Entry>, e: Entry): seq<Entry> {
    if t == [] then [e]
    else if t[0].mtime >= e.mtime then [t[0]] + Insert(t[1..], e)
    else [e] + t
  }

  /** Insertion adds `e` and nothing else. */
  lemma {:induction false} InsertPermutes(t: seq<Entry>, e: Entry)
    ensures multiset(Insert(t, e)) == multiset(t) + multiset{e}
    decreases |t|
  {
    if t != [] && t[0].mtime >= e.mtime {
      InsertPermutes(t[1..], e);
      assert t == [t[0]] + t[1..];
    }
  }

  lemma {:induction false} PdfEntriesAppend(a: seq<Entry>, b: seq<Entry>)
    ensures PdfEntries(a + b) == PdfEntries(a) + PdfEntries(b)
    decreases |a|
  {
    if a == [] {
      assert a + b == b;
    } else {
      var head := if IsPdf(a[0].name) then [a[0]] else [];
      var x := PdfEntries(a[1..]);
      var y := PdfEntries(b);
      assert (a + b)[0] == a[0] && (a + b)[1..] == a[1..] + b;
      PdfEntriesAppend(a[1..], b);
      assert PdfEntries(a + b) == head + (x + y);
      assert PdfEntries(a) == head + x;
      assert head + (x + y) == (head + x) + y;
    }
  }

  lemma {:induction false} WithMtimeAppend(a: seq<Entry>, b: seq<Entry>, t: int)
    ensures WithMtime(a + b, t) == WithMtime(a, t) + WithMtime(b, t)
    decreases |a|
  {
    if a == [] {
      assert a + b == b;
    } else {
      var head := if a[0].mtime == t then [a[0]] else [];
      var x := WithMtime(a[1..], t);
      var y := WithMtime(b, t);
      assert (a + b)[0] == a[0] && (a + b)[1..] == a[1..] + b;
      WithMtimeAppend(a[1..], b, t);
      assert WithMtime(a + b, t) == head + (x + y);
      assert WithMtime(a, t) == head + x;
      assert head + (x + y) == (head + x) + y;
    }
  }

  lemma {:induction false} WithMtimeAbsent(s: seq<Entry>, t: int)
    requires forall x :: x in s ==> x.mtime != t
    ensures WithMtime(s, t) == []
    decreases |s|
  {
    if s != [] {
      WithMtimeAbsent(s[1..], t);
    }
  }

  lemma WithMtimeHead(s: seq<Entry>)
    ensures s != [] ==> WithMtime(s, s[0].mtime) == [s[0]] + WithMtime(s[1..], s[0].mtime)
  {
  }

  lemma WithMtimeCons(x: Entry, s: seq<Entry>, m: int)
    ensures WithMtime([x] + s, m) == (if x.mtime == m then [x] else []) + WithMtime(s, m)
  {
    assert ([x] + s)[0] == x && ([x] + s)[1..] == s;
  }

  lemma WithMtimeTail(s: seq<Entry>, m: int)
    requires s != []
    ensures WithMtime(s[1..], m) == if s[0].mtime == m then WithMtime(s, m)[1..] else WithMtime(s, m)
  {
    var head := if s[0].mtime == m then [s[0]] else [];
    assert WithMtime(s, m) == head + WithMtime(s[1..], m);
  }

  /** In a newest-first sequence the first entry is the newest. */
  lemma NewestBound(s: seq<Entry>)
    requires NewestFirst(s) && s != []
    ensures forall x :: x in s ==> x.mtime <= s[0].mtime
  {
  }

  /** Prepending an entry at least as new as every other keeps the order. */
  lemma NewestFirstCons(x: Entry, s: seq<Entry>)
    requires NewestFirst(s)
    requires forall y :: y in s ==> y.mtime <= x.mtime
    ensures NewestFirst([x] + s)
  {
    var r := [x] + s;
    forall i, j | 0 <= i < j < |r| ensures r[i].mtime >= r[j].mtime {
      assert r[j] == s[j - 1];
      if i > 0 {
        assert r[i] == s[i - 1];
      }
    }
  }

  lemma {:induction false} InsertNewestFirst(t: seq<Entry>, e: Entry)
    requires NewestFirst(t)
    ensures NewestFirst(Insert(t, e))
    decreases |t|
  {
    if t == [] {
    } else if t[0].mtime >= e.mtime {
      var rest := Insert(t[1..], e);
      InsertPermutes(t[1..], e);
      InsertNewestFirst(t[1..], e);
      NewestBound(t);
      forall x | x in rest ensures x.mtime <= t[0].mtime {
        assert x in multiset(rest);
      }
      NewestFirstCons(t[0], rest);
    } else {
      NewestBound(t);
      NewestFirstCons(e, t);
    }
  }

  /** Insertion is stable: among the entries with any one time, `e` comes
      after those already there. */
  lemma {:induction false} InsertStable(t: seq<Entry>, e: Entry, m: int)
    requires NewestFirst(t)
    ensures WithMtime(Insert(t, e), m) == WithMtime(t, m) + (if e.mtime == m then [e] else [])
    decreases |t|
  {
    if t == [] {
      WithMtimeCons(e, [], m);
    } else if t[0].mtime >= e.mtime {
      InsertStable(t[1..], e, m);
      InsertStableBehind(t, e, m);
    } else {
      InsertStableFront(t, e, m);
    }
  }

  lemma {:induction false} InsertStableBehind(t: seq<Entry>, e: Entry, m: int)
    requires t != [] && t[0].mtime >= e.mtime
    requires WithMtime(Insert(t[1..], e), m) == WithMtime(t[1..], m) + (if e.mtime == m then [e] else [])
    ensures WithMtime(Insert(t, e), m) == WithMtime(t, m) + (if e.mtime == m then [e] else [])
  {
    var head := if t[0].mtime == m then [t[0]] else [];
    var own := if e.mtime == m then [e] else [];
    var rest := Insert(t[1..], e);
    var x := WithMtime(t[1..], m);
    assert Insert(t, e) == [t[0]] + rest;
    WithMtimeCons(t[0], rest, m);
    assert WithMtime(t, m) == head + x;
    assert head + (x + own) == (head + x) + own;
  }

  lemma {:induction false} InsertStableFront(t: seq<Entry>, e: Entry, m: int)
    requires NewestFirst(t) && t != [] && t[0].mtime < e.mtime
    ensures WithMtime(Insert(t, e), m) == WithMtime(t, m) + (if e.mtime == m then [e] else [])
  {
    assert Insert(t, e) == [e] + t;
    WithMtimeCons(e, t, m);
    if e.mtime == m {
      NewestBound(t);
      WithMtimeAbsent(t, m);
    }
  }

  lemma {:induction false} InsertDistinct(t: seq<Entry>, e: Entry)
    requires DistinctNames(t)
    requires forall x :: x in t ==> x.name != e.name
    ensures DistinctNames(Insert(t, e))
    decreases |t|
  {
    if t != [] && t[0].mtime >= e.mtime {
      var rest := Insert(t[1..], e);
      InsertPermutes(t[1..], e);
      InsertDistinct(t[1..], e);
      DistinctTail(t);
      forall x | x in rest ensures x.name != t[0].name {
        assert x in multiset(rest);
      }
      DistinctCons(t[0], rest);
    } else if t != [] {
      DistinctCons(e, t);
    }
  }

  /** The first entry's name occurs nowhere else. */
  lemma DistinctTail(t: seq<Entry>)
    requires DistinctNames(t) && t != []
    ensures DistinctNames(t[1..])
    ensures forall x :: x in t[1..] ==> x.name != t[0].name
  {
    forall x | x in t[1..] ensures x.name != t[0].name {
      var k :| 0 <= k < |t[1..]| && t[1..][k] == x;
      assert t[k + 1] == x;
    }
  }

  /** Prepending an entry whose name is new keeps the names distinct. */
  lemma DistinctCons(x: Entry, s: seq<Entry>)
    requires DistinctNames(s)
    requires forall y :: y in s ==> y.name != x.name
    ensures DistinctNames([x] + s)
  {
    var r := [x] + s;
    forall i, j | 0 <= i < j < |r| ensures r[i].name != r[j].name {
      assert r[j] == s[j - 1];
      if i > 0 {
        assert r[i] == s[i - 1];
      }
    }
  }

  /** One step of the listing loop keeps the per-time order in step with the
      `.pdf` entries seen so far. */
  lemma InsertKeepsStable(pdfs: seq<Entry>, seen: seq<Entry>, e: Entry)
    requires NewestFirst(pdfs)
    requires forall m :: WithMtime(pdfs, m) == WithMtime(seen, m)
    ensures forall m :: WithMtime(Insert(pdfs, e), m) == WithMtime(seen + [e], m)
  {
    forall m ensures WithMtime(Insert(pdfs, e), m) == WithMtime(seen + [e], m) {
      InsertStable(pdfs, e, m);
      WithMtimeAppend(seen, [e], m);
      assert WithMtime([e], m) == (if e.mtime == m then [e] else []) + WithMtime([], m);
    }
  }

  /** One step of the listing loop: inserting the next `.pdf` entry `e`
      keeps the result newest-first, a permutation of the `.pdf` entries seen
      so far, in step with them time by time, and free of repeated names. */
  lemma InsertStep(pdfs: seq<Entry>, seen: seq<Entry>, done: seq<Entry>, e: Entry, distinct: bool)
    requires NewestFirst(pdfs) && multiset(pdfs) == multiset(seen)
    requires forall m :: WithMtime(pdfs, m) == WithMtime(seen, m)
    requires forall x :: x in pdfs ==> x in done
    requires distinct ==> DistinctNames(pdfs) && forall x :: x in done ==> x.name != e.name
    ensures var r := Insert(pdfs, e);
      && NewestFirst(r) && multiset(r) == multiset(seen + [e])
      && (forall m :: WithMtime(r, m) == WithMtime(seen + [e], m))
      && (forall x :: x in r ==> x in done + [e])
      && (distinct ==> DistinctNames(r))
  {
    var r := Insert(pdfs, e);
    InsertPermutes(pdfs, e);
    InsertNewestFirst(pdfs, e);
    InsertKeepsStable(pdfs, seen, e);
    if distinct {
      InsertDistinct(pdfs, e);
    }
    forall x | x in r ensures x in done + [e] {
      assert x in multiset(r);
    }
  }

  /** What the listing loop keeps after the first `i` entries of `dir`: the
      result is newest first, a permutation of the `.pdf` entries seen so
      far, in step with them time by time, and, when names in `dir` are
      distinct, free of repeated names. */
  ghost predicate ListedSoFar(dir: seq<Entry>, i: nat, pdfs: seq<Entry>, distinct: bool)
    requires i <= |dir|
  {
    && NewestFirst(pdfs)
    && multiset(pdfs) == multiset(PdfEntries(dir[..i]))
    && (forall m :: WithMtime(pdfs, m) == WithMtime(PdfEntries(dir[..i]), m))
    && (forall x :: x in pdfs ==> x in dir[..i])
    && (distinct ==> DistinctNames(pdfs))
  }

  /** One turn of the listing loop keeps `ListedSoFar`. */
  lemma ListingStep(dir: seq<Entry>, i: nat, pdfs: seq<Entry>, distinct: bool)
    requires i < |dir| && ListedSoFar(dir, i, pdfs, distinct)
    requires distinct ==> DistinctNames(dir)
    ensures ListedSoFar(dir, i + 1, if IsPdf(dir[i].name) then Insert(pdfs, dir[i]) else pdfs, distinct)
  {
    var e := dir[i];
    assert dir[..i + 1] == dir[..i] + [e];
    PdfEntriesAppend(dir[..i], [e]);
    if IsPdf(e.name) {
      assert PdfEntries([e]) == [e];
      if distinct {
        forall x | x in dir[..i] ensures x.name != e.name {
          var k :| 0 <= k < i && dir[k] == x;
        }
      }
      InsertStep(pdfs, PdfEntries(dir[..i]), dir[..i], e, distinct);
    } else {
      assert PdfEntries([e]) == [];
      assert PdfEntries(dir[..i + 1]) == PdfEntries(dir[..i]);
    }
  }

  /** The listing as a loop: every `.pdf` entry is inserted, in listing
      order, at its stable place in the newest-first result. The result is a
      permutation of exactly the `.pdf` entries, ordered by non-increasing
      time, and entries of equal time keep their listing order. */
  method FindPdfFiles(dir: seq<Entry>) returns (pdfs: seq<Entry>)
    ensures NewestFirst(pdfs)
    ensures multiset(pdfs) == multiset(PdfEntries(dir))
    ensures forall m :: WithMtime(pdfs, m) == WithMtime(PdfEntries(dir), m)
    ensures DistinctNames(dir) ==> DistinctNames(pdfs)
  {
    ghost var distinct := DistinctNames(dir);
    pdfs := [];
    for i := 0 to |dir|
      invariant ListedSoFar(dir, i, pdfs, distinct)
    {
      ListingStep(dir, i, pdfs, distinct);
      if IsPdf(dir[i].name) {
        pdfs := Insert(pdfs, dir[i]);
      }
    }
    assert dir[..|dir|] == dir;
  }

  /** Newest-first order together with the per-time listing order determines
      the sequence: what `FindPdfFiles` returns is the one stable sort. */
  lemma {:induction false} StableOrderUnique(a: seq<Entry>, b: seq<Entry>)
    requires NewestFirst(a) && NewestFirst(b)
    requires forall m :: WithMtime(a, m) == WithMtime(b, m)
    ensures a == b
    decreases |a|
  {
    WithMtimeHead(a);
    WithMtimeHead(b);
    if a != [] && b != [] {
      var ma, mb := a[0].mtime, b[0].mtime;
      if ma > mb {
        NewestBound(b);
        WithMtimeAbsent(b, ma);
      } else if mb > ma {
        NewestBound(a);
        WithMtimeAbsent(a, mb);
      } else {
        assert WithMtime(a, ma)[0] == a[0] && WithMtime(b, ma)[0] == b[0];
        forall m ensures WithMtime(a[1..], m) == WithMtime(b[1..], m) {
          WithMtimeTail(a, m);
          WithMtimeTail(b, m);
        }
        StableOrderUnique(a[1..], b[1..]);
        assert a == [a[0]] + a[1..] && b == [b[0]] + b[1..];
      }
    }
  }

  /** The file a listing reports, its first entry, is a `.pdf` entry of the
      directory, no `.pdf` entry is newer, and among the entries as new as
      it is it is the first in listing order. */
  lemma NewestPicked(dir: seq<Entry>, pdfs: seq<Entry>)
    requires NewestFirst(pdfs) && pdfs != []
    requires multiset(pdfs) == multiset(PdfEntries(dir))
    requires forall m :: WithMtime(pdfs, m) == WithMtime(PdfEntries(dir), m)
    ensures pdfs[0] in dir && IsPdf(pdfs[0].name)
    ensures forall x :: x in dir && IsPdf(x.name) ==> x.mtime <= pdfs[0].mtime
    ensures WithMtime(PdfEntries(dir), pdfs[0].mtime) != []
    ensures WithMtime(PdfEntries(dir), pdfs[0].mtime)[0] == pdfs[0]
  {
    PdfEntriesMembers(dir);
    NewestBound(pdfs);
    WithMtimeHead(pdfs);
    assert pdfs[0] in multiset(pdfs);
    forall x | x in dir && IsPdf(x.name) ensures x.mtime <= pdfs[0].mtime {
      assert x in multiset(PdfEntries(dir));
      assert x in pdfs;
    }
  }
}
