/** src/core/rehash_diff.c: the difference between the directories on the command path and the snapshot of
    the last run. */
module RehashDiff {
  import opened Text
  import opened Order
  import opened RehashSnapshot

  /** The directories that stat finds. */
  type World = map<string, Id>

  ghost predicate WellTyped(w: World) {
    forall d :: d in w ==> w[d].WellTyped()
  }

  /** The entries that stat finds, in path order. */
  function Found(paths: seq<string>, w: World): (r: seq<string>)
    ensures forall p :: p in r <==> p in paths && p in w
  {
    if paths == [] then []
    else
      var p := paths[|paths| - 1];
      Found(paths[..|paths| - 1], w) + if p in w then [p] else []
  }

  /** Exactly the elements that stat finds, as often and in the same order: a part counts for itself. */
  lemma {:induction false} FoundAppend(a: seq<string>, b: seq<string>, w: World)
    ensures Found(a + b, w) == Found(a, w) + Found(b, w)
  {
    if b == [] {
      assert a + b == a;
    } else {
      var front, last := b[..|b| - 1], b[|b| - 1];
      LastOfBoth(a, b);
      FoundAppend(a, front, w);
      Assoc(Found(a, w), Found(front, w), if last in w then [last] else []);
    }
  }

  function Entries(found: seq<string>, w: World): (es: seq<Entry>)
    requires forall p :: p in found ==> p in w
    ensures |es| == |found|
    ensures forall i :: 0 <= i < |found| ==> es[i] == Entry(found[i], w[found[i]])
  {
    if found == [] then []
    else
      var p := found[|found| - 1];
      Entries(found[..|found| - 1], w) + [Entry(p, w[p])]
  }

  function PathOf(e: Entry): string { e.path }

  /** The first entry of a path, or |prev|. */
  function First(prev: seq<Entry>, path: string): (j: nat)
    ensures j <= |prev|
    ensures j < |prev| ==> prev[j].path == path
    ensures forall k :: 0 <= k < j ==> prev[k].path != path
  {
    FirstWith(prev, PathOf, path)
  }

  lemma FirstUnique(prev: seq<Entry>, path: string, j: nat)
    requires j <= |prev| && (j < |prev| ==> prev[j].path == path)
    requires forall k :: 0 <= k < j ==> prev[k].path != path
    ensures First(prev, path) == j
  {
  }

  // ------------------------------------------------------------- the counters

  datatype Tally = Tally(added: nat, changed: nat, same: nat)

  /** One current directory. */
  function Count(t: Tally, prev: seq<Entry>, path: string, id: Id): Tally {
    var j := First(prev, path);
    if j == |prev| then t.(added := t.added + 1)
    else if prev[j].id != id then t.(changed := t.changed + 1)
    else t.(same := t.same + 1)
  }

  function Tallied(found: seq<string>, prev: seq<Entry>, w: World): Tally
    requires forall p :: p in found ==> p in w
  {
    if found == [] then Tally(0, 0, 0)
    else
      var p := found[|found| - 1];
      Count(Tallied(found[..|found| - 1], prev, w), prev, p, w[p])
  }

  /** The entries of the previous snapshot that carry the mark afterwards. */
  function Marked(found: seq<string>, prev: seq<Entry>): (s: set<nat>)
    ensures forall j :: j in s ==> j < |prev|
  {
    if found == [] then {}
    else
      var j := First(prev, found[|found| - 1]);
      Marked(found[..|found| - 1], prev) + if j < |prev| then {j} else {}
  }

  function Unmarked(n: nat, marked: set<nat>): nat {
    if n == 0 then 0 else Unmarked(n - 1, marked) + if n - 1 in marked then 0 else 1
  }

  datatype Report = Report(added: nat, removed: nat, changed: nat, same: nat)

  function Diff(paths: seq<string>, w: World, prev: seq<Entry>): Report {
    var found := Found(paths, w);
    var t := Tallied(found, prev, w);
    Report(t.added, Unmarked(|prev|, Marked(found, prev)), t.changed, t.same)
  }

  // ------------------------------------------------------------- accounting

  /** Every current directory that stat finds is counted once. */
  lemma {:induction false} CurrentAccounting(found: seq<string>, prev: seq<Entry>, w: World)
    requires forall p :: p in found ==> p in w
    ensures var t := Tallied(found, prev, w); t.added + t.changed + t.same == |found|
  {
    if found != [] {
      CurrentAccounting(found[..|found| - 1], prev, w);
    }
  }

  /** No directory of the snapshot occurs twice among the current ones. */
  ghost predicate KnownOnce(found: seq<string>, prev: seq<Entry>) {
    forall i, j :: 0 <= i < j < |found| && found[i] == found[j] ==> First(prev, found[i]) == |prev|
  }

  /** A known directory is marked exactly when it is one of the current ones. */
  lemma {:induction false} MarkedIff(found: seq<string>, prev: seq<Entry>, p: string)
    requires First(prev, p) < |prev|
    ensures First(prev, p) in Marked(found, prev) <==> p in found
  {
    if found != [] {
      MarkedIff(found[..|found| - 1], prev, p);
      assert found == found[..|found| - 1] + [found[|found| - 1]];
    }
  }

  lemma KnownOnceSnoc(init: seq<string>, p: string, prev: seq<Entry>)
    ensures KnownOnce(init + [p], prev) <==> KnownOnce(init, prev) && (p in init ==> First(prev, p) == |prev|)
  {
    var found := init + [p];
    if KnownOnce(found, prev) {
      forall a, b | 0 <= a < b < |init| && init[a] == init[b] ensures First(prev, init[a]) == |prev| {
        assert found[a] == found[b];
      }
      if p in init {
        var i :| 0 <= i < |init| && init[i] == p;
        assert found[i] == found[|init|];
      }
    }
  }

  /** Fewer entries are marked than known directories found exactly when one of them occurs twice. */
  lemma {:induction false} MarkedCount(found: seq<string>, prev: seq<Entry>, w: World)
    requires forall p :: p in found ==> p in w
    ensures var t := Tallied(found, prev, w);
            |Marked(found, prev)| <= t.changed + t.same
            && (|Marked(found, prev)| == t.changed + t.same <==> KnownOnce(found, prev))
  {
    if found != [] {
      var init, p := found[..|found| - 1], found[|found| - 1];
      MarkedCount(init, prev, w);
      assert found == init + [p];
      KnownOnceSnoc(init, p, prev);
      if First(prev, p) < |prev| {
        MarkedIff(init, prev, p);
      }
      MarkOne(Marked(init, prev), Tallied(init, prev, w), prev, p, w[p], KnownOnce(init, prev), p in init);
    }
  }

  lemma MarkOne(marked: set<nat>, t: Tally, prev: seq<Entry>, p: string, id: Id, once: bool, again: bool)
    requires |marked| <= t.changed + t.same && (|marked| == t.changed + t.same <==> once)
    requires First(prev, p) < |prev| ==> (First(prev, p) in marked <==> again)
    ensures var m, u := marked + if First(prev, p) < |prev| then {First(prev, p)} else {}, Count(t, prev, p, id);
            |m| <= u.changed + u.same && (|m| == u.changed + u.same <==> once && (again ==> First(prev, p) == |prev|))
  {
    if First(prev, p) < |prev| {
      AddedOnce(marked, First(prev, p));
    } else {
      assert marked + {} == marked;
    }
  }

  lemma AddedOnce<T>(s: set<T>, x: T)
    ensures |s + {x}| == |s| + if x in s then 0 else 1
  {
    if x in s {
      assert s + {x} == s;
    }
  }

  lemma {:induction false} UnmarkedCount(n: nat, marked: set<nat>)
    requires forall j :: j in marked ==> j < n
    ensures Unmarked(n, marked) == n - |marked|
  {
    if n == 0 {
      assert marked == {};
    } else {
      var fewer := marked - {n - 1};
      UnmarkedSame(n - 1, marked, fewer);
      UnmarkedCount(n - 1, fewer);
    }
  }

  lemma {:induction false} UnmarkedSame(n: nat, a: set<nat>, b: set<nat>)
    requires forall j :: j < n ==> (j in a <==> j in b)
    ensures Unmarked(n, a) == Unmarked(n, b)
  {
    if n > 0 {
      UnmarkedSame(n - 1, a, b);
    }
  }

  /** Every counter accounts for something: the current directories are added, changed or unchanged; the
      snapshot is removed, changed or unchanged exactly when none of its directories occurs twice now. */
  lemma Accounting(paths: seq<string>, w: World, prev: seq<Entry>)
    ensures var r := Diff(paths, w, prev);
            && r.added + r.changed + r.same == |Found(paths, w)|
            && r.removed + r.changed + r.same >= |prev|
            && (r.removed + r.changed + r.same == |prev| <==> KnownOnce(Found(paths, w), prev))
  {
    var found := Found(paths, w);
    CurrentAccounting(found, prev, w);
    MarkedCount(found, prev, w);
    UnmarkedCount(|prev|, Marked(found, prev));
  }

  // ------------------------------------------------------------- two runs

  /** What the first run writes can be read back. */
  ghost predicate AllStorable(paths: seq<string>, w: World) {
    WellTyped(w) && forall p :: p in paths && p in w ==> Storable(Entry(p, w[p]))
  }

  /** Paths of up to 4000 characters without tab or newline, and not beginning with `#`, can be stored. */
  lemma AllStorableIf(paths: seq<string>, w: World)
    requires forall d :: d in w ==> 0 <= w[d].ino <= LONG_MAX && LONG_MIN <= w[d].mtime <= LONG_MAX
    requires forall p :: p in paths ==> 0 < |p| <= 4000 && '\t' !in p && '\n' !in p && p[0] != '#'
    ensures AllStorable(paths, w)
  {
    forall p | p in paths && p in w
      ensures Storable(Entry(p, w[p]))
    {
      PrintedLong(w[p].ino);
      PrintedLong(w[p].mtime);
    }
  }

  lemma SnapshotKept(paths: seq<string>, w: World)
    requires AllStorable(paths, w)
    ensures Load(FileText(Entries(Found(paths, w), w))) == Some(Entries(Found(paths, w), w))
  {
    var found := Found(paths, w);
    var es := Entries(found, w);
    forall i | 0 <= i < |es|
      ensures es[i].id.WellTyped() && Storable(es[i])
    {
      assert found[i] in found;
    }
    SnapshotRoundTrip(es);
  }

  /** How the entries of one directory were and are. */
  lemma FirstOfEntries(found: seq<string>, w: World, p: string)
    requires forall q :: q in found ==> q in w
    ensures var es := Entries(found, w); var j := First(es, p);
            if p in found then j < |es| && es[j] == Entry(p, w[p]) else j == |es|
  {
    var es := Entries(found, w);
    if p in found {
      var i :| 0 <= i < |found| && found[i] == p;
      assert es[i].path == p;
    }
  }

  function Gone(before: set<string>, now: set<string>): set<string> { before - now }

  /** The directories in both runs whose inode or mtime differs. */
  function Altered(before: set<string>, w1: World, now: set<string>, w2: World): set<string> {
    set p | p in before && p in now && p in w1 && p in w2 && w1[p] != w2[p]
  }

  function Members(xs: seq<string>): set<string> { set x | x in xs }

  lemma MembersSnoc(init: seq<string>, p: string)
    requires Distinct(init + [p])
    ensures Members(init + [p]) == Members(init) + {p} && p !in Members(init) && Distinct(init)
  {
    var all := init + [p];
    forall i, j | 0 <= i < j < |init| ensures init[i] != init[j] {
      assert all[i] != all[j];
    }
    forall i | 0 <= i < |init| ensures init[i] != p {
      assert all[i] != all[|init|];
    }
  }

  lemma OneMoreGone(s1: set<string>, s: set<string>, p: string)
    requires p !in s
    ensures |Gone(s + {p}, s1)| == |Gone(s, s1)| + if p in s1 then 0 else 1
  {
    if p in s1 {
      assert Gone(s + {p}, s1) == Gone(s, s1);
    } else {
      assert Gone(s + {p}, s1) == Gone(s, s1) + {p};
    }
  }

  lemma OneMoreAltered(s1: set<string>, w1: World, s: set<string>, w2: World, p: string)
    requires p !in s && p in w2 && s1 <= w1.Keys
    ensures |Altered(s1, w1, s + {p}, w2)| == |Altered(s1, w1, s, w2)| + if p in s1 && w1[p] != w2[p] then 1 else 0
  {
    if p in s1 && w1[p] != w2[p] {
      assert Altered(s1, w1, s + {p}, w2) == Altered(s1, w1, s, w2) + {p};
    } else {
      assert Altered(s1, w1, s + {p}, w2) == Altered(s1, w1, s, w2);
    }
  }

  lemma TalliedSnoc(init: seq<string>, p: string, prev: seq<Entry>, w: World)
    requires (forall q :: q in init ==> q in w) && p in w
    ensures (forall q :: q in init + [p] ==> q in w)
            && Tallied(init + [p], prev, w) == Count(Tallied(init, prev, w), prev, p, w[p])
  {
    var all := init + [p];
    assert all[..|init|] == init && all[|init|] == p;
  }

  lemma {:induction false} TalliedSets(found1: seq<string>, w1: World, found2: seq<string>, w2: World)
    requires (forall p :: p in found1 ==> p in w1) && (forall p :: p in found2 ==> p in w2)
    requires Distinct(found2)
    ensures var t, s1, s2 := Tallied(found2, Entries(found1, w1), w2), Members(found1), Members(found2);
            && t.added == |Gone(s2, s1)| && t.changed == |Altered(s1, w1, s2, w2)| && |s2| == |found2|
  {
    if found2 != [] {
      var init, p := found2[..|found2| - 1], found2[|found2| - 1];
      assert found2 == init + [p];
      MembersSnoc(init, p);
      TalliedSets(found1, w1, init, w2);
      TalliedSnoc(init, p, Entries(found1, w1), w2);
      FirstOfEntries(found1, w1, p);
      var prev := Entries(found1, w1);
      CountSets(Tallied(init, prev, w2), prev, p, Members(found1), w1, Members(init), w2);
    }
  }

  lemma CountSets(t: Tally, prev: seq<Entry>, p: string, s1: set<string>, w1: World, s: set<string>, w2: World)
    requires p !in s && p in w2 && s1 <= w1.Keys
    requires if p in s1 then First(prev, p) < |prev| && prev[First(prev, p)].id == w1[p] else First(prev, p) == |prev|
    requires t.added == |Gone(s, s1)| && t.changed == |Altered(s1, w1, s, w2)|
    ensures var u := Count(t, prev, p, w2[p]);
            && u.added == |Gone(s + {p}, s1)| && u.changed == |Altered(s1, w1, s + {p}, w2)| && |s + {p}| == |s| + 1
  {
    OneMoreGone(s1, s, p);
    OneMoreAltered(s1, w1, s, w2, p);
    AddedOnce(s, p);
  }

  lemma {:induction false} MemberCount(xs: seq<string>)
    requires Distinct(xs)
    ensures |Members(xs)| == |xs|
  {
    if xs != [] {
      var init, p := xs[..|xs| - 1], xs[|xs| - 1];
      assert xs == init + [p];
      MembersSnoc(init, p);
      MemberCount(init);
      AddedOnce(Members(init), p);
    }
  }

  /** With distinct directories, the counters of a run are the sizes of the differences between the
      directories of the last run and those of this one. */
  lemma DiffOfRuns(paths1: seq<string>, w1: World, paths2: seq<string>, w2: World, s1: set<string>, s2: set<string>)
    requires AllStorable(paths1, w1) && Distinct(Found(paths1, w1)) && Distinct(Found(paths2, w2))
    requires s1 == Members(Found(paths1, w1)) && s2 == Members(Found(paths2, w2))
    ensures Load(FileText(Entries(Found(paths1, w1), w1))) == Some(Entries(Found(paths1, w1), w1))
    ensures var r := Diff(paths2, w2, Entries(Found(paths1, w1), w1));
            && r.added == |Gone(s2, s1)| && r.removed == |Gone(s1, s2)|
            && r.changed == |Altered(s1, w1, s2, w2)| && r.changed + r.same == |s1 * s2|
  {
    SnapshotKept(paths1, w1);
    var found1, found2 := Found(paths1, w1), Found(paths2, w2);
    var prev := Entries(found1, w1);
    Accounting(paths2, w2, prev);
    TalliedSets(found1, w1, found2, w2);
    MemberCount(found1);
    Overlap(s1, s2);
  }

  lemma Overlap(s1: set<string>, s2: set<string>)
    ensures |s1| == |Gone(s1, s2)| + |s1 * s2| && |s2| == |Gone(s2, s1)| + |s1 * s2|
  {
    assert s2 == Gone(s2, s1) + s1 * s2 && s1 == Gone(s1, s2) + s1 * s2;
  }

  lemma {:induction false} AllUnchanged(found: seq<string>, all: seq<string>, w: World)
    requires (forall p :: p in found ==> p in all) && forall p :: p in all ==> p in w
    ensures Tallied(found, Entries(all, w), w) == Tally(0, 0, |found|)
  {
    if found != [] {
      forall q | q in found[..|found| - 1] ensures q in found { }
      AllUnchanged(found[..|found| - 1], all, w);
      assert found[|found| - 1] in found;
      FirstOfEntries(all, w, found[|found| - 1]);
    }
  }

  /** A second run on an unchanged filesystem reports nothing added and nothing changed, and nothing removed
      exactly when no directory is on the path twice. */
  lemma SecondRun(paths: seq<string>, w: World)
    requires AllStorable(paths, w)
    ensures var found := Found(paths, w);
            var prev := Load(FileText(Entries(found, w)));
            prev.Some?
            && var r := Diff(paths, w, prev.value);
               r.added == 0 && r.changed == 0 && r.same == |found| && (r.removed == 0 <==> Distinct(found))
  {
    SnapshotKept(paths, w);
    var found := Found(paths, w);
    var prev := Entries(found, w);
    AllUnchanged(found, found, w);
    Accounting(paths, w, prev);
    forall i | 0 <= i < |found| ensures First(prev, found[i]) < |prev| {
      FirstOfEntries(found, w, found[i]);
    }
    AllKnown(found, prev);
  }

  lemma AllKnown(found: seq<string>, prev: seq<Entry>)
    requires forall i :: 0 <= i < |found| ==> First(prev, found[i]) < |prev|
    ensures KnownOnce(found, prev) <==> Distinct(found)
  {
  }

  /** What a run remembers of the last one: nothing when there is no snapshot of this version. */
  function Previous(file: Option<string>): seq<Entry> {
    if file.Some? then Load(file.value).GetOr([]) else []
  }

  lemma FoundOneMore(init: seq<string>, p: string, w: World)
    ensures Found(init + [p], w) == Found(init, w) + if p in w then [p] else []
  {
    assert (init + [p])[..|init|] == init;
  }

  lemma FoundOfTwo(a: string, b: string, w: World)
    ensures Found([a, b], w) == (if a in w then [a] else []) + if b in w then [b] else []
  {
    FoundOneMore([], a, w);
    FoundOneMore([a], b, w);
    assert [] + [a] == [a] && [a] + [b] == [a, b];
  }

  lemma FoundTwice(p: string, paths: seq<string>, w: World)
    requires paths == [p, p] && p in w
    ensures !Distinct(Found(paths, w))
  {
    FoundOfTwo(p, p, w);
    assert Found(paths, w)[0] == Found(paths, w)[1];
  }

  /** An instance: the second of two runs with a directory twice on the path reports it as removed. */
  lemma TwiceOnPath(p: string, paths: seq<string>, w: World, prev: seq<Entry>)
    requires paths == [p, p] && p in w && AllStorable(paths, w)
    requires Load(FileText(Entries(Found(paths, w), w))) == Some(prev)
    ensures Diff(paths, w, prev).removed > 0
  {
    FoundTwice(p, paths, w);
    SecondRun(paths, w);
  }

  // ------------------------------------------------------------- one step of a run

  /** What a run remembers: nothing without a snapshot, and what the last run found when there is one. */
  lemma PreviousIs(paths: seq<string>, w: World)
    requires AllStorable(paths, w)
    ensures Previous(None) == []
    ensures Previous(Some(FileText(Entries(Found(paths, w), w)))) == Entries(Found(paths, w), w)
  {
    SnapshotKept(paths, w);
  }

  lemma FoundStep(paths: seq<string>, i: nat, w: World, prev: seq<Entry>)
    requires i < |paths|
    ensures var p, before, after := paths[i], Found(paths[..i], w), Found(paths[..i + 1], w);
            if p !in w then after == before
            else after == before + [p] && Tallied(after, prev, w) == Count(Tallied(before, prev, w), prev, p, w[p])
                 && Marked(after, prev)
                    == Marked(before, prev) + if First(prev, p) < |prev| then {First(prev, p)} else {}
  {
    assert paths[..i + 1][..i] == paths[..i];
    var before, after := Found(paths[..i], w), Found(paths[..i + 1], w);
    if paths[i] in w {
      assert after[..|after| - 1] == before;
    }
  }

  lemma EntriesSnoc(found: seq<string>, p: string, w: World)
    requires (forall q :: q in found ==> q in w) && p in w
    ensures Entries(found + [p], w) == Entries(found, w) + [Entry(p, w[p])]
  {
  }
}
