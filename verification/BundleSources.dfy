/** src/core/bundle_build.c: the sorted list of the sources that a bundle holds. */
module BundleSources {
  import opened Order
  import opened BundleTree

  function Rels(es: seq<Entry>): (rels: seq<string>)
    ensures |rels| == |es| && forall i :: 0 <= i < |es| ==> rels[i] == es[i].rel
  {
    seq(|es|, i requires 0 <= i < |es| => es[i].rel)
  }

  ghost predicate SourceOf(e: Entry, dir: Node, root: string, output: string) {
    exists comps :: IsSource(e, comps, dir, root, "", output)
  }

  /** Exactly the sources of the tree, in strict strcmp order of their relative paths. */
  ghost predicate SortedSources(items: seq<Entry>, dir: Node, root: string, output: string) {
    && StrictlySorted(Rels(items))
    && forall e :: e in items <==> SourceOf(e, dir, root, output)
  }

  lemma InRels(es: seq<Entry>, k: string)
    ensures k in Rels(es) <==> exists i :: 0 <= i < |es| && es[i].rel == k
  {
    if k in Rels(es) {
      var i :| 0 <= i < |es| && Rels(es)[i] == k;
      assert es[i].rel == k;
    }
    if i :| 0 <= i < |es| && es[i].rel == k {
      assert Rels(es)[i] == k;
    }
  }

  /** The tree has only one such list. */
  lemma SortedSourcesUnique(s: seq<Entry>, t: seq<Entry>, dir: Node, root: string, output: string)
    requires SortedSources(s, dir, root, output) && SortedSources(t, dir, root, output)
    ensures s == t
  {
    forall e
      ensures e in s <==> e in t
    {
    }
    SameEntries(s, t);
  }

  lemma SameEntries(s: seq<Entry>, t: seq<Entry>)
    requires StrictlySorted(Rels(s)) && StrictlySorted(Rels(t)) && forall e :: e in s <==> e in t
    ensures s == t
  {
    forall k
      ensures k in Rels(s) <==> k in Rels(t)
    {
      SameKey(s, t, k);
      SameKey(t, s, k);
    }
    StrictlySortedUnique(Rels(s), Rels(t));
    forall i | 0 <= i < |s|
      ensures s[i] == t[i]
    {
      assert s[i] in t;
      var j :| 0 <= j < |t| && t[j] == s[i];
      assert Rels(t)[j] == Rels(t)[i];
      if i != j {
        StrcmpZero(Rels(t)[i], Rels(t)[j]);
      }
    }
  }

  lemma SameKey(s: seq<Entry>, t: seq<Entry>, k: string)
    requires forall e :: e in s ==> e in t
    ensures k in Rels(s) ==> k in Rels(t)
  {
    InRels(s, k);
    InRels(t, k);
    if i :| 0 <= i < |s| && s[i].rel == k {
      assert s[i] in t;
      var j :| 0 <= j < |t| && t[j] == s[i];
    }
  }

  /** bb_cmp. */
  function BbCmp(a: Entry, b: Entry): int { Strcmp(a.rel, b.rel) }

  /** qsort with bb_cmp. C leaves the algorithm open: callers may only use that the result is an
      ordered permutation. */
  method Qsort(v: BbVec)
    modifies v
    ensures multiset(v.items) == multiset(old(v.items)) && SortedBy(Rels(v.items))
  {
    var done: seq<Entry> := [];
    for i := 0 to |v.items|
      invariant v.items == old(v.items)
      invariant multiset(done) == multiset(v.items[..i]) && SortedBy(Rels(done))
    {
      assert v.items[..i + 1] == v.items[..i] + [v.items[i]];
      done := Insert(v.items[i], done);
    }
    assert v.items[..|v.items|] == v.items;
    v.items := done;
  }

  function Insert(e: Entry, es: seq<Entry>): (r: seq<Entry>)
    requires SortedBy(Rels(es))
    ensures SortedBy(Rels(r)) && multiset(r) == multiset(es) + multiset{e}
  {
    if es == [] then [e]
    else if BbCmp(e, es[0]) <= 0 then
      InsertFirst(e, es);
      [e] + es
    else
      assert Rels(es[1..]) == Rels(es)[1..];
      var r := [es[0]] + Insert(e, es[1..]);
      InsertLater(e, es, Insert(e, es[1..]));
      assert es == [es[0]] + es[1..];
      r
  }

  lemma InsertFirst(e: Entry, es: seq<Entry>)
    requires es != [] && SortedBy(Rels(es)) && BbCmp(e, es[0]) <= 0
    ensures SortedBy(Rels([e] + es))
  {
    forall j | 0 <= j < |es|
      ensures Strcmp(e.rel, es[j].rel) <= 0
    {
      if j > 0 {
        assert Strcmp(Rels(es)[0], Rels(es)[j]) <= 0;
        StrcmpTransitive(e.rel, es[0].rel, es[j].rel);
      }
    }
  }

  lemma InsertLater(e: Entry, es: seq<Entry>, r: seq<Entry>)
    requires es != [] && SortedBy(Rels(es)) && BbCmp(e, es[0]) > 0
    requires SortedBy(Rels(r)) && multiset(r) == multiset(es[1..]) + multiset{e}
    ensures SortedBy(Rels([es[0]] + r))
  {
    StrcmpAntisymmetric(es[0].rel, e.rel);
    forall j | 0 <= j < |r|
      ensures Strcmp(es[0].rel, r[j].rel) <= 0
    {
      assert r[j] in multiset(r);
      if r[j] != e {
        assert r[j] in es[1..];
        var k :| 0 <= k < |es[1..]| && es[1..][k] == r[j];
        assert Strcmp(Rels(es)[0], Rels(es)[k + 1]) <= 0;
      }
    }
  }

  // ------------------------------------------------------------- a permutation keeps paths distinct

  lemma {:induction false} TwiceMeansTwoPlaces(es: seq<Entry>, e: Entry)
    requires multiset(es)[e] >= 2
    ensures exists i, j :: 0 <= i < j < |es| && es[i] == es[j] == e
  {
    var front, last := es[..|es| - 1], es[|es| - 1];
    assert es == front + [last];
    if last == e {
      assert multiset(front)[e] >= 1 && e in front;
      var i :| 0 <= i < |front| && front[i] == e;
      assert es[i] == es[|es| - 1] == e;
    } else {
      TwiceMeansTwoPlaces(front, e);
      var i, j :| 0 <= i < j < |front| && front[i] == front[j] == e;
      assert es[i] == es[j] == e;
    }
  }

  lemma PermutationDistinct(es: seq<Entry>, fs: seq<Entry>)
    requires DistinctRels(es) && multiset(es) == multiset(fs)
    ensures DistinctRels(fs)
  {
    forall i, j | 0 <= i < j < |fs|
      ensures fs[i].rel != fs[j].rel
    {
      assert fs == fs[..j] + [fs[j]] + fs[j + 1..];
      assert fs[i] in multiset(fs) && fs[j] in multiset(fs);
      if fs[i] == fs[j] {
        assert fs[i] in fs[..j];
        assert multiset(fs)[fs[i]] >= 2;
        TwiceMeansTwoPlaces(es, fs[i]);
      } else {
        var a :| 0 <= a < |es| && es[a] == fs[i];
        var b :| 0 <= b < |es| && es[b] == fs[j];
        assert a != b;
      }
    }
  }

  /** Whatever the readdir order, sorting the walk's list gives the sorted sources. */
  lemma WalkSortsToSources(walk: seq<Entry>, items: seq<Entry>, dir: Node, root: string, output: string, order: Listing)
    requires dir.Dir? && ListsAll(dir, "", order) && walk == DirWalk(dir, root, "", output, order)
    requires multiset(items) == multiset(walk) && SortedBy(Rels(items))
    ensures SortedSources(items, dir, root, output)
  {
    WalkDistinct(order(""), dir, root, "", output, order);
    PermutationDistinct(walk, items);
    SortedDistinctIsStrict(Rels(items));
    forall e
      ensures e in items <==> SourceOf(e, dir, root, output)
    {
      SameMembers(walk, items, e);
      FoundIffSource(e, dir, root, output, order);
    }
  }

  lemma SameMembers(es: seq<Entry>, fs: seq<Entry>, e: Entry)
    requires multiset(es) == multiset(fs)
    ensures e in es <==> e in fs
  {
    assert e in es <==> e in multiset(es);
  }

  /** The walk finds exactly the sources. */
  lemma FoundIffSource(e: Entry, dir: Node, root: string, output: string, order: Listing)
    requires dir.Dir? && ListsAll(dir, "", order)
    ensures e in DirWalk(dir, root, "", output, order) <==> SourceOf(e, dir, root, output)
  {
    if e in DirWalk(dir, root, "", output, order) {
      var comps := WalkSound(e, order(""), dir, root, "", output, order);
    } else if comps :| IsSource(e, comps, dir, root, "", output) {
      WalkComplete(e, comps, dir, root, "", output, order);
    }
  }
}
