/** What writing or removing one file of a source tree does to the sorted list of its sources. */
module BundleChange {
  import opened Text
  import opened Order
  import opened BundleTree
  import opened BundleSources
  import opened BundleFreshness

  // ------------------------------------------------------------- one file of a tree

  /** Names are components of paths. */
  predicate Proper(dir: Node)
    decreases dir
  {
    dir.Dir? ==> forall name :: name in dir.kids ==> name != "" && '/' !in name && Proper(dir.kids[name])
  }

  /** Every component but the last names a directory. */
  predicate Reaches(dir: Node, path: seq<string>)
    decreases |path|
  {
    path != [] && dir.Dir?
    && (|path| == 1 || (path[0] in dir.kids && Reaches(dir.kids[path[0]], path[1..])))
  }

  function At(dir: Node, path: seq<string>): Option<Node>
    requires Reaches(dir, path)
    decreases |path|
  {
    if |path| > 1 then At(dir.kids[path[0]], path[1..])
    else if path[0] in dir.kids then Some(dir.kids[path[0]]) else None
  }

  /** The tree with another file at a path, or with none. */
  function Put(dir: Node, path: seq<string>, file: Option<Node>): Node
    requires Reaches(dir, path)
    decreases |path|
  {
    var name := path[0];
    if |path| > 1 then Dir(dir.listed, dir.kids[name := Put(dir.kids[name], path[1..], file)])
    else if file.Some? then Dir(dir.listed, dir.kids[name := file.value])
    else Dir(dir.listed, dir.kids - {name})
  }

  predicate NoDir(file: Option<Node>) { file.Some? ==> !file.value.Dir? }

  /** A file, not a directory, is written or removed. */
  predicate CanPut(dir: Node, path: seq<string>, file: Option<Node>) {
    Reaches(dir, path) && NoDir(At(dir, path)) && NoDir(file) && Proper(dir) && Proper(Put(dir, path, file))
  }

  /** A file can be put into a directory under any name that is not that of a directory. */
  lemma CanPutAtTop(dir: Node, name: string, file: Node)
    requires dir.Dir? && Proper(dir) && name != "" && '/' !in name && !file.Dir?
    requires name in dir.kids ==> !dir.kids[name].Dir?
    ensures CanPut(dir, [name], Some(file)) && At(Put(dir, [name], Some(file)), [name]) == Some(file)
  {
  }

  /** The source that a file at this path is, if it is one. */
  function SourceAt(file: Option<Node>, path: seq<string>, root: string, sub: string, output: string): seq<Entry>
    requires path != []
    decreases |path|
  {
    if file.None? || !Visible(path[0]) || Collides(root, sub, path[0], output) then []
    else if |path| > 1 then SourceAt(file, path[1..], root, Rel(sub, path[0]), output)
    else FileEntry(file.value, root, sub, path[0])
  }

  lemma {:induction false} SourceAtOne(file: Option<Node>, path: seq<string>, root: string, sub: string, output: string)
    requires path != []
    ensures |SourceAt(file, path, root, sub, output)| <= 1
    decreases |path|
  {
    if |path| > 1 {
      SourceAtOne(file, path[1..], root, Rel(sub, path[0]), output);
    }
  }

  /** What is found at the path. */
  lemma {:induction false} FoundAt(e: Entry, dir: Node, path: seq<string>, root: string, sub: string, output: string)
    requires Reaches(dir, path)
    ensures IsSource(e, path, dir, root, sub, output) <==> e in SourceAt(At(dir, path), path, root, sub, output)
    decreases |path|
  {
    if |path| > 1 {
      FoundAt(e, dir.kids[path[0]], path[1..], root, Rel(sub, path[0]), output);
    }
  }

  lemma {:induction false} AtPut(dir: Node, path: seq<string>, file: Option<Node>)
    requires Reaches(dir, path)
    ensures Reaches(Put(dir, path, file), path) && At(Put(dir, path, file), path) == file
    decreases |path|
  {
    if |path| > 1 {
      AtPut(dir.kids[path[0]], path[1..], file);
    }
  }

  /** What is found elsewhere stays. */
  lemma {:induction false} FoundElsewhere(e: Entry, other: seq<string>, dir: Node, path: seq<string>,
                                          file: Option<Node>, root: string, sub: string, output: string)
    requires Reaches(dir, path) && NoDir(At(dir, path)) && NoDir(file) && other != path
    ensures IsSource(e, other, Put(dir, path, file), root, sub, output) <==> IsSource(e, other, dir, root, sub, output)
    decreases |path|
  {
    assert |other| == |path| == 1 && other[0] == path[0] ==> other == path;
    if other != [] && other[0] == path[0] && |path| > 1 && |other| > 1 {
      assert other == [other[0]] + other[1..] && path == [path[0]] + path[1..];
      FoundElsewhere(e, other[1..], dir.kids[path[0]], path[1..], file, root, Rel(sub, path[0]), output);
    }
  }

  // ------------------------------------------------------------- a relative path has one place

  lemma {:induction false} SourceBelow(e: Entry, path: seq<string>, dir: Node, root: string, sub: string,
                                       output: string)
    requires IsSource(e, path, dir, root, sub, output)
    ensures Below(e.rel, sub, path[0])
    decreases |path|
  {
    if |path| > 1 {
      SourceBelow(e, path[1..], dir.kids[path[0]], root, Rel(sub, path[0]), output);
      BelowDeeper(e.rel, sub, path[0], path[1]);
    }
  }

  lemma {:induction false} SamePlace(e: Entry, p: seq<string>, f: Entry, q: seq<string>, dir: Node, root: string,
                                     sub: string, output: string)
    requires Proper(dir) && e.rel == f.rel
    requires IsSource(e, p, dir, root, sub, output) && IsSource(f, q, dir, root, sub, output)
    ensures p == q
    decreases |p|
  {
    SourceBelow(e, p, dir, root, sub, output);
    SourceBelow(f, q, dir, root, sub, output);
    BelowUnique(e.rel, sub, p[0], q[0]);
    if |p| > 1 && |q| > 1 {
      SamePlace(e, p[1..], f, q[1..], dir.kids[p[0]], root, Rel(sub, p[0]), output);
      assert p == [p[0]] + p[1..] && q == [q[0]] + q[1..];
    }
  }

  /** Sources that are not at the path. */
  ghost predicate Elsewhere(e: Entry, dir: Node, path: seq<string>, root: string, output: string) {
    exists other :: other != path && IsSource(e, other, dir, root, "", output)
  }

  lemma SourcesSplit(e: Entry, dir: Node, path: seq<string>, root: string, output: string)
    requires Reaches(dir, path)
    ensures SourceOf(e, dir, root, output)
       <==> e in SourceAt(At(dir, path), path, root, "", output) || Elsewhere(e, dir, path, root, output)
  {
    FoundAt(e, dir, path, root, "", output);
    if e in SourceAt(At(dir, path), path, root, "", output) {
      assert IsSource(e, path, dir, root, "", output);
    }
  }

  lemma ElsewhereStays(e: Entry, dir: Node, path: seq<string>, file: Option<Node>, root: string, output: string)
    requires CanPut(dir, path, file)
    ensures Elsewhere(e, Put(dir, path, file), path, root, output) <==> Elsewhere(e, dir, path, root, output)
  {
    forall other | other != path
      ensures IsSource(e, other, Put(dir, path, file), root, "", output)
         <==> IsSource(e, other, dir, root, "", output)
    {
      FoundElsewhere(e, other, dir, path, file, root, "", output);
    }
  }

  lemma ElsewhereDiffers(e: Entry, x: Entry, dir: Node, path: seq<string>, root: string, output: string)
    requires Reaches(dir, path) && Proper(dir) && Elsewhere(e, dir, path, root, output)
    requires x in SourceAt(At(dir, path), path, root, "", output)
    ensures e.rel != x.rel
  {
    FoundAt(x, dir, path, root, "", output);
    var other :| other != path && IsSource(e, other, dir, root, "", output);
    if e.rel == x.rel {
      SamePlace(e, other, x, path, dir, root, "", output);
    }
  }

  // ------------------------------------------------------------- the sorted list

  lemma {:induction false} SourceAtRel(a: Option<Node>, b: Option<Node>, path: seq<string>, root: string, sub: string,
                                       output: string, x: Entry, y: Entry)
    requires path != [] && x in SourceAt(a, path, root, sub, output) && y in SourceAt(b, path, root, sub, output)
    ensures x.rel == y.rel
    decreases |path|
  {
    if |path| > 1 {
      SourceAtRel(a, b, path[1..], root, Rel(sub, path[0]), output, x, y);
    }
  }

  lemma SortedIsDistinct(items: seq<Entry>)
    requires StrictlySorted(Rels(items))
    ensures DistinctRels(items)
  {
    forall i, j | 0 <= i < j < |items|
      ensures items[i].rel != items[j].rel
    {
      assert Strcmp(Rels(items)[i], Rels(items)[j]) < 0;
      StrcmpZero(items[i].rel, items[j].rel);
    }
  }

  lemma WithoutMembers(items: seq<Entry>, i: nat, f: Entry)
    requires i < |items| && DistinctRels(items)
    ensures f in Without(items, i) <==> f in items && f != items[i]
  {
    var after := Without(items, i);
    if f in items && f != items[i] {
      var j :| 0 <= j < |items| && items[j] == f;
      assert after[if j < i then j else j - 1] == f;
    }
    if f in after {
      var j :| 0 <= j < |after| && after[j] == f;
      var k := if j < i then j else j + 1;
      assert items[k] == f;
    }
  }

  lemma WithoutSorted(items: seq<Entry>, i: nat)
    requires i < |items| && StrictlySorted(Rels(items))
    ensures StrictlySorted(Rels(Without(items, i)))
  {
    var after := Without(items, i);
    forall a, b | 0 <= a < b < |after|
      ensures Strcmp(Rels(after)[a], Rels(after)[b]) < 0
    {
      var c, d := if a < i then a else a + 1, if b < i then b else b + 1;
      assert after[a] == items[c] && after[b] == items[d] && Strcmp(Rels(items)[c], Rels(items)[d]) < 0;
    }
  }

  /** The sorted list with one entry less. */
  lemma OneLess(items: seq<Entry>, i: nat, fewer: seq<Entry>)
    requires i < |items| && StrictlySorted(Rels(items)) && StrictlySorted(Rels(fewer))
    requires forall f :: f in fewer <==> f in items && f != items[i]
    ensures fewer == Without(items, i)
  {
    SortedIsDistinct(items);
    WithoutSorted(items, i);
    forall f
      ensures f in fewer <==> f in Without(items, i)
    {
      WithoutMembers(items, i, f);
    }
    SameEntries(fewer, Without(items, i));
  }

  /** The sorted list with another entry of the same name. */
  lemma OneOther(items: seq<Entry>, i: nat, e: Entry, after: seq<Entry>)
    requires i < |items| && StrictlySorted(Rels(items)) && StrictlySorted(Rels(after)) && e.rel == items[i].rel
    requires forall f :: f in after <==> f == e || (f in items && f != items[i])
    ensures after == items[i := e]
  {
    var edited := items[i := e];
    SortedIsDistinct(items);
    assert Rels(edited) == Rels(items);
    forall f
      ensures f in after <==> f in edited
    {
      if f in edited {
        var j :| 0 <= j < |items| && edited[j] == f;
        assert j != i ==> items[j] in items;
      }
      if f in items && f != items[i] {
        var j :| 0 <= j < |items| && items[j] == f;
        assert edited[j] == f;
      }
      assert edited[i] == e;
    }
    SameEntries(after, edited);
  }

  lemma WithoutWith(items: seq<Entry>, after: seq<Entry>, i: nat)
    requires i < |after| && items == Without(after, i)
    ensures i <= |items| && after == With(items, i, after[i])
  {
  }

  /** A step that takes one list of sources to another. */
  predicate Leads(items: seq<Entry>, step: Step, after: seq<Entry>) {
    match step
    case Edit(i, e) => i < |items| && e.rel == items[i].rel && after == items[i := e]
    case Insert(i, e) => i <= |items| && after == With(items, i, e)
    case Delete(i) => i < |items| && after == Without(items, i)
    case Rebuild(_, _) => false
  }

  /** The entries at the path before and after decide the step. */
  lemma ListStep(items: seq<Entry>, after: seq<Entry>, gone: seq<Entry>, come: seq<Entry>)
    returns (step: Option<Step>)
    requires StrictlySorted(Rels(items)) && StrictlySorted(Rels(after)) && |gone| <= 1 && |come| <= 1
    requires gone != [] ==> gone[0] in items
    requires come != [] ==> come[0] in after && forall f :: f in items && f !in gone ==> f != come[0]
    requires gone != [] && come != [] ==> gone[0].rel == come[0].rel
    requires forall f :: f in after <==> f in come || (f in items && f !in gone)
    ensures step.None? ==> after == items
    ensures step.Some? ==> Leads(items, step.value, after)
    ensures step.None? <==> gone == come == []
  {
    if gone == [] && come == [] {
      SameEntries(after, items);
      step := None;
    } else if gone == [] {
      var i :| 0 <= i < |after| && after[i] == come[0];
      OneLess(after, i, items);
      WithoutWith(items, after, i);
      step := Some(Insert(i, come[0]));
    } else if come == [] {
      var i :| 0 <= i < |items| && items[i] == gone[0];
      OneLess(items, i, after);
      step := Some(Delete(i));
    } else {
      var i :| 0 <= i < |items| && items[i] == gone[0];
      OneOther(items, i, come[0], after);
      step := Some(Edit(i, come[0]));
    }
  }

  /** Writing or removing a file edits, inserts or deletes one source, or none. */
  lemma FileChange(dir: Node, path: seq<string>, file: Option<Node>, root: string, output: string, items: seq<Entry>,
                   after: seq<Entry>) returns (step: Option<Step>)
    requires CanPut(dir, path, file)
    requires SortedSources(items, dir, root, output) && SortedSources(after, Put(dir, path, file), root, output)
    ensures step.None? ==> after == items
    ensures step.Some? ==> Leads(items, step.value, after)
    ensures step.None? <==> SourceAt(At(dir, path), path, root, "", output) == []
                            && SourceAt(file, path, root, "", output) == []
  {
    var gone, come := SourceAt(At(dir, path), path, root, "", output), SourceAt(file, path, root, "", output);
    var dir' := Put(dir, path, file);
    AtPut(dir, path, file);
    SourceAtOne(At(dir, path), path, root, "", output);
    SourceAtOne(file, path, root, "", output);
    forall f
      ensures f in items <==> f in gone || Elsewhere(f, dir, path, root, output)
      ensures f in after <==> f in come || Elsewhere(f, dir, path, root, output)
    {
      SourcesSplit(f, dir, path, root, output);
      SourcesSplit(f, dir', path, root, output);
      ElsewhereStays(f, dir, path, file, root, output);
    }
    forall f | Elsewhere(f, dir, path, root, output)
      ensures f !in gone && f !in come
    {
      ElsewhereStays(f, dir, path, file, root, output);
      if f in gone {
        ElsewhereDiffers(f, f, dir, path, root, output);
      }
      if f in come {
        ElsewhereDiffers(f, f, dir', path, root, output);
      }
    }
    if gone != [] && come != [] {
      SourceAtRel(At(dir, path), file, path, root, "", output, gone[0], come[0]);
    }
    step := ListStep(items, after, gone, come);
  }
}
