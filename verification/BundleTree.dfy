/** src/core/bundle_build.c, bb_collect: walking a source tree in whatever order readdir gives. */
module BundleTree {
  import opened CTypes
  import opened Text
  import opened Order

  const PATH_MAX := 4096
  const MAX_DEPTH := 64

  /** What lstat finds. `listed` is false for a directory that cannot be opened or read to its end. */
  datatype Node =
    | Dir(listed: bool, kids: map<string, Node>)
    | Regular(size: int64, mtime: int64, content: string)
    | Other
    | Unstatable

  /** struct bb_entry, with the bytes that reading the file delivers. */
  datatype Entry = Entry(rel: string, abs: string, size: int64, mtime: int64, content: string)

  /** A readdir order for every directory, named by its relative path. */
  type Listing = string -> seq<string>

  /** has_ext: the second suffix never decides anything. */
  function HasExt(name: string): (r: bool)
    ensures r <==> EndsWith(name, ".zsh")
  {
    PluginSuffix(name);
    EndsWith(name, ".zsh") || EndsWith(name, ".plugin.zsh")
  }

  lemma PluginSuffix(name: string)
    ensures EndsWith(name, ".plugin.zsh") ==> EndsWith(name, ".zsh")
  {
    if EndsWith(name, ".plugin.zsh") {
      assert name[|name| - 4..] == name[|name| - 11..][7..] == ".plugin.zsh"[7..];
    }
  }

  predicate Visible(name: string) { name != "" && name[0] != '.' }

  /** Relative paths below the directory `sub`; the root is the empty path. */
  function Prefix(sub: string): string { if sub == "" then "" else sub + "/" }

  function Rel(sub: string, name: string): string { Prefix(sub) + name }

  function Abs(root: string, rel: string): string {
    if rel == "" then root else root + "/" + rel
  }

  predicate Collides(root: string, sub: string, name: string, output: string) {
    Abs(root, Rel(sub, name)) == output
  }

  /** The checks on a visible name before it is looked at. */
  predicate BadName(root: string, sub: string, name: string) {
    var rel := Rel(sub, name);
    |rel| >= PATH_MAX || '\n' in rel || '\r' in rel || |Abs(root, rel)| >= PATH_MAX
  }

  // ------------------------------------------------- what a walk should find

  /** Something at or below this node makes every walk fail. */
  predicate NodeFails(node: Node, root: string, sub: string, name: string, output: string, depth: nat)
    decreases node, 1
  {
    Visible(name) &&
    (BadName(root, sub, name) ||
     (!Collides(root, sub, name, output) &&
      (node.Unstatable? || (node.Dir? && DirFails(node, root, Rel(sub, name), output, depth + 1)))))
  }

  predicate DirFails(dir: Node, root: string, sub: string, output: string, depth: nat)
    decreases dir, 0
  {
    depth > MAX_DEPTH || |Abs(root, sub)| >= PATH_MAX || !dir.Dir? || !dir.listed
    || exists name :: name in dir.kids && NodeFails(dir.kids[name], root, sub, name, output, depth)
  }

  /** The entry of a regular file, if the bundle takes it. */
  function FileEntry(node: Node, root: string, sub: string, name: string): seq<Entry> {
    if node.Regular? && HasExt(name)
    then [Entry(Rel(sub, name), Abs(root, Rel(sub, name)), node.size, node.mtime, node.content)]
    else []
  }

  /** The list a walk that does not fail collects, for a given listing order. */
  function NodeWalk(node: Node, root: string, sub: string, name: string, output: string, order: Listing): seq<Entry>
    decreases node, 2, 0
  {
    if !Visible(name) || Collides(root, sub, name, output) then []
    else if node.Dir? then DirWalk(node, root, Rel(sub, name), output, order)
    else FileEntry(node, root, sub, name)
  }

  function NamesWalk(names: seq<string>, dir: Node, root: string, sub: string, output: string,
                     order: Listing): seq<Entry>
    requires dir.Dir?
    decreases dir, 0, |names|
  {
    if names == [] then []
    else
      var front, name := names[..|names| - 1], names[|names| - 1];
      NamesWalk(front, dir, root, sub, output, order)
      + if name in dir.kids then NodeWalk(dir.kids[name], root, sub, name, output, order) else []
  }

  function DirWalk(dir: Node, root: string, sub: string, output: string, order: Listing): seq<Entry>
    requires dir.Dir?
    decreases dir, 1, 0
  {
    NamesWalk(order(sub), dir, root, sub, output, order)
  }

  /** Every directory is listed completely and without repetition, in any order, by proper names. */
  predicate ListsAll(dir: Node, sub: string, order: Listing)
    requires dir.Dir?
    decreases dir
  {
    && Distinct(order(sub))
    && (forall name :: name in order(sub) ==> name in dir.kids)
    && (forall name :: name in dir.kids ==> name in order(sub))
    && (forall name :: name in dir.kids ==> name != "" && '/' !in name)
    && (forall name :: name in dir.kids && dir.kids[name].Dir? ==> ListsAll(dir.kids[name], Rel(sub, name), order))
  }

  /** `e` is the entry of the file at the path `comps` below this directory: every component is
      visible, no prefix of the path is the output, and the last one is a regular .zsh file. */
  predicate IsSource(e: Entry, comps: seq<string>, dir: Node, root: string, sub: string, output: string)
    decreases |comps|
  {
    && comps != [] && dir.Dir? && comps[0] in dir.kids && Visible(comps[0])
    && !Collides(root, sub, comps[0], output)
    && var node := dir.kids[comps[0]];
       if |comps| == 1 then e in FileEntry(node, root, sub, comps[0])
       else IsSource(e, comps[1..], node, root, Rel(sub, comps[0]), output)
  }

  // ------------------------------------------------- the walk of bb_collect

  /** struct bb_vec: the growing vector of entries. */
  class BbVec {
    var items: seq<Entry>
    /** How many items the allocation holds. */
    var cap: nat
    /** Whether memory may run out. */
    const scarce: bool

    predicate Valid()
      reads this
    {
      |items| <= cap
    }

    constructor (mayFail: bool)
      ensures Valid() && items == [] && cap == 0 && scarce == mayFail
    {
      items, cap, scarce := [], 0, mayFail;
    }

    /** bb_vec_push: a full vector is doubled first, which may fail; the item is stored below the capacity. */
    method Push(e: Entry) returns (failed: bool)
      requires Valid()
      modifies this
      ensures Valid() && items == (if failed then old(items) else old(items) + [e])
      ensures failed ==> scarce && cap == old(cap)
      ensures !failed ==> cap == if |old(items)| < old(cap) then old(cap)
                                 else if old(cap) == 0 then 32 else 2 * old(cap)
    {
      failed := false;
      if |items| == cap {
        failed := *;
        failed := failed && scarce;
        if failed {
          return;
        }
        cap := if cap > 0 then cap * 2 else 32;
      }
      assert |items| < cap;
      items := items + [e];
    }
  }

  /** bb_collect. A success has appended the list of the walk; it fails exactly on a directory that
      makes every walk fail, or for want of memory. */
  method Collect(dir: Node, root: string, sub: string, out: BbVec, output: string, depth: nat, order: Listing)
    returns (rc: int)
    requires dir.Dir? ==> ListsAll(dir, sub, order)
    requires out.Valid()
    modifies out
    ensures out.Valid() && old(out.items) <= out.items
    ensures rc == 0 ==> !DirFails(dir, root, sub, output, depth)
    ensures rc != 0 ==> DirFails(dir, root, sub, output, depth) || out.scarce
    ensures rc == 0 ==> out.items == old(out.items) + DirWalk(dir, root, sub, output, order)
    decreases dir, 0
  {
    if depth > MAX_DEPTH || |Abs(root, sub)| >= PATH_MAX || !dir.Dir? {
      return 1;
    }
    var names := order(sub);
    for i := 0 to |names|
      invariant out.Valid() && old(out.items) <= out.items
      invariant out.items == old(out.items) + NamesWalk(names[..i], dir, root, sub, output, order)
      invariant forall j :: 0 <= j < i ==> !NodeFails(dir.kids[names[j]], root, sub, names[j], output, depth)
    {
      NamesWalkStep(old(out.items), names, i, dir, root, sub, output, order);
      rc := CollectName(dir.kids[names[i]], root, sub, names[i], out, output, depth, order);
      if rc != 0 {
        return 1;
      }
    }
    assert names[..|names|] == names;
    return if dir.listed then 0 else 1;
  }

  lemma NamesWalkStep(before: seq<Entry>, names: seq<string>, i: nat, dir: Node, root: string, sub: string,
                      output: string, order: Listing)
    requires dir.Dir? && i < |names| && names[i] in dir.kids
    ensures before + NamesWalk(names[..i + 1], dir, root, sub, output, order)
            == before + NamesWalk(names[..i], dir, root, sub, output, order)
               + NodeWalk(dir.kids[names[i]], root, sub, names[i], output, order)
  {
    assert names[..i + 1][..i] == names[..i];
  }

  /** One pass of the readdir loop. */
  method CollectName(st: Node, root: string, sub: string, name: string, out: BbVec, output: string, depth: nat,
                     order: Listing)
    returns (rc: int)
    requires name != "" && (st.Dir? ==> ListsAll(st, Rel(sub, name), order))
    requires out.Valid()
    modifies out
    ensures out.Valid() && old(out.items) <= out.items
    ensures rc == 0 ==> !NodeFails(st, root, sub, name, output, depth)
    ensures rc != 0 ==> NodeFails(st, root, sub, name, output, depth) || out.scarce
    ensures rc == 0 ==> out.items == old(out.items) + NodeWalk(st, root, sub, name, output, order)
    decreases st, 1
  {
    if name[0] == '.' {
      return 0;
    }
    var rel := Rel(sub, name);
    if |rel| >= PATH_MAX || '\n' in rel || '\r' in rel {
      return 1;
    }
    var abs := Abs(root, rel);
    if |abs| >= PATH_MAX {
      return 1;
    }
    if abs == output {
      return 0;
    }
    if st.Unstatable? {
      return 1;
    }
    if st.Dir? {
      rc := Collect(st, root, rel, out, output, depth + 1, order);
      return if rc != 0 then 1 else 0;
    }
    if !st.Regular? || !HasExt(name) {
      return 0;
    }
    var failed := out.Push(Entry(rel, abs, st.size, st.mtime, st.content));
    return if failed then 1 else 0;
  }

  // ------------------------------------------------- what the walk finds

  /** The first component of a relative path below the directory `sub`. */
  predicate Below(rel: string, sub: string, name: string) {
    && Prefix(sub) + name <= rel
    && (|rel| == |Prefix(sub)| + |name| || rel[|Prefix(sub)| + |name|] == '/')
  }

  lemma BelowUnique(rel: string, sub: string, a: string, b: string)
    requires Below(rel, sub, a) && Below(rel, sub, b) && '/' !in a && '/' !in b
    ensures a == b
  {
    if |a| < |b| {
      BelowShorter(rel, sub, a, b);
    } else if |b| < |a| {
      BelowShorter(rel, sub, b, a);
    } else {
      assert a == rel[|Prefix(sub)|..|Prefix(sub)| + |a|] == b;
    }
  }

  lemma BelowShorter(rel: string, sub: string, a: string, b: string)
    requires Below(rel, sub, a) && Below(rel, sub, b) && |a| < |b|
    ensures '/' in b
  {
    assert (Prefix(sub) + b)[|Prefix(sub)| + |a|] == b[|a|];
  }

  lemma BelowDeeper(rel: string, sub: string, name: string, inner: string)
    requires name != "" && Below(rel, Rel(sub, name), inner)
    ensures Below(rel, sub, name)
  {
    assert Prefix(Rel(sub, name)) == Prefix(sub) + name + "/";
    assert (Prefix(sub) + name + "/" + inner)[|Prefix(sub) + name|] == '/';
  }

  /** Everything found below a name lies below it. */
  lemma {:induction false} NodeWalkBelow(node: Node, root: string, sub: string, name: string, output: string,
                                         order: Listing)
    requires name != "" && (node.Dir? ==> ListsAll(node, Rel(sub, name), order))
    ensures forall e :: e in NodeWalk(node, root, sub, name, output, order) ==> Below(e.rel, sub, name)
    decreases node, 2, 0
  {
    if node.Dir? && Visible(name) && !Collides(root, sub, name, output) {
      var inner := Rel(sub, name);
      NamesWalkBelow(order(inner), node, root, inner, output, order);
      forall e | e in NodeWalk(node, root, sub, name, output, order)
        ensures Below(e.rel, sub, name)
      {
        assert e in NamesWalk(order(inner), node, root, inner, output, order);
        var k :| k in order(inner) && Below(e.rel, inner, k);
        BelowDeeper(e.rel, sub, name, k);
      }
    }
  }

  lemma {:induction false} NamesWalkBelow(names: seq<string>, dir: Node, root: string, sub: string, output: string,
                                          order: Listing)
    requires dir.Dir? && ListsAll(dir, sub, order)
    ensures forall e :: e in NamesWalk(names, dir, root, sub, output, order) ==>
              exists k :: k in names && Below(e.rel, sub, k)
    decreases dir, 0, |names|
  {
    if names != [] {
      var front, name := names[..|names| - 1], names[|names| - 1];
      NamesWalkBelow(front, dir, root, sub, output, order);
      if name in dir.kids {
        NodeWalkBelow(dir.kids[name], root, sub, name, output, order);
      }
      assert name in names;
      assert forall k :: k in front ==> k in names;
    }
  }

  /** What is found below different names has different paths. */
  lemma WalkSeparate(front: seq<string>, name: string, dir: Node, root: string, sub: string, output: string,
                     order: Listing)
    requires dir.Dir? && ListsAll(dir, sub, order) && name in dir.kids && name !in front
    requires forall k :: k in front ==> k in dir.kids
    ensures forall e, f | e in NamesWalk(front, dir, root, sub, output, order)
                          && f in NodeWalk(dir.kids[name], root, sub, name, output, order) :: e.rel != f.rel
  {
    NamesWalkBelow(front, dir, root, sub, output, order);
    NodeWalkBelow(dir.kids[name], root, sub, name, output, order);
    forall e, f | e in NamesWalk(front, dir, root, sub, output, order)
                  && f in NodeWalk(dir.kids[name], root, sub, name, output, order)
      ensures e.rel != f.rel
    {
      var k :| k in front && Below(e.rel, sub, k);
      if e.rel == f.rel {
        BelowUnique(e.rel, sub, k, name);
      }
    }
  }

  predicate DistinctRels(es: seq<Entry>) {
    forall i, j :: 0 <= i < j < |es| ==> es[i].rel != es[j].rel
  }

  lemma DistinctRelsAppend(es: seq<Entry>, fs: seq<Entry>)
    requires DistinctRels(es) && DistinctRels(fs) && forall e, f :: e in es && f in fs ==> e.rel != f.rel
    ensures DistinctRels(es + fs)
  {
  }

  /** No relative path is found twice. */
  lemma {:induction false} WalkDistinct(names: seq<string>, dir: Node, root: string, sub: string, output: string,
                                        order: Listing)
    requires dir.Dir? && ListsAll(dir, sub, order) && Distinct(names) && forall k :: k in names ==> k in dir.kids
    ensures DistinctRels(NamesWalk(names, dir, root, sub, output, order))
    decreases dir, 0, |names|
  {
    if names != [] {
      var front, name := names[..|names| - 1], names[|names| - 1];
      WalkDistinct(front, dir, root, sub, output, order);
      WalkSeparate(front, name, dir, root, sub, output, order);
      NodeWalkDistinct(dir.kids[name], root, sub, name, output, order);
      DistinctRelsAppend(NamesWalk(front, dir, root, sub, output, order),
                         NodeWalk(dir.kids[name], root, sub, name, output, order));
    }
  }

  lemma {:induction false} NodeWalkDistinct(node: Node, root: string, sub: string, name: string, output: string,
                                            order: Listing)
    requires node.Dir? ==> ListsAll(node, Rel(sub, name), order)
    ensures DistinctRels(NodeWalk(node, root, sub, name, output, order))
    decreases node, 2, 0
  {
    if node.Dir? {
      WalkDistinct(order(Rel(sub, name)), node, root, Rel(sub, name), output, order);
    }
  }

  // ------------------------------------------------- independence of the order

  /** The walk finds exactly the sources, whatever order it meets them in. */
  lemma {:induction false} WalkSound(e: Entry, names: seq<string>, dir: Node, root: string, sub: string, output: string,
                                     order: Listing) returns (comps: seq<string>)
    requires dir.Dir? && ListsAll(dir, sub, order) && e in NamesWalk(names, dir, root, sub, output, order)
    ensures IsSource(e, comps, dir, root, sub, output)
    decreases dir, 0, |names|
  {
    var front, name := names[..|names| - 1], names[|names| - 1];
    if e in NamesWalk(front, dir, root, sub, output, order) {
      comps := WalkSound(e, front, dir, root, sub, output, order);
    } else if dir.kids[name].Dir? {
      var inner := Rel(sub, name);
      assert e in NodeWalk(dir.kids[name], root, sub, name, output, order);
      assert e in DirWalk(dir.kids[name], root, inner, output, order);
      var deeper := WalkSound(e, order(inner), dir.kids[name], root, inner, output, order);
      comps := [name] + deeper;
      assert comps[1..] == deeper;
    } else {
      assert e in NodeWalk(dir.kids[name], root, sub, name, output, order);
      comps := [name];
    }
  }

  lemma {:induction false} WalkComplete(e: Entry, comps: seq<string>, dir: Node, root: string, sub: string,
                                        output: string, order: Listing)
    requires dir.Dir? && ListsAll(dir, sub, order) && IsSource(e, comps, dir, root, sub, output)
    ensures e in DirWalk(dir, root, sub, output, order)
    decreases |comps|
  {
    var node := dir.kids[comps[0]];
    if |comps| > 1 {
      WalkComplete(e, comps[1..], node, root, Rel(sub, comps[0]), output, order);
    }
    NamesWalkHas(e, comps[0], order(sub), dir, root, sub, output, order);
  }

  lemma {:induction false} NamesWalkHas(e: Entry, name: string, names: seq<string>, dir: Node, root: string,
                                        sub: string, output: string, order: Listing)
    requires dir.Dir? && name in names && name in dir.kids
    requires e in NodeWalk(dir.kids[name], root, sub, name, output, order)
    ensures e in NamesWalk(names, dir, root, sub, output, order)
    decreases |names|
  {
    if names[|names| - 1] != name {
      NamesWalkHas(e, name, names[..|names| - 1], dir, root, sub, output, order);
    }
  }
}
