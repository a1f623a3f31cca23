/** What a source tree means for its bundle, in terms of the files, their paths and their contents alone. */
module BundleLayout {
  import opened CTypes
  import opened Text
  import opened Order
  import opened BundleTree
  import opened BundleSources
  import opened BundlePublish
  import opened BundleChange

  // ------------------------------------------------------------- paths

  /** The components with slashes between them. */
  function Slashed(path: seq<string>): string
    requires path != []
  {
    if |path| == 1 then path[0] else path[0] + "/" + Slashed(path[1..])
  }

  lemma SlashedFront(path: seq<string>, k: nat)
    requires 1 < k <= |path|
    ensures Slashed(path[..k]) == path[0] + "/" + Slashed(path[1..][..k - 1])
  {
    assert path[..k][1..] == path[1..][..k - 1];
  }

  /** The path of the first k components, behind what stands before all of them. */
  function Upto(path: seq<string>, k: nat, before: string): string
    requires 0 < k <= |path|
  {
    before + Slashed(path[..k])
  }

  lemma UptoOne(path: seq<string>, before: string)
    requires path != []
    ensures Upto(path, 1, before) == before + path[0]
  {
  }

  lemma UptoStep(path: seq<string>, k: nat, before: string)
    requires 1 < k <= |path|
    ensures Upto(path, k, before) == Upto(path[1..], k - 1, before + path[0] + "/")
  {
    SlashedFront(path, k);
    Assoc(before, path[0] + "/", Slashed(path[1..][..k - 1]));
    Assoc(before, path[0], "/");
  }

  predicate AllVisible(path: seq<string>) {
    forall i :: 0 <= i < |path| ==> path[i] != "" && path[i][0] != '.'
  }

  lemma AllVisibleStep(path: seq<string>)
    requires path != []
    ensures AllVisible(path) <==> path[0] != "" && path[0][0] != '.' && AllVisible(path[1..])
  {
    if path[0] != "" && path[0][0] != '.' && AllVisible(path[1..]) {
      forall i | 0 <= i < |path|
        ensures path[i] != "" && path[i][0] != '.'
      {
        assert i > 0 ==> path[i] == path[1..][i - 1];
      }
    }
  }

  /** None of the first n prefixes of the path is the output. */
  predicate Apart(path: seq<string>, n: nat, root: string, before: string, output: string)
    requires n <= |path|
  {
    forall k :: 0 < k <= n ==> root + "/" + Upto(path, k, before) != output
  }

  lemma ApartStep(path: seq<string>, n: nat, root: string, before: string, output: string)
    requires 0 < n <= |path|
    ensures Apart(path, n, root, before, output)
       <==> root + "/" + (before + path[0]) != output && Apart(path[1..], n - 1, root, before + path[0] + "/", output)
  {
    UptoOne(path, before);
    var deeper := before + path[0] + "/";
    forall k | 0 < k <= n - 1
      ensures Upto(path, k + 1, before) == Upto(path[1..], k, deeper)
    {
      UptoStep(path, k + 1, before);
    }
    if Apart(path, n, root, before, output) {
      assert root + "/" + Upto(path, 1, before) != output;
      forall k | 0 < k <= n - 1
        ensures root + "/" + Upto(path[1..], k, deeper) != output
      {
        assert root + "/" + Upto(path, k + 1, before) != output;
      }
    }
    if root + "/" + (before + path[0]) != output && Apart(path[1..], n - 1, root, deeper, output) {
      forall k | 0 < k <= n
        ensures root + "/" + Upto(path, k, before) != output
      {
        assert k > 1 ==> Upto(path, k - 1 + 1, before) == Upto(path[1..], k - 1, deeper);
      }
    }
  }

  // ------------------------------------------------------------- which files are sources

  /** A regular .zsh file below names that do not begin with a dot, which is not the output nor below it. */
  predicate Taken(file: Option<Node>, path: seq<string>, root: string, before: string, output: string) {
    path != [] && file.Some? && file.value.Regular? && EndsWith(path[|path| - 1], ".zsh")
    && AllVisible(path) && Apart(path, |path|, root, before, output)
  }

  lemma TakenStep(file: Option<Node>, path: seq<string>, root: string, before: string, output: string)
    requires |path| > 1
    ensures Taken(file, path, root, before, output)
       <==> path[0] != "" && path[0][0] != '.' && root + "/" + (before + path[0]) != output
            && Taken(file, path[1..], root, before + path[0] + "/", output)
  {
    AllVisibleStep(path);
    ApartStep(path, |path|, root, before, output);
  }

  lemma TakenOne(file: Option<Node>, path: seq<string>, root: string, before: string, output: string)
    requires |path| == 1
    ensures Taken(file, path, root, before, output)
       <==> path[0] != "" && path[0][0] != '.' && root + "/" + (before + path[0]) != output
            && file.Some? && file.value.Regular? && EndsWith(path[0], ".zsh")
  {
    AllVisibleStep(path);
    ApartStep(path, 1, root, before, output);
  }

  /** The entry of such a file: its path below the root, its real path, and the file as it is. */
  function EntryAt(file: Node, path: seq<string>, root: string, before: string): Entry
    requires path != [] && file.Regular?
  {
    var rel := before + Slashed(path);
    Entry(rel, root + "/" + rel, file.size, file.mtime, file.content)
  }

  lemma EntryAtStep(file: Node, path: seq<string>, root: string, before: string)
    requires |path| > 1 && file.Regular?
    ensures EntryAt(file, path, root, before) == EntryAt(file, path[1..], root, before + path[0] + "/")
  {
    assert path[..|path|] == path && path[1..][..|path| - 1] == path[1..];
    UptoStep(path, |path|, before);
  }

  lemma Deeper(sub: string, name: string)
    requires name != ""
    ensures Prefix(Rel(sub, name)) == Prefix(sub) + name + "/"
  {
  }

  lemma {:induction false} SourceAtBelow(file: Option<Node>, path: seq<string>, root: string, sub: string,
                                         output: string)
    requires path != []
    ensures SourceAt(file, path, root, sub, output)
         == if Taken(file, path, root, Prefix(sub), output) then [EntryAt(file.value, path, root, Prefix(sub))] else []
    decreases |path|
  {
    if |path| == 1 {
      TakenOne(file, path, root, Prefix(sub), output);
    } else {
      TakenStep(file, path, root, Prefix(sub), output);
      if path[0] != "" {
        Deeper(sub, path[0]);
        SourceAtBelow(file, path[1..], root, Rel(sub, path[0]), output);
      }
      if Taken(file, path, root, Prefix(sub), output) {
        EntryAtStep(file.value, path, root, Prefix(sub));
      }
    }
  }

  /** The source that a file at a path is: exactly when it is taken, and with its own size, mtime and content. */
  lemma SourceAtIs(file: Option<Node>, path: seq<string>, root: string, output: string)
    requires path != []
    ensures SourceAt(file, path, root, "", output)
         == if Taken(file, path, root, "", output) then [EntryAt(file.value, path, root, "")] else []
  {
    SourceAtBelow(file, path, root, "", output);
  }

  lemma {:induction false} SourceReached(e: Entry, path: seq<string>, dir: Node, root: string, sub: string,
                                         output: string)
    requires IsSource(e, path, dir, root, sub, output)
    ensures Reaches(dir, path)
    decreases |path|
  {
    if |path| > 1 {
      SourceReached(e, path[1..], dir.kids[path[0]], root, Rel(sub, path[0]), output);
    }
  }

  /** The file that this entry is of, where this path leads. */
  predicate IsFileOf(e: Entry, path: seq<string>, dir: Node, root: string, output: string) {
    Reaches(dir, path) && Taken(At(dir, path), path, root, "", output)
    && e == EntryAt(At(dir, path).value, path, root, "")
  }

  /** The sources of a tree are exactly the entries of its regular .zsh files that are reached by names without a
      leading dot, except for the output. */
  lemma SourcesAre(e: Entry, dir: Node, root: string, output: string)
    ensures SourceOf(e, dir, root, output) <==> exists path :: IsFileOf(e, path, dir, root, output)
  {
    if path :| IsSource(e, path, dir, root, "", output) {
      SourceReached(e, path, dir, root, "", output);
      FoundAt(e, dir, path, root, "", output);
      SourceAtIs(At(dir, path), path, root, output);
      assert IsFileOf(e, path, dir, root, output);
    }
    if path :| IsFileOf(e, path, dir, root, output) {
      FoundAt(e, dir, path, root, "", output);
      SourceAtIs(At(dir, path), path, root, output);
      assert IsSource(e, path, dir, root, "", output);
    }
  }

  // ------------------------------------------------------------- which trees cannot be bundled

  /** A name on the way, or a file or directory at its end, that no walk gets past. */
  predicate Trouble(node: Option<Node>, path: seq<string>, root: string, before: string, output: string, depth: nat) {
    path != [] && node.Some? && AllVisible(path) && Apart(path, |path| - 1, root, before, output)
    && var rel := Upto(path, |path|, before);
       || |rel| >= 4096 || '\n' in rel || '\r' in rel || |root + "/" + rel| >= 4096
       || (root + "/" + rel != output
           && (node.value.Unstatable? || (node.value.Dir? && (!node.value.listed || depth + |path| > 64))))
  }

  ghost predicate TroubleBelow(dir: Node, root: string, before: string, output: string, depth: nat) {
    exists path :: Reaches(dir, path) && Trouble(At(dir, path), path, root, before, output, depth)
  }

  lemma TroubleStep(node: Option<Node>, path: seq<string>, root: string, before: string, output: string, depth: nat)
    requires |path| > 1
    ensures Trouble(node, path, root, before, output, depth)
       <==> path[0] != "" && path[0][0] != '.' && root + "/" + (before + path[0]) != output
            && Trouble(node, path[1..], root, before + path[0] + "/", output, depth + 1)
  {
    AllVisibleStep(path);
    ApartStep(path, |path| - 1, root, before, output);
    UptoStep(path, |path|, before);
  }

  lemma TroubleOne(node: Option<Node>, path: seq<string>, root: string, before: string, output: string, depth: nat)
    requires |path| == 1
    ensures Trouble(node, path, root, before, output, depth)
       <==> var rel := before + path[0];
            && node.Some? && path[0] != "" && path[0][0] != '.'
            && (|| |rel| >= 4096 || '\n' in rel || '\r' in rel || |root + "/" + rel| >= 4096
                || (root + "/" + rel != output
                    && (node.value.Unstatable? || (node.value.Dir? && (!node.value.listed || depth + 1 > 64)))))
  {
    AllVisibleStep(path);
    UptoOne(path, before);
  }

  /** Trouble at or below one name of a directory. */
  ghost predicate TroubleVia(node: Node, name: string, root: string, before: string, output: string, depth: nat) {
    Trouble(Some(node), [name], root, before, output, depth)
    || (name != "" && name[0] != '.' && node.Dir? && root + "/" + (before + name) != output
        && TroubleBelow(node, root, before + name + "/", output, depth + 1))
  }

  lemma TroubleBelowIff(dir: Node, root: string, before: string, output: string, depth: nat)
    requires dir.Dir?
    ensures TroubleBelow(dir, root, before, output, depth)
       <==> exists name :: name in dir.kids && TroubleVia(dir.kids[name], name, root, before, output, depth)
  {
    if path :| Reaches(dir, path) && Trouble(At(dir, path), path, root, before, output, depth) {
      assert path[0] in dir.kids;
      if |path| == 1 {
        assert path == [path[0]];
      } else {
        TroubleStep(At(dir, path), path, root, before, output, depth);
        assert Reaches(dir.kids[path[0]], path[1..]);
      }
      assert TroubleVia(dir.kids[path[0]], path[0], root, before, output, depth);
    }
    if name :| name in dir.kids && TroubleVia(dir.kids[name], name, root, before, output, depth) {
      TroubleFrom(dir, name, root, before, output, depth);
    }
  }

  lemma TroubleFrom(dir: Node, name: string, root: string, before: string, output: string, depth: nat)
    requires dir.Dir? && name in dir.kids && TroubleVia(dir.kids[name], name, root, before, output, depth)
    ensures TroubleBelow(dir, root, before, output, depth)
  {
    var kid := dir.kids[name];
    if Trouble(Some(kid), [name], root, before, output, depth) {
      assert Reaches(dir, [name]) && At(dir, [name]) == Some(kid);
    } else {
      var deeper :|
        Reaches(kid, deeper) && Trouble(At(kid, deeper), deeper, root, before + name + "/", output, depth + 1);
      var path := [name] + deeper;
      assert path[1..] == deeper;
      TroubleStep(At(kid, deeper), path, root, before, output, depth);
      assert Reaches(dir, path) && At(dir, path) == At(kid, deeper);
    }
  }

  lemma {:induction false} NodeFailsIff(node: Node, root: string, sub: string, name: string, output: string, depth: nat)
    requires depth <= 64
    ensures NodeFails(node, root, sub, name, output, depth)
       <==> TroubleVia(node, name, root, Prefix(sub), output, depth)
    decreases node, 1
  {
    TroubleOne(Some(node), [name], root, Prefix(sub), output, depth);
    if Visible(name) && node.Dir? && !BadName(root, sub, name) && depth < 64 {
      Deeper(sub, name);
      DirFailsIff(node, root, Rel(sub, name), output, depth + 1);
    }
  }

  /** A directory whose own path fits makes every walk fail exactly when it cannot be listed or holds trouble. */
  lemma {:induction false} DirFailsIff(dir: Node, root: string, sub: string, output: string, depth: nat)
    requires depth <= 64 && |Abs(root, sub)| < 4096
    ensures DirFails(dir, root, sub, output, depth)
       <==> !dir.Dir? || !dir.listed || TroubleBelow(dir, root, Prefix(sub), output, depth)
    decreases dir, 0
  {
    if dir.Dir? {
      forall name | name in dir.kids
        ensures NodeFails(dir.kids[name], root, sub, name, output, depth)
           <==> TroubleVia(dir.kids[name], name, root, Prefix(sub), output, depth)
      {
        NodeFailsIff(dir.kids[name], root, sub, name, output, depth);
      }
      TroubleBelowIff(dir, root, Prefix(sub), output, depth);
    }
  }

  /** A tree cannot be bundled exactly when its root cannot be listed or somewhere in it there is trouble. */
  lemma FailsIff(dir: Node, root: string, output: string)
    ensures DirFails(dir, root, "", output, 0)
       <==> |root| >= 4096 || !dir.Dir? || !dir.listed || TroubleBelow(dir, root, "", output, 0)
  {
    if |root| < 4096 {
      DirFailsIff(dir, root, "", output, 0);
    }
  }

  // ------------------------------------------------------------- the text of a bundle

  /** A bundle begins with a line that names its cap, and every further source adds its bytes between its markers. */
  lemma BundleGrows(kb: int, items: seq<Entry>, i: nat)
    requires i <= |items|
    ensures BundleText(kb, items, 0) == "# zpmod bundle-build max-kb:" + PrintInt(kb) + "\n"
    ensures i < |items| ==>
              var rel := items[i].rel;
              BundleText(kb, items, i + 1)
              == BundleText(kb, items, i) + ("# BEGIN " + rel + "\n" + items[i].content + "\n# END " + rel + "\n")
  {
    NoFrames(Header(kb), Frames(items[..0]));
    if i < |items| {
      assert items[..i + 1][..i] == items[..i];
      Assoc(Header(kb), Frames(items[..i]), Frame(items[i]));
    }
  }

  lemma NoFrames(h: string, none: string)
    requires none == ""
    ensures h + none == h
  {
  }

  /** Bundles of different caps differ in their first line. */
  lemma HeaderIff(a: int, b: int, rest: string)
    ensures Header(a) <= Header(b) + rest <==> a == b
  {
    HeaderParts(a, b, rest);
    LineBegins(PrintInt(a), PrintInt(b), rest);
    if PrintInt(a) == PrintInt(b) {
      PrintIntInjective(a, b);
    }
  }

  lemma HeaderParts(a: int, b: int, rest: string)
    ensures Header(a) <= Header(b) + rest <==> PrintInt(a) + "\n" <= PrintInt(b) + "\n" + rest
  {
    var title := "# zpmod bundle-build max-kb:";
    Assoc(title, PrintInt(a), "\n");
    Assoc(title, PrintInt(b), "\n");
    Assoc(title, PrintInt(b) + "\n", rest);
    BothBegin(title, PrintInt(a) + "\n", PrintInt(b) + "\n" + rest);
  }

  lemma BothBegin(t: string, x: string, y: string)
    ensures t + x <= t + y <==> x <= y
  {
    if t + x <= t + y {
      assert (t + y)[|t|..] == y && (t + x)[|t|..] == x;
      assert (t + y)[..|t + x|] == t + x;
      assert y[..|x|] == (t + y)[|t|..|t + x|];
    }
    if x <= y {
      assert y == x + y[|x|..];
      assert t + y == t + x + y[|x|..];
    }
  }

  lemma LineBegins(x: string, y: string, rest: string)
    requires '\n' !in x && '\n' !in y
    ensures x + "\n" <= y + "\n" + rest <==> x == y
  {
    if x + "\n" <= y + "\n" + rest {
      var s := y + "\n" + rest;
      assert s[..|x|] == x && s[|x|] == '\n';
      IndexOfUnique(s, '\n', |x|);
      assert s[..|y|] == y;
      IndexOfUnique(s, '\n', |y|);
    }
    if x == y {
      assert x + "\n" <= x + "\n" + rest;
    }
  }

  // ------------------------------------------------------------- the cap in bytes

  function Contents(es: seq<Entry>): string {
    if es == [] then "" else Contents(es[..|es| - 1]) + es[|es| - 1].content
  }

  lemma {:induction false} TotalIsBytes(es: seq<Entry>)
    requires forall i :: 0 <= i < |es| ==> |es[i].content| == es[i].size as int
    ensures TotalSize(es) == |Contents(es)|
  {
    if es != [] {
      TotalIsBytes(es[..|es| - 1]);
    }
  }

  /** The cap counts bytes of the sources, 1024 to a unit: the files that are taken fit, and one more would not. */
  lemma CapInBytes(items: seq<Entry>, k: nat, kb: nat)
    requires IsCapped(k, items, kb * 1024)
    requires forall i :: 0 <= i < |items| ==> |items[i].content| == items[i].size as int
    ensures k <= |items| && (kb > 0 ==> |Contents(items[..k])| <= 1024 * kb)
    ensures k < |items| ==> kb > 0 && |Contents(items[..k + 1])| > 1024 * kb
  {
    TotalIsBytes(items[..k]);
    if k < |items| {
      TotalIsBytes(items[..k + 1]);
    }
  }
  // ------------------------------------------------------------- what a build promises

  /** At every moment of an atomic run the output is there as it was, or complete, and every file but it and the
      temporary one is as it was. */
  lemma AtomicMeans(history: seq<map<string, string>>, n: nat, before: map<string, string>, output: string,
                    temp: string, complete: string -> bool, i: nat)
    requires Atomic(history, n, before, output, temp, complete) && n <= i < |history| && temp != output
    ensures output in before ==> output in history[i]
    ensures output in history[i] ==>
              (output in before && history[i][output] == before[output]) || complete(history[i][output])
    ensures forall f :: f != temp && f != output ==>
              (f in history[i] <==> f in before) && (f in before ==> history[i][f] == before[f])
  {
    var state := history[i];
    assert AtomicState(state, before, output, temp, complete);
    forall f | f != temp && f != output
      ensures (f in state <==> f in before) && (f in before ==> state[f] == before[f])
    {
      assert f in state - {temp} <==> f in state;
      assert f in before - {temp} <==> f in before;
      assert f in state - {temp, output} <==> f in state;
      assert f in before - {temp, output} <==> f in before;
    }
    assert output in state - {temp} <==> output in state;
    assert output in before - {temp} <==> output in before;
  }

  /** A request that nothing stands in the way of: both directories resolve, the output has a proper name and is a
      file or absent, the names fit, the tree can be walked, and every file delivers its size within 64 bits. */
  lemma CanBuildIf(fromDir: string, outPath: string, maxKb: int64, place: Place, dir: Node)
    requires fromDir != "" && outPath != "" && 0 <= maxKb as int <= 0xFFFF_FFFF_FFFF_FFFF / 1024
    requires place.root.Some? && place.parent.Some? && (place.existing.Absent? || place.existing.File?)
    requires var base := BaseName(outPath); base != "" && base != "." && base != ".." && |place.suffix| == 6
    requires |place.parent.value + "/" + BaseName(outPath) + ".tmp." + place.suffix| < 4096 && |place.root.value| < 4096
    requires dir.Dir? && dir.listed
    requires !TroubleBelow(dir, place.root.value, "", place.parent.value + "/" + BaseName(outPath), 0)
    requires forall items: seq<Entry> ::
               SortedSources(items, dir, place.root.value, place.parent.value + "/" + BaseName(outPath)) ==>
               (forall e :: e in items ==> |e.content| == e.size as int) && |Contents(items)| < 0x1_0000_0000_0000_0000
    ensures CanBuild(fromDir, outPath, maxKb, place, dir)
  {
    var output := place.parent.value + "/" + BaseName(outPath);
    FailsIff(dir, place.root.value, output);
    forall items: seq<Entry> | SortedSources(items, dir, place.root.value, output)
      ensures Sound(items)
    {
      forall i | 0 <= i < |items|
        ensures |items[i].content| == items[i].size as int
      {
        assert items[i] in items;
      }
      TotalIsBytes(items);
    }
  }
}
