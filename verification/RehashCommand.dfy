/** src/core/rehash_diff.c, zp_rehash_diff_core: the command and the lists it prints. */
module RehashCommand {
  import opened Text
  import opened Order
  import opened LineFile
  import opened RehashSnapshot
  import opened RehashDiff

  // ------------------------------------------------------------- the printed lists

  /** The directories after "+ dirs:", "- dirs:" and "* dirs:"; a list is printed when its counter is not zero. */
  datatype Lists = Lists(added: seq<string>, removed: seq<string>, changed: seq<string>)

  /** The current directories, found or not, that the snapshot does not know. */
  function Unknown(now: seq<string>, prev: seq<Entry>): seq<string> {
    if now == [] then []
    else
      var p := now[|now| - 1];
      Unknown(now[..|now| - 1], prev) + if First(prev, p) == |prev| then [p] else []
  }

  /** The first n directories of the snapshot, without the marked ones. */
  function WithoutMark(prev: seq<Entry>, n: nat, marked: set<nat>): seq<string>
    requires n <= |prev|
  {
    if n == 0 then [] else WithoutMark(prev, n - 1, marked) + if n - 1 in marked then [] else [prev[n - 1].path]
  }

  /** What the loop over the current directories has stored: nothing but zeros when stat fails. */
  function IdNow(p: string, w: World): Id { if p in w then w[p] else Id(0, 0) }

  predicate Differs(path: string, id: Id, prev: seq<Entry>) {
    exists j :: 0 <= j < |prev| && prev[j].path == path && prev[j].id != id
  }

  function Differing(now: seq<string>, w: World, prev: seq<Entry>): seq<string> {
    if now == [] then []
    else
      var p := now[|now| - 1];
      Differing(now[..|now| - 1], w, prev) + if Differs(p, IdNow(p, w), prev) then [p] else []
  }

  function Printed(r: Report, now: seq<string>, w: World, prev: seq<Entry>, marked: set<nat>): Lists {
    Lists(if r.added > 0 then Unknown(now, prev) else [],
          if r.removed > 0 then WithoutMark(prev, |prev|, marked) else [],
          if r.changed > 0 then Differing(now, w, prev) else [])
  }

  function ListsOf(now: seq<string>, w: World, prev: seq<Entry>): Lists {
    Printed(Diff(now, w, prev), now, w, prev, Marked(Found(now, w), prev))
  }

  /** The list of removed directories is as long as its counter says. */
  lemma {:induction false} RemovedListCount(prev: seq<Entry>, n: nat, marked: set<nat>)
    requires n <= |prev|
    ensures |WithoutMark(prev, n, marked)| == Unmarked(n, marked)
  {
    if n > 0 {
      RemovedListCount(prev, n - 1, marked);
    }
  }

  /** No directory that stat does not find is new. */
  ghost predicate MissingAreKnown(now: seq<string>, w: World, prev: seq<Entry>) {
    forall p :: p in now && p !in w ==> First(prev, p) < |prev|
  }

  lemma FoundSnoc(init: seq<string>, p: string, w: World, prev: seq<Entry>)
    ensures var before, after := Tallied(Found(init, w), prev, w), Tallied(Found(init + [p], w), prev, w);
            after == if p in w then Count(before, prev, p, w[p]) else before
    ensures Unknown(init + [p], prev) == Unknown(init, prev) + if First(prev, p) == |prev| then [p] else []
    ensures Differing(init + [p], w, prev)
         == Differing(init, w, prev) + if Differs(p, IdNow(p, w), prev) then [p] else []
  {
    var now := init + [p];
    assert now[..|init|] == init && now[..|init| + 1] == now;
    FoundStep(now, |init|, w, prev);
  }

  lemma MissingSnoc(init: seq<string>, p: string, w: World, prev: seq<Entry>)
    ensures MissingAreKnown(init + [p], w, prev)
       <==> MissingAreKnown(init, w, prev) && (p !in w ==> First(prev, p) < |prev|)
  {
    assert forall q :: q in init + [p] <==> q in init || q == p;
  }

  lemma AddedOne(p: string, w: World, prev: seq<Entry>, t: Tally)
    ensures var u := if p in w then Count(t, prev, p, w[p]) else t;
            u.added == t.added + if p in w && First(prev, p) == |prev| then 1 else 0
  {
  }

  /** The list of added directories is as long as its counter says exactly when no unknown directory is
      missing; otherwise it is longer. */
  lemma {:induction false} AddedListIff(now: seq<string>, w: World, prev: seq<Entry>)
    ensures var t := Tallied(Found(now, w), prev, w);
            && t.added <= |Unknown(now, prev)|
            && (t.added == |Unknown(now, prev)| <==> MissingAreKnown(now, w, prev))
  {
    if now != [] {
      var init, p := now[..|now| - 1], now[|now| - 1];
      assert now == init + [p];
      AddedListIff(init, w, prev);
      FoundSnoc(init, p, w, prev);
      MissingSnoc(init, p, w, prev);
      AddedOne(p, w, prev, Tallied(Found(init, w), prev, w));
    }
  }

  /** A directory that is listed as changed without being counted: it is missing, or its first entry agrees. */
  predicate OnlyListed(p: string, w: World, prev: seq<Entry>) {
    Differs(p, IdNow(p, w), prev) && (p in w && First(prev, p) < |prev| ==> prev[First(prev, p)].id == w[p])
  }

  ghost predicate NoneOnlyListed(now: seq<string>, w: World, prev: seq<Entry>) {
    forall p :: p in now ==> !OnlyListed(p, w, prev)
  }

  /** What one directory adds to the list and to the counter. */
  lemma ChangedOne(p: string, w: World, prev: seq<Entry>, t: Tally)
    ensures var listed, u := Differs(p, IdNow(p, w), prev), if p in w then Count(t, prev, p, w[p]) else t;
            && (OnlyListed(p, w, prev) ==> listed && u.changed == t.changed)
            && (!OnlyListed(p, w, prev) ==> u.changed == t.changed + if listed then 1 else 0)
  {
    var j := First(prev, p);
    assert p in w && j < |prev| && prev[j].id != w[p] ==> Differs(p, w[p], prev);
  }

  /** The list of changed directories is as long as its counter says exactly when none is only listed; otherwise
      it is longer. */
  lemma {:induction false} ChangedListIff(now: seq<string>, w: World, prev: seq<Entry>)
    ensures var t := Tallied(Found(now, w), prev, w);
            && t.changed <= |Differing(now, w, prev)|
            && (t.changed == |Differing(now, w, prev)| <==> NoneOnlyListed(now, w, prev))
  {
    if now != [] {
      var init, p := now[..|now| - 1], now[|now| - 1];
      assert now == init + [p];
      ChangedListIff(init, w, prev);
      FoundSnoc(init, p, w, prev);
      ChangedOne(p, w, prev, Tallied(Found(init, w), prev, w));
      assert NoneOnlyListed(now, w, prev) <==> NoneOnlyListed(init, w, prev) && !OnlyListed(p, w, prev);
    }
  }

  lemma FoundSecond(a: string, b: string, w: World, prev: seq<Entry>)
    requires a !in w && b in w
    ensures Found([a, b], w) == [b] && Tallied([b], prev, w) == Count(Tally(0, 0, 0), prev, b, w[b])
  {
    FoundOfTwo(a, b, w);
    assert [b][..0] == [];
  }

  /** An instance: of two directories the first is missing. When the snapshot is empty, the list of added ones is
      longer than its counter. */
  lemma MissingListedAsAdded(a: string, b: string, w: World)
    requires a !in w && b in w
    ensures Diff([a, b], w, []).added == 1 < |ListsOf([a, b], w, []).added|
  {
    FoundSecond(a, b, w, []);
    AddedListIff([a, b], w, []);
    assert a in [a, b] && First([], a) == 0;
  }

  /** When the snapshot knows both, the list of changed ones is longer. */
  lemma MissingListedAsChanged(a: Entry, b: Entry, w: World)
    requires a.path != b.path && a.path !in w && b.path in w && a.id != Id(0, 0) && b.id != w[b.path]
    ensures Diff([a.path, b.path], w, [a, b]).changed == 1 < |ListsOf([a.path, b.path], w, [a, b]).changed|
  {
    var now, prev := [a.path, b.path], [a, b];
    FoundSecond(a.path, b.path, w, prev);
    FirstUnique(prev, b.path, 1);
    ChangedListIff(now, w, prev);
    assert OnlyListed(a.path, w, prev) by {
      assert prev[0] == a;
    }
    assert now[0] in now;
  }

  // ------------------------------------------------------------- what the lists are

  /** The added list takes the current directories one by one. */
  lemma {:induction false} UnknownAppend(a: seq<string>, b: seq<string>, prev: seq<Entry>)
    ensures Unknown(a + b, prev) == Unknown(a, prev) + Unknown(b, prev)
  {
    if b == [] {
      assert a + b == a;
    } else {
      var front, last := b[..|b| - 1], b[|b| - 1];
      LastOfBoth(a, b);
      UnknownAppend(a, front, prev);
      Assoc(Unknown(a, prev), Unknown(front, prev), if First(prev, last) == |prev| then [last] else []);
    }
  }

  /** It has those, existing or not, that the snapshot has no entry of. */
  lemma UnknownOne(p: string, prev: seq<Entry>)
    ensures Unknown([p], prev) == if exists j :: 0 <= j < |prev| && prev[j].path == p then [] else [p]
  {
    assert [p][..0] == [];
  }

  /** The changed list takes the current directories one by one. */
  lemma {:induction false} DifferingAppend(a: seq<string>, b: seq<string>, w: World, prev: seq<Entry>)
    ensures Differing(a + b, w, prev) == Differing(a, w, prev) + Differing(b, w, prev)
  {
    if b == [] {
      assert a + b == a;
    } else {
      var front, last := b[..|b| - 1], b[|b| - 1];
      LastOfBoth(a, b);
      DifferingAppend(a, front, w, prev);
      Assoc(Differing(a, w, prev), Differing(front, w, prev),
            if Differs(last, IdNow(last, w), prev) then [last] else []);
    }
  }

  /** It has those with an entry that has other numbers than stat gives now, or other than zeros when stat does not
      find them. */
  lemma DifferingOne(p: string, w: World, prev: seq<Entry>)
    ensures Differing([p], w, prev)
         == if exists e :: e in prev && e.path == p && e.id != (if p in w then w[p] else Id(0, 0)) then [p] else []
  {
    assert [p][..0] == [];
    DiffersIff(p, w, prev);
  }

  lemma DiffersIff(p: string, w: World, prev: seq<Entry>)
    ensures Differs(p, IdNow(p, w), prev)
       <==> exists e :: e in prev && e.path == p && e.id != if p in w then w[p] else Id(0, 0)
  {
    if j :| 0 <= j < |prev| && prev[j].path == p && prev[j].id != IdNow(p, w) {
      assert prev[j] in prev;
    }
  }

  /** Marks: the first entry of every directory that is found now, and no other entry. */
  lemma {:induction false} MarkedAre(found: seq<string>, prev: seq<Entry>, j: nat)
    requires j < |prev|
    ensures j in Marked(found, prev)
       <==> prev[j].path in found && forall i :: 0 <= i < j ==> prev[i].path != prev[j].path
  {
    if found != [] {
      var front, last := found[..|found| - 1], found[|found| - 1];
      MarkedAre(front, prev, j);
      assert found == front + [last];
      if prev[j].path == last && forall i :: 0 <= i < j ==> prev[i].path != prev[j].path {
        FirstUnique(prev, last, j);
      }
    }
  }

  /** The removed list: the entries whose directory is not found now, and second entries, in their order. */
  lemma {:induction false} RemovedAre(prev: seq<Entry>, n: nat, found: seq<string>)
    requires n < |prev|
    ensures WithoutMark(prev, 0, Marked(found, prev)) == []
    ensures var gone := prev[n].path !in found || exists i :: 0 <= i < n && prev[i].path == prev[n].path;
            WithoutMark(prev, n + 1, Marked(found, prev))
            == WithoutMark(prev, n, Marked(found, prev)) + if gone then [prev[n].path] else []
  {
    MarkedAre(found, prev, n);
  }

  /** A list is printed exactly when its counter is not zero. */
  lemma ListsPrinted(now: seq<string>, w: World, prev: seq<Entry>)
    ensures var r, lists := Diff(now, w, prev), ListsOf(now, w, prev);
            && lists.added == (if r.added == 0 then [] else Unknown(now, prev))
            && lists.changed == (if r.changed == 0 then [] else Differing(now, w, prev))
            && lists.removed == WithoutMark(prev, |prev|, Marked(Found(now, w), prev))
  {
    RemovedListCount(prev, |prev|, Marked(Found(now, w), prev));
  }

  // ------------------------------------------------------------- the command

  /** struct rh_entry: an entry and its mark. */
  datatype Slot = Slot(entry: Entry, presentNow: bool)

  function Slots(prev: seq<Entry>, marked: set<nat>): seq<Slot> {
    seq(|prev|, j requires 0 <= j < |prev| => Slot(prev[j], j in marked))
  }

  class Shell {
    /** The snapshot file. */
    var snapshot: Option<string>

    constructor (file: Option<string>)
      ensures snapshot == file
    {
      snapshot := file;
    }

    /** The search for one current directory; a match is marked. */
    method Lookup(slots: seq<Slot>, path: string, id: Id, t: Tally, ghost prev: seq<Entry>, ghost marked: set<nat>)
        returns (slots': seq<Slot>, t': Tally)
      requires slots == Slots(prev, marked)
      ensures slots' == Slots(prev, marked + if First(prev, path) < |prev| then {First(prev, path)} else {})
      ensures t' == Count(t, prev, path, id)
    {
      slots' := slots;
      for j := 0 to |slots|
        invariant slots' == slots && forall k :: 0 <= k < j ==> prev[k].path != path
      {
        if slots[j].entry.path == path {
          FirstUnique(prev, path, j);
          slots' := slots[j := slots[j].(presentNow := true)];
          if slots[j].entry.id != id {
            t' := t.(changed := t.changed + 1);
          } else {
            t' := t.(same := t.same + 1);
          }
          return;
        }
      }
      FirstUnique(prev, path, |prev|);
      t' := t.(added := t.added + 1);
    }

    /** The loop over the current directories. */
    method Compare(paths: seq<string>, w: World, prev: seq<Entry>) returns (slots: seq<Slot>, t: Tally)
      ensures slots == Slots(prev, Marked(Found(paths, w), prev))
      ensures t == Tallied(Found(paths, w), prev, w)
    {
      slots, t := Slots(prev, {}), Tally(0, 0, 0);
      for i := 0 to |paths|
        invariant slots == Slots(prev, Marked(Found(paths[..i], w), prev))
        invariant t == Tallied(Found(paths[..i], w), prev, w)
      {
        FoundStep(paths, i, w, prev);
        if paths[i] !in w {
          continue;
        }
        slots, t := Lookup(slots, paths[i], w[paths[i]], t, prev, Marked(Found(paths[..i], w), prev));
      }
      assert paths[..|paths|] == paths;
    }

    /** rh_write: every directory that stat finds. */
    method Write(paths: seq<string>, w: World) returns (text: string)
      ensures text == FileText(Entries(Found(paths, w), w))
    {
      text := VERSION + "\n" + "";
      ghost var es: seq<Entry> := [];
      for i := 0 to |paths|
        invariant es == Entries(Found(paths[..i], w), w) && text == FileText(es)
      {
        FoundStep(paths, i, w, []);
        if paths[i] !in w {
          continue;
        }
        var e := Entry(paths[i], w[paths[i]]);
        EntriesSnoc(Found(paths[..i], w), paths[i], w);
        FileSnoc(VERSION, Body, es, e);
        text, es := text + Line(e), es + [e];
      }
      assert paths[..|paths|] == paths;
    }

    /** rh_collect_current: empty elements do not count. */
    method Collect(path: seq<string>) returns (paths: seq<string>)
      ensures paths == NonEmpty(path)
    {
      paths := [];
      for i := 0 to |path|
        invariant paths == NonEmpty(path[..i])
      {
        assert path[..i + 1][..i] == path[..i];
        if path[i] != "" {
          paths := paths + [path[i]];
        }
      }
      assert path[..|path|] == path;
    }

    /** zp_rehash_diff_core: the report and the printed lists, and the snapshot for the next run when its file
        opens. */
    method RehashDiffCore(path: seq<string>, w: World, opens: bool) returns (ret: int, report: Report, lists: Lists)
      modifies this
      ensures report == Diff(NonEmpty(path), w, Previous(old(snapshot)))
      ensures lists == ListsOf(NonEmpty(path), w, Previous(old(snapshot)))
      ensures ret == if opens then 0 else 1
      ensures opens ==> snapshot == Some(FileText(Entries(Found(NonEmpty(path), w), w)))
      ensures !opens ==> snapshot == old(snapshot)
    {
      ret := 0;
      var havePrev, prev := LoadSnapshot(snapshot);
      var now := Collect(path);
      ghost var marked := Marked(Found(now, w), prev);
      var slots, t := Compare(now, w, prev);
      var removed := 0;
      if havePrev {
        removed := CountRemoved(slots, prev, marked);
      }
      var text := Write(now, w);
      if opens {
        snapshot := Some(text);
      } else {
        ret := 1;
      }
      report := Report(t.added, removed, t.changed, t.same);
      lists := PrintLists(report, now, w, prev, havePrev, slots, marked);
    }

    /** Lines 305 to 356: each list only when its counter is not zero. */
    method PrintLists(report: Report, now: seq<string>, w: World, prev: seq<Entry>, havePrev: bool, slots: seq<Slot>,
                      ghost marked: set<nat>)
      returns (lists: Lists)
      requires slots == Slots(prev, marked) && (!havePrev ==> prev == [])
      ensures lists == Printed(report, now, w, prev, marked)
    {
      var added, removed, changed: seq<string> := [], [], [];
      if report.added > 0 {
        added := ListAdded(now, prev, havePrev);
      }
      if report.removed > 0 {
        removed := ListRemoved(slots, prev, marked);
      }
      if report.changed > 0 {
        changed := ListChanged(now, w, prev);
      }
      lists := Lists(added, removed, changed);
    }

    /** Lines 307 to 326. */
    method ListAdded(now: seq<string>, prev: seq<Entry>, havePrev: bool) returns (dirs: seq<string>)
      requires !havePrev ==> prev == []
      ensures dirs == Unknown(now, prev)
    {
      dirs := [];
      for i := 0 to |now|
        invariant dirs == Unknown(now[..i], prev)
      {
        assert now[..i + 1][..i] == now[..i];
        var f := true;
        if havePrev {
          f := IsUnknown(now[i], prev);
        }
        if f {
          dirs := dirs + [now[i]];
        }
      }
      assert now[..|now|] == now;
    }

    method IsUnknown(path: string, prev: seq<Entry>) returns (unknown: bool)
      ensures unknown <==> First(prev, path) == |prev|
    {
      for j := 0 to |prev|
        invariant forall k :: 0 <= k < j ==> prev[k].path != path
      {
        if prev[j].path == path {
          return false;
        }
      }
      return true;
    }

    /** Lines 331 to 338. */
    method ListRemoved(slots: seq<Slot>, ghost prev: seq<Entry>, ghost marked: set<nat>) returns (dirs: seq<string>)
      requires slots == Slots(prev, marked)
      ensures dirs == WithoutMark(prev, |prev|, marked)
    {
      dirs := [];
      for j := 0 to |slots|
        invariant dirs == WithoutMark(prev, j, marked)
      {
        if !slots[j].presentNow {
          dirs := dirs + [slots[j].entry.path];
        }
      }
    }

    /** Lines 343 to 354. */
    method ListChanged(now: seq<string>, w: World, prev: seq<Entry>) returns (dirs: seq<string>)
      ensures dirs == Differing(now, w, prev)
    {
      dirs := [];
      for i := 0 to |now|
        invariant dirs == Differing(now[..i], w, prev)
      {
        assert now[..i + 1][..i] == now[..i];
        var differs := HasDiffering(now[i], IdNow(now[i], w), prev);
        if differs {
          dirs := dirs + [now[i]];
        }
      }
      assert now[..|now|] == now;
    }

    method HasDiffering(path: string, id: Id, prev: seq<Entry>) returns (differs: bool)
      ensures differs <==> Differs(path, id, prev)
    {
      for j := 0 to |prev|
        invariant forall k :: 0 <= k < j ==> !(prev[k].path == path && prev[k].id != id)
      {
        if prev[j].path == path && prev[j].id != id {
          return true;
        }
      }
      return false;
    }

    method CountRemoved(slots: seq<Slot>, ghost prev: seq<Entry>, ghost marked: set<nat>) returns (removed: nat)
      requires slots == Slots(prev, marked)
      ensures removed == Unmarked(|prev|, marked)
    {
      removed := 0;
      for j := 0 to |slots|
        invariant removed == Unmarked(j, marked)
      {
        if !slots[j].presentNow {
          removed := removed + 1;
        }
      }
    }
  }
  // ------------------------------------------------------------- two runs

  /** Two runs while nothing changes: the second reports everything as unchanged, and removed ones exactly when a
      directory is on the path twice. */
  method RunAtRest(shell: Shell, path: seq<string>, w: World) returns (first: Report, second: Report)
    requires AllStorable(NonEmpty(path), w)
    modifies shell
    ensures second.added == 0 && second.changed == 0 && second.same == |Found(NonEmpty(path), w)|
    ensures second.removed == 0 <==> Distinct(Found(NonEmpty(path), w))
    ensures old(shell.snapshot).None? ==> first == Report(second.same, 0, 0, 0)
  {
    var ret, lists;
    ret, first, lists := shell.RehashDiffCore(path, w, true);
    FirstRun(NonEmpty(path), w);
    SecondRun(NonEmpty(path), w);
    PreviousIs(NonEmpty(path), w);
    ret, second, lists := shell.RehashDiffCore(path, w, true);
  }

  /** Without a snapshot every directory that is found is added. */
  lemma FirstRun(paths: seq<string>, w: World)
    ensures Diff(paths, w, []) == Report(|Found(paths, w)|, 0, 0, 0)
  {
    AllAdded(Found(paths, w), w);
  }

  lemma {:induction false} AllAdded(found: seq<string>, w: World)
    requires forall p :: p in found ==> p in w
    ensures Tallied(found, [], w) == Tally(|found|, 0, 0)
  {
    if found != [] {
      AllAdded(found[..|found| - 1], w);
    }
  }

  /** The directories of a path that stat finds. */
  function Present(path: seq<string>, w: World): set<string> { set p | p in path && p != "" && p in w }

  lemma PresentIs(path: seq<string>, w: World)
    ensures Members(Found(NonEmpty(path), w)) == Present(path, w)
  {
    forall p
      ensures p in Members(Found(NonEmpty(path), w)) <==> p in Present(path, w)
    {
      NonEmptyIff(path, p);
    }
  }

  /** Two runs over a path and a file system that change in between: with distinct directories, the second reports the
      sizes of the differences between what there was and what there is. */
  method RunTwice(shell: Shell, path1: seq<string>, w1: World, path2: seq<string>, w2: World) returns (report: Report)
    requires AllStorable(NonEmpty(path1), w1)
    requires Distinct(Found(NonEmpty(path1), w1)) && Distinct(Found(NonEmpty(path2), w2))
    modifies shell
    ensures var s1, s2 := Present(path1, w1), Present(path2, w2);
            && report.added == |s2 - s1| && report.removed == |s1 - s2|
            && report.changed == |set p | p in s1 * s2 && w1[p] != w2[p]|
            && report.same == |set p | p in s1 * s2 && w1[p] == w2[p]|
  {
    var ret, lists;
    ret, report, lists := shell.RehashDiffCore(path1, w1, true);
    PreviousIs(NonEmpty(path1), w1);
    PresentIs(path1, w1);
    PresentIs(path2, w2);
    DiffOfRuns(NonEmpty(path1), w1, NonEmpty(path2), w2, Present(path1, w1), Present(path2, w2));
    ChangedOrSame(Present(path1, w1), w1, Present(path2, w2), w2);
    ret, report, lists := shell.RehashDiffCore(path2, w2, true);
  }

  lemma ChangedOrSame(s1: set<string>, w1: World, s2: set<string>, w2: World)
    requires s1 <= w1.Keys && s2 <= w2.Keys
    ensures var changed := set p | p in s1 * s2 && w1[p] != w2[p];
            var same := set p | p in s1 * s2 && w1[p] == w2[p];
            changed == Altered(s1, w1, s2, w2) && |changed| + |same| == |s1 * s2|
  {
    var changed := set p | p in s1 * s2 && w1[p] != w2[p];
    var same := set p | p in s1 * s2 && w1[p] == w2[p];
    assert changed + same == s1 * s2 && changed * same == {};
  }
}
