/** src/core/compaudit_cache.c: reuse, patch or rebuild of the verdict cache. */
module CompauditCache {
  import opened Text
  import opened Order
  import opened TabFields
  import opened LineFile
  import opened Audit
  import opened CacheFormat
  import opened CacheRoundTrip

  function Bit(b: bool): int { if b then 1 else 0 }

  /** The entry a fresh audit of this path gives. */
  function AuditEntry(path: string, w: World): CacheEntry
    requires path in w.stats
  {
    var st := w.stats[path];
    CacheEntry(path, Bit(Insecure(path, w)), st.mode, st.uid, st.gid, st.mtime, st.ctime,
               Bit(AncestorInsecure(path, w)), Bit(ZwcInsecure(path, w)))
  }

  /** A fresh audit of the paths that exist, in order. */
  function AuditAll(paths: seq<string>, w: World): seq<CacheEntry> {
    if paths == [] then []
    else
      var p := paths[|paths| - 1];
      AuditAll(paths[..|paths| - 1], w) + if p in w.stats then [AuditEntry(p, w)] else []
  }

  function RebuildText(paths: seq<string>, w: World): string {
    FileText(AuditAll(paths, w))
  }

  function CountInsecure(es: seq<CacheEntry>): nat {
    if es == [] then 0 else CountInsecure(es[..|es| - 1]) + if es[|es| - 1].verdict != 0 then 1 else 0
  }

  /** What validation accepts: every entry is what a fresh audit gives, but for the ancestor flag. */
  predicate Accepts(es: seq<CacheEntry>, w: World) {
    forall i :: 0 <= i < |es| ==>
      es[i].path in w.stats
      && es[i] == AuditEntry(es[i].path, w).(parentInsecure := es[i].parentInsecure)
  }

  /** zp_cc_validate_cache. */
  method Validate(a: Auditor, es: seq<CacheEntry>) returns (invalid: bool)
    requires a.Valid()
    modifies a
    ensures a.Valid() && invalid == !Accepts(es, a.world)
  {
    for i := 0 to |es|
      invariant a.Valid() && Accepts(es[..i], a.world)
    {
      var e := es[i];
      AcceptsStep(es, i, a.world);
      if e.path !in a.world.stats {
        return true;
      }
      var st := a.world.stats[e.path];
      if e.uid != st.uid || e.gid != st.gid {
        return true;
      }
      if e.mode != st.mode {
        return true;
      }
      if e.ctime != st.ctime || e.mtime != st.mtime {
        return true;
      }
      var v, parent, zwc := a.AuditPath(e.path);
      if Bit(zwc) != e.zwcInsecure {
        return true;
      }
      if Bit(v) != e.verdict {
        return true;
      }
    }
    assert es[..|es|] == es;
    return false;
  }

  lemma AcceptsStep(es: seq<CacheEntry>, i: nat, w: World)
    requires i < |es|
    ensures Accepts(es, w) ==> Accepts(es[i..i + 1], w)
    ensures Accepts(es[..i + 1], w) <==> Accepts(es[..i], w) && Accepts(es[i..i + 1], w)
  {
    assert es[i..i + 1] == [es[i]];
    if Accepts(es[..i + 1], w) {
      assert es[..i + 1][i] == es[i];
      forall j | 0 <= j < i
        ensures es[..i][j].path in w.stats
        ensures es[..i][j] == AuditEntry(es[..i][j].path, w).(parentInsecure := es[..i][j].parentInsecure)
      {
        assert es[..i + 1][j] == es[..i][j];
      }
    }
  }

  /** An accepted cache holds, for each of its paths, the verdict a rebuild would write now. */
  lemma {:induction false} AcceptedVerdicts(es: seq<CacheEntry>, w: World)
    requires Accepts(es, w)
    ensures var again := AuditAll(Paths(es), w);
            |again| == |es| && forall i :: 0 <= i < |es| ==> es[i] == again[i].(parentInsecure := es[i].parentInsecure)
  {
    if es != [] {
      var front := es[..|es| - 1];
      assert Paths(es)[..|es| - 1] == Paths(front);
      assert Accepts(front, w);
      AcceptedVerdicts(front, w);
    }
  }

  /** What every writer leaves in an entry: a flag, and the verdict that it and the stored fields give. */
  predicate Coherent(e: CacheEntry, w: World) {
    && 0 <= e.parentInsecure <= 1
    && e.verdict == Bit(OwnInsecure(Stat(e.mode, e.uid, e.gid, e.mtime, e.ctime), w) || e.parentInsecure == 1
                        || e.zwcInsecure == 1)
  }

  lemma AuditIsCoherent(path: string, w: World)
    requires path in w.stats
    ensures Coherent(AuditEntry(path, w), w)
  {
  }

  /** The same entry with the other ancestor flag. */
  function OtherFlag(e: CacheEntry): CacheEntry { e.(parentInsecure := 1 - e.parentInsecure) }

  /** With an insecure directory of its own or an insecure compiled file, the other flag is accepted too. */
  lemma OtherFlagIff(p: string, w: World)
    requires p in w.stats
    ensures var other := OtherFlag(AuditEntry(p, w));
            Accepts([other], w) && Coherent(other, w) <==> OwnInsecure(w.stats[p], w) || ZwcInsecure(p, w)
  {
    var other := OtherFlag(AuditEntry(p, w));
    assert Accepts([other], w) <==> other == AuditEntry(p, w).(parentInsecure := other.parentInsecure);
  }

  /** The ancestor flag is not part of validation. Every accepted entry of a directory has the current flag
      exactly when neither the directory itself nor a compiled file in it is insecure: only then does the
      verdict depend on the ancestors. */
  lemma FlagIsCurrentIff(p: string, w: World)
    requires p in w.stats
    ensures (forall e: CacheEntry :: e.path == p && Accepts([e], w) && Coherent(e, w) ==> e == AuditEntry(p, w))
       <==> !(OwnInsecure(w.stats[p], w) || ZwcInsecure(p, w))
  {
    OtherFlagIff(p, w);
    var other := OtherFlag(AuditEntry(p, w));
    forall e: CacheEntry | e.path == p && Accepts([e], w) && Coherent(e, w)
      ensures e == AuditEntry(p, w) || e == other
    {
      assert [e][0] == e;
    }
  }

  /** An instance: a directory open to everybody keeps an outdated flag after its parent is opened too. */
  lemma StaleAncestorFlag(w: World, e: CacheEntry)
    requires w == World(map["/a" := Stat(0x1ED, 0, 0, 1, 1), "/a/b" := Stat(0x1FF, 0, 0, 1, 1)],
                        map["/a/b" := Listing([], true)], None, 0)
    requires e == AuditEntry("/a/b", w)
    ensures var later := w.(stats := w.stats["/a" := Stat(0x1FF, 0, 0, 1, 1)]);
            Accepts([e], later) && e != AuditEntry("/a/b", later)
  {
    var p := "/a/b";
    var later := w.(stats := w.stats["/a" := Stat(0x1FF, 0, 0, 1, 1)]);
    assert p[..2] == "/a" && p[2] == '/' && InsecureAt(p, 2, later);
    assert p[1] == 'a' && p[3] == 'b';
    assert !InsecureAt(p, 2, w);
    OtherFlagIff(p, later);
    assert e == OtherFlag(AuditEntry(p, later));
  }

  function Paths(es: seq<CacheEntry>): (ps: seq<string>)
    ensures |ps| == |es| && forall i :: 0 <= i < |es| ==> ps[i] == es[i].path
  {
    seq(|es|, i requires 0 <= i < |es| => es[i].path)
  }

  // ------------------------------------------------------------- rebuilding

  /** zp_cc_collect_dirs. */
  method CollectDirs(fpath: seq<string>) returns (targets: seq<string>)
    ensures targets == NonEmpty(fpath)
  {
    targets := [];
    for i := 0 to |fpath|
      invariant targets == NonEmpty(fpath[..i])
    {
      assert fpath[..i + 1][..i] == fpath[..i];
      if fpath[i] == "" {
        continue;
      }
      targets := targets + [fpath[i]];
    }
    assert fpath[..|fpath|] == fpath;
  }

  /** The audit of one existing path, as both writers do it. */
  method AuditOne(a: Auditor, path: string) returns (e: CacheEntry)
    requires a.Valid() && path in a.world.stats
    modifies a
    ensures a.Valid() && e == AuditEntry(path, a.world)
  {
    var st := a.world.stats[path];
    var verdict, parent, zwc := a.AuditPath(path);
    e := CacheEntry(path, Bit(verdict), st.mode, st.uid, st.gid, st.mtime, st.ctime, Bit(parent), Bit(zwc));
  }

  /** One line of the file, and its count. */
  method WriteEntry(text: string, insecure: nat, secure: nat, e: CacheEntry, ghost done: seq<CacheEntry>)
    returns (text': string, insecure': nat, secure': nat)
    requires text == FileText(done) && insecure == CountInsecure(done) && insecure + secure == |done|
    ensures text' == FileText(done + [e]) && insecure' == CountInsecure(done + [e])
    ensures insecure' + secure' == |done + [e]|
  {
    AuditAllSnoc(done, e);
    text' := text + Line(e);
    insecure', secure' := insecure, secure;
    if e.verdict != 0 {
      insecure' := insecure' + 1;
    } else {
      secure' := secure' + 1;
    }
  }

  /** The loop of zp_cc_rebuild on the opened file. */
  method Rebuild(a: Auditor, targets: seq<string>) returns (text: string, insecure: nat, secure: nat)
    requires a.Valid()
    modifies a
    ensures a.Valid() && text == RebuildText(targets, a.world)
    ensures insecure == CountInsecure(AuditAll(targets, a.world))
    ensures insecure + secure == |AuditAll(targets, a.world)|
  {
    insecure, secure := 0, 0;
    text := VERSION + "\n" + "";
    ghost var done: seq<CacheEntry> := [];
    for i := 0 to |targets|
      invariant a.Valid() && done == AuditAll(targets[..i], a.world)
      invariant text == FileText(done) && insecure == CountInsecure(done) && insecure + secure == |done|
    {
      AuditAllStep(targets, i, a.world);
      if targets[i] !in a.world.stats {
        continue;
      }
      var e := AuditOne(a, targets[i]);
      text, insecure, secure := WriteEntry(text, insecure, secure, e, done);
      done := done + [e];
    }
    assert targets[..|targets|] == targets;
  }

  /** One more path: nothing when it does not exist, or its audit. */
  lemma AuditAllStep(paths: seq<string>, i: nat, w: World)
    requires i < |paths|
    ensures paths[i] !in w.stats ==> AuditAll(paths[..i + 1], w) == AuditAll(paths[..i], w)
    ensures paths[i] in w.stats ==> AuditAll(paths[..i + 1], w) == AuditAll(paths[..i], w) + [AuditEntry(paths[i], w)]
  {
    assert paths[..i + 1][..i] == paths[..i];
  }

  lemma AuditAllSnoc(es: seq<CacheEntry>, e: CacheEntry)
    ensures FileText(es + [e]) == FileText(es) + Line(e)
    ensures CountInsecure(es + [e]) == CountInsecure(es) + if e.verdict != 0 then 1 else 0
  {
    assert (es + [e])[..|es|] == es;
    FileSnoc(VERSION, Body, es, e);
  }

  // ------------------------------------------------------------- patching

  /** The old paths, then the nonempty `$fpath` entries that are not among them, each once. */
  function Merge(paths: seq<string>, fpath: seq<string>): seq<string> {
    if fpath == [] then paths
    else
      var sofar, p := Merge(paths, fpath[..|fpath| - 1]), fpath[|fpath| - 1];
      if p == "" || p in sofar then sofar else sofar + [p]
  }

  lemma {:induction false} MergeKeepsDistinct(paths: seq<string>, fpath: seq<string>)
    requires Distinct(paths)
    ensures Distinct(Merge(paths, fpath)) && paths <= Merge(paths, fpath)
    ensures forall p :: p in Merge(paths, fpath) <==> p in paths || (p in fpath && p != "")
  {
    if fpath != [] {
      MergeKeepsDistinct(paths, fpath[..|fpath| - 1]);
      assert fpath == fpath[..|fpath| - 1] + [fpath[|fpath| - 1]];
    }
  }

  /** struct zp_cc_vec. */
  class CcVec {
    var items: seq<CacheEntry>

    constructor (initial: seq<CacheEntry>)
      ensures items == initial
    {
      items := initial;
    }

    /** Lines 421 to 457 of zp_cc_incremental_update. */
    method AddMissing(fpath: seq<string>)
      modifies this
      ensures Paths(items) == Merge(Paths(old(items)), fpath)
    {
      for i := 0 to |fpath|
        invariant Paths(items) == Merge(Paths(old(items)), fpath[..i])
      {
        assert fpath[..i + 1][..i] == fpath[..i];
        if fpath[i] == "" {
          continue;
        }
        var found := Contains(fpath[i]);
        if !found {
          var e := CacheEntry(fpath[i], 0, 0, 0, 0, 0, 0, 0, 0);
          PathsSnoc(items, e);
          items := items + [e];
        }
      }
      assert fpath[..|fpath|] == fpath;
    }

    /** The strcmp scan. */
    method Contains(path: string) returns (found: bool)
      ensures found <==> path in Paths(items)
    {
      for i := 0 to |items|
        invariant path !in Paths(items)[..i]
      {
        if items[i].path == path {
          assert Paths(items)[i] == path;
          return true;
        }
        assert Paths(items)[..i + 1] == Paths(items)[..i] + [items[i].path];
      }
      assert Paths(items)[..|items|] == Paths(items);
      return false;
    }

    /** One entry: audited again and overwritten if its path still exists. */
    method AuditInPlace(a: Auditor, i: nat) returns (e: CacheEntry, found: bool)
      requires a.Valid() && i < |items|
      modifies a, this
      ensures a.Valid() && found == (old(items)[i].path in a.world.stats)
      ensures e == AuditedAgain(old(items)[i], a.world) && items == old(items)[i := e]
    {
      e := items[i];
      found := e.path in a.world.stats;
      if found {
        e := AuditOne(a, e.path);
        items := items[i := e];
      }
    }

    /** Lines 465 to 501 of zp_cc_incremental_update on the opened file: every entry that still exists
        is audited again, overwritten in place and written out. */
    method Refresh(a: Auditor) returns (text: string, insecure: nat, secure: nat)
      requires a.Valid()
      modifies a, this
      ensures a.Valid() && text == RebuildText(Paths(old(items)), a.world)
      ensures insecure == CountInsecure(AuditAll(Paths(old(items)), a.world))
      ensures insecure + secure == |AuditAll(Paths(old(items)), a.world)|
      ensures items == Refreshed(old(items), |old(items)|, a.world)
    {
      insecure, secure := 0, 0;
      text := VERSION + "\n" + "";
      ghost var before, paths, done: seq<CacheEntry> := items, Paths(items), [];
      for i := 0 to |items|
        invariant a.Valid() && items == Refreshed(before, i, a.world) && done == AuditAll(paths[..i], a.world)
        invariant text == FileText(done) && insecure == CountInsecure(done) && insecure + secure == |done|
      {
        AuditAllStep(paths, i, a.world);
        RefreshedAt(before, i, a.world, i);
        var e, found := AuditInPlace(a, i);
        if !found {
          continue;
        }
        text, insecure, secure := WriteEntry(text, insecure, secure, e, done);
        done := done + [e];
      }
      assert paths[..|items|] == paths;
    }
  }

  /** One entry audited again, if its path still exists. */
  function AuditedAgain(e: CacheEntry, w: World): CacheEntry {
    if e.path in w.stats then AuditEntry(e.path, w) else e
  }

  /** The entries after the first `n` of them were audited again. */
  function Refreshed(es: seq<CacheEntry>, n: nat, w: World): (r: seq<CacheEntry>)
    requires n <= |es|
    ensures |r| == |es|
  {
    if n == 0 then es else Refreshed(es, n - 1, w)[n - 1 := AuditedAgain(es[n - 1], w)]
  }

  lemma {:induction false} RefreshedAt(es: seq<CacheEntry>, n: nat, w: World, i: nat)
    requires n <= |es| && i < |es|
    ensures Refreshed(es, n, w)[i] == if i < n then AuditedAgain(es[i], w) else es[i]
  {
    if n > 0 {
      RefreshedAt(es, n - 1, w, i);
    }
  }

  lemma PathsSnoc(es: seq<CacheEntry>, e: CacheEntry)
    ensures Paths(es + [e]) == Paths(es) + [e.path]
  {
  }

  // ------------------------------------------------------------- the command

  /** The cache file: its content, and whether group or others may write it. */
  class Store {
    var file: Option<string>
    var othersWrite: bool
    /** Whether opening the file to write it may fail. */
    const faults: bool

    constructor (content: Option<string>, writable: bool, faulty: bool)
      ensures file == content && othersWrite == writable && faults == faulty
    {
      file, othersWrite, faults := content, writable, faulty;
    }

    /** zp_fopen_write_nofollow with an enforced mode of 0600, then all the writes. */
    method Write(text: string) returns (failed: bool)
      modifies this
      ensures failed ==> faults && file == old(file) && othersWrite == old(othersWrite)
      ensures !failed ==> file == Some(text) && !othersWrite
    {
      failed := *;
      failed := failed && faults;
      if !failed {
        file, othersWrite := Some(text), false;
      }
    }
  }

  /** An old cache may be used: no rebuild is forced and nobody else could have written it. */
  predicate Usable(rebuild: bool, file: Option<string>, othersWrite: bool) {
    !rebuild && file.Some? && !othersWrite && Load(file.value).Some?
  }

  /** What a call did with the cache. */
  datatype Action = Kept | Patched | Rebuilt | Failed

  /** zp_compaudit_cache_core. A usable cache is kept exactly when it validates; one that does not is patched;
      otherwise, or when patching cannot write, the cache is rebuilt from `$fpath`. `legacy` says that a
      version-2 file was there to be removed. */
  method CompauditCore(store: Store, a: Auditor, rebuild: bool, legacy: bool, fpath: seq<string>)
    returns (ret: int, action: Action, insecure: nat, secure: nat)
    requires a.Valid()
    modifies store, a
    ensures a.Valid()
    ensures ret == if action.Failed? then 1 else 0
    ensures action.Kept? <==>
              Usable(rebuild, old(store.file), old(store.othersWrite))
              && Accepts(Load(old(store.file).value).value, a.world)
    ensures action.Patched? ==> Usable(rebuild, old(store.file), old(store.othersWrite))
    ensures action.Failed? || (action.Rebuilt? && Usable(rebuild, old(store.file), old(store.othersWrite))) ==>
              store.faults
    ensures store.file == match action
                          case Patched =>
                            Some(RebuildText(Merge(Paths(Load(old(store.file).value).value), fpath), a.world))
                          case Rebuilt => Some(RebuildText(NonEmpty(fpath), a.world))
                          case _ => old(store.file)
    ensures store.othersWrite == (old(store.othersWrite) && (action.Kept? || action.Failed?))
    ensures action.Kept? || action.Patched? ==>
              && insecure == CountInsecure(Load(store.file.value).GetOr([]))
              && insecure + secure == |Load(store.file.value).GetOr([])|
    ensures action.Rebuilt? ==>
              && insecure == CountInsecure(AuditAll(NonEmpty(fpath), a.world))
              && insecure + secure == |AuditAll(NonEmpty(fpath), a.world)|
    ensures action.Kept? || action.Patched? ==> !rebuild && old(store.file).Some? && !old(store.othersWrite)
    ensures action.Kept? ==> forall e :: e in Load(store.file.value).GetOr([]) ==> TellsNow(e, a.world)
    ensures action.Rebuilt? && a.world.WellTyped() && AllStorable(NonEmpty(fpath), a.world) ==>
              IsAuditOf(store.file, fpath, a.world)
    ensures action.Patched? && a.world.WellTyped() ==>
              var paths := Paths(Load(old(store.file).value).value);
              AllStorable(Merge(paths, fpath), a.world) ==> IsAuditOf(store.file, paths + fpath, a.world)
  {
    var force := rebuild;
    if !force && store.file.None? && legacy {
      force := true;
    }
    if !force && store.file.Some? && store.othersWrite {
      force := true;
    }
    action := Rebuilt;
    var entries: seq<CacheEntry> := [];
    if !force && store.file.Some? {
      action, entries := UseCache(store, a, fpath);
    }
    if action.Rebuilt? {
      var targets := CollectDirs(fpath);
      var text;
      text, insecure, secure := Rebuild(a, targets);
      var failed := store.Write(text);
      if failed {
        return 1, Failed, 0, 0;
      }
      if a.world.WellTyped() && AllStorable(NonEmpty(fpath), a.world) {
        RebuiltIsAudit(fpath, a.world);
      }
    } else {
      WhatUseTells(action, old(store.file), store.file, fpath, a.world);
      insecure, secure := CountVerdicts(entries);
    }
    ret := 0;
  }

  lemma WhatUseTells(action: Action, before: Option<string>, after: Option<string>, fpath: seq<string>, w: World)
    requires before.Some? && Load(before.value).Some?
    requires action.Kept? ==> after == before && Accepts(Load(before.value).value, w)
    requires action.Patched? ==> after == Some(RebuildText(Merge(Paths(Load(before.value).value), fpath), w))
    ensures action.Kept? ==> forall e :: e in Load(before.value).value ==> TellsNow(e, w)
    ensures action.Patched? && w.WellTyped() ==>
              var paths := Paths(Load(before.value).value);
              AllStorable(Merge(paths, fpath), w) ==> IsAuditOf(after, paths + fpath, w)
  {
    var paths := Paths(Load(before.value).value);
    if action.Kept? {
      AcceptsIff(Load(before.value).value, w);
    } else if action.Patched? && w.WellTyped() && AllStorable(Merge(paths, fpath), w) {
      PatchedIsAudit(before.value, paths, fpath, w);
    }
  }

  /** Lines 637 to 652: the cache as it is, patched, or to be rebuilt after all. */
  method UseCache(store: Store, a: Auditor, fpath: seq<string>) returns (action: Action, entries: seq<CacheEntry>)
    requires a.Valid() && store.file.Some?
    modifies store, a
    ensures a.Valid() && !action.Failed?
    ensures action.Kept? <==> Load(old(store.file).value).Some? && Accepts(Load(old(store.file).value).value, a.world)
    ensures action.Patched? ==>
              && Load(old(store.file).value).Some? && !store.othersWrite
              && store.file == Some(RebuildText(Merge(Paths(Load(old(store.file).value).value), fpath), a.world))
    ensures !action.Patched? ==> store.file == old(store.file) && store.othersWrite == old(store.othersWrite)
    ensures action.Rebuilt? ==> Load(old(store.file).value).None? || store.faults
    ensures !action.Rebuilt? ==> entries == Load(store.file.value).GetOr([])
  {
    var ok;
    ok, entries := LoadCache(store.file.value);
    if !ok {
      return Rebuilt, [];
    }
    var invalid := Validate(a, entries);
    if !invalid {
      return Kept, entries;
    }
    var v := new CcVec(entries);
    v.AddMissing(fpath);
    var text, insecure, secure := v.Refresh(a);
    var failed := store.Write(text);
    if failed {
      return Rebuilt, [];
    }
    action := Patched;
    ok, entries := LoadCache(text);
  }

  method CountVerdicts(es: seq<CacheEntry>) returns (insecure: nat, secure: nat)
    ensures insecure == CountInsecure(es) && insecure + secure == |es|
  {
    insecure, secure := 0, 0;
    for i := 0 to |es|
      invariant insecure == CountInsecure(es[..i]) && insecure + secure == i
    {
      assert es[..i + 1][..i] == es[..i];
      if es[i].verdict != 0 {
        insecure := insecure + 1;
      } else {
        secure := secure + 1;
      }
    }
    assert es[..|es|] == es;
  }

  // ------------------------------------------------------------- what a written cache tells

  /** An entry that tells what the file system says of its path now. */
  predicate TellsNow(e: CacheEntry, w: World) {
    e.path in w.stats
    && var st := w.stats[e.path];
       && e.mode == st.mode && e.uid == st.uid && e.gid == st.gid && e.mtime == st.mtime && e.ctime == st.ctime
       && (e.verdict == 1 <==> Insecure(e.path, w)) && 0 <= e.verdict <= 1
       && (e.zwcInsecure == 1 <==> ZwcInsecure(e.path, w)) && 0 <= e.zwcInsecure <= 1
  }

  /** A cache whose entries are of these directories, of every one that exists and of no others. */
  ghost predicate IsAuditOf(file: Option<string>, dirs: seq<string>, w: World) {
    file.Some? && Load(file.value).Some?
    && var es := Load(file.value).value;
       && (forall e :: e in es ==> e.path in dirs && e.path != "" && TellsNow(e, w))
       && forall p :: p in dirs && p != "" && p in w.stats ==> exists e :: e in es && e.path == p
  }

  lemma {:induction false} AuditHas(paths: seq<string>, w: World, p: string)
    requires p in paths && p in w.stats
    ensures AuditEntry(p, w) in AuditAll(paths, w)
  {
    if p != paths[|paths| - 1] {
      AuditHas(paths[..|paths| - 1], w, p);
    }
  }

  /** Validation accepts a cache exactly when every entry tells what the file system says now. */
  lemma AcceptsIff(es: seq<CacheEntry>, w: World)
    ensures Accepts(es, w) <==> forall i :: 0 <= i < |es| ==> TellsNow(es[i], w)
  {
    forall i | 0 <= i < |es| && es[i].path in w.stats
      ensures TellsNow(es[i], w) <==> es[i] == AuditEntry(es[i].path, w).(parentInsecure := es[i].parentInsecure)
    {
    }
  }

  /** What is written for a list of paths is an audit of them. */
  lemma WrittenIsAudit(paths: seq<string>, dirs: seq<string>, w: World)
    requires w.WellTyped() && AllStorable(paths, w)
    requires forall p :: p in paths <==> p in dirs && p != ""
    ensures IsAuditOf(Some(RebuildText(paths, w)), dirs, w)
  {
    Quiescent(paths, w);
    AuditedEntries(paths, w);
    var es := AuditAll(paths, w);
    forall e | e in es
      ensures e.path in dirs && e.path != "" && TellsNow(e, w)
    {
      var i :| 0 <= i < |es| && es[i] == e;
    }
    forall p | p in dirs && p != "" && p in w.stats
      ensures exists e :: e in es && e.path == p
    {
      AuditHas(paths, w, p);
    }
  }

  lemma RebuiltIsAudit(fpath: seq<string>, w: World)
    requires w.WellTyped() && AllStorable(NonEmpty(fpath), w)
    ensures IsAuditOf(Some(RebuildText(NonEmpty(fpath), w)), fpath, w)
  {
    forall p
      ensures p in NonEmpty(fpath) <==> p in fpath && p != ""
    {
      NonEmptyIff(fpath, p);
    }
    WrittenIsAudit(NonEmpty(fpath), fpath, w);
  }

  /** The fpath is not part of the decision to keep a cache: a directory that is new in it has no entry as long as the
      old entries validate. */
  lemma NewDirectoryUnnoticed(content: string, fpath: seq<string>, p: string, w: World)
    requires Usable(false, Some(content), false) && Accepts(Load(content).value, w)
    requires p in fpath && p != "" && p in w.stats && forall e :: e in Load(content).value ==> e.path != p
    ensures !IsAuditOf(Some(content), fpath, w)
  {
  }

  lemma {:induction false} MergeHas(paths: seq<string>, fpath: seq<string>, p: string)
    ensures p in Merge(paths, fpath) <==> p in paths || (p in fpath && p != "")
  {
    if fpath != [] {
      MergeHas(paths, fpath[..|fpath| - 1], p);
      assert fpath == fpath[..|fpath| - 1] + [fpath[|fpath| - 1]];
    }
  }

  lemma PatchedIsAudit(content: string, paths: seq<string>, fpath: seq<string>, w: World)
    requires w.WellTyped() && Load(content).Some? && paths == Paths(Load(content).value)
    requires AllStorable(Merge(paths, fpath), w)
    ensures IsAuditOf(Some(RebuildText(Merge(paths, fpath), w)), paths + fpath, w)
  {
    forall p
      ensures p in Merge(paths, fpath) <==> p in paths + fpath && p != ""
    {
      MergeHas(paths, fpath, p);
      if p in paths {
        var i :| 0 <= i < |paths| && paths[i] == p;
        LoadedEntry(content, Load(content).value[i]);
      }
    }
    WrittenIsAudit(Merge(paths, fpath), paths + fpath, w);
  }

  lemma LoadedEntry(content: string, e: CacheEntry)
    requires Load(content).Some? && e in Load(content).value
    ensures e.path != ""
  {
    var rest := Versioned(content, VERSION);
    var r := FromRecord(ParseEntry, rest.value, e);
    WordsAre(r, 0, |r|, 0);
  }

  /** The count is the number of entries with an insecure verdict. */
  lemma {:induction false} CountIs(es: seq<CacheEntry>)
    ensures CountInsecure(es) == |set i | 0 <= i < |es| && es[i].verdict != 0|
  {
    var all := set i | 0 <= i < |es| && es[i].verdict != 0;
    if es == [] {
      assert all == {};
    } else {
      var front, n := es[..|es| - 1], |es| - 1;
      CountIs(front);
      var before := set i | 0 <= i < |front| && front[i].verdict != 0;
      assert forall i :: 0 <= i < n ==> front[i] == es[i];
      assert all == before + if es[n].verdict != 0 then {n} else {};
      assert n !in before;
    }
  }

  // ------------------------------------------------------------- quiescence

  /** After a rebuild or a patch, while the audited file system rests, the cache loads back as written
      and is accepted, and every verdict in it is that of the declarative audit. */
  lemma {:induction false} Quiescent(paths: seq<string>, w: World)
    requires w.WellTyped() && AllStorable(paths, w)
    ensures Load(RebuildText(paths, w)) == Some(AuditAll(paths, w)) && Accepts(AuditAll(paths, w), w)
    ensures forall i :: 0 <= i < |AuditAll(paths, w)| ==>
              var e := AuditAll(paths, w)[i]; e.path in w.stats && (e.verdict == 1 <==> Insecure(e.path, w))
  {
    AuditedEntries(paths, w);
    FileRoundTrip(AuditAll(paths, w));
  }

  /** Every audited path can be stored. */
  ghost predicate AllStorable(paths: seq<string>, w: World) {
    forall p :: p in paths && p in w.stats ==> Storable(AuditEntry(p, w))
  }

  /** Paths of up to 4000 characters without tab or newline, and not beginning with `#`, can be stored. */
  lemma AllStorableIf(paths: seq<string>, w: World)
    requires w.WellTyped()
    requires forall p :: p in paths ==> 0 < |p| <= 4000 && '\t' !in p && '\n' !in p && p[0] != '#'
    ensures AllStorable(paths, w)
  {
    forall p | p in paths && p in w.stats
      ensures Storable(AuditEntry(p, w))
    {
      ShortNumbers(AuditEntry(p, w));
    }
  }

  lemma ShortNumbers(e: CacheEntry)
    requires e.WellTyped() && |e.path| <= 4000
    ensures |Body(e)| < 4096
  {
    LineIs(e);
    PrintedLong(e.verdict);
    PrintedLong(e.uid);
    PrintedLong(e.gid);
    PrintedLong(e.mtime);
    PrintedLong(e.ctime);
    FourOctal(e.mode);
    assert PrintInt(e.parentInsecure) in ["0", "1"] && PrintInt(e.zwcInsecure) in ["0", "1"];
    assert |PrintInt(e.verdict)| <= 20;
  }

  lemma FourOctal(n: nat)
    requires n < 0x1000
    ensures |PrintNat(n, 8)| <= 4
  {
    assert n / 8 / 8 / 8 < 8;
    assert |PrintNat(n / 8 / 8 / 8, 8)| == 1;
    assert |PrintNat(n / 8 / 8, 8)| <= 2;
    assert |PrintNat(n / 8, 8)| <= 3;
  }

  /** At rest, the condition under which a call keeps the cache holds for whatever a call wrote. */
  lemma WrittenIsKept(paths: seq<string>, w: World)
    requires w.WellTyped() && AllStorable(paths, w)
    ensures var file := Some(RebuildText(paths, w));
            Usable(false, file, false) && Accepts(Load(file.value).value, w)
  {
    Quiescent(paths, w);
  }

  /** Two calls in a row: the second keeps what the first left. */
  method CallTwice(store: Store, a: Auditor, rebuild: bool, legacy: bool, fpath: seq<string>)
    returns (first: Action, second: Action)
    requires a.Valid() && a.world.WellTyped()
    requires AllStorable(Merge(Paths(Load(store.file.GetOr("")).GetOr([])), fpath), a.world)
    requires AllStorable(NonEmpty(fpath), a.world)
    modifies store, a
    ensures !first.Failed? ==> second.Kept?
  {
    WrittenIsKept(Merge(Paths(Load(store.file.GetOr("")).GetOr([])), fpath), a.world);
    WrittenIsKept(NonEmpty(fpath), a.world);
    var ret, insecure, secure;
    ret, first, insecure, secure := CompauditCore(store, a, rebuild, legacy, fpath);
    ret, second, insecure, secure := CompauditCore(store, a, false, legacy, fpath);
  }

  lemma {:induction false} AuditedEntries(paths: seq<string>, w: World)
    requires w.WellTyped()
    ensures forall i :: 0 <= i < |AuditAll(paths, w)| ==>
              var e := AuditAll(paths, w)[i];
              e.path in paths && e.path in w.stats && e == AuditEntry(e.path, w) && e.WellTyped() && Coherent(e, w)
  {
    if paths != [] {
      var front, last := paths[..|paths| - 1], paths[|paths| - 1];
      AuditedEntries(front, w);
      assert paths == front + [last];
      if last in w.stats {
        AuditIsCoherent(last, w);
      }
    }
  }
}
