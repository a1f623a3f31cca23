/** Bundles of a source tree whose files change between builds. */
module BundleRuns {
  import opened CTypes
  import opened Text
  import opened BundleTree
  import opened BundleSources
  import opened BundlePublish
  import opened BundleFreshness
  import opened BundleChange
  import opened BundleLayout

  /** A source tree, where its bundle goes, and the last bundle with its mtime and its cap. */
  datatype Site = Site(root: string, output: string, dir: Node, text: string, mtime: int64, kb: nat)

  ghost predicate SourcesOf(items: seq<Entry>, s: Site) { SortedSources(items, s.dir, s.root, s.output) }

  ghost predicate FreshSite(s: Site) {
    exists items :: SourcesOf(items, s) && IsFresh(s.text, Existing.File(s.mtime), items, s.kb)
  }

  ghost predicate CurrentSite(s: Site) { IsBundle(s.text, s.dir, s.root, s.output, s.kb) }

  /** A bundle that counts as fresh is that of the tree. */
  ghost predicate HonestSite(s: Site) { FreshSite(s) ==> CurrentSite(s) }

  /** Names of one line, and files that deliver their size. */
  ghost predicate Delivers(s: Site) {
    forall e :: SourceOf(e, s.dir, s.root, s.output) ==> '\n' !in e.rel && |e.content| == e.size as int
  }

  function StateOf(s: Site, items: seq<Entry>): State { State(items, s.text, s.mtime, s.kb) }

  lemma SameSources(s: Site, items: seq<Entry>, other: seq<Entry>)
    requires SourcesOf(items, s) && SourcesOf(other, s)
    ensures other == items
  {
    SortedSourcesUnique(other, items, s.dir, s.root, s.output);
  }

  lemma CurrentIff(s: Site, items: seq<Entry>)
    requires SourcesOf(items, s)
    ensures CurrentSite(s) <==> CurrentNow(StateOf(s, items))
  {
    if CurrentSite(s) {
      var other, k :| SortedSources(other, s.dir, s.root, s.output) && IsCapped(k, other, s.kb * 1024)
                      && s.text == BundleText(s.kb, other, k);
      SameSources(s, items, other);
    }
  }

  lemma FreshIff(s: Site, items: seq<Entry>)
    requires SourcesOf(items, s)
    ensures FreshSite(s) <==> FreshNow(StateOf(s, items))
  {
    if FreshSite(s) {
      var other :| SourcesOf(other, s) && IsFresh(s.text, Existing.File(s.mtime), other, s.kb);
      SameSources(s, items, other);
    }
  }

  lemma DeliversSources(s: Site, items: seq<Entry>)
    requires SourcesOf(items, s) && Delivers(s)
    ensures Sources(items)
  {
    SortedIsDistinct(items);
    forall i | 0 <= i < |items|
      ensures '\n' !in items[i].rel && |items[i].content| == items[i].size as int
    {
      assert items[i] in items;
      assert SourceOf(items[i], s.dir, s.root, s.output);
    }
  }

  /** The list of sources says all that matters. */
  lemma SiteIsState(s: Site, items: seq<Entry>)
    requires SourcesOf(items, s)
    ensures FreshSite(s) <==> FreshNow(StateOf(s, items))
    ensures CurrentSite(s) <==> CurrentNow(StateOf(s, items))
    ensures Delivers(s) ==> Sources(items)
  {
    FreshIff(s, items);
    CurrentIff(s, items);
    if Delivers(s) {
      DeliversSources(s, items);
    }
  }

  // ------------------------------------------------------------- one file changes

  function Changed(s: Site, path: seq<string>, file: Option<Node>): Site
    requires Reaches(s.dir, path)
  {
    s.(dir := Put(s.dir, path, file))
  }

  /** The list step that a change of the tree is. */
  ghost predicate IsStep(s: Site, t: Site, items: seq<Entry>, step: Step) {
    Possible(StateOf(s, items), step) && !step.Rebuild? && SourcesOf(Apply(StateOf(s, items), step).sources, t)
  }

  /** A change is safe when a source is newer than the bundle afterwards, when no source is concerned, or when
      the bundle does not show it. */
  ghost predicate SafeChange(s: Site, t: Site) {
    FreshSite(t) ==>
      exists items :: SourcesOf(items, s)
                      && (SourcesOf(items, t)
                          || exists step :: IsStep(s, t, items, step) && Safe(StateOf(s, items), step))
  }

  lemma LeadsIsStep(s: Site, t: Site, items: seq<Entry>, after: seq<Entry>, step: Step)
    requires SourcesOf(items, s) && SourcesOf(after, t) && Delivers(t) && Leads(items, step, after)
    ensures IsStep(s, t, items, step) && Apply(StateOf(s, items), step).sources == after
  {
    SiteIsState(t, after);
    if step.Edit? {
      assert after[step.i] == step.e;
    }
  }

  /** Writing or removing a file is one of the list steps, or concerns no source. */
  lemma ChangeIsStep(s: Site, path: seq<string>, file: Option<Node>, items: seq<Entry>, after: seq<Entry>)
    requires CanPut(s.dir, path, file) && Delivers(Changed(s, path, file))
    requires SourcesOf(items, s) && SourcesOf(after, Changed(s, path, file))
    ensures after == items || exists step :: IsStep(s, Changed(s, path, file), items, step)
  {
    var step := FileChange(s.dir, path, file, s.root, s.output, items, after);
    if step.Some? {
      LeadsIsStep(s, Changed(s, path, file), items, after, step.value);
    }
  }

  lemma StepHonestIff(s: Site, t: Site, items: seq<Entry>, step: Step)
    requires t == s.(dir := t.dir) && SourcesOf(items, s) && Delivers(s) && CurrentSite(s)
    requires IsStep(s, t, items, step)
    ensures HonestSite(t) <==> Safe(StateOf(s, items), step)
  {
    var st := StateOf(s, items);
    SiteIsState(s, items);
    SiteIsState(t, Apply(st, step).sources);
    HonestIffSafe(st, step);
  }

  /** From the bundle of the tree, exactly the safe changes of a file leave "fresh means current" true. */
  lemma SiteHonestIffSafe(s: Site, path: seq<string>, file: Option<Node>, items: seq<Entry>, after: seq<Entry>)
    requires CanPut(s.dir, path, file) && Delivers(s) && Delivers(Changed(s, path, file)) && CurrentSite(s)
    requires SourcesOf(items, s) && SourcesOf(after, Changed(s, path, file))
    ensures HonestSite(Changed(s, path, file)) <==> SafeChange(s, Changed(s, path, file))
  {
    var t := Changed(s, path, file);
    SiteIsState(s, items);
    SiteIsState(t, after);
    ChangeIsStep(s, path, file, items, after);
    forall other | SourcesOf(other, s)
      ensures other == items
    {
      SameSources(s, items, other);
    }
    forall step | IsStep(s, t, items, step)
      ensures HonestSite(t) <==> Safe(StateOf(s, items), step)
    {
      StepHonestIff(s, t, items, step);
    }
  }

  // ------------------------------------------------------------- what a changed file means

  /** The sources afterwards have the file as it now is. */
  lemma ChangedIsSource(s: Site, path: seq<string>, file: Node)
    requires CanPut(s.dir, path, Some(file)) && Taken(Some(file), path, s.root, "", s.output)
    ensures SourceOf(EntryAt(file, path, s.root, ""), Put(s.dir, path, Some(file)), s.root, s.output)
  {
    AtPut(s.dir, path, Some(file));
    var e, dir := EntryAt(file, path, s.root, ""), Put(s.dir, path, Some(file));
    assert IsFileOf(e, path, dir, s.root, s.output);
    SourcesAre(e, dir, s.root, s.output);
  }

  /** A source that is written after the bundle is noticed: the bundle no longer counts as fresh. */
  lemma NewerFileNoticed(s: Site, path: seq<string>, file: Node)
    requires CanPut(s.dir, path, Some(file)) && Taken(Some(file), path, s.root, "", s.output)
    requires file.mtime > s.mtime
    ensures !FreshSite(Changed(s, path, Some(file)))
  {
    var t, e := Changed(s, path, Some(file)), EntryAt(file, path, s.root, "");
    ChangedIsSource(s, path, file);
    forall items: seq<Entry> | SourcesOf(items, t)
      ensures !IsFresh(t.text, Existing.File(t.mtime), items, t.kb)
    {
      assert e in items;
      var i :| 0 <= i < |items| && items[i] == e;
      assert items[i].mtime > t.mtime;
    }
  }

  /** Another cap is noticed. */
  lemma OtherCapNoticed(s: Site, kb: nat)
    requires CurrentSite(s) && kb != s.kb
    ensures !FreshSite(s.(kb := kb))
  {
    var items, k :| SortedSources(items, s.dir, s.root, s.output) && IsCapped(k, items, s.kb * 1024)
                    && s.text == BundleText(s.kb, items, k);
    HeaderIff(kb, s.kb, Frames(items[..k]));
  }

  /** Without a cap, the bundle of a tree holds the bytes of every source between its markers. */
  lemma BundleHolds(s: Site, path: seq<string>) returns (before: string, after: string)
    requires CurrentSite(s) && s.kb == 0
    requires Reaches(s.dir, path) && Taken(At(s.dir, path), path, s.root, "", s.output)
    ensures s.text == before + ("# BEGIN " + Slashed(path) + "\n" + At(s.dir, path).value.content + "\n# END "
                                + Slashed(path) + "\n") + after
  {
    var e := EntryAt(At(s.dir, path).value, path, s.root, "");
    assert IsFileOf(e, path, s.dir, s.root, s.output);
    SourcesAre(e, s.dir, s.root, s.output);
    var items, k :| SortedSources(items, s.dir, s.root, s.output) && IsCapped(k, items, s.kb * 1024)
                    && s.text == BundleText(s.kb, items, k);
    assert e in items;
    var i :| 0 <= i < |items| && items[i] == e;
    BundleGrows(s.kb, items, i);
    NothingBefore(Slashed(path));
    before := BundleText(s.kb, items, i);
    after := TextAfter(s.kb, items, i + 1, k);
  }

  lemma NothingBefore(rel: string)
    ensures "" + rel == rel
  {
  }

  lemma {:induction false} TextAfter(kb: int, items: seq<Entry>, i: nat, k: nat) returns (after: string)
    requires i <= k <= |items|
    ensures BundleText(kb, items, k) == BundleText(kb, items, i) + after
  {
    if i == k {
      after := "";
      NoFrames(BundleText(kb, items, k), "");
    } else {
      var more := TextAfter(kb, items, i, k - 1);
      BundleGrows(kb, items, k - 1);
      var rel := items[k - 1].rel;
      var frame := "# BEGIN " + rel + "\n" + items[k - 1].content + "\n# END " + rel + "\n";
      after := more + frame;
      Assoc(BundleText(kb, items, i), more, frame);
    }
  }

  // ------------------------------------------------------------- builds

  /** zp_bundle_build_core on a site: the output is the text of the site, or becomes a bundle of its tree. A success
      in an honest site leaves the bundle of the tree, whether the build wrote it or found it fresh; and in any site
      whose bundle is not fresh, it writes it. */
  method BuildSite(disk: Disk, fromDir: string, outPath: string, place: Place, order: Listing, s: Site, now: int64)
    returns (ret: int, t: Site)
    requires (s.dir.Dir? ==> ListsAll(s.dir, "", order)) && s.kb <= 0x7FFF_FFFF_FFFF_FFFF && !disk.stuck
    requires place.root == Some(s.root) && place.parent.Some? && place.existing == Existing.File(s.mtime)
    requires s.output == place.parent.value + "/" + BaseName(outPath)
    requires s.output in disk.files && disk.files[s.output] == s.text
    modifies disk
    ensures t == s.(text := t.text, mtime := t.mtime) && s.output in disk.files && disk.files[s.output] == t.text
    ensures Delivers(s) ==> NextSite(s, t)
    ensures ret == 0 && (HonestSite(s) || !FreshSite(s)) ==> CurrentSite(t)
  {
    var published;
    ret, published := Build(disk, fromDir, outPath, s.kb as int64, place, s.dir, order);
    OtherName(s.output, ".tmp." + place.suffix);
    t := if published then s.(text := disk.files[s.output], mtime := now) else s;
  }

  /** After a source was written later than the bundle, a build that succeeds leaves the bundle of the new tree. */
  method BuildAfterEdit(disk: Disk, fromDir: string, outPath: string, place: Place, order: Listing, s: Site, now: int64,
                        path: seq<string>, file: Node)
    returns (ret: int, t: Site)
    requires CanPut(s.dir, path, Some(file)) && Taken(Some(file), path, s.root, "", s.output) && file.mtime > s.mtime
    requires var dir := Put(s.dir, path, Some(file)); dir.Dir? ==> ListsAll(dir, "", order)
    requires s.kb <= 0x7FFF_FFFF_FFFF_FFFF && !disk.stuck
    requires place.root == Some(s.root) && place.parent.Some? && place.existing == Existing.File(s.mtime)
    requires s.output == place.parent.value + "/" + BaseName(outPath)
    requires s.output in disk.files && disk.files[s.output] == s.text
    modifies disk
    ensures ret == 0 ==> CurrentSite(t) && t.dir == Put(s.dir, path, Some(file)) && t.kb == s.kb
                         && s.output in disk.files && disk.files[s.output] == t.text
  {
    NewerFileNoticed(s, path, file);
    ret, t := BuildSite(disk, fromDir, outPath, place, order, Changed(s, path, Some(file)), now);
  }

  lemma OtherName(name: string, suffix: string)
    requires suffix != ""
    ensures name + suffix != name
  {
  }

  // ------------------------------------------------------------- runs

  /** A file is written or removed safely, or a build ends. */
  ghost predicate NextSite(s: Site, t: Site) {
    Delivers(t)
    && (|| (t == s.(text := t.text, mtime := t.mtime) && (t == s || CurrentSite(t)))
        || (t == s.(dir := t.dir) && SafeChange(s, t)))
  }

  lemma NextKeepsHonest(s: Site, t: Site)
    requires NextSite(s, t) && Delivers(s) && HonestSite(s)
    ensures HonestSite(t)
  {
    if t != s && !CurrentSite(t) && FreshSite(t) {
      var items :| SourcesOf(items, s)
        && (SourcesOf(items, t) || exists step :: IsStep(s, t, items, step) && Safe(StateOf(s, items), step));
      SiteIsState(s, items);
      if SourcesOf(items, t) {
        SiteIsState(t, items);
      } else {
        var step :| IsStep(s, t, items, step) && Safe(StateOf(s, items), step);
        SiteIsState(t, Apply(StateOf(s, items), step).sources);
        SafeStepHonest(StateOf(s, items), step);
      }
    }
  }

  /** After any run of safe changes and builds, a bundle that counts as fresh is the bundle of the tree. */
  lemma {:induction false} FreshSiteIsCurrent(run: seq<Site>, n: nat)
    requires n < |run| && Delivers(run[0]) && HonestSite(run[0])
    requires forall i: nat :: i + 1 < |run| ==> NextSite(run[i], run[i + 1])
    ensures Delivers(run[n]) && HonestSite(run[n])
  {
    if n > 0 {
      FreshSiteIsCurrent(run, n - 1);
      assert NextSite(run[n - 1], run[n - 1 + 1]);
      NextKeepsHonest(run[n - 1], run[n]);
    }
  }
}
