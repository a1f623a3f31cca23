/** src/core/bundle_build.c: what a bundle that counts as fresh is worth after the tree has changed. Lines 280 to
    284 compare the mtimes of the sources that are there now, so an older file, or a file that is gone, is not
    noticed. */
module BundleFreshness {
  import opened CTypes
  import opened Text
  import opened BundleTree
  import opened BundlePublish

  // ------------------------------------------------------------- when two bundles are the same text

  lemma {:induction false} FramesAppend(a: seq<Entry>, b: seq<Entry>)
    ensures Frames(a + b) == Frames(a) + Frames(b)
  {
    if b == [] {
      assert a + b == a;
    } else {
      var front, last := b[..|b| - 1], b[|b| - 1];
      assert (a + b)[..|a + b| - 1] == a + front;
      FramesAppend(a, front);
      Assoc(Frames(a), Frames(front), Frame(last));
    }
  }

  lemma FramesOne(e: Entry)
    ensures Frames([e]) == Frame(e)
  {
    assert [e][..0] == [];
  }

  lemma FramesLonger(a: seq<Entry>, b: seq<Entry>)
    requires b != []
    ensures |Frames(a + b)| > |Frames(a)|
  {
    FramesAppend(a, b);
    assert |Frame(b[|b| - 1])| > 0;
  }

  /** What follows the last newline. */
  function LastLine(s: string): string {
    if s == "" || s[|s| - 1] == '\n' then "" else LastLine(s[..|s| - 1]) + [s[|s| - 1]]
  }

  lemma {:induction false} LastLineAppend(a: string, line: string)
    requires '\n' !in line
    ensures LastLine(a + "\n" + line) == line
  {
    var s := a + "\n" + line;
    if line == "" {
      assert s == a + "\n";
    } else {
      var front, c := line[..|line| - 1], line[|line| - 1];
      assert line == front + [c];
      assert s[..|s| - 1] == a + "\n" + front && s[|s| - 1] == c;
      LastLineAppend(a, front);
    }
  }

  /** The marker with which frames end. */
  lemma FramesEnd(es: seq<Entry>, s: string, rel: string)
    requires es != [] && s == Frames(es) && rel == es[|es| - 1].rel && '\n' !in rel
    ensures s != "" && LastLine(s[..|s| - 1]) == "# END " + rel
  {
    FrameEnd(Frames(es[..|es| - 1]), es[|es| - 1], s);
  }

  lemma FrameEnd(before: string, e: Entry, s: string)
    requires s == before + Frame(e) && '\n' !in e.rel
    ensures s != "" && LastLine(s[..|s| - 1]) == "# END " + e.rel
  {
    var head := before + ("# BEGIN " + e.rel + "\n" + e.content);
    var marker := "# END " + e.rel;
    FrameSplit(before, e);
    MarkerLine(e.rel);
    LastOfMarker(head, marker, s);
  }

  lemma MarkerLine(rel: string)
    requires '\n' !in rel
    ensures '\n' !in "# END " + rel
  {
  }

  lemma LastOfMarker(before: string, line: string, s: string)
    requires s == before + "\n" + line + "\n" && '\n' !in line
    ensures s != "" && LastLine(s[..|s| - 1]) == line
  {
    assert s[..|s| - 1] == before + "\n" + line;
    LastLineAppend(before, line);
  }

  lemma FrameSplit(before: string, e: Entry)
    ensures before + Frame(e) == before + ("# BEGIN " + e.rel + "\n" + e.content) + "\n" + ("# END " + e.rel) + "\n"
  {
    assert "\n# END " == "\n" + "# END ";
    var head := "# BEGIN " + e.rel + "\n" + e.content;
    assert Frame(e) == head + ("\n" + ("# END " + e.rel) + "\n");
  }

  /** Equal frames end with the same file. */
  lemma SameLast(a: seq<Entry>, b: seq<Entry>)
    requires a != [] && b != [] && Frames(a) == Frames(b)
    requires '\n' !in a[|a| - 1].rel && '\n' !in b[|b| - 1].rel
    ensures a[|a| - 1].rel == b[|b| - 1].rel
  {
    var s, r, t := Frames(a), a[|a| - 1].rel, b[|b| - 1].rel;
    FramesEnd(a, s, r);
    FramesEnd(b, s, t);
    SameMarker(r, t);
  }

  lemma SameMarker(r: string, t: string)
    ensures "# END " + r == "# END " + t ==> r == t
  {
    assert ("# END " + r)[6..] == r && ("# END " + t)[6..] == t;
  }

  lemma SameTextIff(kb: nat, a: seq<Entry>, m: nat, b: seq<Entry>, k: nat)
    requires m <= |a| && k <= |b|
    ensures BundleText(kb, a, m) == BundleText(kb, b, k) <==> Frames(a[..m]) == Frames(b[..k])
  {
    CancelFront(Header(kb), Frames(a[..m]), Frames(b[..k]));
  }

  // ------------------------------------------------------------- the sources and the cut

  /** The sources of a tree: distinct names of one line, and files that deliver their size. */
  predicate Sources(es: seq<Entry>) {
    DistinctRels(es) && forall i :: 0 <= i < |es| ==> '\n' !in es[i].rel && |es[i].content| == es[i].size as int
  }

  /** The next file fits too. */
  predicate Fits(total: int, size: int, limit: nat) { limit == 0 || total + size <= limit }

  lemma TotalOfFirst(a: seq<Entry>, b: seq<Entry>, k: nat)
    requires k <= |a| && k <= |b| && a[..k] == b[..k]
    ensures k < |a| ==> TotalSize(a[..k + 1]) == TotalSize(b[..k]) + a[k].size as int
  {
    if k < |a| {
      assert a[..k + 1][..k] == a[..k];
    }
  }

  /** A list whose first k files are those of the bundle gives the same bundle exactly when the next one, if there
      is one, does not fit. */
  lemma SameFirst(items: seq<Entry>, k: nat, after: seq<Entry>, kb: nat)
    requires IsCapped(k, items, kb * 1024) && k <= |after| && after[..k] == items[..k] && Sources(after)
    ensures Complete(BundleText(kb, items, k), after, kb)
       <==> (k < |after| ==> !Fits(TotalSize(items[..k]), after[k].size as int, kb * 1024))
  {
    TotalOfFirst(after, items, k);
    if k < |after| && Fits(TotalSize(items[..k]), after[k].size as int, kb * 1024) {
      forall m | IsCapped(m, after, kb * 1024)
        ensures BundleText(kb, after, m) != BundleText(kb, items, k)
      {
        LongerCut(items, k, after, m, kb);
      }
    } else {
      assert IsCapped(k, after, kb * 1024);
    }
  }

  lemma LongerCut(items: seq<Entry>, k: nat, after: seq<Entry>, m: nat, kb: nat)
    requires k <= |items| && k < |after| && after[..k] == items[..k] && Sources(after)
    requires Fits(TotalSize(items[..k]), after[k].size as int, kb * 1024) && IsCapped(m, after, kb * 1024)
    ensures BundleText(kb, after, m) != BundleText(kb, items, k)
  {
    TotalOfFirst(after, items, k);
    CutBeyond(after, m, k, kb * 1024);
    var more := after[k..m];
    assert after[..m] == after[..k] + more;
    FramesLonger(after[..k], more);
  }

  lemma CutBeyond(after: seq<Entry>, m: nat, k: nat, limit: nat)
    requires k < |after| && Sources(after) && IsCapped(m, after, limit)
    requires limit == 0 || TotalSize(after[..k + 1]) <= limit
    ensures k < m
  {
    if m <= k && limit > 0 {
      TotalSizeGrows(after, m + 1, k + 1);
    }
  }

  // ------------------------------------------------------------- a source is gone

  function Without(items: seq<Entry>, i: nat): seq<Entry>
    requires i < |items|
  {
    items[..i] + items[i + 1..]
  }

  lemma WithoutShorter(items: seq<Entry>, i: nat, k: nat)
    requires i < k <= |items|
    ensures |Frames(Without(items, i)[..k - 1])| < |Frames(items[..k])|
  {
    var a, x, b := items[..i], items[i], items[i + 1..k];
    assert Without(items, i)[..k - 1] == a + b;
    assert items[..k] == a + ([x] + b);
    FramesAppend(a, b);
    FramesAppend(a, [x] + b);
    FramesAppend([x], b);
    FramesOne(x);
  }

  lemma WithoutLast(items: seq<Entry>, i: nat, k: nat, m: nat)
    requires Sources(items) && i < k <= |items| && m <= |Without(items, i)|
    ensures m > 0 && Frames(Without(items, i)[..m]) == Frames(items[..k]) ==> m == k - 1
  {
    var after := Without(items, i);
    assert forall j :: 0 <= j < |after| ==> after[j] == if j < i then items[j] else items[j + 1];
    if m > 0 && Frames(after[..m]) == Frames(items[..k]) {
      SameLast(after[..m], items[..k]);
    }
  }

  lemma WithoutDiffers(items: seq<Entry>, i: nat, k: nat, m: nat)
    requires Sources(items) && i < k <= |items| && m <= |Without(items, i)|
    ensures Frames(Without(items, i)[..m]) != Frames(items[..k])
  {
    WithoutLast(items, i, k, m);
    WithoutShorter(items, i, k);
    if m == 0 {
      FramesLonger([], items[..k]);
      Neutral(items[..k]);
    }
  }

  lemma WithoutSources(items: seq<Entry>, i: nat)
    requires Sources(items) && i < |items|
    ensures Sources(Without(items, i))
  {
    var after := Without(items, i);
    assert forall j :: 0 <= j < |after| ==> after[j] == if j < i then items[j] else items[j + 1];
  }

  /** After a source is deleted the old bundle is that of the tree exactly when the source was not in it and, if it
      was the first one that did not fit, the next one does not fit either. */
  lemma DeleteIff(items: seq<Entry>, k: nat, i: nat, kb: nat)
    requires Sources(items) && IsCapped(k, items, kb * 1024) && i < |items|
    ensures Complete(BundleText(kb, items, k), Without(items, i), kb)
       <==> k <= i && (i == k && k + 1 < |items| ==>
                         !Fits(TotalSize(items[..k]), items[k + 1].size as int, kb * 1024))
  {
    var after := Without(items, i);
    WithoutSources(items, i);
    if i < k {
      forall m | IsCapped(m, after, kb * 1024)
        ensures BundleText(kb, after, m) != BundleText(kb, items, k)
      {
        WithoutDiffers(items, i, k, m);
        SameTextIff(kb, after, m, items, k);
      }
    } else {
      assert after[..k] == items[..k];
      TotalOfFirst(items, items, k);
      SameFirst(items, k, after, kb);
    }
  }

  // ------------------------------------------------------------- a source is new

  function With(items: seq<Entry>, i: nat, e: Entry): seq<Entry>
    requires i <= |items|
  {
    items[..i] + [e] + items[i..]
  }

  lemma WithLonger(items: seq<Entry>, i: nat, e: Entry, k: nat)
    requires i < k <= |items|
    ensures |Frames(With(items, i, e)[..k + 1])| > |Frames(items[..k])|
  {
    var a, b := items[..i], items[i..k];
    assert With(items, i, e)[..k + 1] == a + ([e] + b);
    assert items[..k] == a + b;
    FramesAppend(a, b);
    FramesAppend(a, [e] + b);
    FramesAppend([e], b);
    FramesOne(e);
  }

  lemma WithLast(items: seq<Entry>, i: nat, e: Entry, k: nat, m: nat)
    requires i < k <= |items| && m <= |items| + 1 && Sources(With(items, i, e))
    ensures m > 0 && Frames(With(items, i, e)[..m]) == Frames(items[..k]) ==> m == k + 1
  {
    var after := With(items, i, e);
    assert items[k - 1] == after[k];
    if m > 0 && Frames(after[..m]) == Frames(items[..k]) {
      SameLast(after[..m], items[..k]);
    }
  }

  lemma WithDiffers(items: seq<Entry>, i: nat, e: Entry, k: nat, m: nat)
    requires i < k <= |items| && m <= |items| + 1 && Sources(With(items, i, e))
    ensures Frames(With(items, i, e)[..m]) != Frames(items[..k])
  {
    WithLast(items, i, e, k, m);
    WithLonger(items, i, e, k);
    if m == 0 {
      FramesLonger([], items[..k]);
      Neutral(items[..k]);
    }
  }

  /** After a source is added the old bundle is that of the tree exactly when the source comes after the files in
      it and, if it comes right after them, does not fit. */
  lemma InsertIff(items: seq<Entry>, k: nat, i: nat, e: Entry, kb: nat)
    requires IsCapped(k, items, kb * 1024) && i <= |items| && Sources(With(items, i, e))
    ensures Complete(BundleText(kb, items, k), With(items, i, e), kb)
       <==> k <= i && (i == k ==> !Fits(TotalSize(items[..k]), e.size as int, kb * 1024))
  {
    var after := With(items, i, e);
    if i < k {
      forall m | IsCapped(m, after, kb * 1024)
        ensures BundleText(kb, after, m) != BundleText(kb, items, k)
      {
        WithDiffers(items, i, e, k, m);
        SameTextIff(kb, after, m, items, k);
      }
    } else {
      assert after[..k] == items[..k];
      TotalOfFirst(items, items, k);
      SameFirst(items, k, after, kb);
    }
  }

  // ------------------------------------------------------------- a source is other

  lemma Cancel(a: string, x: string, y: string, b: string)
    requires a + x + b == a + y + b
    ensures x == y
  {
    var s := a + x + b;
    assert |x| == |y|;
    assert s[|a|..|a| + |x|] == x;
    assert (a + y + b)[|a|..|a| + |y|] == y;
  }

  lemma FrameIs(e: Entry)
    ensures Frame(e) == "# BEGIN " + e.rel + "\n" + e.content + ("\n# END " + e.rel + "\n")
  {
  }

  lemma FrameContent(e: Entry, x: Entry)
    requires e.rel == x.rel
    ensures Frame(e) == Frame(x) <==> e.content == x.content
  {
    FrameIs(e);
    FrameIs(x);
    if Frame(e) == Frame(x) {
      Cancel("# BEGIN " + e.rel + "\n", e.content, x.content, "\n# END " + e.rel + "\n");
    }
  }

  lemma FramesWith(items: seq<Entry>, i: nat, e: Entry, k: nat)
    requires i < k <= |items| && e.rel == items[i].rel
    ensures Frames(items[i := e][..k]) == Frames(items[..k]) <==> e.content == items[i].content
  {
    var a, x, b := items[..i], items[i], items[i + 1..k];
    FramesAround(a, x, b);
    FramesAround(a, e, b);
    PartsOf(items, i, e, k);
    FrameContent(e, x);
    CancelIff(Frames(a), Frame(e), Frame(x), Frames(b));
  }

  lemma PartsOf(items: seq<Entry>, i: nat, e: Entry, k: nat)
    requires i < k <= |items|
    ensures items[..k] == items[..i] + [items[i]] + items[i + 1..k]
    ensures items[i := e][..k] == items[..i] + [e] + items[i + 1..k]
  {
  }

  lemma CancelIff(a: string, x: string, y: string, b: string)
    ensures a + x + b == a + y + b <==> x == y
  {
    if a + x + b == a + y + b {
      Cancel(a, x, y, b);
    }
  }

  lemma FramesAround(a: seq<Entry>, x: Entry, b: seq<Entry>)
    ensures Frames(a + [x] + b) == Frames(a) + Frame(x) + Frames(b)
  {
    FramesAppend(a + [x], b);
    FramesAppend(a, [x]);
    FramesOne(x);
  }

  lemma ReplaceLast(items: seq<Entry>, i: nat, e: Entry, k: nat, m: nat)
    requires Sources(items) && i < k <= |items| && e.rel == items[i].rel && m <= |items|
    ensures Frames(items[i := e][..m]) == Frames(items[..k]) ==> m == k
  {
    var after := items[i := e];
    if m == 0 {
      FramesLonger([], items[..k]);
      Neutral(items[..k]);
    } else if Frames(after[..m]) == Frames(items[..k]) {
      SameLast(after[..m], items[..k]);
    }
  }

  lemma {:induction false} SameSizesSameTotal(a: seq<Entry>, b: seq<Entry>)
    requires |a| == |b| && forall j :: 0 <= j < |a| ==> a[j].size == b[j].size
    ensures TotalSize(a) == TotalSize(b)
  {
    if a != [] {
      SameSizesSameTotal(a[..|a| - 1], b[..|b| - 1]);
    }
  }

  /** A source of the same content leaves the cut where it was. */
  lemma SameCut(items: seq<Entry>, after: seq<Entry>, k: nat, limit: nat)
    requires |after| == |items| && Sources(items) && IsCapped(k, items, limit)
    requires forall j :: 0 <= j < |items| ==>
               after[j].size == items[j].size && |after[j].content| == after[j].size as int
    ensures IsCapped(k, after, limit)
  {
    SameSizesSameTotal(items[..k], after[..k]);
    if k < |items| {
      SameSizesSameTotal(items[..k + 1], after[..k + 1]);
    }
  }

  /** After a source is rewritten the old bundle is that of the tree exactly when the source is in it and has the
      same content, or is not in it and, if it was the first one that did not fit, still does not. */
  lemma EditIff(items: seq<Entry>, k: nat, i: nat, e: Entry, kb: nat)
    requires Sources(items) && IsCapped(k, items, kb * 1024) && i < |items|
    requires e.rel == items[i].rel && |e.content| == e.size as int
    ensures Complete(BundleText(kb, items, k), items[i := e], kb)
       <==> if i < k then e.content == items[i].content
            else i == k ==> !Fits(TotalSize(items[..k]), e.size as int, kb * 1024)
  {
    var after := items[i := e];
    if i < k {
      FramesWith(items, i, e, k);
      if e.content == items[i].content {
        SameCut(items, after, k, kb * 1024);
      } else {
        forall m | IsCapped(m, after, kb * 1024)
          ensures BundleText(kb, after, m) != BundleText(kb, items, k)
        {
          ReplaceLast(items, i, e, k, m);
          SameTextIff(kb, after, m, items, k);
        }
      }
    } else {
      assert after[..k] == items[..k] && Sources(after);
      TotalOfFirst(items, items, k);
      SameFirst(items, k, after, kb);
    }
  }

  // ------------------------------------------------------------- runs

  /** The sources in their order, and the last bundle with its mtime and its cap. */
  datatype State = State(sources: seq<Entry>, text: string, mtime: int64, kb: nat)

  /** What may happen to the sources, and a build that ends with a bundle at this time. */
  datatype Step = Edit(i: nat, e: Entry) | Insert(i: nat, e: Entry) | Delete(i: nat) | Rebuild(now: int64, k: nat)

  predicate Possible(st: State, step: Step) {
    match step
    case Edit(i, e) => i < |st.sources| && e.rel == st.sources[i].rel && |e.content| == e.size as int
    case Insert(i, e) => i <= |st.sources| && Sources(With(st.sources, i, e))
    case Delete(i) => i < |st.sources|
    case Rebuild(_, k) => IsCapped(k, st.sources, st.kb * 1024)
  }

  predicate FreshNow(st: State) { IsFresh(st.text, Existing.File(st.mtime), st.sources, st.kb) }

  ghost predicate CurrentNow(st: State) { Complete(st.text, st.sources, st.kb) }

  function Apply(st: State, step: Step): State
    requires Possible(st, step)
  {
    match step
    case Edit(i, e) => st.(sources := st.sources[i := e])
    case Insert(i, e) => st.(sources := With(st.sources, i, e))
    case Delete(i) => st.(sources := Without(st.sources, i))
    case Rebuild(now, k) =>
      if FreshNow(st) then st else st.(text := BundleText(st.kb, st.sources, k), mtime := now)
  }

  /** A change that the old bundle, which holds the first k sources, does not show. */
  predicate Invisible(sources: seq<Entry>, k: nat, step: Step, kb: nat)
    requires k <= |sources|
  {
    var total := TotalSize(sources[..k]);
    match step
    case Edit(i, e) =>
      i < |sources|
      && if i < k then e.content == sources[i].content else i == k ==> !Fits(total, e.size as int, kb * 1024)
    case Insert(i, e) => k <= i && (i == k ==> !Fits(total, e.size as int, kb * 1024))
    case Delete(i) => k <= i && (i == k && k + 1 < |sources| ==> !Fits(total, sources[k + 1].size as int, kb * 1024))
    case Rebuild(_, _) => true
  }

  /** A step is safe when it leaves a source that is newer than the bundle, or a change the bundle does not show. */
  ghost predicate Safe(st: State, step: Step)
    requires Possible(st, step)
  {
    step.Rebuild? || !FreshNow(Apply(st, step))
    || exists k :: IsCapped(k, st.sources, st.kb * 1024) && st.text == BundleText(st.kb, st.sources, k)
                   && Invisible(st.sources, k, step, st.kb)
  }

  /** A bundle that counts as fresh is that of the tree. */
  ghost predicate Honest(st: State) { FreshNow(st) ==> CurrentNow(st) }

  lemma VisibleIff(st: State, step: Step, k: nat)
    requires Sources(st.sources) && Possible(st, step) && !step.Rebuild?
    requires IsCapped(k, st.sources, st.kb * 1024) && st.text == BundleText(st.kb, st.sources, k)
    ensures CurrentNow(Apply(st, step)) <==> Invisible(st.sources, k, step, st.kb)
  {
    match step
    case Edit(i, e) => EditIff(st.sources, k, i, e, st.kb);
    case Insert(i, e) => InsertIff(st.sources, k, i, e, st.kb);
    case Delete(i) => DeleteIff(st.sources, k, i, st.kb);
  }

  /** Exactly the safe steps leave a current bundle honest. */
  lemma HonestIffSafe(st: State, step: Step)
    requires Sources(st.sources) && Possible(st, step) && CurrentNow(st) && !step.Rebuild?
    ensures Honest(Apply(st, step)) <==> Safe(st, step)
  {
    forall k | IsCapped(k, st.sources, st.kb * 1024) && st.text == BundleText(st.kb, st.sources, k)
      ensures CurrentNow(Apply(st, step)) <==> Invisible(st.sources, k, step, st.kb)
    {
      VisibleIff(st, step, k);
    }
  }

  /** Deleting sources never makes a fresh bundle stale: the test cannot see what is gone. */
  lemma DeletionUnnoticed(st: State, i: nat)
    requires FreshNow(st) && i < |st.sources|
    ensures FreshNow(Apply(st, Delete(i)))
  {
    var after := Without(st.sources, i);
    assert forall j :: 0 <= j < |after| ==> after[j] == if j < i then st.sources[j] else st.sources[j + 1];
  }

  /** An instance: the only source is deleted, and the bundle of it still counts as fresh. */
  lemma DeletedSourceStays(e: Entry, mtime: int64)
    requires Sources([e]) && e.mtime <= mtime
    ensures var st := State([e], BundleText(0, [e], 1), mtime, 0);
            CurrentNow(st) && Honest(st) && !Honest(Apply(st, Delete(0)))
  {
    var st := State([e], BundleText(0, [e], 1), mtime, 0);
    assert IsCapped(1, [e], 0);
    DeletionUnnoticed(st, 0);
    DeleteIff([e], 1, 0, 0);
  }

  /** A rewritten or added source is noticed exactly when it is newer than a fresh bundle. */
  lemma EditNoticedIff(st: State, step: Step)
    requires FreshNow(st) && Possible(st, step) && (step.Edit? || step.Insert?)
    ensures FreshNow(Apply(st, step)) <==> step.e.mtime <= st.mtime
  {
    var after := Apply(st, step).sources;
    assert after[step.i] == step.e;
    assert forall j :: 0 <= j < |after| && j != step.i ==> after[j] in st.sources;
  }

  /** A build leaves a fresh bundle alone and replaces any other by that of the sources. */
  lemma RebuildIs(st: State, now: int64, k: nat)
    requires Possible(st, Rebuild(now, k))
    ensures FreshNow(st) ==> Apply(st, Rebuild(now, k)) == st
    ensures !FreshNow(st) ==> CurrentNow(Apply(st, Rebuild(now, k))) && Apply(st, Rebuild(now, k)).mtime == now
    ensures !FreshNow(st) ==> (FreshNow(Apply(st, Rebuild(now, k))) <==> forall e :: e in st.sources ==> e.mtime <= now)
  {
  }

  ghost predicate SafeRun(st: State, steps: seq<Step>)
    decreases |steps|
  {
    steps == [] || (Possible(st, steps[0]) && Safe(st, steps[0]) && SafeRun(Apply(st, steps[0]), steps[1..]))
  }

  lemma SafeSteps(st: State, step: Step, more: seq<Step>)
    ensures SafeRun(st, [])
    ensures SafeRun(st, [step] + more) <==> Possible(st, step) && Safe(st, step) && SafeRun(Apply(st, step), more)
  {
    assert ([step] + more)[0] == step && ([step] + more)[1..] == more;
  }

  function Run(st: State, steps: seq<Step>): State
    requires SafeRun(st, steps)
    decreases |steps|
  {
    if steps == [] then st else Run(Apply(st, steps[0]), steps[1..])
  }

  lemma StepKeepsSources(st: State, step: Step)
    requires Sources(st.sources) && Possible(st, step)
    ensures Sources(Apply(st, step).sources)
  {
    if step.Delete? {
      WithoutSources(st.sources, step.i);
    }
  }

  lemma SafeStepHonest(st: State, step: Step)
    requires Sources(st.sources) && Possible(st, step) && Honest(st) && Safe(st, step)
    ensures Honest(Apply(st, step))
  {
    if !step.Rebuild? && FreshNow(Apply(st, step)) {
      var k :| IsCapped(k, st.sources, st.kb * 1024) && st.text == BundleText(st.kb, st.sources, k)
               && Invisible(st.sources, k, step, st.kb);
      VisibleIff(st, step, k);
    }
  }

  /** After any run of safe steps and builds, a bundle that counts as fresh is the bundle of the tree. */
  lemma {:induction false} FreshIsCurrent(st: State, steps: seq<Step>)
    requires Sources(st.sources) && Honest(st) && SafeRun(st, steps)
    ensures Honest(Run(st, steps))
    decreases |steps|
  {
    if steps != [] {
      StepKeepsSources(st, steps[0]);
      SafeStepHonest(st, steps[0]);
      FreshIsCurrent(Apply(st, steps[0]), steps[1..]);
    }
  }
}
