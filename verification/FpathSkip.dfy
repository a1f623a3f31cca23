/** When cmd_fpath_index keeps an index, and what the kept file then is. */
module FpathSkip {
  import opened Text
  import opened FpathIndex
  import opened FpathScan

  /** Every header line fits the line buffer of the verification. */
  ghost predicate InBuffer(fpath: seq<string>, w: World) {
    |fpath| <= LONG_MAX && w.WellTyped()
    && forall i :: 0 <= i < |fpath| ==> |DirBody(i, fpath[i], w.Mtime(fpath[i]))| + 1 < LINE_SIZE
  }

  /** Every directory has one header line. */
  ghost predicate OneLineEach(fpath: seq<string>) {
    forall i :: 0 <= i < |fpath| ==> '\n' !in fpath[i]
  }

  ghost predicate AllBare(fpath: seq<string>) {
    forall i :: 0 <= i < |fpath| ==> Bare(fpath[i])
  }

  ghost predicate Fits(fpath: seq<string>, w: World) { InBuffer(fpath, w) && AllBare(fpath) }

  /** Names of up to 1998 characters without white space fit. */
  lemma FitsIf(fpath: seq<string>, w: World)
    requires |fpath| <= LONG_MAX && forall d :: d in w.mtimes ==> LONG_MIN <= w.mtimes[d] <= LONG_MAX
    requires forall i :: 0 <= i < |fpath| ==> 0 < |fpath[i]| <= 1998 && forall c :: c in fpath[i] ==> !IsSpace(c)
    ensures Fits(fpath, w)
  {
    forall i | 0 <= i < |fpath|
      ensures |DirBody(i, fpath[i], w.Mtime(fpath[i]))| + 1 < LINE_SIZE
    {
      PrintedLong(i);
      PrintedLong(w.Mtime(fpath[i]));
    }
  }

  /** What the header records: the directories in order, each with its mtime, or -1 when stat does not find it. */
  function Snapshot(fpath: seq<string>, w: World): seq<(string, int)> {
    seq(|fpath|, i requires 0 <= i < |fpath| =>
      (fpath[i], if fpath[i] in w.mtimes then w.mtimes[fpath[i]] else -1))
  }

  // ---------------------------------------------------------------- reading a header back

  lemma FirstLine(line: string, rest: string)
    requires '\n' !in line && |line| + 1 < LINE_SIZE
    ensures var text := line + "\n" + rest; var n := FgetsLen(text, LINE_SIZE);
            n == |line| + 1 && text[..n] == line + "\n" && text[n..] == rest
  {
    FgetsWholeLine(line, rest, LINE_SIZE);
  }

  lemma DirLineClean(i: nat, dir: string, mtime: int)
    requires '\n' !in dir
    ensures '\n' !in DirBody(i, dir, mtime) && DIR <= DirBody(i, dir, mtime)
  {
  }

  lemma DirPrefixSurvivesFgets(text: string)
    requires text != ""
    ensures DIR <= text[..FgetsLen(text, LINE_SIZE)] <==> DIR <= text
  {
    var n := FgetsLen(text, LINE_SIZE);
    if DIR <= text {
      IndexOfAppend(text[..6], '\n', text[6..]);
      assert text == text[..6] + text[6..] && text[..6] == DIR;
    }
  }

  lemma HeaderAgreesStep(line: string, more: string, idx: nat, fpath: seq<string>, w: World)
    requires '\n' !in line && |line| + 1 < LINE_SIZE && DIR <= line
    ensures HeaderAgrees(line + "\n" + more, idx, fpath, w)
       <==> LineAgrees(line + "\n", idx, fpath, w) && HeaderAgrees(more, idx + 1, fpath, w)
  {
    FirstLine(line, more);
    var text := line + "\n" + more;
    assert DIR <= line + "\n";
    assert text != "" && text[..FgetsLen(text, LINE_SIZE)] == line + "\n" && text[FgetsLen(text, LINE_SIZE)..] == more;
  }

  lemma KeepsStep(title: string, lines: string, fpath: seq<string>, w: World)
    requires title == TITLE
    ensures Keeps(title + "\n" + lines, fpath, w) <==> HeaderAgrees(lines, 0, fpath, w)
  {
    assert '\n' !in title && |title| == 22;
    FirstLine(title, lines);
    var text := title + "\n" + lines;
    assert title <= title + "\n";
    var n := FgetsLen(text, LINE_SIZE);
    assert text != "" && text[..n] == title + "\n" && text[n..] == lines;
  }

  /** Only a file that begins with the title is kept, and the title alone serves the empty fpath. */
  lemma TitleIff(content: string, fpath: seq<string>, w: World)
    ensures Keeps(content, fpath, w) ==> TITLE <= content
    ensures Keeps(TITLE, fpath, w) <==> fpath == []
  {
    FgetsStarts(TITLE, content, LINE_SIZE);
    TitleAlone(TITLE, fpath, w);
  }

  lemma TitleAlone(title: string, fpath: seq<string>, w: World)
    requires title == TITLE
    ensures Keeps(title, fpath, w) <==> fpath == []
  {
    assert '\n' !in title && |title| == 22;
    FgetsStarts(title, title, LINE_SIZE);
    var n := FgetsLen(title, LINE_SIZE);
    assert n == |title|;
    assert title[..n] == title && title[n..] == "";
  }

  /** A directory that was written in this way reads as one that is there now. */
  predicate ReadsAs(name: string, mtime: int, now: string, mtimeNow: int) {
    var r := ReadName(name, PrintInt(mtime));
    r.Some? && r.value.0 == now && ParseLong(r.value.1) == Some(mtimeNow)
  }

  predicate ReadsAt(f1: seq<string>, w1: World, f2: seq<string>, w2: World, j: nat) {
    j < |f1| && j < |f2| && ReadsAs(f1[j], w1.Mtime(f1[j]), f2[j], w2.Mtime(f2[j]))
  }

  /** Which of the written directories read as the ones that are there now. */
  function Flags(f1: seq<string>, w1: World, f2: seq<string>, w2: World): (flags: seq<bool>)
    ensures |flags| == |f1| && forall j :: 0 <= j < |f1| ==> flags[j] == ReadsAt(f1, w1, f2, w2, j)
  {
    seq(|f1|, j requires 0 <= j < |f1| => ReadsAt(f1, w1, f2, w2, j))
  }

  predicate AllFrom(flags: seq<bool>, i: nat)
    decreases |flags| - i
  {
    i >= |flags| || (flags[i] && AllFrom(flags, i + 1))
  }

  lemma {:induction false} AllFromIff(flags: seq<bool>, i: nat)
    requires i <= |flags|
    ensures AllFrom(flags, i) <==> forall j :: i <= j < |flags| ==> flags[j]
    decreases |flags| - i
  {
    if i < |flags| {
      AllFromIff(flags, i + 1);
    }
  }

  lemma HeaderOfReading(h: Header, r: Option<(string, string)>, i: nat, f: seq<string>, w: World)
    requires i <= LONG_MAX && h == match r case None => NoHeader case Some(pm) => Header("dir", PrintInt(i), pm.0, pm.1)
    ensures HeaderIs(h, i, f, w)
       <==> r.Some? && i < |f| && r.value.0 == f[i] && ParseLong(r.value.1) == Some(w.Mtime(f[i]))
  {
    ParseLongInvertsPrinting(i);
  }

  lemma LineReads(i: nat, f1: seq<string>, w1: World, f2: seq<string>, w2: World)
    requires InBuffer(f1, w1) && i < |f1|
    ensures LineAgrees(DirBody(i, f1[i], w1.Mtime(f1[i])) + "\n", i, f2, w2) <==> ReadsAt(f1, w1, f2, w2, i)
  {
    HeaderReads(i, f1[i], w1.Mtime(f1[i]));
    var mtime := w1.Mtime(f1[i]);
    HeaderOfReading(ScanHeader(DirBody(i, f1[i], mtime) + "\n"), ReadName(f1[i], PrintInt(mtime)), i, f2, w2);
  }

  /** Written header lines agree with another `$fpath` exactly when the remaining directories read as those that
      are there now, and what follows them agrees. */
  lemma {:induction false} DirLinesAgree(f1: seq<string>, w1: World, rest: string, i: nat, f2: seq<string>, w2: World,
                                         flags: seq<bool>)
    requires InBuffer(f1, w1) && OneLineEach(f1) && i <= |f1| && flags == Flags(f1, w1, f2, w2)
    ensures HeaderAgrees(DirLines(f1, i, w1, rest), i, f2, w2)
       <==> AllFrom(flags, i) && HeaderAgrees(rest, |f1|, f2, w2)
    decreases |f1| - i
  {
    if i < |f1| {
      var line := DirBody(i, f1[i], w1.Mtime(f1[i]));
      var more := DirLines(f1, i + 1, w1, rest);
      DirLineClean(i, f1[i], w1.Mtime(f1[i]));
      HeaderAgreesStep(line, more, i, f2, w2);
      LineReads(i, f1, w1, f2, w2);
      DirLinesAgree(f1, w1, rest, i + 1, f2, w2, flags);
    }
  }

  /** What follows the header lines ends the header, unless it begins like another header line. */
  predicate RestAgrees(rest: string, n: nat, f: seq<string>, w: World) {
    if DIR <= rest then HeaderAgrees(rest, n, f, w) else n == |f|
  }

  lemma RestAgreesIff(rest: string, n: nat, f: seq<string>, w: World)
    ensures HeaderAgrees(rest, n, f, w) <==> RestAgrees(rest, n, f, w)
    ensures DIR <= rest && RestAgrees(rest, n, f, w) ==> n < |f|
  {
    if rest != "" {
      DirPrefixSurvivesFgets(rest);
    }
  }

  /** The lines after the header. */
  function Rest(f: seq<string>, w: World, preload: bool): string { if preload then "" else Functions(f, w) }

  /** Exactly when an index is kept: the directories that were written read, one by one, as those of now, and
      what follows them does not begin like a header line, or agrees as well. */
  lemma SkipIffReadsAs(f1: seq<string>, w1: World, preload: bool, f2: seq<string>, w2: World)
    requires InBuffer(f1, w1) && OneLineEach(f1)
    ensures Keeps(IndexText(f1, w1, preload), f2, w2)
       <==> (forall j :: 0 <= j < |f1| ==> ReadsAt(f1, w1, f2, w2, j))
            && RestAgrees(Rest(f1, w1, preload), |f1|, f2, w2)
  {
    var rest := Rest(f1, w1, preload);
    KeepsStep(TITLE, DirLines(f1, 0, w1, rest), f2, w2);
    var flags := Flags(f1, w1, f2, w2);
    DirLinesAgree(f1, w1, rest, 0, f2, w2, flags);
    AllFromIff(flags, 0);
    RestAgreesIff(rest, |f1|, f2, w2);
  }

  lemma BareReads(f1: seq<string>, w1: World, f2: seq<string>, w2: World, j: nat)
    requires Fits(f1, w1) && j < |f1| && j < |f2|
    ensures ReadsAt(f1, w1, f2, w2, j) <==> f1[j] == f2[j] && w1.Mtime(f1[j]) == w2.Mtime(f2[j])
  {
    BareName(f1[j], PrintInt(w1.Mtime(f1[j])));
    ParseLongInvertsPrinting(w1.Mtime(f1[j]));
  }

  /** The directories that were written are the first ones now, with their mtimes. */
  predicate SnapshotBegins(f1: seq<string>, w1: World, f2: seq<string>, w2: World) {
    Snapshot(f1, w1) <= Snapshot(f2, w2)
  }

  lemma SnapshotBeginsIff(f1: seq<string>, w1: World, f2: seq<string>, w2: World)
    ensures SnapshotBegins(f1, w1, f2, w2)
       <==> |f1| <= |f2| && forall j: nat :: j < |f1| ==> f1[j] == f2[j] && w1.Mtime(f1[j]) == w2.Mtime(f2[j])
    ensures Snapshot(f1, w1) == Snapshot(f2, w2) <==> SnapshotBegins(f1, w1, f2, w2) && |f1| == |f2|
  {
    var s1, s2 := Snapshot(f1, w1), Snapshot(f2, w2);
    if s1 <= s2 {
      forall j: nat | j < |f1|
        ensures f1[j] == f2[j] && w1.Mtime(f1[j]) == w2.Mtime(f2[j])
      {
        assert s1[j] == s2[j];
      }
    }
  }

  /** Skipping is sound and complete for names without white space: a written index is kept exactly when the
      ordered list of directories and mtimes is unchanged. When a function line begins like a header line, it is
      kept exactly when the function lines agree with directories that are new at the end. */
  lemma SkipIffUnchanged(f1: seq<string>, w1: World, preload: bool, f2: seq<string>, w2: World)
    requires Fits(f1, w1)
    ensures Keeps(IndexText(f1, w1, preload), f2, w2)
       <==> if DIR <= Rest(f1, w1, preload)
            then SnapshotBegins(f1, w1, f2, w2) && HeaderAgrees(Functions(f1, w1), |f1|, f2, w2)
            else Snapshot(f1, w1) == Snapshot(f2, w2)
  {
    SkipIffReadsAs(f1, w1, preload, f2, w2);
    SnapshotBeginsIff(f1, w1, f2, w2);
    RestAgreesIff(Rest(f1, w1, preload), |f1|, f2, w2);
    if |f1| <= |f2| {
      AllReadIff(f1, w1, f2, w2);
    } else {
      assert !ReadsAt(f1, w1, f2, w2, |f1| - 1);
    }
  }

  lemma AllReadIff(f1: seq<string>, w1: World, f2: seq<string>, w2: World)
    requires Fits(f1, w1) && |f1| <= |f2|
    ensures (forall j :: 0 <= j < |f1| ==> ReadsAt(f1, w1, f2, w2, j)) <==> SnapshotBegins(f1, w1, f2, w2)
  {
    SnapshotBeginsIff(f1, w1, f2, w2);
    forall j | 0 <= j < |f1|
      ensures ReadsAt(f1, w1, f2, w2, j) <==> f1[j] == f2[j] && w1.Mtime(f1[j]) == w2.Mtime(f2[j])
    {
      BareReads(f1, w1, f2, w2, j);
    }
  }

  /** An index is rebuilt when stat now gives another mtime for one of its directories, or when one of them has come
      or gone, unless its mtime was or is -1. */
  lemma ChangeNoticed(f: seq<string>, w1: World, preload: bool, w2: World, j: nat)
    requires Fits(f, w1) && j < |f|
    requires
      || (f[j] in w1.mtimes && f[j] in w2.mtimes && w1.mtimes[f[j]] != w2.mtimes[f[j]])
      || (f[j] in w1.mtimes && f[j] !in w2.mtimes && w1.mtimes[f[j]] != -1)
      || (f[j] !in w1.mtimes && f[j] in w2.mtimes && w2.mtimes[f[j]] != -1)
    ensures !Keeps(IndexText(f, w1, preload), f, w2)
  {
    SkipIffUnchanged(f, w1, preload, f, w2);
    assert Snapshot(f, w1)[j] != Snapshot(f, w2)[j];
  }

  lemma ScannedPathIsBare(line: string)
    ensures ScanHeader(line).Header? ==> Bare(ScanHeader(line).path)
  {
  }

  /** A directory with white space in its name never agrees: sscanf reads only a part of the name. */
  lemma AgreeingIsBare(text: string, idx: nat, fpath: seq<string>, w: World)
    requires DIR <= text && HeaderAgrees(text, idx, fpath, w)
    ensures idx < |fpath| && Bare(fpath[idx])
  {
    DirPrefixSurvivesFgets(text);
    var line := text[..FgetsLen(text, LINE_SIZE)];
    assert LineAgrees(line, idx, fpath, w);
    ScannedPathIsBare(line);
  }

  lemma {:induction false} OnlyBareAgrees(f: seq<string>, w: World, rest: string, i: nat, j: nat)
    requires i <= j < |f| && InBuffer(f, w) && HeaderAgrees(DirLines(f, i, w, rest), i, f, w)
    ensures Bare(f[j])
    decreases j - i
  {
    var line, more := DirBody(i, f[i], w.Mtime(f[i])), DirLines(f, i + 1, w, rest);
    BeginsWithDir(i, f[i], w.Mtime(f[i]), more);
    AgreeingIsBare(line + "\n" + more, i, f, w);
    if i < j {
      BareIsOneLine(f[i]);
      DirLineClean(i, f[i], w.Mtime(f[i]));
      HeaderAgreesStep(line, more, i, f, w);
      OnlyBareAgrees(f, w, rest, i + 1, j);
    }
  }

  lemma BareIsOneLine(word: string)
    requires Bare(word)
    ensures '\n' !in word
  {
  }

  lemma BeginsWithDir(i: nat, dir: string, mtime: int, more: string)
    ensures DIR <= DirBody(i, dir, mtime) + "\n" + more
  {
    assert DIR <= DirBody(i, dir, mtime);
  }

  /** Right after it was written, an index is kept exactly when no directory has white space in its name and
      the function lines do not begin like a header line. */
  lemma KeptAtOnceIff(fpath: seq<string>, w: World, preload: bool)
    requires InBuffer(fpath, w)
    ensures Keeps(IndexText(fpath, w, preload), fpath, w) <==> AllBare(fpath) && !(DIR <= Rest(fpath, w, preload))
  {
    var rest := Rest(fpath, w, preload);
    KeepsStep(TITLE, DirLines(fpath, 0, w, rest), fpath, w);
    RestAgreesIff(rest, |fpath|, fpath, w);
    if AllBare(fpath) {
      SkipIffUnchanged(fpath, w, preload, fpath, w);
    } else if HeaderAgrees(DirLines(fpath, 0, w, rest), 0, fpath, w) {
      forall j | 0 <= j < |fpath|
        ensures Bare(fpath[j])
      {
        OnlyBareAgrees(fpath, w, rest, 0, j);
      }
    }
  }

  /** An index can be trusted, which is to say that it is kept for the unchanged list and for no other, exactly
      under the same condition. */
  lemma SkipIsExactIff(f: seq<string>, w: World, preload: bool)
    requires InBuffer(f, w)
    ensures (forall f2, w2 :: Keeps(IndexText(f, w, preload), f2, w2) <==> Snapshot(f, w) == Snapshot(f2, w2))
       <==> AllBare(f) && !(DIR <= Rest(f, w, preload))
  {
    KeptAtOnceIff(f, w, preload);
    if AllBare(f) && !(DIR <= Rest(f, w, preload)) {
      forall f2, w2
        ensures Keeps(IndexText(f, w, preload), f2, w2) <==> Snapshot(f, w) == Snapshot(f2, w2)
      {
        SkipIffUnchanged(f, w, preload, f2, w2);
      }
    } else {
      assert !(Keeps(IndexText(f, w, preload), f, w) <==> Snapshot(f, w) == Snapshot(f, w));
    }
  }

  /** Why the names must be bare, and which others can be confused: the index of a directory of two words is kept
      for another directory exactly when that is the first word, and the second, as far as 23 characters go, is a
      strict decimal equal to its mtime, if no function line begins like a header line. */
  lemma SpacedNameConfusedIff(first: string, second: string, w1: World, preload: bool, d: string, w2: World)
    requires Bare(first) && Bare(second) && InBuffer([first + " " + second], w1)
    ensures Keeps(IndexText([first + " " + second], w1, preload), [d], w2)
       <==> d == first && ParseLong(second[..Min(|second|, 23)]) == Some(w2.Mtime(d))
            && !(DIR <= Rest([first + " " + second], w1, preload))
  {
    var name := first + " " + second;
    assert |first| <= |name|;
    NameFits(name, w1);
    BareIsOneLine(first);
    BareIsOneLine(second);
    TwoWords(first, second, PrintInt(w1.Mtime(name)));
    OneDirectoryIff(name, w1, preload, d, w2);
  }

  lemma NameFits(name: string, w: World)
    requires InBuffer([name], w)
    ensures |name| <= 2047
  {
    assert |DirBody(0, [name][0], w.Mtime([name][0]))| + 1 < LINE_SIZE;
  }

  lemma OneDirectoryIff(name: string, w1: World, preload: bool, d: string, w2: World)
    requires InBuffer([name], w1) && '\n' !in name
    ensures Keeps(IndexText([name], w1, preload), [d], w2)
       <==> ReadsAs(name, w1.Mtime(name), d, w2.Mtime(d)) && !(DIR <= Rest([name], w1, preload))
  {
    var f1, f2 := [name], [d];
    SkipIffReadsAs(f1, w1, preload, f2, w2);
    RestAgreesIff(Rest(f1, w1, preload), 1, f2, w2);
    assert ReadsAt(f1, w1, f2, w2, 0) <==> ReadsAs(name, w1.Mtime(name), d, w2.Mtime(d));
  }

  // ---------------------------------------------------------------- a kept index is a current one

  /** A directory whose mtime did not change lists the same names in the same order. */
  ghost predicate ListingsFollowMtimes(w1: World, w2: World) {
    forall d :: (if d in w1.mtimes then w1.mtimes[d] else -1) == (if d in w2.mtimes then w2.mtimes[d] else -1) ==>
      (d in w1.listings <==> d in w2.listings) && (d in w1.listings ==> w1.listings[d] == w2.listings[d])
  }

  lemma {:induction false} SameSnapshotSameFunctions(f: seq<string>, w1: World, w2: World)
    requires ListingsFollowMtimes(w1, w2)
    requires forall d :: d in f ==> w1.Mtime(d) == w2.Mtime(d)
    ensures Functions(f, w1) == Functions(f, w2)
  {
    if f != [] {
      SameSnapshotSameFunctions(f[..|f| - 1], w1, w2);
      assert f[|f| - 1] in f;
    }
  }

  lemma {:induction false} SameSnapshotSameHeader(f: seq<string>, i: nat, w1: World, w2: World, rest: string)
    requires i <= |f| && forall j :: 0 <= j < |f| ==> w1.Mtime(f[j]) == w2.Mtime(f[j])
    ensures DirLines(f, i, w1, rest) == DirLines(f, i, w2, rest)
    decreases |f| - i
  {
    if i < |f| {
      SameSnapshotSameHeader(f, i + 1, w1, w2, rest);
    }
  }

  /** Reuse equals recompute: an index that a later run keeps is the one that run would have written, for the same
      directories, exactly when the function lines are still the same and do not begin like a header line. */
  lemma KeptIsCurrentIff(f1: seq<string>, w1: World, f2: seq<string>, w2: World)
    requires Fits(f1, w1) && Keeps(IndexText(f1, w1, false), f2, w2)
    ensures f1 == f2 && IndexText(f1, w1, false) == IndexText(f2, w2, false)
       <==> Functions(f1, w1) == Functions(f1, w2) && !(DIR <= Functions(f1, w1))
  {
    SkipIffUnchanged(f1, w1, false, f2, w2);
    SnapshotBeginsIff(f1, w1, f2, w2);
    RestAgreesIff(Functions(f1, w1), |f1|, f2, w2);
    if !(DIR <= Functions(f1, w1)) {
      assert f1 == f2;
      SameHeaderIff(f1, w1, w2);
    }
  }

  lemma SameHeaderIff(f: seq<string>, w1: World, w2: World)
    requires forall j :: 0 <= j < |f| ==> w1.Mtime(f[j]) == w2.Mtime(f[j])
    ensures IndexText(f, w1, false) == IndexText(f, w2, false) <==> Functions(f, w1) == Functions(f, w2)
  {
    SameSnapshotSameHeader(f, 0, w1, w2, "");
    DirLinesAppend(f, 0, w1, Functions(f, w1));
    DirLinesAppend(f, 0, w2, Functions(f, w2));
    CancelFront(TITLE + "\n" + DirLines(f, 0, w1, ""), Functions(f, w1), Functions(f, w2));
    Assoc(TITLE + "\n", DirLines(f, 0, w1, ""), Functions(f, w1));
    Assoc(TITLE + "\n", DirLines(f, 0, w1, ""), Functions(f, w2));
  }

  /** When listings change only with mtimes, a kept index is always current. */
  lemma KeptIsCurrent(f1: seq<string>, w1: World, f2: seq<string>, w2: World)
    requires Fits(f1, w1) && ListingsFollowMtimes(w1, w2) && !(DIR <= Functions(f1, w1))
    requires Keeps(IndexText(f1, w1, false), f2, w2)
    ensures f1 == f2 && IndexText(f1, w1, false) == IndexText(f2, w2, false)
  {
    SkipIffUnchanged(f1, w1, false, f2, w2);
    SnapshotBeginsIff(f1, w1, f2, w2);
    SameSnapshotSameFunctions(f1, w1, w2);
    KeptIsCurrentIff(f1, w1, f2, w2);
  }

  /** An instance: a function that is added in the second of the build leaves the mtime as it is, and the index is
      kept without it. */
  lemma SameSecondFunctionMissed(dir: string, w1: World, name: string, w2: World)
    requires Fits([dir], w1) && dir in w1.listings && Listed(name) && !(DIR <= Functions([dir], w1))
    requires w2 == World(w1.mtimes, w1.listings[dir := w1.listings[dir] + [name]])
    ensures Keeps(IndexText([dir], w1, false), [dir], w2)
    ensures IndexText([dir], w1, false) != IndexText([dir], w2, false)
  {
    var names := w1.listings[dir];
    SkipIffUnchanged([dir], w1, false, [dir], w2);
    SnapshotBeginsIff([dir], w1, [dir], w2);
    KeptIsCurrentIff([dir], w1, [dir], w2);
    assert (names + [name])[..|names|] == names;
    assert |NameLines(names + [name], dir)| > |NameLines(names, dir)|;
    assert [dir][..0] == [];
  }

  /** An index written with --preload has no function lines, yet a later run without it keeps the file:
      that is what a rebuild would have written exactly when there is no function at all. */
  lemma PreloadedIndexIsKept(fpath: seq<string>, w: World)
    requires Fits(fpath, w)
    ensures Keeps(IndexText(fpath, w, true), fpath, w)
    ensures IndexText(fpath, w, true) == IndexText(fpath, w, false) <==> Functions(fpath, w) == ""
  {
    KeptAtOnceIff(fpath, w, true);
    DirLinesAppend(fpath, 0, w, Functions(fpath, w));
  }

  lemma {:induction false} DirLinesAppend(f: seq<string>, i: nat, w: World, rest: string)
    requires i <= |f|
    ensures DirLines(f, i, w, rest) == DirLines(f, i, w, "") + rest
    decreases |f| - i
  {
    if i < |f| {
      DirLinesAppend(f, i + 1, w, rest);
    }
  }

  /** Two runs of the command, the first one forced: the second keeps the index exactly when the ordered list of
      directories and mtimes is the same, and else writes that of the file system as it is now. */
  method IndexTwice(shell: Shell, f1: seq<string>, w1: World, preload1: bool, f2: seq<string>, w2: World,
                    preload2: bool)
    requires Fits(f1, w1) && !(DIR <= Rest(f1, w1, preload1))
    modifies shell
    ensures shell.index == Some(if Snapshot(f1, w1) == Snapshot(f2, w2) then IndexText(f1, w1, preload1)
                                else IndexText(f2, w2, preload2))
  {
    SkipIffUnchanged(f1, w1, preload1, f2, w2);
    var rc := shell.CmdFpathIndex(f1, w1, true, preload1);
    rc := shell.CmdFpathIndex(f2, w2, false, preload2);
  }
}
