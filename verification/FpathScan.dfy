/** src/core/fpath.c: what sscanf reads from a header line that was written. */
module FpathScan {
  import opened Text
  import opened FpathIndex

  /** A word for sscanf: not empty and free of white space. */
  ghost predicate Bare(word: string) {
    word != "" && forall c :: c in word ==> !IsSpace(c)
  }

  lemma PrintedWord(i: int)
    requires LONG_MIN <= i <= LONG_MAX
    ensures |PrintInt(i)| <= 20 && Bare(PrintInt(i))
  {
    PrintedLong(i);
  }

  // ---------------------------------------------------------------- one word

  lemma {:induction false} WordRunAppend(word: string, tail: string)
    requires forall c :: c in word ==> !IsSpace(c)
    requires tail != "" ==> IsSpace(tail[0])
    ensures WordRun(word + tail) == |word|
  {
    if word == "" {
      assert word + tail == tail;
    } else {
      assert (word + tail)[1..] == word[1..] + tail;
      WordRunAppend(word[1..], tail);
    }
  }

  lemma ScanWordReadsBack(word: string, tail: string, width: nat)
    requires Bare(word) && |word| <= width
    requires tail != "" ==> IsSpace(tail[0])
    ensures ScanWord(" " + word + tail, width) == Word(word, tail)
  {
    var s := " " + word + tail;
    assert s[1..] == word + tail;
    assert s[1] == word[0];
    assert SpaceRun(s[1..]) == 0;
    WordRunAppend(word, tail);
    assert (word + tail)[..|word|] == word && (word + tail)[|word|..] == tail;
  }

  lemma {:induction false} SpaceRunAppend(s: string, tail: string)
    ensures SpaceRun(s + tail) == if SpaceRun(s) < |s| then SpaceRun(s) else |s| + SpaceRun(tail)
  {
    if s == "" {
      assert s + tail == tail;
    } else {
      assert (s + tail)[1..] == s[1..] + tail;
      SpaceRunAppend(s[1..], tail);
    }
  }

  lemma {:induction false} WordRunStops(s: string, tail: string)
    requires tail != "" && IsSpace(tail[0])
    ensures WordRun(s + tail) == WordRun(s)
  {
    if s == "" {
      assert s + tail == tail;
    } else {
      assert (s + tail)[1..] == s[1..] + tail;
      WordRunStops(s[1..], tail);
    }
  }

  lemma DropAppend(s: string, tail: string, k: nat)
    requires k <= |s|
    ensures (s + tail)[k..] == s[k..] + tail && (s + tail)[..k] == s[..k]
  {
  }

  lemma DropPast(s: string, tail: string, k: nat)
    requires k <= |tail|
    ensures (s + tail)[|s| + k..] == tail[k..]
  {
  }

  /** A word is found in a text as before when something that begins with white space is appended; without one,
      it is found in what was appended. */
  lemma ScanAppend(s: string, tail: string, width: nat)
    requires tail != "" && IsSpace(tail[0]) && width > 0
    ensures var w := ScanWord(s, width);
            ScanWord(s + tail, width) == if w.Word? then Word(w.text, w.rest + tail) else ScanWord(tail, width)
  {
    SpaceRunAppend(s, tail);
    if SpaceRun(s) < |s| {
      ScanFound(s, SpaceRun(s), tail, width);
    } else {
      ScanMissing(s, tail, width);
    }
  }

  lemma ScanFrom(s: string, k: nat, rest: string, width: nat)
    requires k == SpaceRun(s) && rest == s[k..]
    ensures ScanWord(s, width) == TakeWord(rest, width)
  {
  }

  lemma ScanMissing(s: string, tail: string, width: nat)
    requires SpaceRun(s) == |s| && SpaceRun(s + tail) == |s| + SpaceRun(tail)
    ensures ScanWord(s, width) == NoWord && ScanWord(s + tail, width) == ScanWord(tail, width)
  {
    var k := SpaceRun(tail);
    DropPast(s, tail, k);
    ScanFrom(s + tail, |s| + k, tail[k..], width);
    ScanFrom(tail, k, tail[k..], width);
    ScanFrom(s, |s|, "", width);
  }

  lemma ScanFound(s: string, k: nat, tail: string, width: nat)
    requires k == SpaceRun(s) < |s| && SpaceRun(s + tail) == k && tail != "" && IsSpace(tail[0]) && width > 0
    ensures var w := ScanWord(s, width); w.Word? && ScanWord(s + tail, width) == Word(w.text, w.rest + tail)
  {
    DropAppend(s, tail, k);
    TakeAppend(s[k..], tail, width);
  }

  lemma TakeAppend(t: string, tail: string, width: nat)
    requires t != "" && !IsSpace(t[0]) && tail != "" && IsSpace(tail[0]) && width > 0
    ensures var w := TakeWord(t, width); w.Word? && TakeWord(t + tail, width) == Word(w.text, w.rest + tail)
  {
    WordRunStops(t, tail);
    DropAppend(t, tail, Min(WordRun(t), width));
  }

  lemma ScanBlank(s: string, width: nat)
    ensures ScanWord(" " + s, width) == ScanWord(s, width)
  {
    var t := " " + s;
    assert t[1..] == s && SpaceRun(t) == 1 + SpaceRun(s);
    DropPast(" ", s, SpaceRun(s));
  }

  // ---------------------------------------------------------------- a whole line

  lemma Regroup(i: string, dir: string, mtime: string)
    ensures (DIR + i + " " + dir + " " + mtime + "\n")[0] == '#'
    ensures (DIR + i + " " + dir + " " + mtime + "\n")[1..]
         == " " + "dir" + (" " + i + (" " + dir + (" " + mtime + "\n")))
  {
    var last := " " + mtime + "\n";
    assert DIR + i + " " + dir + " " + mtime + "\n" == DIR + i + " " + dir + last;
    assert DIR + i + " " + dir + last == DIR + i + (" " + dir + last);
    var third := " " + dir + last;
    assert DIR == "#" + (" dir" + " ");
    assert DIR + i + third == "#" + (" dir" + (" " + i + third));
    assert " dir" == " " + "dir";
  }

  /** What sscanf takes for the path and for the mtime when a directory of this name was written. */
  function ReadName(name: string, mtime: string): Option<(string, string)> {
    var first := ScanWord(name, 2047);
    if first.NoWord? then None
    else
      var second := ScanWord(first.rest, 23);
      if second.NoWord? then Some((first.text, mtime)) else Some((first.text, second.text))
  }

  /** The two words after the index, in what follows it. */
  function PathAndMtime(s: string): Option<(string, string)> {
    var path := ScanWord(s, 2047);
    if path.NoWord? then None
    else
      var mtime := ScanWord(path.rest, 23);
      if mtime.NoWord? then None else Some((path.text, mtime.text))
  }

  lemma NameThenMtime(name: string, mtime: string)
    requires Bare(mtime) && |mtime| <= 20
    ensures PathAndMtime(" " + name + (" " + mtime + "\n")) == ReadName(name, mtime)
  {
    var tail := " " + mtime + "\n";
    assert " " + name + tail == " " + (name + tail);
    ScanBlank(name + tail, 2047);
    ScanAppend(name, tail, 2047);
    ScanWordReadsBack(mtime, "\n", 2047);
    ScanWordReadsBack(mtime, "\n", 23);
    OnlyNewline();
    var first := ScanWord(name, 2047);
    if first.Word? {
      ScanAppend(first.rest, tail, 23);
    }
  }

  lemma OnlyNewline()
    ensures ScanWord("\n", 23) == NoWord
  {
    assert "\n"[1..] == "";
  }

  lemma ScanTwo(line: string, tag: Word, index: Word, rest: string)
    requires line != "" && line[0] == '#' && tag.Word? && index.Word? && rest == index.rest
    requires ScanWord(line[1..], 7) == tag && ScanWord(tag.rest, 23) == index
    ensures ScanHeader(line) == match PathAndMtime(rest)
                                case None => NoHeader
                                case Some(pm) => Header(tag.text, index.text, pm.0, pm.1)
  {
  }

  /** What sscanf reads from the header line of any directory. */
  lemma HeaderReads(i: nat, dir: string, mtime: int)
    requires i <= LONG_MAX && LONG_MIN <= mtime <= LONG_MAX
    ensures ScanHeader(DirBody(i, dir, mtime) + "\n")
         == match ReadName(dir, PrintInt(mtime))
            case None => NoHeader
            case Some(pm) => Header("dir", PrintInt(i), pm.0, pm.1)
  {
    PrintedWord(i);
    PrintedWord(mtime);
    var i', mtime' := PrintInt(i), PrintInt(mtime);
    var third := " " + dir + (" " + mtime' + "\n");
    Regroup(i', dir, mtime');
    ScanWordReadsBack("dir", " " + i' + third, 7);
    ScanWordReadsBack(i', third, 23);
    ScanTwo(DirBody(i, dir, mtime) + "\n", Word("dir", " " + i' + third), Word(i', third), third);
    NameThenMtime(dir, mtime');
  }

  // ---------------------------------------------------------------- kinds of names

  /** A name free of white space is read as it is, with its mtime. */
  lemma BareName(name: string, mtime: string)
    requires Bare(name) && |name| <= 2047
    ensures ReadName(name, mtime) == Some((name, mtime))
  {
    ScanWordReadsBack(name, "", 2047);
    ScanBlank(name, 2047);
    assert " " + name + "" == " " + name;
  }

  /** A name of two words is read as the first, with the second, or its first 23 characters, for the mtime. */
  lemma TwoWords(first: string, second: string, mtime: string)
    requires Bare(first) && |first| <= 2047 && Bare(second)
    ensures ReadName(first + " " + second, mtime) == Some((first, second[..Min(|second|, 23)]))
  {
    assert first + " " + second == first + (" " + second);
    ScanWordReadsBack(first, "", 2047);
    ScanBlank(first, 2047);
    assert " " + first + "" == " " + first;
    ScanAppend(first, " " + second, 2047);
    assert "" + (" " + second) == " " + second;
    CutWord(second, 23);
  }

  lemma CutWord(word: string, width: nat)
    requires Bare(word) && width > 0
    ensures ScanWord(" " + word, width) == Word(word[..Min(|word|, width)], word[Min(|word|, width)..])
  {
    ScanBlank(word, width);
    WordRunAppend(word, "");
    assert word + "" == word && SpaceRun(word) == 0 && word[0..] == word;
  }

  /** White space around a name is not read. */
  lemma PaddedName(name: string, mtime: string)
    requires Bare(name) && |name| <= 2047
    ensures ReadName(" " + name, mtime) == ReadName(name + " ", mtime) == Some((name, mtime))
  {
    BareName(name, mtime);
    ScanBlank(name, 2047);
    ScanAppend(name, " ", 2047);
    ScanWordReadsBack(name, "", 2047);
    assert " " + name + "" == " " + name && "" + " " == " ";
    assert " "[1..] == "";
  }
}
