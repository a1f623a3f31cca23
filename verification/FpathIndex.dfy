/** src/core/fpath.c: the fpath index and the decision to keep it. File contents are texts without NUL. */
module FpathIndex {
  import opened Text

  const LINE_SIZE: nat := 2048
  const TITLE := "# zpmod fpath-index v1"
  const DIR := "# dir "

  /** The mtime of every directory that stat finds, and the names readdir delivers for every
      directory that can be opened. */
  datatype World = World(mtimes: map<string, int>, listings: map<string, seq<string>>) {
    /** A missing directory counts as -1, when writing and when verifying. */
    function Mtime(dir: string): int {
      if dir in mtimes then mtimes[dir] else -1
    }

    ghost predicate WellTyped() {
      forall d :: d in mtimes ==> LONG_MIN <= mtimes[d] <= LONG_MAX
    }
  }

  // ------------------------------------------------------------- what a build writes

  function DirBody(i: nat, dir: string, mtime: int): string {
    DIR + PrintInt(i) + " " + dir + " " + PrintInt(mtime)
  }

  /** The header lines of the directories from `i` on, then `rest`. */
  function DirLines(fpath: seq<string>, i: nat, w: World, rest: string): string
    requires i <= |fpath|
    decreases |fpath| - i
  {
    if i == |fpath| then rest
    else DirBody(i, fpath[i], w.Mtime(fpath[i])) + "\n" + DirLines(fpath, i + 1, w, rest)
  }

  /** The title and the header lines of the first n directories. */
  function HeaderTo(fpath: seq<string>, n: nat, w: World): string
    requires n <= |fpath|
  {
    if n == 0 then TITLE + "\n"
    else HeaderTo(fpath, n - 1, w) + (DirBody(n - 1, fpath[n - 1], w.Mtime(fpath[n - 1])) + "\n")
  }

  lemma {:induction false} HeaderThenLines(fpath: seq<string>, n: nat, w: World, rest: string)
    requires n <= |fpath|
    ensures HeaderTo(fpath, n, w) + DirLines(fpath, n, w, rest) == TITLE + "\n" + DirLines(fpath, 0, w, rest)
  {
    if n > 0 {
      HeaderThenLines(fpath, n - 1, w, rest);
      var line, more := DirBody(n - 1, fpath[n - 1], w.Mtime(fpath[n - 1])) + "\n", DirLines(fpath, n, w, rest);
      MovedOver(HeaderTo(fpath, n - 1, w), line, more, HeaderTo(fpath, n, w), DirLines(fpath, n - 1, w, rest));
    }
  }

  lemma MovedOver(front: string, line: string, more: string, longer: string, tail: string)
    requires longer == front + line && tail == line + more
    ensures longer + more == front + tail
  {
    Assoc(front, line, more);
  }

  predicate Listed(name: string) { name != "" && name[0] != '.' && name[0] != '_' }

  function NameLines(names: seq<string>, dir: string): string {
    if names == [] then ""
    else
      var name := names[|names| - 1];
      NameLines(names[..|names| - 1], dir) + if Listed(name) then name + " " + dir + "/" + name + "\n" else ""
  }

  function Functions(fpath: seq<string>, w: World): string {
    if fpath == [] then ""
    else
      var dir := fpath[|fpath| - 1];
      Functions(fpath[..|fpath| - 1], w) + if dir in w.listings then NameLines(w.listings[dir], dir) else ""
  }

  /** The index of a build; with --preload no function lines are written. */
  function IndexText(fpath: seq<string>, w: World, preload: bool): string {
    TITLE + "\n" + DirLines(fpath, 0, w, if preload then "" else Functions(fpath, w))
  }

  /** The lines of a directory are those of its names. */
  lemma {:induction false} NameLinesAppend(a: seq<string>, b: seq<string>, dir: string)
    ensures NameLines(a + b, dir) == NameLines(a, dir) + NameLines(b, dir)
  {
    if b == [] {
      assert a + b == a;
    } else {
      var front, last := b[..|b| - 1], b[|b| - 1];
      LastOfBoth(a, b);
      NameLinesAppend(a, front, dir);
      Assoc(NameLines(a, dir), NameLines(front, dir),
            if Listed(last) then last + " " + dir + "/" + last + "\n" else "");
    }
  }

  /** A line for every name, but for hidden ones and those that begin with an underscore. */
  lemma NameLinesOne(name: string, dir: string)
    ensures NameLines([name], dir)
         == if name != "" && name[0] != '.' && name[0] != '_' then name + " " + dir + "/" + name + "\n" else ""
  {
    assert [name][..0] == [];
  }

  /** The function lines are those of the directories in the order of the fpath. */
  lemma {:induction false} FunctionsAppend(a: seq<string>, b: seq<string>, w: World)
    ensures Functions(a + b, w) == Functions(a, w) + Functions(b, w)
  {
    if b == [] {
      assert a + b == a;
    } else {
      var front, last := b[..|b| - 1], b[|b| - 1];
      LastOfBoth(a, b);
      FunctionsAppend(a, front, w);
      Assoc(Functions(a, w), Functions(front, w), if last in w.listings then NameLines(w.listings[last], last) else "");
    }
  }

  lemma FunctionsOne(dir: string, w: World)
    ensures Functions([dir], w) == if dir in w.listings then NameLines(w.listings[dir], dir) else ""
  {
    assert [dir][..0] == [];
  }

  /** The header: a title, and for each directory its number, its name and what stat says of its mtime, or -1. */
  lemma HeaderIsWritten(fpath: seq<string>, i: nat, w: World)
    requires i < |fpath|
    ensures HeaderTo(fpath, 0, w) == "# zpmod fpath-index v1\n"
    ensures HeaderTo(fpath, i + 1, w)
         == HeaderTo(fpath, i, w) + ("# dir " + PrintInt(i) + " " + fpath[i] + " "
                                     + PrintInt(if fpath[i] in w.mtimes then w.mtimes[fpath[i]] else -1) + "\n")
  {
  }

  // ------------------------------------------------------------- what a verification reads

  datatype Word = NoWord | Word(text: string, rest: string)

  function WordRun(s: string): (n: nat)
    ensures n <= |s| && (n < |s| ==> IsSpace(s[n]))
    ensures forall i :: 0 <= i < n ==> !IsSpace(s[i])
  {
    if s == "" || IsSpace(s[0]) then 0 else 1 + WordRun(s[1..])
  }

  /** sscanf's %<width>s: white space is skipped, then at most `width` other characters are stored. */
  function ScanWord(s: string, width: nat): Word {
    TakeWord(s[SpaceRun(s)..], width)
  }

  function TakeWord(s: string, width: nat): Word {
    var n := Min(WordRun(s), width);
    if n == 0 then NoWord else Word(s[..n], s[n..])
  }

  datatype Header = NoHeader | Header(tag: string, index: string, path: string, mtime: string)

  /** sscanf(line, "# %7s %23s %2047s %23s"). */
  function ScanHeader(line: string): Header {
    if line == "" || line[0] != '#' then NoHeader
    else
      var tag := ScanWord(line[1..], 7);
      if tag.NoWord? then NoHeader
      else
        var index := ScanWord(tag.rest, 23);
        if index.NoWord? then NoHeader
        else
          var path := ScanWord(index.rest, 2047);
          if path.NoWord? then NoHeader
          else
            var mtime := ScanWord(path.rest, 23);
            if mtime.NoWord? then NoHeader else Header(tag.text, index.text, path.text, mtime.text)
  }

  /** One header line agrees with the directory that `$fpath` has now at this index. */
  predicate LineAgrees(line: string, idx: nat, fpath: seq<string>, w: World) {
    HeaderIs(ScanHeader(line), idx, fpath, w)
  }

  predicate HeaderIs(h: Header, idx: nat, fpath: seq<string>, w: World) {
    h.Header? && ParseLong(h.index).Some? && ParseLong(h.mtime).Some?
    && h.tag == "dir" && ParseLong(h.index).value == idx
    && idx < |fpath| && fpath[idx] == h.path && w.Mtime(fpath[idx]) == ParseLong(h.mtime).value
  }

  /** The header section from the idx-th directory on is exactly that of the current `$fpath`. */
  predicate HeaderAgrees(content: string, idx: nat, fpath: seq<string>, w: World)
    decreases |content|
  {
    if content == "" then idx == |fpath|
    else
      var n := FgetsLen(content, LINE_SIZE);
      if !(DIR <= content[..n]) then idx == |fpath|
      else LineAgrees(content[..n], idx, fpath, w) && HeaderAgrees(content[n..], idx + 1, fpath, w)
  }

  /** The decision to keep an index file. */
  predicate Keeps(content: string, fpath: seq<string>, w: World) {
    content != ""
    && var n := FgetsLen(content, LINE_SIZE);
       TITLE <= content[..n] && HeaderAgrees(content[n..], 0, fpath, w)
  }

  /** The verification loop of cmd_fpath_index. */
  method Verify(content: string, fpath: seq<string>, w: World) returns (skip: bool)
    ensures skip == Keeps(content, fpath, w)
  {
    if content == "" {
      return false;
    }
    var n := FgetsLen(content, LINE_SIZE);
    if !(TITLE <= content[..n]) {
      return false;
    }
    var idx, headerOk := 0, true;
    var rest := content[n..];
    while rest != ""
      invariant headerOk && HeaderAgrees(content[n..], 0, fpath, w) == HeaderAgrees(rest, idx, fpath, w)
      decreases |rest|
    {
      var k := FgetsLen(rest, LINE_SIZE);
      var line := rest[..k];
      if !(DIR <= line) {
        break;
      }
      var h := ScanHeader(line);
      if h.NoHeader? || ParseLong(h.index).None? || ParseLong(h.mtime).None? {
        return false;
      }
      if h.tag != "dir" || ParseLong(h.index).value != idx {
        return false;
      }
      if idx >= |fpath| || fpath[idx] != h.path {
        return false;
      }
      var current := -1;
      if fpath[idx] in w.mtimes {
        current := w.mtimes[fpath[idx]];
      }
      if current != ParseLong(h.mtime).value {
        return false;
      }
      idx := idx + 1;
      rest := rest[k..];
    }
    return headerOk && idx == |fpath|;
  }

  // ------------------------------------------------------------- the command

  /** The stubs --preload puts in the function table: the first directory that lists a name wins. */
  function NameStubs(tab: map<string, string>, names: seq<string>, dir: string): map<string, string> {
    if names == [] then tab
    else
      var before, name := NameStubs(tab, names[..|names| - 1], dir), names[|names| - 1];
      if Listed(name) && name !in before then before[name := dir] else before
  }

  function Stubs(tab: map<string, string>, fpath: seq<string>, w: World): map<string, string> {
    if fpath == [] then tab
    else
      var before, dir := Stubs(tab, fpath[..|fpath| - 1], w), fpath[|fpath| - 1];
      if dir in w.listings then NameStubs(before, w.listings[dir], dir) else before
  }

  lemma {:induction false} NameStubsAre(tab: map<string, string>, names: seq<string>, dir: string, name: string)
    ensures var after := NameStubs(tab, names, dir);
            && (name in after <==>
                  name in tab || (name in names && name != "" && name[0] != '.' && name[0] != '_'))
            && (name in after ==> after[name] == if name in tab then tab[name] else dir)
  {
    if names != [] {
      NameStubsAre(tab, names[..|names| - 1], dir, name);
      NameStubsAre(tab, names[..|names| - 1], dir, names[|names| - 1]);
      assert names == names[..|names| - 1] + [names[|names| - 1]];
    }
  }

  /** A directory that offers a function. */
  predicate Offers(dir: string, name: string, w: World) {
    dir in w.listings && name in w.listings[dir] && name != "" && name[0] != '.' && name[0] != '_'
  }

  /** With --preload every function that a directory offers gets a stub, unless there is one of its name; the first
      directory that offers it wins. */
  lemma {:induction false} StubsAre(tab: map<string, string>, fpath: seq<string>, w: World, name: string)
    ensures var after := Stubs(tab, fpath, w);
            && (name in after <==> name in tab || exists j :: 0 <= j < |fpath| && Offers(fpath[j], name, w))
            && (name in tab ==> after[name] == tab[name])
            && (name in after && name !in tab ==>
                  exists j :: 0 <= j < |fpath| && after[name] == fpath[j] && Offers(fpath[j], name, w)
                              && forall i :: 0 <= i < j ==> !Offers(fpath[i], name, w))
  {
    if fpath != [] {
      var front, last := fpath[..|fpath| - 1], fpath[|fpath| - 1];
      StubsAre(tab, front, w, name);
      assert fpath == front + [last];
      if last in w.listings {
        NameStubsAre(Stubs(tab, front, w), w.listings[last], last, name);
      }
      if name in Stubs(tab, fpath, w) && name !in Stubs(tab, front, w) {
        assert Offers(fpath[|front|], name, w) && forall i :: 0 <= i < |front| ==> fpath[i] == front[i];
      } else if j :| 0 <= j < |front| && Offers(front[j], name, w) {
        assert Offers(fpath[j], name, w);
      }
    }
  }

  class Shell {
    var index: Option<string>
    var shfunctab: map<string, string>

    constructor (file: Option<string>, tab: map<string, string>)
      ensures index == file && shfunctab == tab
    {
      index, shfunctab := file, tab;
    }

    /** One directory of the scan: the lines for the index, or the stubs. */
    method ScanDirectory(names: seq<string>, dir: string, preload: bool) returns (lines: string)
      modifies this`shfunctab
      ensures lines == if preload then "" else NameLines(names, dir)
      ensures shfunctab == if preload then NameStubs(old(shfunctab), names, dir) else old(shfunctab)
    {
      lines := "";
      for i := 0 to |names|
        invariant lines == if preload then "" else NameLines(names[..i], dir)
        invariant shfunctab == if preload then NameStubs(old(shfunctab), names[..i], dir) else old(shfunctab)
      {
        assert names[..i + 1][..i] == names[..i];
        if names[i] == "" || names[i][0] == '.' || names[i][0] == '_' {
          continue;
        }
        if preload && names[i] !in shfunctab {
          shfunctab := shfunctab[names[i] := dir];
        }
        if !preload {
          lines := lines + (names[i] + " " + dir + "/" + names[i] + "\n");
        }
      }
      assert names[..|names|] == names;
    }

    method ScanAll(fpath: seq<string>, w: World, preload: bool) returns (lines: string)
      modifies this`shfunctab
      ensures lines == if preload then "" else Functions(fpath, w)
      ensures shfunctab == if preload then Stubs(old(shfunctab), fpath, w) else old(shfunctab)
    {
      lines := "";
      for i := 0 to |fpath|
        invariant lines == if preload then "" else Functions(fpath[..i], w)
        invariant shfunctab == if preload then Stubs(old(shfunctab), fpath[..i], w) else old(shfunctab)
      {
        assert fpath[..i + 1][..i] == fpath[..i];
        if fpath[i] !in w.listings {
          continue;
        }
        var more := ScanDirectory(w.listings[fpath[i]], fpath[i], preload);
        lines := lines + more;
      }
      assert fpath[..|fpath|] == fpath;
    }

    /** The header lines, one per directory. */
    method WriteHeader(fpath: seq<string>, w: World) returns (text: string)
      ensures text == HeaderTo(fpath, |fpath|, w)
    {
      text := TITLE + "\n";
      for i := 0 to |fpath|
        invariant text == HeaderTo(fpath, i, w)
      {
        var mt := -1;
        if fpath[i] in w.mtimes {
          mt := w.mtimes[fpath[i]];
        }
        text := text + (DIR + PrintInt(i) + " " + fpath[i] + " " + PrintInt(mt) + "\n");
      }
    }

    /** cmd_fpath_index with --out, when the output can be opened: an index that agrees is kept, anything
        else is rebuilt. With --preload the stubs are the same either way. */
    method CmdFpathIndex(fpath: seq<string>, w: World, rebuild: bool, preload: bool) returns (rc: int)
      modifies this
      ensures rc == 0
      ensures index == if !rebuild && old(index).Some? && Keeps(old(index).value, fpath, w) then old(index)
                       else Some(IndexText(fpath, w, preload))
      ensures shfunctab == if preload then Stubs(old(shfunctab), fpath, w) else old(shfunctab)
    {
      if !rebuild && index.Some? {
        var skip := Verify(index.value, fpath, w);
        if skip {
          if preload {
            var _ := ScanAll(fpath, w, true);
          }
          return 0;
        }
      }
      var text := WriteHeader(fpath, w);
      var lines := ScanAll(fpath, w, preload);
      HeaderThenLines(fpath, |fpath|, w, lines);
      index := Some(text + lines);
      return 0;
    }
  }
}
