/** src/core/rehash_diff.c: the snapshot of the command path, written with fprintf and read back with
    fgets, strtok_r, strtoul and strtol. */
module RehashSnapshot {
  import opened Text
  import opened TabFields
  import opened LineFile

  const VERSION := "version:1"
  const ULONG_RANGE: nat := 0x1_0000_0000_0000_0000

  /** What stat says of a directory. */
  datatype Id = Id(ino: nat, mtime: int) {
    predicate WellTyped() {
      ino < ULONG_RANGE && LONG_MIN <= mtime <= LONG_MAX
    }
  }

  /** struct rh_entry without its mark. */
  datatype Entry = Entry(path: string, id: Id)

  /** A line without its newline. */
  function Body(e: Entry): string {
    e.path + "\t" + Tail(e)
  }

  function Tail(e: Entry): string {
    PrintNat(e.id.ino, 10) + "\t" + PrintInt(e.id.mtime)
  }

  function Line(e: Entry): string { Body(e) + "\n" }

  /** What rh_write writes. */
  function FileText(es: seq<Entry>): string {
    FileOf(VERSION, Body, es)
  }

  /** A line to the letter, and the file without entries. */
  lemma LineIs(e: Entry)
    ensures Line(e) == e.path + "\t" + (PrintNat(e.id.ino, 10) + "\t" + PrintInt(e.id.mtime)) + "\n"
    ensures FileText([]) == "version:1\n"
  {
    assert "version:1" + "\n" == "version:1\n" && "version:1\n" + "" == "version:1\n";
  }

  // ------------------------------------------------------------- reading

  /** strtoul: section 7.20.1.4 of ISO C99, in base ten. A minus sign negates modulo 2^64, and what does
      not fit becomes ULONG_MAX. */
  function Strtoul(s: string): (v: nat)
    ensures v < ULONG_RANGE
  {
    var w := SpaceRun(s);
    var neg := w < |s| && s[w] == '-';
    var p := if w < |s| && (s[w] == '-' || s[w] == '+') then w + 1 else w;
    var run := DigitRun(s[p..], 10);
    var magnitude := NatOf(s[p..][..run], 10);
    if magnitude >= ULONG_RANGE then ULONG_RANGE - 1
    else if neg then (ULONG_RANGE - magnitude) % ULONG_RANGE
    else magnitude
  }

  /** A path and two more words make an entry; further words are not looked at. */
  function ParseEntry(line: string): (es: seq<Entry>)
    ensures es != [] ==> es == [es[0]]
  {
    var words := Words(line);
    if |words| < 3 then [] else [Entry(words[0], Id(Strtoul(words[1]), Strtol(words[2], 10).value))]
  }

  function LoadLines(content: string): seq<Entry> {
    FlatMap(ParseEntry, Records(content))
  }

  function Load(content: string): Option<seq<Entry>> {
    Loaded(ParseEntry, VERSION, content)
  }

  /** rh_load. */
  method LoadSnapshot(file: Option<string>) returns (ok: bool, out: seq<Entry>)
    ensures ok <==> file.Some? && Load(file.value).Some?
    ensures out == if ok then Load(file.value).value else []
  {
    if file.None? || file.value == "" {
      return false, [];
    }
    var n := FgetsLen(file.value, LINE_SIZE);
    if !(VERSION <= file.value[..n]) {
      return false, [];
    }
    out := LoadRest(file.value[n..]);
    ok := true;
  }

  method LoadRest(content: string) returns (out: seq<Entry>)
    ensures out == LoadLines(content)
  {
    out := [];
    var rest := content;
    while rest != ""
      invariant LoadLines(content) == out + LoadLines(rest)
      decreases |rest|
    {
      var k := FgetsLen(rest, LINE_SIZE);
      var line := rest[..k];
      var found: seq<Entry> := [];
      if line[0] != '\n' && line[0] != '#' {
        found := ReadEntry(Chomp(line));
      }
      ReadStep(ParseEntry, rest, out);
      out := out + found;
      rest := rest[k..];
    }
  }

  /** One line: the three strtok_r calls find an entry exactly when the line has three words between its tabs,
      and then the first three of them are its path and its numbers. */
  method ReadEntry(line: string) returns (found: seq<Entry>)
    ensures found == [] <==> |Words(line)| < 3
    ensures found != [] ==>
              var words := Words(line);
              found == [Entry(words[0], Id(Strtoul(words[1]), Strtol(words[2], 10).value))]
  {
    StrTokTakesWord(line);
    var path := StrTok(line, '\t');
    if path.NoToken? {
      return [];
    }
    StrTokTakesWord(path.save);
    var ino := StrTok(path.save, '\t');
    if ino.NoToken? {
      return [];
    }
    StrTokTakesWord(ino.save);
    var mtime := StrTok(ino.save, '\t');
    if mtime.NoToken? {
      return [];
    }
    return [Entry(path.text, Id(Strtoul(ino.text), Strtol(mtime.text, 10).value))];
  }

  // ------------------------------------------------------------- the round trip

  predicate Storable(e: Entry) { Carried(e.path, Body(e)) }

  lemma StrtoulPrinted(n: nat)
    requires n < ULONG_RANGE
    ensures Strtoul(PrintNat(n, 10)) == n
  {
    var s := PrintNat(n, 10);
    NatOfPrintNat(n, 10);
    assert IsDigitOf(s[0], 10) && SpaceRun(s) == 0;
    WholeRun(s, 10);
    assert s[0..] == s;
  }

  /** Section 7.20.1.4 of ISO C99 on signs: a plus changes nothing, and a minus negates within 64 bits. */
  lemma StrtoulSigned(n: nat)
    requires 0 < n < 18446744073709551616
    ensures Strtoul("+" + PrintNat(n, 10)) == n && Strtoul("-" + PrintNat(n, 10)) == 18446744073709551616 - n
  {
    SignThenDigits("+" + PrintNat(n, 10), '+', PrintNat(n, 10), n);
    SignThenDigits("-" + PrintNat(n, 10), '-', PrintNat(n, 10), n);
  }

  lemma SignThenDigits(t: string, sign: char, s: string, n: nat)
    requires 0 < n < 18446744073709551616 && s == PrintNat(n, 10) && t == [sign] + s && (sign == '+' || sign == '-')
    ensures Strtoul(t) == if sign == '-' then 18446744073709551616 - n else n
  {
    NatOfPrintNat(n, 10);
    WholeRun(s, 10);
    assert t[1..] == s && SpaceRun(t) == 0 && s[..|s|] == s;
  }

  /** The numbers of a line are fields. */
  lemma NumbersAreFields(e: Entry)
    ensures var ino, mtime := PrintNat(e.id.ino, 10), PrintInt(e.id.mtime);
            Field(ino) && Field(mtime) && '\n' !in ino && '\n' !in mtime
  {
  }

  lemma BodyParses(e: Entry)
    requires Field(e.path) && e.id.WellTyped()
    ensures ParseEntry(Body(e)) == [e]
  {
    var ino, mtime := PrintNat(e.id.ino, 10), PrintInt(e.id.mtime);
    NumbersAreFields(e);
    WordsCons(e.path, Tail(e));
    WordsCons(ino, mtime);
    WordsCons(mtime, "");
    StrtoulPrinted(e.id.ino);
    StrtolPrinted(e.id.mtime);
  }

  /** The parts of a line: the path, a tab, and two fields. */
  lemma BodyParts(e: Entry)
    ensures var body, len := Body(e), |e.path|;
            && PathAndTail(body, len, 2) && body[..len] == e.path && ('\n' !in e.path ==> '\n' !in body)
            && body[len + 1..] == Tail(e)
  {
    var ino, mtime := PrintNat(e.id.ino, 10), PrintInt(e.id.mtime);
    NumbersAreFields(e);
    OneTab(ino, mtime);
    BodySlices(e.path, Tail(e), Body(e));
    BodyIsPathAndTail(e.path, Tail(e), Body(e), 2);
  }

  lemma OneTab(ino: string, mtime: string)
    requires Field(ino) && Field(mtime)
    ensures var tail := ino + "\t" + mtime; TabsIn(tail, 0, |tail|) == 1
  {
    TabIsBetween(ino, mtime);
    OneTabMore(ino, mtime, ino + "\t" + mtime);
    NoTabs(mtime, 0, |mtime|);
  }

  lemma StorableParses(e: Entry)
    requires e.id.WellTyped() && Storable(e)
    ensures Whole(Body(e)) && ParseEntry(Body(e)) == [e]
  {
    BodyParts(e);
    CarriedIsWhole(e.path, Body(e));
    BodyParses(e);
  }

  lemma LineRoundTrip(e: Entry, rest: string)
    requires e.id.WellTyped() && Storable(e)
    ensures LoadLines(Line(e) + rest) == [e] + LoadLines(rest)
  {
    StorableParses(e);
    FittingLine(Body(e), rest);
    FlatMapCons(ParseEntry, Body(e), Records(rest));
  }

  /** Loading what was written gives the written entries. */
  lemma SnapshotRoundTrip(es: seq<Entry>)
    requires forall i :: 0 <= i < |es| ==> es[i].id.WellTyped() && Storable(es[i])
    ensures Load(FileText(es)) == Some(es)
  {
    forall i | 0 <= i < |es|
      ensures Whole(Body(es[i])) && ParseEntry(Body(es[i])) == [es[i]]
    {
      StorableParses(es[i]);
    }
    FileReadsBack(VERSION, ParseEntry, Body, es);
  }

  // ------------------------------------------------------------- the condition is exact

  /** A numeral that is cut short reads as another number. */
  lemma CutNumeral(i: int, k: nat)
    requires LONG_MIN <= i <= LONG_MAX && 0 < k < |PrintInt(i)|
    ensures Strtol(PrintInt(i)[..k], 10).value != i
  {
    if i >= 0 {
      PrefixSmaller(i, k);
      StrtolPlain(PrintNat(i, 10)[..k], 10);
    } else {
      CutNegative(-i, PrintNat(-i, 10), k);
    }
  }

  lemma CutNegative(n: nat, digits: string, k: nat)
    requires 0 < n <= -LONG_MIN && digits == PrintNat(n, 10) && 0 < k < |"-" + digits|
    ensures Strtol(("-" + digits)[..k], 10).value != 0 - n
  {
    var s := ("-" + digits)[..k];
    assert s == "-" + digits[..k - 1];
    if k == 1 {
      assert s == "-" && s[1..] == "" && SpaceRun(s) == 0;
    } else {
      PrefixSmaller(n, k - 1);
      StrtolMinus(s, digits[..k - 1]);
    }
  }

  lemma {:induction false} PrefixSmaller(n: nat, k: nat)
    requires 0 < k < |PrintNat(n, 10)|
    ensures NatOf(PrintNat(n, 10)[..k], 10) < n
    decreases n
  {
    var shorter := PrintNat(n / 10, 10);
    QuotientShrinks(n, 10);
    assert PrintNat(n, 10)[..k] == shorter[..k];
    if k < |shorter| {
      PrefixSmaller(n / 10, k);
    } else {
      assert shorter[..k] == shorter;
      NatOfPrintNat(n / 10, 10);
    }
  }

  /** The words of a tail that is cut short: less than two, or the second one cut short. */
  lemma CutTail(ino: string, mtime: string, m: nat)
    requires Field(ino) && Field(mtime) && m < |ino| + 1 + |mtime|
    ensures Words((ino + "\t" + mtime)[..m])
         == if m <= |ino| then OneWord(ino[..m]) else [ino] + OneWord(mtime[..m - |ino| - 1])
  {
    var tail := ino + "\t" + mtime;
    if m <= |ino| {
      assert tail[..m] == ino[..m];
      FewWords(ino[..m]);
    } else {
      var k := m - |ino| - 1;
      assert tail[..m] == ino + "\t" + mtime[..k];
      WordsCons(ino, mtime[..k]);
      FewWords(mtime[..k]);
    }
  }

  function OneWord(s: string): seq<string> { if s == "" then [] else [s] }

  lemma FewWords(s: string)
    requires '\t' !in s
    ensures Words(s) == OneWord(s)
  {
    if s != "" {
      WordsCons(s, "");
    }
  }

  /** A piece of a line gives its entry only if it is the whole line. */
  lemma PieceParses(e: Entry, from: nat, to: nat, c: string)
    requires e.id.WellTyped() && Field(e.path) && IsPiece(Body(e), c, from, to)
    requires e in ParseEntry(c)
    ensures from == 0 && to == |Body(e)|
  {
    BodyParts(e);
    NumbersAreFields(e);
    var words := EntryWords(c, e);
    forall k | 0 < k < |PrintInt(e.id.mtime)|
      ensures Strtol(PrintInt(e.id.mtime)[..k], 10).value != e.id.mtime
    {
      CutNumeral(e.id.mtime, k);
    }
    PieceIsWhole(Body(e), e.path, PrintNat(e.id.ino, 10), PrintInt(e.id.mtime), e.id.mtime, from, to, c, words);
  }

  lemma PieceIsWhole(body: string, path: string, ino: string, mtime: string, m: int, from: nat, to: nat, c: string,
                     words: seq<string>)
    requires PathAndTail(body, |path|, 2) && body[|path| + 1..] == ino + "\t" + mtime && Field(ino) && Field(mtime)
    requires forall k :: 0 < k < |mtime| ==> Strtol(mtime[..k], 10).value != m
    requires IsPiece(body, c, from, to) && Words(c) == [path] + words
    requires |words| >= 2 && Strtol(words[1], 10).value == m
    ensures from == 0 && to == |body|
  {
    PartWords(body, from, to, c);
    PathOnlyAtStart(body, |path|, 2, from, to, path, words);
    WholeTail(body, |path|, ino, mtime, m, to, words);
  }

  lemma WholeTail(body: string, len: nat, ino: string, mtime: string, m: int, to: nat, words: seq<string>)
    requires len < to <= |body| && body[len + 1..] == ino + "\t" + mtime && Field(ino) && Field(mtime)
    requires forall k :: 0 < k < |mtime| ==> Strtol(mtime[..k], 10).value != m
    requires words == WordsIn(body, len + 1, to) && |words| >= 2 && Strtol(words[1], 10).value == m
    ensures to == |body|
  {
    var tail := body[len + 1..];
    assert body[len + 1..to] == tail[..to - len - 1];
    PartWords(body, len + 1, to, tail[..to - len - 1]);
    WholeNumber(ino, mtime, m, to - len - 1, words);
  }

  lemma EntryWords(c: string, e: Entry) returns (words: seq<string>)
    requires e in ParseEntry(c)
    ensures Words(c) == [e.path] + words && |words| >= 2 && Strtol(words[1], 10).value == e.id.mtime
  {
    words := Words(c)[1..];
  }

  lemma WholeNumber(ino: string, mtime: string, m: int, k: nat, words: seq<string>)
    requires Field(ino) && Field(mtime) && forall j :: 0 < j < |mtime| ==> Strtol(mtime[..j], 10).value != m
    requires k <= |ino + "\t" + mtime| && words == Words((ino + "\t" + mtime)[..k])
    requires |words| >= 2 && Strtol(words[1], 10).value == m
    ensures k == |ino + "\t" + mtime|
  {
    if k < |ino + "\t" + mtime| {
      CutTail(ino, mtime, k);
    }
  }

  /** Whatever the file, loaded paths are not empty and have neither tab nor newline. */
  lemma LoadedPath(content: string, e: Entry)
    requires e in LoadLines(content)
    ensures Field(e.path) && '\n' !in e.path
  {
    var r := FromRecord(ParseEntry, Records(content), e);
    RecordsClean(content, r);
    WordsAre(r, 0, |r|, 0);
  }

  /** Exactly the storable lines are read back as what was written. */
  lemma StorableIffReadBack(e: Entry)
    requires e.id.WellTyped()
    ensures LoadLines(Line(e)) == [e]
       <==> e.path != "" && '\t' !in e.path && '\n' !in e.path && e.path[0] != '#' && |Line(e)| <= 4096
  {
    if Field(e.path) && '\n' !in e.path {
      BodyParts(e);
      CarriedIsWhole(e.path, Body(e));
      BodyParses(e);
      forall c, from, to | IsPiece(Body(e), c, from, to) && e in ParseEntry(c)
        ensures from == 0 && to == |Body(e)|
      {
        PieceParses(e, from, to, c);
      }
      ReadBackIffWhole(ParseEntry, Body(e), e);
    } else if LoadLines(Line(e)) == [e] {
      LoadedPath(Line(e), e);
    }
  }
}
