/** src/core/compaudit_cache.c: the line format of the verdict cache, written with fprintf and read
    back with fgets, strtok_r and strtol. File contents are texts without NUL. */
module CacheFormat {
  import opened Text
  import opened TabFields
  import opened LineFile
  import opened Audit

  /** The numbers after the path. */
  const FIELDS: nat := 8

  /** struct zp_cc_entry. */
  datatype CacheEntry = CacheEntry(path: string, verdict: int, mode: nat, uid: nat, gid: nat, mtime: int, ctime: int,
                                   parentInsecure: int, zwcInsecure: int)
  {
    predicate WellTyped() {
      && 0 <= verdict <= 1 && 0 <= parentInsecure <= 1 && 0 <= zwcInsecure <= 1
      && Stat(mode, uid, gid, mtime, ctime).WellTyped()
    }

    /** The numbers of a line in their order. */
    function Value(i: nat): int {
      if i == 0 then verdict else if i == 1 then mode else if i == 2 then uid else if i == 3 then gid
      else if i == 4 then mtime else if i == 5 then ctime else if i == 6 then parentInsecure else zwcInsecure
    }

    /** The format "%d %o %lu %lu %ld %ld %d %d". */
    function FieldText(i: nat): string {
      if i == 1 then PrintNat(mode, 8) else PrintInt(Value(i))
    }

    function Fields(): (fs: seq<string>)
      ensures |fs| == FIELDS && forall i :: 0 <= i < FIELDS ==> fs[i] == FieldText(i)
    {
      seq(FIELDS, i requires 0 <= i < FIELDS => FieldText(i))
    }
  }

  /** A line without its newline. */
  function Body(e: CacheEntry): string {
    e.path + "\t" + Join(e.Fields())
  }

  function Line(e: CacheEntry): string { Body(e) + "\n" }

  const VERSION := "version:3"

  function FileText(es: seq<CacheEntry>): string {
    FileOf(VERSION, Body, es)
  }

  /** A line to the letter, and the file without entries. */
  lemma LineIs(e: CacheEntry)
    ensures Line(e) == e.path + "\t"
                       + (PrintInt(e.verdict) + "\t" + (PrintNat(e.mode, 8) + "\t"
                       + (PrintInt(e.uid) + "\t" + (PrintInt(e.gid) + "\t"
                       + (PrintInt(e.mtime) + "\t" + (PrintInt(e.ctime) + "\t"
                       + (PrintInt(e.parentInsecure) + "\t" + PrintInt(e.zwcInsecure)))))))) + "\n"
    ensures FileText([]) == "version:3\n"
  {
    assert FIELDS == 8;
    var f := e.Fields();
    assert f == [PrintInt(e.verdict), PrintNat(e.mode, 8), PrintInt(e.uid), PrintInt(e.gid), PrintInt(e.mtime),
                 PrintInt(e.ctime), PrintInt(e.parentInsecure), PrintInt(e.zwcInsecure)];
    EightJoined(f[0], f[1], f[2], f[3], f[4], f[5], f[6], f[7]);
    assert "version:3" + "\n" == "version:3\n" && "version:3\n" + "" == "version:3\n";
  }

  lemma EightJoined(a: string, b: string, c: string, d: string, e: string, f: string, g: string, h: string)
    ensures Join([a, b, c, d, e, f, g, h])
         == a + "\t" + (b + "\t" + (c + "\t" + (d + "\t" + (e + "\t" + (f + "\t" + (g + "\t" + h))))))
  {
    JoinCons(g, [h]);
    JoinCons(f, [g, h]);
    JoinCons(e, [f, g, h]);
    JoinCons(d, [e, f, g, h]);
    JoinCons(c, [d, e, f, g, h]);
    JoinCons(b, [c, d, e, f, g, h]);
    JoinCons(a, [b, c, d, e, f, g, h]);
  }

  lemma JoinCons(first: string, more: seq<string>)
    requires more != []
    ensures Join([first] + more) == first + "\t" + Join(more)
  {
    assert ([first] + more)[1..] == more;
  }

  // ------------------------------------------------------------- reading

  /** Storing a long in a mode_t or a uid_t. */
  function ToUnsigned(v: int): nat { v % 0x1_0000_0000 }

  /** The 32 bits of a number, whatever is above them. */
  lemma UnsignedIs(v: int)
    ensures ToUnsigned(v) < 4294967296 && ToUnsigned(v + 4294967296) == ToUnsigned(v)
    ensures 0 <= v < 4294967296 ==> ToUnsigned(v) == v
  {
  }

  /** The eight fields as strtol reads them: the second one is octal. */
  function NumberAt(i: nat, field: string): int {
    if i == 1 then Strtol(field, 8).value else Strtol(field, 10).value
  }

  function Values(fields: seq<string>): (vs: seq<int>)
    ensures |vs| == |fields| && forall i :: 0 <= i < |fields| ==> vs[i] == NumberAt(i, fields[i])
  {
    seq(|fields|, i requires 0 <= i < |fields| => NumberAt(i, fields[i]))
  }

  function EntryOf(path: string, vs: seq<int>): CacheEntry
    requires |vs| == FIELDS
  {
    CacheEntry(path, ToInt(vs[0]), ToUnsigned(vs[1]), ToUnsigned(vs[2]), ToUnsigned(vs[3]), vs[4], vs[5],
               ToInt(vs[6]), ToInt(vs[7]))
  }

  /** A path and eight more words make an entry; further words are not looked at. */
  function ParseEntry(line: string): (es: seq<CacheEntry>)
    ensures es != [] ==> es == [es[0]] && |Words(line)| > FIELDS && es[0].path == Words(line)[0]
  {
    var words := Words(line);
    if |words| > FIELDS then [EntryOf(words[0], Values(words[1..FIELDS + 1]))] else []
  }

  lemma ParseOfWords(line: string, path: string, fields: seq<string>)
    requires Words(line) == [path] + fields && |fields| == FIELDS
    ensures ParseEntry(line) == [EntryOf(path, Values(fields))]
  {
    TakeMoved(path, fields, FIELDS);
    assert fields[..FIELDS] == fields;
  }

  /** The entries of the records. */
  function LoadLines(content: string): seq<CacheEntry> {
    FlatMap(ParseEntry, Records(content))
  }

  /** zp_cc_load_cache on an existing file's content. */
  function Load(content: string): Option<seq<CacheEntry>> {
    Loaded(ParseEntry, VERSION, content)
  }

  /** zp_cc_load_cache: the fgets loop, and in it the strtok_r loop over the fields. */
  method LoadCache(content: string) returns (ok: bool, out: seq<CacheEntry>)
    ensures ok <==> Load(content).Some?
    ensures out == if ok then Load(content).value else []
  {
    out := [];
    if content == "" {
      return false, [];
    }
    var n := FgetsLen(content, LINE_SIZE);
    if !(VERSION <= content[..n]) {
      return false, [];
    }
    out := LoadRest(content[n..]);
    ok := true;
  }

  method LoadRest(content: string) returns (out: seq<CacheEntry>)
    ensures out == LoadLines(content)
  {
    out := [];
    var rest := content;
    while rest != ""
      invariant LoadLines(content) == out + LoadLines(rest)
      decreases |rest|
    {
      var k := FgetsLen(rest, LINE_SIZE);
      var line := rest[..k];
      var found: seq<CacheEntry> := [];
      if line[0] != '\n' && line[0] != '#' {
        found := ReadEntry(Chomp(line));
      }
      ReadStep(ParseEntry, rest, out);
      out := out + found;
      rest := rest[k..];
    }
  }

  /** One line: the strtok_r calls find a path and then eight numbers exactly when there are nine words. */
  method ReadEntry(line: string) returns (entry: seq<CacheEntry>)
    ensures entry == [] <==> |Words(line)| <= FIELDS
    ensures entry != [] ==> entry == [EntryOf(Words(line)[0], Values(Words(line)[1..FIELDS + 1]))]
  {
    StrTokTakesWord(line);
    var tok := StrTok(line, '\t');
    if tok.NoToken? {
      return [];
    }
    var fields := ReadFields(tok.save, FIELDS);
    TakeMoved(tok.text, Words(tok.save), FIELDS);
    return if |fields| == FIELDS then [EntryOf(tok.text, fields)] else [];
  }

  lemma TakeMoved(first: string, others: seq<string>, n: nat)
    ensures |others| >= n ==> ([first] + others)[1..n + 1] == others[..n]
  {
  }

  /** The strtok_r loop over at most `n` fields: the first words, as numbers. */
  method ReadFields(start: string, n: nat) returns (fields: seq<int>)
    ensures fields == Values(Words(start)[..Min(|Words(start)|, n)])
  {
    fields := [];
    ghost var texts: seq<string>, others := [], Words(start);
    var fld, save := 0, start;
    while fld < n
      invariant fld == |texts| <= n && fields == Values(texts)
      invariant others == Words(save) && Words(start) == texts + others
    {
      StrTokTakesWord(save);
      var tok := StrTok(save, '\t');
      if tok.NoToken? {
        break;
      }
      ValuesStep(texts, tok.text);
      fields := fields + [NumberAt(fld, tok.text)];
      texts, others := Moved(texts, tok.text, Words(tok.save)), Words(tok.save);
      save := tok.save;
      fld := fld + 1;
    }
    assert Words(start)[..Min(|Words(start)|, n)] == texts;
  }

  lemma ValuesStep(texts: seq<string>, next: string)
    ensures Values(texts + [next]) == Values(texts) + [NumberAt(|texts|, next)]
  {
  }
}
