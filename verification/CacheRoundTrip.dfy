/** What the verdict cache's reader makes of the lines its writer wrote. */
module CacheRoundTrip {
  import opened Text
  import opened TabFields
  import opened LineFile
  import opened Audit
  import opened CacheFormat

  // ------------------------------------------------------------- the numbers

  /** A numeral: digits, perhaps after a sign. */
  predicate Numeral(s: string) { s != "" && forall c :: c in s ==> c == '-' || IsDigitOf(c, 10) }

  /** The numeric part of a line: eight numerals, the last a single digit. */
  predicate Numerals(fs: seq<string>) {
    |fs| == FIELDS && (forall i :: 0 <= i < |fs| ==> Numeral(fs[i])) && |fs[FIELDS - 1]| == 1
  }

  lemma NumeralsAreFields(fs: seq<string>)
    requires Numerals(fs)
    ensures AllFields(fs)
  {
  }

  lemma FieldsAreNumerals(e: CacheEntry)
    requires e.WellTyped()
    ensures Numerals(e.Fields())
  {
    forall i | 0 <= i < FIELDS
      ensures Numeral(e.FieldText(i))
    {
      if i == 1 {
        OctalNumeral(e.mode);
      }
    }
    assert e.FieldText(FIELDS - 1) == PrintInt(e.zwcInsecure);
  }

  lemma OctalNumeral(n: nat)
    ensures Numeral(PrintNat(n, 8))
  {
    forall c | c in PrintNat(n, 8)
      ensures IsDigitOf(c, 10)
    {
      assert IsDigitOf(c, 8);
    }
  }

  /** strtol gives every number back. */
  lemma FieldReadsBack(e: CacheEntry, i: nat)
    requires e.WellTyped() && i < FIELDS
    ensures NumberAt(i, e.FieldText(i)) == e.Value(i)
  {
    if i == 1 {
      StrtolDigits(e.mode, 8);
    } else {
      StrtolPrinted(e.Value(i));
    }
  }

  lemma FieldsReadBack(e: CacheEntry)
    requires e.WellTyped()
    ensures EntryOf(e.path, Values(e.Fields())) == e
  {
    forall i | 0 <= i < FIELDS
      ensures Values(e.Fields())[i] == e.Value(i)
    {
      FieldReadsBack(e, i);
    }
    EntryOfValues(e, Values(e.Fields()));
  }

  lemma EntryOfValues(e: CacheEntry, vs: seq<int>)
    requires e.WellTyped() && |vs| == FIELDS && forall i :: 0 <= i < FIELDS ==> vs[i] == e.Value(i)
    ensures EntryOf(e.path, vs) == e
  {
  }

  // ------------------------------------------------------------- whole lines

  lemma {:induction false} JoinChars(fs: seq<string>)
    requires fs != [] && forall i :: 0 <= i < |fs| ==> Numeral(fs[i])
    ensures '\n' !in Join(fs)
  {
    if |fs| > 1 {
      JoinChars(fs[1..]);
    }
  }

  predicate Storable(e: CacheEntry) { Carried(e.path, Body(e)) }

  /** The parts of a line: the path, a tab, and the numbers. */
  lemma BodyParts(e: CacheEntry)
    requires e.WellTyped() && Field(e.path)
    ensures var body, len := Body(e), |e.path|;
            PathAndTail(body, len, FIELDS) && body[..len] == e.path && ('\n' !in e.path ==> '\n' !in body)
  {
    var fs := e.Fields();
    FieldsAreNumerals(e);
    NumeralsAreFields(fs);
    TabsOfJoin(fs);
    JoinChars(fs);
    BodySlices(e.path, Join(fs), Body(e));
    BodyIsPathAndTail(e.path, Join(fs), Body(e), FIELDS);
  }

  lemma BodyParses(e: CacheEntry)
    requires e.WellTyped() && Field(e.path)
    ensures ParseEntry(Body(e)) == [e]
  {
    var fs := e.Fields();
    FieldsAreNumerals(e);
    NumeralsAreFields(fs);
    WordsOfJoin(fs);
    WordsCons(e.path, Join(fs));
    ParseOfWords(Body(e), e.path, fs);
    FieldsReadBack(e);
  }

  lemma StorableParses(e: CacheEntry)
    requires e.WellTyped() && Storable(e)
    ensures Whole(Body(e)) && ParseEntry(Body(e)) == [e]
  {
    BodyParts(e);
    CarriedIsWhole(e.path, Body(e));
    BodyParses(e);
  }

  /** One storable line, followed by anything, is read back as its entry. */
  lemma LineRoundTrip(e: CacheEntry, rest: string)
    requires e.WellTyped() && Storable(e)
    ensures LoadLines(Line(e) + rest) == [e] + LoadLines(rest)
  {
    StorableParses(e);
    FittingLine(Body(e), rest);
    FlatMapCons(ParseEntry, Body(e), Records(rest));
  }

  /** Loading what was written gives the written entries. */
  lemma FileRoundTrip(es: seq<CacheEntry>)
    requires forall i :: 0 <= i < |es| ==> es[i].WellTyped() && Storable(es[i])
    ensures Load(FileText(es)) == Some(es)
  {
    forall i | 0 <= i < |es|
      ensures Whole(Body(es[i])) && ParseEntry(Body(es[i])) == [es[i]]
    {
      StorableParses(es[i]);
    }
    FileReadsBack(VERSION, ParseEntry, Body, es);
  }

  // ------------------------------------------------------------- the condition is exact

  lemma {:induction false} JoinEnd(fields: seq<string>)
    requires |fields| >= 2 && |fields[|fields| - 1]| == 1
    ensures |Join(fields)| >= 2 && Join(fields)[|Join(fields)| - 2] == '\t'
  {
    if |fields| == 2 {
      assert Join(fields[1..]) == fields[1];
    } else {
      JoinEnd(fields[1..]);
    }
  }

  /** All the numbers come only from the whole line, whose last field is one character. */
  lemma WholeLine(body: string, len: nat, fields: nat, to: nat)
    requires PathAndTail(body, len, fields) && len < to <= |body|
    requires len + 2 < |body| && body[|body| - 2] == '\t' && |WordsIn(body, len + 1, to)| >= fields
    ensures to == |body|
  {
    WordsNeedTabs(body, len + 1, to);
    TabsSplit(body, len + 1, to, |body|);
    TabNearEnd(body, to);
  }

  lemma TabNearEnd(body: string, to: nat)
    requires |body| >= 2 && body[|body| - 2] == '\t' && to <= |body|
    ensures to <= |body| - 2 ==> TabsIn(body, to, |body|) >= 1
  {
    if to <= |body| - 2 {
      TabsAround(body, to, |body| - 2, |body|);
    }
  }

  /** A piece of a line gives an entry with the line's path only if it is the whole line. */
  lemma PieceParses(e: CacheEntry, from: nat, to: nat, c: string)
    requires e.WellTyped() && Field(e.path) && IsPiece(Body(e), c, from, to)
    requires e in ParseEntry(c)
    ensures from == 0 && to == |Body(e)|
  {
    BodyParts(e);
    TailParts(e);
    var others := EntryWords(c, e);
    WholePiece(Body(e), e.path, FIELDS, from, to, c, others);
  }

  lemma WholePiece(body: string, path: string, fields: nat, from: nat, to: nat, c: string, others: seq<string>)
    requires PathAndTail(body, |path|, fields) && |path| + 2 < |body| && body[|body| - 2] == '\t'
    requires IsPiece(body, c, from, to) && Words(c) == [path] + others && |others| >= fields > 0
    ensures from == 0 && to == |body|
  {
    PartWords(body, from, to, c);
    PathOnlyAtStart(body, |path|, fields, from, to, path, others);
    WholeLine(body, |path|, fields, to);
  }

  lemma TailParts(e: CacheEntry)
    requires e.WellTyped()
    ensures |e.path| + 2 < |Body(e)| && Body(e)[|Body(e)| - 2] == '\t'
  {
    FieldsAreNumerals(e);
    JoinEnd(e.Fields());
  }

  lemma EntryWords(c: string, e: CacheEntry) returns (others: seq<string>)
    requires e in ParseEntry(c)
    ensures Words(c) == [e.path] + others && |others| >= FIELDS
  {
    others := Words(c)[1..];
  }

  lemma LoadedPath(content: string, e: CacheEntry)
    requires e in LoadLines(content)
    ensures Field(e.path) && '\n' !in e.path
  {
    var r := FromRecord(ParseEntry, Records(content), e);
    RecordsClean(content, r);
    WordsAre(r, 0, |r|, 0);
  }

  /** Exactly the storable lines are read back as what was written. */
  lemma StorableIffReadBack(e: CacheEntry)
    requires e.WellTyped()
    ensures LoadLines(Line(e)) == [e]
       <==> e.path != "" && '\t' !in e.path && '\n' !in e.path && e.path[0] != '#' && |Line(e)| <= 4096
  {
    if Field(e.path) && '\n' !in e.path {
      BodyParts(e);
      CarriedIsWhole(e.path, Body(e));
      BodyParses(e);
      forall c, from, to | IsPiece(Body(e), c, from, to) && e in ParseEntry(c)
        ensures from == 0 && to == |Body(e)|
      {
        PieceParses(e, from, to, c);
      }
      ReadBackIffWhole(ParseEntry, Body(e), e);
    } else if LoadLines(Line(e)) == [e] {
      LoadedPath(Line(e), e);
    }
  }
}
