/** A file that begins with a version line and is read line by line with fgets, skipping empty lines and
    comments. File contents are texts without NUL. */
module LineFile {
  import opened Text
  import opened TabFields

  const LINE_SIZE: nat := 4096

  // ------------------------------------------------------------- reading

  predicate Skipped(piece: string) { piece != "" && (piece[0] == '\n' || piece[0] == '#') }

  /** The lines that are looked at, without their newlines. A line longer than the buffer comes in pieces. */
  function Records(content: string): seq<string>
    decreases |content|
  {
    if content == "" then []
    else
      var n := FgetsLen(content, LINE_SIZE);
      (if Skipped(content[..n]) then [] else [Chomp(content[..n])]) + Records(content[n..])
  }

  /** The records after a first line that begins with the version. */
  function Versioned(content: string, version: string): Option<seq<string>> {
    if content == "" then None
    else
      var n := FgetsLen(content, LINE_SIZE);
      if version <= content[..n] then Some(Records(content[n..])) else None
  }

  /** What each record gives, in order. */
  function FlatMap<E>(parse: string -> seq<E>, records: seq<string>): seq<E> {
    if records == [] then [] else parse(records[0]) + FlatMap(parse, records[1..])
  }

  /** What a versioned file holds. */
  function Loaded<E>(parse: string -> seq<E>, version: string, content: string): Option<seq<E>> {
    var records := Versioned(content, version);
    if records.Some? then Some(FlatMap(parse, records.value)) else None
  }

  lemma FlatMapCons<E>(parse: string -> seq<E>, first: string, more: seq<string>)
    ensures FlatMap(parse, [first] + more) == parse(first) + FlatMap(parse, more)
  {
    assert ([first] + more)[1..] == more;
  }

  lemma {:induction false} FlatMapAppend<E>(parse: string -> seq<E>, a: seq<string>, b: seq<string>)
    ensures FlatMap(parse, a + b) == FlatMap(parse, a) + FlatMap(parse, b)
  {
    if a == [] {
      assert a + b == b;
    } else {
      assert a + b == [a[0]] + (a[1..] + b);
      FlatMapCons(parse, a[0], a[1..] + b);
      FlatMapAppend(parse, a[1..], b);
    }
  }

  lemma FlatMapSnoc<E>(parse: string -> seq<E>, records: seq<string>, last: string)
    ensures FlatMap(parse, records + [last]) == FlatMap(parse, records) + parse(last)
  {
    FlatMapAppend(parse, records, [last]);
    FlatMapCons(parse, last, []);
    assert [last] + [] == [last] && parse(last) + [] == parse(last);
  }

  /** One pass of a reading loop. */
  lemma ReadStep<E>(parse: string -> seq<E>, content: string, before: seq<E>)
    requires content != ""
    ensures var n := FgetsLen(content, LINE_SIZE);
            var found := if Skipped(content[..n]) then [] else parse(Chomp(content[..n]));
            before + FlatMap(parse, Records(content)) == before + found + FlatMap(parse, Records(content[n..]))
  {
    var n := FgetsLen(content, LINE_SIZE);
    if Skipped(content[..n]) {
      assert Records(content) == Records(content[n..]);
      assert before + [] == before;
    } else {
      FlatMapCons(parse, Chomp(content[..n]), Records(content[n..]));
    }
  }

  /** Whatever the content, no record has a newline. */
  lemma {:induction false} RecordsClean(content: string, r: string)
    requires r in Records(content)
    ensures '\n' !in r
    decreases |content|
  {
    var n := FgetsLen(content, LINE_SIZE);
    if r in Records(content[n..]) {
      RecordsClean(content[n..], r);
    }
  }

  /** What comes from a file comes from one of its records. */
  lemma {:induction false} FromRecord<E(!new)>(parse: string -> seq<E>, records: seq<string>, e: E)
    returns (r: string)
    requires e in FlatMap(parse, records)
    ensures r in records && e in parse(r)
  {
    r := records[0];
    if e !in parse(r) {
      r := FromRecord(parse, records[1..], e);
    }
  }

  // ------------------------------------------------------------- writing and reading back

  /** A line that comes back as it is. */
  predicate Whole(body: string) { body != "" && '\n' !in body && body[0] != '#' && |body| < LINE_SIZE }

  function Written(bodies: seq<string>): string {
    if bodies == [] then "" else Written(bodies[..|bodies| - 1]) + (bodies[|bodies| - 1] + "\n")
  }

  lemma WrittenSnoc(bodies: seq<string>, body: string)
    ensures Written(bodies + [body]) == Written(bodies) + (body + "\n")
  {
    var longer := bodies + [body];
    assert longer[..|bodies|] == bodies && longer[|bodies|] == body;
  }

  function Bodies<E>(body: E -> string, es: seq<E>): (bs: seq<string>)
    ensures |bs| == |es| && forall i :: 0 <= i < |es| ==> bs[i] == body(es[i])
  {
    seq(|es|, i requires 0 <= i < |es| => body(es[i]))
  }

  /** The version, then a line for each entry. */
  function FileOf<E>(version: string, body: E -> string, es: seq<E>): string {
    version + "\n" + Written(Bodies(body, es))
  }

  lemma BodiesSnoc<E>(body: E -> string, es: seq<E>, e: E)
    ensures Bodies(body, es + [e]) == Bodies(body, es) + [body(e)]
  {
  }

  lemma FileSnoc<E>(version: string, body: E -> string, es: seq<E>, e: E)
    ensures FileOf(version, body, es + [e]) == FileOf(version, body, es) + (body(e) + "\n")
  {
    BodiesSnoc(body, es, e);
    WrittenSnoc(Bodies(body, es), body(e));
    Assoc(version + "\n", Written(Bodies(body, es)), body(e) + "\n");
  }

  /** A line of a path and what follows it can be read back if the path has no tab, no newline and no leading
      `#` (the reader takes that for a comment), and the line fits one fgets call, or all but its newline does. */
  predicate Carried(path: string, body: string) {
    Field(path) && '\n' !in path && path[0] != '#' && |body| < LINE_SIZE
  }

  lemma CarriedIsWhole(path: string, body: string)
    requires Field(path) && path <= body && '\n' !in body
    ensures Whole(body) <==> Carried(path, body)
  {
    assert path[0] == body[0];
    assert forall c :: c in path ==> c in body;
  }

  lemma NewlineAlone(rest: string)
    ensures Records("\n" + rest) == Records(rest)
  {
    assert ("\n" + rest)[1..] == rest && ("\n" + rest)[..1] == "\n";
  }

  /** One line within the buffer; when only its newline is left for the next fgets call, that is skipped. */
  lemma FittingLine(body: string, rest: string)
    requires body != "" && '\n' !in body && |body| < LINE_SIZE
    ensures Records(body + "\n" + rest) == (if body[0] == '#' then [] else [body]) + Records(rest)
  {
    var content := body + "\n" + rest;
    ChompLine(body);
    if |body| + 1 < LINE_SIZE {
      FgetsWholeLine(body, rest, LINE_SIZE);
      assert content[..|body| + 1] == body + "\n" && content[|body| + 1..] == rest;
    } else {
      assert content == body + ("\n" + rest);
      IndexOfAppend(body, '\n', "\n" + rest);
      assert content[..|body|] == body && content[|body|..] == "\n" + rest;
      NewlineAlone(rest);
    }
  }

  /** Whole lines are read back in order. */
  lemma {:induction false} WrittenReadsBack(bodies: seq<string>, rest: string)
    requires forall i :: 0 <= i < |bodies| ==> Whole(bodies[i])
    ensures Records(Written(bodies) + rest) == bodies + Records(rest)
  {
    if bodies == [] {
      assert "" + rest == rest;
    } else {
      var front, last := bodies[..|bodies| - 1], bodies[|bodies| - 1];
      Assoc(Written(front), last + "\n", rest);
      WrittenReadsBack(front, last + "\n" + rest);
      FittingLine(last, rest);
      SplitLast(bodies, Records(rest));
    }
  }

  /** A file is read exactly when it begins with the version, which need not be a line. */
  lemma VersionedIff(content: string, version: string)
    requires '\n' !in version && 0 < |version| < LINE_SIZE
    ensures Versioned(content, version).Some? <==> version <= content
    ensures Versioned(version, version) == Some([])
  {
    FgetsStarts(version, content, LINE_SIZE);
    FgetsStarts(version, version, LINE_SIZE);
  }

  lemma HeaderRead(version: string, lines: string)
    requires '\n' !in version && |version| + 1 < LINE_SIZE
    ensures Versioned(version + "\n" + lines, version) == Some(Records(lines))
  {
    var text := version + "\n" + lines;
    FgetsWholeLine(version, lines, LINE_SIZE);
    assert text[..|version| + 1] == version + "\n" && text[|version| + 1..] == lines;
    assert version <= version + "\n";
  }

  lemma {:induction false} BodiesParse<E>(parse: string -> seq<E>, body: E -> string, es: seq<E>)
    requires forall i :: 0 <= i < |es| ==> parse(body(es[i])) == [es[i]]
    ensures FlatMap(parse, Bodies(body, es)) == es
  {
    if es != [] {
      var front, last := es[..|es| - 1], es[|es| - 1];
      assert es == front + [last];
      BodiesParse(parse, body, front);
      BodiesSnoc(body, front, last);
      FlatMapSnoc(parse, Bodies(body, front), body(last));
    }
  }

  /** A written file is read back. */
  lemma FileReadsBack<E>(version: string, parse: string -> seq<E>, body: E -> string, es: seq<E>)
    requires '\n' !in version && |version| + 1 < LINE_SIZE
    requires forall i :: 0 <= i < |es| ==> Whole(body(es[i])) && parse(body(es[i])) == [es[i]]
    ensures Loaded(parse, version, FileOf(version, body, es)) == Some(es)
  {
    var bodies := Bodies(body, es);
    HeaderRead(version, Written(bodies));
    WrittenReadsBack(bodies, "");
    assert Written(bodies) + "" == Written(bodies) && bodies + Records("") == bodies;
    BodiesParse(parse, body, es);
  }

  // ------------------------------------------------------------- lines longer than the buffer

  /** A piece of a line that does not begin where the line begins. */
  ghost predicate Inside(body: string, r: string) {
    exists a: nat, b: nat :: IsPiece(body, r, a, b) && 0 < a
  }

  predicate IsPiece(body: string, r: string, a: nat, b: nat) { a <= b <= |body| && r == body[a..b] }

  lemma ChompPiece(body: string, from: nat, to: nat)
    requires '\n' !in body && from < to <= |body| + 1
    ensures Chomp((body + "\n")[from..to]) == body[from..Min(to, |body|)]
  {
    var piece := body[from..Min(to, |body|)];
    ChompLine(piece);
    if to <= |body| {
      assert (body + "\n")[from..to] == piece;
    } else {
      assert (body + "\n")[from..to] == piece + "\n";
    }
  }

  lemma PieceOf(line: string, from: nat, n: nat)
    requires from + n <= |line|
    ensures line[from..][..n] == line[from..from + n] && line[from..][n..] == line[from + n..]
  {
  }

  lemma FirstRecord(content: string, r: string)
    requires content != "" && r in Records(content) && r !in Records(content[FgetsLen(content, LINE_SIZE)..])
    ensures r == Chomp(content[..FgetsLen(content, LINE_SIZE)])
  {
  }

  lemma {:induction false} LaterPieces(body: string, from: nat, content: string, r: string)
    requires '\n' !in body && 0 < from <= |body| + 1 && content == (body + "\n")[from..] && r in Records(content)
    ensures Inside(body, r)
    decreases |content|
  {
    var n := FgetsLen(content, LINE_SIZE);
    PieceOf(body + "\n", from, n);
    if r in Records(content[n..]) {
      LaterPieces(body, from + n, content[n..], r);
    } else {
      FirstRecord(content, r);
      ChompPiece(body, from, from + n);
      assert IsPiece(body, r, from, Min(from + n, |body|));
    }
  }

  /** A line that does not fit: its first piece, then pieces from inside. */
  lemma LongLine(body: string) returns (later: seq<string>)
    requires '\n' !in body && |body| >= LINE_SIZE
    ensures Records(body + "\n") == (if body[0] == '#' then [] else [body[..LINE_SIZE - 1]]) + later
    ensures forall r :: r in later ==> Inside(body, r)
  {
    var line, n := body + "\n", LINE_SIZE - 1;
    IndexOfAppend(body, '\n', "\n");
    assert FgetsLen(line, LINE_SIZE) == n;
    ChompPiece(body, 0, n);
    assert line[0..n] == line[..n] && body[0..n] == body[..n];
    later := Records(line[n..]);
    forall r | r in later
      ensures Inside(body, r)
    {
      LaterPieces(body, n, line[n..], r);
    }
  }

  // ------------------------------------------------------------- entries

  /** No record from inside a line gives this entry. */
  lemma {:induction false} NotInside<E(!new)>(parse: string -> seq<E>, records: seq<string>, e: E)
    requires forall r :: r in records ==> e !in parse(r)
    ensures e !in FlatMap(parse, records)
  {
    if records != [] {
      assert records[0] in records;
      forall r | r in records[1..]
        ensures e !in parse(r)
      {
        assert r in records;
      }
      NotInside(parse, records[1..], e);
    }
  }

  lemma FittingEntry<E(!new)>(parse: string -> seq<E>, body: string, e: E)
    requires body != "" && '\n' !in body && |body| < LINE_SIZE && parse(body) == [e]
    ensures FlatMap(parse, Records(body + "\n")) == if body[0] == '#' then [] else [e]
  {
    FittingLine(body, "");
    FlatMapSnoc(parse, [], body);
    Neutral(body + "\n");
    Neutral([body]);
    Neutral([e]);
  }

  lemma LongEntry<E(!new)>(parse: string -> seq<E>, body: string, e: E)
    requires '\n' !in body && |body| >= LINE_SIZE
    requires forall r, from, to :: IsPiece(body, r, from, to) && e in parse(r) ==> from == 0 && to == |body|
    ensures e !in FlatMap(parse, Records(body + "\n"))
  {
    var later := LongLine(body);
    var records := Records(body + "\n");
    forall r | r in records
      ensures e !in parse(r)
    {
      assert r in later || IsPiece(body, r, 0, LINE_SIZE - 1);
    }
    NotInside(parse, records, e);
  }

  /** A line is read back as its entry exactly when it is whole, provided that it gives the entry and no other
      piece of it does. */
  lemma ReadBackIffWhole<E(!new)>(parse: string -> seq<E>, body: string, e: E)
    requires body != "" && '\n' !in body && parse(body) == [e]
    requires forall r, from, to :: IsPiece(body, r, from, to) && e in parse(r) ==> from == 0 && to == |body|
    ensures FlatMap(parse, Records(body + "\n")) == [e] <==> Whole(body)
  {
    if |body| < LINE_SIZE {
      FittingEntry(parse, body, e);
    } else {
      LongEntry(parse, body, e);
      assert e in [e];
    }
  }
}
