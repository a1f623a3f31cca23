/** src/core/source.c, zp_source_study_core with --json, and the count argument of source-study in
    src/builtins/zpmod_builtin.c. */
module SourceReport {
  import opened CTypes
  import opened Text
  import opened Json
  import opened SourceProfile

  // ------------------------------------------------------------- the count argument

  /** The digit loop of cmd_source_study: decimal digits without signs, locale or overflow. It accepts
      exactly the non-empty digit strings whose value fits an int, and computes that value. */
  method ParseCount(arg: string) returns (ok: bool, count: int32)
    ensures ok <==> arg != "" && AllDigits(arg, 10) && NatOf(arg, 10) <= INT_MAX as int
    ensures ok ==> count as int == NatOf(arg, 10)
  {
    count := 0;
    if arg == "" {
      return false, 0;
    }
    for i := 0 to |arg|
      invariant count >= 0 && AllDigits(arg[..i], 10) && NatOf(arg[..i], 10) == count as int
    {
      NatOfPrefix(arg, i + 1);
      if !IsDigitOf(arg[i], 10) || count > (INT_MAX - (arg[i] as int32 - '0' as int32)) / 10 {
        return false, 0;
      }
      assert arg[..i + 1] == arg[..i] + [arg[i]];
      count := count * 10 + (arg[i] as int32 - '0' as int32);
    }
    assert arg[..|arg|] == arg;
    return true, count;
  }

  /** Dropping digits from the end never raises the value. */
  lemma {:induction false} NatOfPrefix(s: string, i: nat)
    requires 0 < i <= |s|
    ensures AllDigits(s, 10) ==> NatOf(s[..i], 10) <= NatOf(s, 10)
    ensures AllDigits(s[..i], 10) ==>
              NatOf(s[..i], 10) == NatOf(s[..i - 1], 10) * 10 + (s[i - 1] as int - '0' as int)
    decreases |s| - i
  {
    assert s[..i][..i - 1] == s[..i - 1];
    if i == |s| {
      assert s[..i] == s;
    } else {
      assert s[..i + 1][..i] == s[..i];
      NatOfPrefix(s, i + 1);
    }
  }

  // ------------------------------------------------------------- path bytes as hex

  /** A byte string: what the C program holds in a char array. */
  predicate IsBytes(s: string) {
    forall i :: 0 <= i < |s| ==> s[i] as int < 256
  }

  function HexDigit(d: nat): (c: char)
    requires d < 16
    ensures PlainChar(c)
  {
    if d < 10 then ('0' as int + d) as char else ('a' as int + d - 10) as char
  }

  function HexVal(c: char): Option<nat> {
    if '0' <= c <= '9' then Some(c as int - '0' as int)
    else if 'a' <= c <= 'f' then Some(c as int - 'a' as int + 10)
    else None
  }

  /** "%02x" */
  function ByteHex(c: char): (h: string)
    requires c as int < 256
    ensures |h| == 2 && PlainText(h)
  {
    [HexDigit(c as int / 16), HexDigit(c as int % 16)]
  }

  /** "%02x" of every byte. */
  function ToHex(s: string): string
    requires IsBytes(s)
  {
    HexTo(s, |s|)
  }

  /** The hex digits of the first n bytes. */
  function HexTo(s: string, n: nat): string
    requires IsBytes(s) && n <= |s|
  {
    if n == 0 then "" else HexTo(s, n - 1) + ByteHex(s[n - 1])
  }

  function OfHex(h: string): Option<string> { OfHexTo(h, |h|) }

  /** The bytes of the first n hex digits. */
  function OfHexTo(h: string, n: nat): Option<string>
    requires n <= |h|
  {
    if n == 0 then Some("")
    else if n == 1 then None
    else
      var hi, lo := HexVal(h[n - 2]), HexVal(h[n - 1]);
      var front := OfHexTo(h, n - 2);
      if hi.None? || lo.None? || front.None? then None
      else
        assert hi.value * 16 + lo.value < 256;
        Some(front.value + [(hi.value * 16 + lo.value) as char])
  }

  lemma {:induction false} OfHexPrefix(h: string, longer: string, n: nat)
    requires n <= |h| && h <= longer
    ensures OfHexTo(longer, n) == OfHexTo(h, n)
  {
    if n > 1 {
      OfHexPrefix(h, longer, n - 2);
    }
  }

  /** One byte more. */
  lemma OfHexSnoc(h: string, longer: string, front: string, c: char)
    requires c as int < 256 && OfHex(h) == Some(front) && longer == h + ByteHex(c) && PlainText(h)
    ensures OfHex(longer) == Some(front + [c]) && PlainText(longer)
  {
    OfHexPrefix(h, longer, |h|);
    var b := ByteHex(c);
    assert longer[|h|] == b[0] && longer[|h| + 1] == b[1];
    assert HexVal(b[0]) == Some(c as int / 16) && HexVal(b[1]) == Some(c as int % 16);
  }

  lemma {:induction false} HexToReads(s: string, n: nat)
    requires IsBytes(s) && n <= |s|
    ensures OfHex(HexTo(s, n)) == Some(s[..n]) && PlainText(HexTo(s, n))
  {
    if n > 0 {
      HexToReads(s, n - 1);
      OfHexSnoc(HexTo(s, n - 1), HexTo(s, n), s[..n - 1], s[n - 1]);
      assert s[..n] == s[..n - 1] + [s[n - 1]];
    }
  }

  /** Hex is lossless on every byte string, and needs no escapes. */
  lemma HexRoundTrip(s: string)
    requires IsBytes(s)
    ensures OfHex(ToHex(s)) == Some(s) && PlainText(ToHex(s))
  {
    HexToReads(s, |s|);
    assert s[..|s|] == s;
  }

  // ------------------------------------------------------------- the document

  /** What a reader of the report learns about an event. */
  datatype Line = Line(id: int, depth: int, sourceStatus: int, exitStatus: int, path: string, duration: Option<int>)

  datatype Report = Report(status: string, clock: string, monotonic: bool, lines: seq<Line>)

  function LineOf(e: Event): Line {
    Line(e.id as int, e.depth, e.loadError, e.exitStatus, e.fullPath,
         if e.timingValid then Some(e.duration as int) else None)
  }

  function LinesOf(es: seq<Event>): (ls: seq<Line>)
    ensures |ls| == |es| && forall i :: 0 <= i < |es| ==> ls[i] == LineOf(es[i])
  {
    seq(|es|, i requires 0 <= i < |es| => LineOf(es[i]))
  }

  predicate BytePaths(es: seq<Event>) {
    forall i :: 0 <= i < |es| ==> IsBytes(es[i].fullPath)
  }

  function DurationJson(e: Event): Value {
    if e.timingValid then Num(e.duration as int) else Null
  }

  function EventJson(e: Event): Value
    requires IsBytes(e.fullPath)
  {
    Obj(Member("id", Num(e.id as int), Member("depth", Num(e.depth), Member("source_status", Num(e.loadError),
        Member("exit_status", Num(e.exitStatus), Member("path_hex", Str(ToHex(e.fullPath)),
        Member("duration_ns", DurationJson(e), NoMember)))))))
  }

  function EventItems(es: seq<Event>): Items
    requires BytePaths(es)
  {
    ItemsTo(es, |es|)
  }

  function ItemsTo(es: seq<Event>, n: nat): Items
    requires n <= |es| && BytePaths(es)
  {
    if n == 0 then NoItem else Snoc(ItemsTo(es, n - 1), EventJson(es[n - 1]))
  }

  datatype Source = Source(clock: string, monotonic: bool)

  function StateOf(available: bool, incomplete: bool, count: int): string {
    if !available then "unavailable"
    else if incomplete then "incomplete"
    else if count != 0 then "complete" else "empty"
  }

  function Document(state: string, clock: Source, es: seq<Event>): Members
    requires BytePaths(es)
  {
    Member("schema_version", Num(1), Member("status", Str(state), Member("clock", Str(clock.clock),
    Member("monotonic", Bool(clock.monotonic), Member("unit", Str("nanoseconds"), Member("inclusive", Bool(true),
    Member("order", Str("completion"), Member("execution_mode", Str("instrumented-auto-compile"),
    Member("events", Arr(EventItems(es)), NoMember)))))))))
  }

  /** All events, or the newest `k` when 0 < k < n. */
  function Newest(log: seq<Event>, k: int): seq<Event>
    requires k >= 0
  {
    if 0 < k < |log| then log[|log| - k..] else log
  }

  // ------------------------------------------------------------- the printer

  /** zp_source_study_core with --json on a stream that takes every byte. The text is the document of
      the newest events; the return code is zero exactly for a complete (or empty) capture. */
  method SourceStudyJson(available: bool, incomplete: bool, count: int32, table: map<string, Event>,
                         reportCount: int32, clock: Source, ghost log: seq<Event>) returns (out: string, rc: int)
    requires reportCount >= 0 && |log| == count as int && table == TableOf(log) && (!available ==> log == [])
    requires BytePaths(log)
    ensures out == Printed(Document(StateOf(available, incomplete, |log|), clock, Newest(log, reportCount as int)))
                   + "\n"
    ensures rc == if available && !incomplete then 0 else 1
  {
    var state := StateWord(available, incomplete, count);
    var header := PrintHeader(state, clock, Newest(log, reportCount as int));
    out := PrintNewest(header, available, count, table, reportCount, log);
    out := out + "]" + "}" + "\n";
    rc := if !available || incomplete then 1 else 0;
  }

  /** Lines 704 to 711. */
  method StateWord(available: bool, incomplete: bool, count: int32) returns (state: string)
    requires count >= 0
    ensures state == StateOf(available, incomplete, count as int)
  {
    state := "empty";
    if !available {
      state := "unavailable";
    } else if incomplete {
      state := "incomplete";
    } else if count != 0 {
      state := "complete";
    }
  }

  lemma NewestAt(log: seq<Event>, k: int)
    requires k >= 0 && BytePaths(log)
    ensures var shown := Newest(log, k);
            && |shown| == (if 0 < k < |log| then k else |log|) && BytePaths(shown)
            && forall i :: 0 <= i < |shown| ==> shown[i] == log[|log| - |shown| + i]
  {
  }

  /** Lines 733 to 792: the newest events, all for a count of zero. */
  method PrintNewest(before: string, available: bool, count: int32, table: map<string, Event>, reportCount: int32,
                     ghost log: seq<Event>)
    returns (out: string)
    requires reportCount >= 0 && |log| == count as int && table == TableOf(log) && (!available ==> log == [])
    requires BytePaths(log)
    ensures out == EmitItems(before, EventItems(Newest(log, reportCount as int)))
  {
    var first: int32 := 1;
    if reportCount > 0 && reportCount < count {
      first := count - reportCount + 1;
    }
    out := before;
    if available {
      NewestAt(log, reportCount as int);
      out := PrintEvents(out, table, first, count, log, Newest(log, reportCount as int));
    }
  }

  /** The report loop over the ids from `first` to the newest. */
  method PrintEvents(before: string, table: map<string, Event>, first: int32, count: int32, ghost log: seq<Event>,
                     ghost shown: seq<Event>)
    returns (out: string)
    requires |log| == count as int && table == TableOf(log) && 1 <= first as int <= |log| + 1 && BytePaths(shown)
    requires |shown| == |log| - (first as int - 1)
    requires forall i :: 0 <= i < |shown| ==> shown[i] == log[first as int - 1 + i]
    ensures out == EmitItems(before, EventItems(shown))
  {
    out := before;
    var printed := 0;
    var idx := first;
    while idx <= count
      invariant first <= idx && idx as int <= |log| + 1 && printed == idx as int - first as int
      invariant out == EmitItems(before, ItemsTo(shown, printed))
    {
      var found;
      out, found := PrintOne(before, out, table, idx, printed, log, shown);
      if found {
        printed := printed + 1;
      }
      if idx == INT_MAX {
        break;
      }
      idx := idx + 1;
    }
    assert printed == |shown|;
  }

  /** Lines 739 to 788: the event of one id, after a comma unless it is the first. */
  method PrintOne(before: string, sofar: string, table: map<string, Event>, idx: int32, printed: nat,
                  ghost log: seq<Event>, ghost shown: seq<Event>)
    returns (out: string, found: bool)
    requires table == TableOf(log) && 1 <= idx as int <= |log| && BytePaths(shown)
    requires printed < |shown| && shown[printed] == log[idx as int - 1]
    requires sofar == EmitItems(before, ItemsTo(shown, printed))
    ensures found && out == EmitItems(before, ItemsTo(shown, printed + 1))
  {
    TableLookup(log, idx as int);
    var key := PrintInt(idx as int);
    found := key in table;
    out := sofar;
    if found {
      EmitSnoc(before, ItemsTo(shown, printed), EventJson(table[key]));
      out := PrintEvent(if printed > 0 then sofar + "," else sofar, table[key]);
    }
  }

  /** The fixed head of the document, up to the opening bracket of the events: with any events and the closing
      brackets behind it, it is the document. */
  method PrintHeader(state: string, clock: Source, ghost es: seq<Event>) returns (out: string)
    requires BytePaths(es)
    ensures Printed(Document(state, clock, es)) == EmitItems(out, EventItems(es)) + "]" + "}"
  {
    HeaderThenEvents(state, clock, es);
    var t4 := PrintState(state, clock);
    var t8 := PrintSchema(t4);
    out := t8 + Key("events") + "[";
  }

  /** The members up to the clock. */
  method PrintState(state: string, clock: Source) returns (out: string)
    ensures out == Head4(state, clock)
  {
    var t1 := "{" + Key("schema_version") + PrintInt(1) + ",";
    var t2 := t1 + Key("status") + "\"" + state + "\"" + ",";
    var t3 := t2 + Key("clock") + "\"" + clock.clock + "\"" + ",";
    out := t3 + Key("monotonic") + (if clock.monotonic then "true" else "false") + ",";
  }

  /** The members that are the same in every report. */
  method PrintSchema(t4: string) returns (out: string)
    ensures out == Head8(t4)
  {
    var t5 := t4 + Key("unit") + "\"" + "nanoseconds" + "\"" + ",";
    var t6 := t5 + Key("inclusive") + "true" + ",";
    var t7 := t6 + Key("order") + "\"" + "completion" + "\"" + ",";
    out := t7 + Key("execution_mode") + "\"" + "instrumented-auto-compile" + "\"" + ",";
  }

  /** The members before the events, as they are printed one after the other. */
  function HeaderText(state: string, clock: Source): string {
    Head8(Head4(state, clock)) + Key("events") + "["
  }

  function Head4(state: string, clock: Source): string {
    After(After(After(After("{", "schema_version", Num(1)), "status", Str(state)), "clock", Str(clock.clock)),
          "monotonic", Bool(clock.monotonic))
  }

  function Head8(before: string): string {
    After(After(After(After(before, "unit", Str("nanoseconds")), "inclusive", Bool(true)), "order", Str("completion")),
          "execution_mode", Str("instrumented-auto-compile"))
  }

  /** Four members and more. */
  lemma EmitFour(before: string, k1: string, v1: Value, k2: string, v2: Value, k3: string, v3: Value, k4: string,
                 v4: Value, more: Members)
    requires more.Member?
    ensures EmitMembers(before, Member(k1, v1, Member(k2, v2, Member(k3, v3, Member(k4, v4, more)))))
         == EmitMembers(After(After(After(After(before, k1, v1), k2, v2), k3, v3), k4, v4), more)
  {
    var t1 := After(before, k1, v1);
    var t2 := After(t1, k2, v2);
    var t3 := After(t2, k3, v3);
    EmitMember(before, k1, v1, Member(k2, v2, Member(k3, v3, Member(k4, v4, more))));
    EmitMember(t1, k2, v2, Member(k3, v3, Member(k4, v4, more)));
    EmitMember(t2, k3, v3, Member(k4, v4, more));
    EmitMember(t3, k4, v4, more);
  }

  /** The head, the events and the two closing brackets are the document. */
  lemma HeaderThenEvents(state: string, clock: Source, es: seq<Event>)
    requires BytePaths(es)
    ensures Printed(Document(state, clock, es)) == EmitItems(HeaderText(state, clock), EventItems(es)) + "]" + "}"
  {
    var m9 := Member("events", Arr(EventItems(es)), NoMember);
    var m5 := Member("unit", Str("nanoseconds"), Member("inclusive", Bool(true), Member("order", Str("completion"),
              Member("execution_mode", Str("instrumented-auto-compile"), m9))));
    EmitFour("{", "schema_version", Num(1), "status", Str(state), "clock", Str(clock.clock), "monotonic",
             Bool(clock.monotonic), m5);
    EmitFour(Head4(state, clock), "unit", Str("nanoseconds"), "inclusive", Bool(true), "order", Str("completion"),
             "execution_mode", Str("instrumented-auto-compile"), m9);
    LastMember(Head8(Head4(state, clock)), "events", EventItems(es));
  }

  lemma KeyIs(key: string, text: string)
    requires text == "\"" + key + "\":"
    ensures Key(key) == text
  {
  }

  lemma Keys()
    ensures Key("schema_version") == "\"schema_version\":" && Key("status") == "\"status\":"
    ensures Key("clock") == "\"clock\":" && Key("monotonic") == "\"monotonic\":" && Key("unit") == "\"unit\":"
    ensures Key("inclusive") == "\"inclusive\":" && Key("order") == "\"order\":"
    ensures Key("execution_mode") == "\"execution_mode\":" && Key("events") == "\"events\":"
  {
    KeyIs("schema_version", "\"schema_version\":");
    KeyIs("status", "\"status\":");
    KeyIs("clock", "\"clock\":");
    KeyIs("monotonic", "\"monotonic\":");
    KeyIs("unit", "\"unit\":");
    KeyIs("inclusive", "\"inclusive\":");
    KeyIs("order", "\"order\":");
    KeyIs("execution_mode", "\"execution_mode\":");
    KeyIs("events", "\"events\":");
  }

  lemma EventKeys()
    ensures Key("id") == "\"id\":" && Key("depth") == "\"depth\":" && Key("source_status") == "\"source_status\":"
    ensures Key("exit_status") == "\"exit_status\":" && Key("path_hex") == "\"path_hex\":"
    ensures Key("duration_ns") == "\"duration_ns\":"
  {
    KeyIs("id", "\"id\":");
    KeyIs("depth", "\"depth\":");
    KeyIs("source_status", "\"source_status\":");
    KeyIs("exit_status", "\"exit_status\":");
    KeyIs("path_hex", "\"path_hex\":");
    KeyIs("duration_ns", "\"duration_ns\":");
  }

  /** The head of the document to the letter. */
  lemma HeaderIs(state: string, clock: Source)
    ensures HeaderText(state, clock)
         == "{" + "\"schema_version\":" + PrintInt(1) + "," + "\"status\":" + "\"" + state + "\"" + ","
            + "\"clock\":" + "\"" + clock.clock + "\"" + "," + "\"monotonic\":"
            + (if clock.monotonic then "true" else "false") + "," + "\"unit\":" + "\"" + "nanoseconds" + "\"" + ","
            + "\"inclusive\":" + "true" + "," + "\"order\":" + "\"" + "completion" + "\"" + ","
            + "\"execution_mode\":" + "\"" + "instrumented-auto-compile" + "\"" + "," + "\"events\":" + "["
  {
    Keys();
  }

  lemma NumberAfter(before: string, key: string, n: int, text: string)
    requires text == Key(key)
    ensures After(before, key, Num(n)) == before + text + PrintInt(n) + ","
  {
  }

  lemma TextAfter(before: string, key: string, s: string, text: string)
    requires text == Key(key)
    ensures After(before, key, Str(s)) == before + text + "\"" + s + "\"" + ","
  {
  }

  lemma DurationLast(before: string, e: Event)
    ensures EmitMembers(before, Member("duration_ns", DurationJson(e), NoMember))
         == before + Key("duration_ns") + if e.timingValid then PrintInt(e.duration as int) else "null"
  {
  }

  lemma EventMembers(before: string, e: Event)
    requires IsBytes(e.fullPath)
    ensures Emit(before, EventJson(e))
         == EmitMembers(After(After(After(After(After(before + "{", "id", Num(e.id as int)), "depth", Num(e.depth)),
                                          "source_status", Num(e.loadError)),
                                    "exit_status", Num(e.exitStatus)),
                              "path_hex", Str(ToHex(e.fullPath))),
                        Member("duration_ns", DurationJson(e), NoMember)) + "}"
  {
    var m6 := Member("duration_ns", DurationJson(e), NoMember);
    var m5 := Member("path_hex", Str(ToHex(e.fullPath)), m6);
    EmitFour(before + "{", "id", Num(e.id as int), "depth", Num(e.depth), "source_status", Num(e.loadError),
             "exit_status", Num(e.exitStatus), m5);
    EmitMember(After(After(After(After(before + "{", "id", Num(e.id as int)), "depth", Num(e.depth)),
                           "source_status", Num(e.loadError)), "exit_status", Num(e.exitStatus)),
               "path_hex", Str(ToHex(e.fullPath)), m6);
  }

  /** An event to the letter. */
  lemma EventIs(before: string, e: Event)
    requires IsBytes(e.fullPath)
    ensures Emit(before, EventJson(e))
         == before + "{" + "\"id\":" + PrintInt(e.id as int) + "," + "\"depth\":" + PrintInt(e.depth) + ","
            + "\"source_status\":" + PrintInt(e.loadError) + "," + "\"exit_status\":" + PrintInt(e.exitStatus) + ","
            + "\"path_hex\":" + "\"" + ToHex(e.fullPath) + "\"" + "," + "\"duration_ns\":"
            + (if e.timingValid then PrintInt(e.duration as int) else "null") + "}"
  {
    EventKeys();
    EventMembers(before, e);
    var t1 := After(before + "{", "id", Num(e.id as int));
    var t2 := After(t1, "depth", Num(e.depth));
    var t3 := After(t2, "source_status", Num(e.loadError));
    var t4 := After(t3, "exit_status", Num(e.exitStatus));
    NumberAfter(before + "{", "id", e.id as int, "\"id\":");
    NumberAfter(t1, "depth", e.depth, "\"depth\":");
    NumberAfter(t2, "source_status", e.loadError, "\"source_status\":");
    NumberAfter(t3, "exit_status", e.exitStatus, "\"exit_status\":");
    TextAfter(t4, "path_hex", ToHex(e.fullPath), "\"path_hex\":");
    DurationLast(After(t4, "path_hex", Str(ToHex(e.fullPath))), e);
  }

  /** The state words: which one is reported, and that the exit status is zero exactly for the last two. */
  lemma StatesAre(available: bool, incomplete: bool, count: nat)
    ensures var state := StateOf(available, incomplete, count);
            && (state == "unavailable" <==> !available)
            && (state == "incomplete" <==> available && incomplete)
            && (state == "complete" <==> available && !incomplete && count > 0)
            && (state == "empty" <==> available && !incomplete && count == 0)
  {
  }

  lemma HexDigitsAre(c: char)
    requires c as int < 256
    ensures ByteHex(c) == ["0123456789abcdef"[c as int / 16], "0123456789abcdef"[c as int % 16]]
  {
  }

  lemma LastMember(before: string, key: string, items: Items)
    ensures EmitMembers(before, Member(key, Arr(items), NoMember)) == EmitItems(before + Key(key) + "[", items) + "]"
  {
  }

  /** One event: the fields, with the path as hex and `null` for an invalid timing. */
  method PrintEvent(before: string, e: Event) returns (out: string)
    requires IsBytes(e.fullPath)
    ensures out == Emit(before, EventJson(e))
  {
    EventIs(before, e);
    EventKeys();
    var t1 := before + "{" + Key("id") + PrintInt(e.id as int) + ",";
    var t2 := t1 + Key("depth") + PrintInt(e.depth) + ",";
    var t3 := t2 + Key("source_status") + PrintInt(e.loadError) + ",";
    var t4 := t3 + Key("exit_status") + PrintInt(e.exitStatus) + ",";
    var hex := HexOfPath(e.fullPath);
    var t5 := t4 + Key("path_hex") + "\"" + hex + "\"" + ",";
    var t6 := t5 + Key("duration_ns") + if e.timingValid then PrintInt(e.duration as int) else "null";
    out := t6 + "}";
  }

  /** The byte loop: two hex digits for each byte of the path. */
  method HexOfPath(path: string) returns (hex: string)
    requires IsBytes(path)
    ensures hex == ToHex(path)
  {
    hex := "";
    for i := 0 to |path|
      invariant hex == HexTo(path, i)
    {
      hex := hex + ByteHex(path[i]);
    }
  }

  // ------------------------------------------------------------- reading the report back

  /** One event object: the six fields of the versioned schema, in its order. */
  function ReadLine(j: Value): Option<Line> {
    match j
    case Obj(Member(k1, Num(id), Member(k2, Num(depth), Member(k3, Num(source), Member(k4, Num(exit),
             Member(k5, Str(hex), Member(k6, duration, NoMember))))))) =>
      if k1 == "id" && k2 == "depth" && k3 == "source_status" && k4 == "exit_status" && k5 == "path_hex"
         && k6 == "duration_ns" && (duration.Num? || duration.Null?) && OfHex(hex).Some?
      then Some(Line(id, depth, source, exit, OfHex(hex).value, if duration.Num? then Some(duration.n) else None))
      else None
    case _ => None
  }

  function ReadLines(items: Items): Option<seq<Line>> {
    if items.NoItem? then Some([])
    else
      var first, others := ReadLine(items.head), ReadLines(items.tail);
      if first.None? || others.None? then None else Some([first.value] + others.value)
  }

  /** A reader of the versioned report: one document of the schema, then the newline. */
  function ReadReport(text: string): Option<Report> {
    match ParseValue(text)
    case Fail => None
    case Done(j, rest) => if rest == "\n" then ReadDocument(j) else None
  }

  function ReadDocument(j: Value): Option<Report> {
    match j
    case Obj(Member(k1, Num(version), Member(k2, Str(status), Member(k3, Str(clock), Member(k4, Bool(monotonic),
             Member(k5, Str(unit), Member(k6, Bool(inclusive), Member(k7, Str(order), Member(k8, Str(mode),
             Member(k9, Arr(events), NoMember)))))))))) =>
      if k1 == "schema_version" && version == 1 && k2 == "status" && k3 == "clock" && k4 == "monotonic"
         && k5 == "unit" && unit == "nanoseconds" && k6 == "inclusive" && inclusive && k7 == "order"
         && order == "completion" && k8 == "execution_mode" && k9 == "events" && ReadLines(events).Some?
      then Some(Report(status, clock, monotonic, ReadLines(events).value))
      else None
    case _ => None
  }

  lemma PlainEventKeys()
    ensures PlainText("id") && PlainText("depth") && PlainText("source_status") && PlainText("exit_status")
    ensures PlainText("path_hex") && PlainText("duration_ns")
  {
  }

  lemma PlainDocumentKeys()
    ensures PlainText("schema_version") && PlainText("status") && PlainText("clock") && PlainText("monotonic")
    ensures PlainText("unit") && PlainText("inclusive") && PlainText("order") && PlainText("events")
  {
  }

  lemma PlainDocumentTexts()
    ensures PlainText("execution_mode") && PlainText("nanoseconds") && PlainText("completion")
    ensures PlainText("instrumented-auto-compile")
  {
  }

  lemma ReadEvent(e: Event)
    requires IsBytes(e.fullPath)
    ensures ReadLine(EventJson(e)) == Some(LineOf(e)) && Plain(EventJson(e))
  {
    HexRoundTrip(e.fullPath);
    PlainEventKeys();
    assert Plain(DurationJson(e));
    var m5 := Member("path_hex", Str(ToHex(e.fullPath)), Member("duration_ns", DurationJson(e), NoMember));
    assert PlainMembers(m5.more) && PlainMembers(m5);
    var m3 := Member("source_status", Num(e.loadError), Member("exit_status", Num(e.exitStatus), m5));
    assert PlainMembers(m3.more) && PlainMembers(m3);
    assert PlainMembers(Member("depth", Num(e.depth), m3));
  }

  lemma {:induction false} ReadSnoc(items: Items, j: Value)
    requires ReadLines(items).Some? && ReadLine(j).Some? && PlainItems(items) && Plain(j)
    ensures ReadLines(Snoc(items, j)) == Some(ReadLines(items).value + [ReadLine(j).value])
    ensures PlainItems(Snoc(items, j))
    decreases items
  {
    if items.Item? {
      ReadSnoc(items.tail, j);
      var first, others, last := ReadLine(items.head).value, ReadLines(items.tail).value, ReadLine(j).value;
      assert [first] + (others + [last]) == [first] + others + [last];
    } else {
      assert [ReadLine(j).value] + [] == [] + [ReadLine(j).value];
    }
  }

  lemma {:induction false} ReadItemsTo(es: seq<Event>, n: nat)
    requires n <= |es| && BytePaths(es)
    ensures ReadLines(ItemsTo(es, n)) == Some(LinesTo(es, n)) && PlainItems(ItemsTo(es, n))
  {
    if n > 0 {
      ReadItemsTo(es, n - 1);
      ReadEvent(es[n - 1]);
      ReadSnoc(ItemsTo(es, n - 1), EventJson(es[n - 1]));
    }
  }

  function LinesTo(es: seq<Event>, n: nat): (ls: seq<Line>)
    requires n <= |es|
    ensures |ls| == n && forall i :: 0 <= i < n ==> ls[i] == LineOf(es[i])
  {
    if n == 0 then [] else LinesTo(es, n - 1) + [LineOf(es[n - 1])]
  }

  lemma ReadEvents(es: seq<Event>)
    requires BytePaths(es)
    ensures ReadLines(EventItems(es)) == Some(LinesOf(es)) && PlainItems(EventItems(es))
  {
    ReadItemsTo(es, |es|);
    assert LinesTo(es, |es|) == LinesOf(es);
  }

  /** The report is lossless: whatever the log and the count, reading it back gives the capture state,
      the clock and exactly the newest events in order, with the bytes of their paths. */
  lemma ReportRoundTrip(state: string, clock: Source, es: seq<Event>)
    requires PlainText(state) && PlainText(clock.clock) && BytePaths(es)
    ensures ReadReport(Printed(Document(state, clock, es)) + "\n")
            == Some(Report(state, clock.clock, clock.monotonic, LinesOf(es)))
  {
    var ms := Document(state, clock, es);
    ReadEvents(es);
    DocumentIsPlain(state, clock, es);
    PrintedIsShow(ms, "\n");
    ValueRoundTrip(Obj(ms), "\n");
  }

  lemma DocumentIsPlain(state: string, clock: Source, es: seq<Event>)
    requires PlainText(state) && PlainText(clock.clock) && BytePaths(es) && PlainItems(EventItems(es))
    ensures PlainMembers(Document(state, clock, es))
  {
    PlainDocumentKeys();
    PlainDocumentTexts();
    var m9 := Member("events", Arr(EventItems(es)), NoMember);
    var m8 := Member("execution_mode", Str("instrumented-auto-compile"), m9);
    assert PlainMembers(m9) && PlainMembers(m8);
    var m7 := Member("order", Str("completion"), m8);
    var m6 := Member("inclusive", Bool(true), m7);
    assert PlainMembers(m7) && PlainMembers(m6);
    var m5 := Member("unit", Str("nanoseconds"), m6);
    var m4 := Member("monotonic", Bool(clock.monotonic), m5);
    assert PlainMembers(m5) && PlainMembers(m4);
    var m3 := Member("clock", Str(clock.clock), m4);
    assert PlainMembers(m3) && PlainMembers(Member("status", Str(state), m3));
  }

  // ------------------------------------------------------------- the report of a shell

  /** The state words need no escapes. */
  lemma PlainStates(available: bool, incomplete: bool, count: int)
    ensures PlainText(StateOf(available, incomplete, count))
  {
  }

  /** source-study --json at any moment of any run: the report reads back as the newest events of the completion
      order of the calls that are complete. */
  method ReportOf(shell: Shell, reportCount: int32, clock: Source) returns (out: string, rc: int)
    requires shell.Valid() && reportCount >= 0 && PlainText(clock.clock) && BytePaths(shell.log)
    ensures shell.Snapshot() == RecordAll(Fresh(shell.available), shell.open.Pending())
    ensures ReadReport(out) == Some(Report(StateOf(shell.available, shell.incomplete, |shell.log|), clock.clock,
                                           clock.monotonic, LinesOf(Newest(shell.log, reportCount as int))))
    ensures rc == if shell.available && !shell.incomplete then 0 else 1
    ensures unchanged(shell)
  {
    RecordFramesInPostOrder(Fresh(shell.available), shell.open);
    if !shell.available {
      NothingWithoutTable(shell.open.Pending());
    }
    out, rc := SourceStudyJson(shell.available, shell.incomplete, shell.count, shell.table, reportCount, clock,
                               shell.log);
    PlainStates(shell.available, shell.incomplete, |shell.log|);
    ReportRoundTrip(StateOf(shell.available, shell.incomplete, |shell.log|), clock,
                    Newest(shell.log, reportCount as int));
  }
}
