/** src/core/source.c: the replacement for `source`, its saved shell state and its event log. */
module SourceProfile {
  import opened CTypes
  import opened Clock
  import opened Text
  import opened CallTree

  const SOURCE_OK := 0
  const SOURCE_NOT_FOUND := 1
  const SOURCE_ERROR := 2
  const CMDSTACKSZ := 256
  const TRAP_STATE_INACTIVE := 0

  /** The shell variables a running script may set to anything. */
  datatype Vars = Vars(shin: int, subsh: int, thisjob: int, lineno: int, loops: int, shinStdin: bool,
                       scriptname: Option<string>, scriptfilename: Option<string>, cmdsp: int,
                       trapState: int, trapReturn: int, lastval: int,
                       errError: bool, errInterrupt: bool, retflag: bool, exitPending: bool)

  /** The linked list of running functions and scripts, innermost first. */
  datatype FuncStack = NoFrame | Frame(name: string, caller: string, lineno: int, prev: FuncStack)

  datatype LoopResult = LoopOk | LoopEmpty | LoopError

  /** How an attempt gets its program: no file, a compiled dump, or a descriptor to read. */
  datatype How = Compiled | Interpreted(fd: int, result: LoopResult)

  /** What a script does while it runs. */
  datatype Action = Assign(vars: Vars) | CmdPush(token: int) | Nested(attempt: Attempt)

  /** One run: its actions and the variables it leaves behind when it ends. */
  datatype Outcome = Missing | Ran(how: How, body: seq<Action>, final: Vars)

  /** One `source` attempt and what the environment will answer: the working directory when it
      starts, both clock readings, and whether the path copy and the event node can be allocated. */
  datatype Attempt = Attempt(script: string, pwd: string, started: Sample, ended: Sample,
                             pathCopied: bool, nodeAllocated: bool, outcome: Outcome)

  datatype Event = Event(id: int32, fullPath: string, duration: uint64, timingValid: bool,
                         depth: nat, exitStatus: int, loadError: int)

  /** zp_source_path: the lexical absolute path. */
  function SourcePath(pwd: string, source: string): string {
    if source != "" && source[0] == '/' then source
    else pwd + "/" + (if "./" <= source then source[2..] else source)
  }

  /** From an absolute working directory every recorded path is absolute. */
  lemma PathIsAbsolute(pwd: string, script: string)
    requires pwd != "" && pwd[0] == '/'
    ensures SourcePath(pwd, script) != "" && SourcePath(pwd, script)[0] == '/'
  {
  }

  /** A script in the working directory is recorded by one path, whether it is named plainly, with `./` or in full,
      and a full name is recorded wherever the shell is. */
  lemma SpellingsOfOneScript(pwd: string, script: string, elsewhere: string)
    requires pwd != "" && pwd[0] == '/' && script != "" && script[0] != '/' && !("./" <= script)
    ensures SourcePath(pwd, script) == SourcePath(pwd, "./" + script) == SourcePath(elsewhere, pwd + "/" + script)
         == pwd + "/" + script
  {
    assert ("./" + script)[2..] == script && "./" <= "./" + script;
  }

  // -------------------------------------------------------------- the calls of an attempt

  function StatusOf(o: Outcome): int {
    match o
    case Missing => SOURCE_NOT_FOUND
    case Ran(Compiled, _, final) => if final.errError || final.errInterrupt then SOURCE_ERROR else SOURCE_OK
    case Ran(Interpreted(_, result), _, _) => if result == LoopError then SOURCE_ERROR else SOURCE_OK
  }

  /** $? at the end of a run; an empty script sets it to zero. */
  function LastvalOf(o: Outcome): int
    requires o.Ran?
  {
    if o.how.Interpreted? && o.how.result == LoopEmpty then 0 else o.final.lastval
  }

  function VisitOf(a: Attempt): Visit {
    var status := StatusOf(a.outcome);
    Visit(SourcePath(a.pwd, a.script), a.started, a.ended, a.pathCopied && a.nodeAllocated, status,
          if status == SOURCE_OK then LastvalOf(a.outcome) else 128 - status)
  }

  function CallOf(a: Attempt): Call {
    Call(VisitOf(a), if a.outcome.Missing? then [] else CallsOf(a.outcome.body))
  }

  function CallsOf(body: seq<Action>): seq<Call> {
    if body == [] then []
    else
      CallsOf(body[..|body| - 1]) + CallsOfAction(body[|body| - 1])
  }

  function CallsOfAction(action: Action): seq<Call> {
    match action
    case Nested(a) => [CallOf(a)]
    case _ => []
  }

  /** The calls of a script are those of its parts. */
  lemma {:induction false} CallsAppend(a: seq<Action>, b: seq<Action>)
    ensures CallsOf(a + b) == CallsOf(a) + CallsOf(b)
  {
    if b == [] {
      assert a + b == a;
    } else {
      var front, last := b[..|b| - 1], b[|b| - 1];
      LastOfBoth(a, b);
      CallsAppend(a, front);
      Assoc(CallsOf(a), CallsOf(front), CallsOfAction(last));
    }
  }

  /** A nested attempt is a call, which holds what that script calls in turn, and no other action is. */
  lemma CallsOfOne(action: Action)
    ensures CallsOf([action]) == if action.Nested? then [CallOf(action.attempt)] else []
    ensures action.Nested? && action.attempt.outcome.Ran? ==>
              CallOf(action.attempt).kids == CallsOf(action.attempt.outcome.body)
    ensures action.Nested? && action.attempt.outcome.Missing? ==> CallOf(action.attempt).kids == []
  {
    assert [action][..0] == [];
  }

  // -------------------------------------------------------------- the log

  /** The profiler's statics, with the event table as the list of its events. */
  datatype Profile = Profile(available: bool, incomplete: bool, log: seq<Event>)

  function EventOf(e: Entry, id: int32): Event {
    var d := e.visit.Duration();
    Event(id, e.visit.path, if d.Some? then d.value as uint64 else 0, d.Some?, e.depth,
          e.visit.exitStatus, e.visit.status)
  }

  /** How an attempt ends for its caller: 1 when there is no file, 2 when a compiled script leaves an error or an
      interrupt or the interpreted one ends in an error, 0 otherwise. */
  predicate EndsWithStatus(o: Outcome, status: int) {
    match o
    case Missing => status == 1
    case Ran(Compiled, _, final) => status == if final.errError || final.errInterrupt then 2 else 0
    case Ran(Interpreted(_, result), _, _) => status == if result == LoopError then 2 else 0
  }

  /** What the event of an attempt tells: where the script is, how deep it was, how it ended, and how long it took
      when both readings were good and in order. */
  ghost predicate Tells(e: Event, a: Attempt, depth: nat) {
    var start, end := a.started.stamp, a.ended.stamp;
    var ns := (end.sec as int - start.sec as int) * 1_000_000_000 + end.ns as int - start.ns as int;
    && (a.script != "" && a.script[0] == '/' ==> e.fullPath == a.script)
    && (a.script != "" && a.script[0] != '/' && !("./" <= a.script) ==> e.fullPath == a.pwd + "/" + a.script)
    && ("./" <= a.script ==> e.fullPath == a.pwd + "/" + a.script[2..])
    && (a.script == "" ==> e.fullPath == a.pwd + "/")
    && e.depth == depth && EndsWithStatus(a.outcome, e.loadError)
    && (e.loadError > 0 ==> e.exitStatus == 128 - e.loadError)
    && (e.loadError == 0 ==>
          e.exitStatus == if a.outcome.how.Interpreted? && a.outcome.how.result == LoopEmpty then 0
                          else a.outcome.final.lastval)
    && (e.timingValid <==>
          && a.started.ok && start.sec >= 0 && 0 <= start.ns < 1_000_000_000
          && a.ended.ok && end.sec >= 0 && 0 <= end.ns < 1_000_000_000 && 0 <= ns < 0x1_0000_0000_0000_0000)
    && e.duration as int == if e.timingValid then ns else 0
  }

  lemma EventTells(a: Attempt, depth: nat, id: int32)
    ensures Tells(EventOf(Entry(VisitOf(a), depth), id), a, depth)
  {
    assert a.script == "" ==> a.pwd + "/" + a.script == a.pwd + "/";
  }

  /** A record that cannot be kept is lost, and the profile says so. */
  predicate Keeps(p: Profile, e: Entry) {
    p.available && e.visit.recordable && |p.log| < INT_MAX as int
  }

  function Record(p: Profile, e: Entry): Profile
  {
    if Keeps(p, e) then
      p.(log := p.log + [EventOf(e, (|p.log| + 1) as int32)], incomplete := p.incomplete || e.visit.Duration().None?)
    else p.(incomplete := true)
  }

  function RecordAll(p: Profile, es: seq<Entry>): Profile {
    if es == [] then p else Record(RecordAll(p, es[..|es| - 1]), es[|es| - 1])
  }

  lemma {:induction false} RecordAllAppend(p: Profile, es: seq<Entry>, fs: seq<Entry>)
    ensures RecordAll(p, es + fs) == RecordAll(RecordAll(p, es), fs)
  {
    if fs == [] {
      assert es + fs == es;
    } else {
      assert (es + fs)[..|es + fs| - 1] == es + fs[..|fs| - 1];
      RecordAllAppend(p, es, fs[..|fs| - 1]);
    }
  }

  /** The records of a call: its children's, then its own. */
  function RecordCall(p: Profile, c: Call, depth: nat): Profile
    decreases c
  {
    Record(RecordCalls(p, c.kids, depth + 1), Entry(c.visit, depth))
  }

  function RecordCalls(p: Profile, cs: seq<Call>, depth: nat): Profile
    decreases cs
  {
    if cs == [] then p else RecordCall(RecordCalls(p, cs[..|cs| - 1], depth), cs[|cs| - 1], depth)
  }

  lemma RecordCallsSnoc(p: Profile, cs: seq<Call>, c: Call, depth: nat)
    ensures RecordCalls(p, cs + [c], depth) == RecordCall(RecordCalls(p, cs, depth), c, depth)
  {
    assert (cs + [c])[..|cs|] == cs;
  }

  /** The records of everything complete below the open frames. */
  function RecordFrames(p: Profile, f: Frames): Profile
    decreases f
  {
    RecordCalls(if f.Bottom? then p else RecordFrames(p, f.outer), f.done, f.Depth() + 1)
  }

  /** Closing a frame is one more record, of the call it completes. */
  lemma RecordClosing(p: Profile, f: Frames, c: Call)
    ensures RecordFrames(p, f.Completed([c])) == Record(RecordFrames(p, Open(c.kids, f)), Entry(c.visit, f.Depth() + 1))
  {
    RecordCallsSnoc(if f.Bottom? then p else RecordFrames(p, f.outer), f.done, c, f.Depth() + 1);
  }

  /** What closing the innermost frame means for the records of all frames. */
  lemma ClosedFrames(now: Profile, p: Profile, f: Frames, c: Call)
    requires now == RecordFrames(p, f) && f.Open? && f.done == c.kids
    ensures Record(now, Entry(c.visit, f.Depth())) == RecordFrames(p, f.outer.Completed([c]))
    ensures f.outer.Completed([c]).Depth() == f.Depth() - 1
  {
    RecordClosing(p, f.outer, c);
    assert f == Open(c.kids, f.outer);
  }

  lemma {:induction false} RecordCallsInPostOrder(p: Profile, cs: seq<Call>, depth: nat)
    ensures RecordCalls(p, cs, depth) == RecordAll(p, PostOrders(cs, depth))
    decreases cs
  {
    if cs != [] {
      var front, c := cs[..|cs| - 1], cs[|cs| - 1];
      var q := RecordCalls(p, front, depth);
      RecordCallsInPostOrder(p, front, depth);
      RecordCallsInPostOrder(q, c.kids, depth + 1);
      RecordLast(q, PostOrders(c.kids, depth + 1), Entry(c.visit, depth));
      RecordAllAppend(p, PostOrders(front, depth), PostOrder(c, depth));
    }
  }

  /** The records kept in any state are those of the post-order of the completed calls. */
  lemma {:induction false} RecordFramesInPostOrder(p: Profile, f: Frames)
    ensures RecordFrames(p, f) == RecordAll(p, f.Pending())
  {
    if f.Bottom? {
      RecordCallsInPostOrder(p, f.done, 1);
    } else {
      RecordFramesInPostOrder(p, f.outer);
      RecordCallsInPostOrder(RecordFrames(p, f.outer), f.done, f.Depth() + 1);
      RecordAllAppend(p, f.outer.Pending(), PostOrders(f.done, f.Depth() + 1));
    }
  }

  lemma RecordLast(p: Profile, es: seq<Entry>, e: Entry)
    ensures RecordAll(p, es + [e]) == Record(RecordAll(p, es), e)
  {
    assert (es + [e])[..|es|] == es;
  }

  function Fresh(available: bool): Profile {
    Profile(available, false, [])
  }

  /** Without a table nothing is ever kept. */
  lemma {:induction false} NothingWithoutTable(es: seq<Entry>)
    ensures RecordAll(Fresh(false), es).log == [] && !RecordAll(Fresh(false), es).available
  {
    if es != [] {
      NothingWithoutTable(es[..|es| - 1]);
    }
  }

  /** Whatever is lost, the ids are 1..n; nothing is ever lost while the flag is clear, and then the
      log is the completion order itself, event by event. The flag is clear exactly when every
      attempt was kept with a good duration. */
  lemma {:induction false} LogIsCompletionOrder(available: bool, es: seq<Entry>)
    ensures var p := RecordAll(Fresh(available), es);
            && p.available == available && |p.log| <= |es| && |p.log| <= INT_MAX as int
            && (forall i :: 0 <= i < |p.log| ==> p.log[i].id as int == i + 1)
            && (!p.incomplete <==> (es == [] || (available && |es| <= INT_MAX as int))
                                   && forall e :: e in es ==> e.visit.recordable && e.visit.Duration().Some?)
            && ((available && |es| <= INT_MAX as int && forall e :: e in es ==> e.visit.recordable) ==>
                  |p.log| == |es| && forall i :: 0 <= i < |es| ==> p.log[i] == EventOf(es[i], (i + 1) as int32))
  {
    if es != [] {
      LogIsCompletionOrder(available, es[..|es| - 1]);
      assert es == es[..|es| - 1] + [es[|es| - 1]];
    }
  }

  /** A complete profile with no script running decodes to exactly the calls that were made. */
  lemma CompleteLogDecodes(available: bool, cs: seq<Call>)
    requires !RecordAll(Fresh(available), Bottom(cs).Pending()).incomplete
    ensures var log := RecordAll(Fresh(available), Bottom(cs).Pending()).log;
            && |log| == |PostOrders(cs, 1)|
            && Decode(seq(|log|, i requires 0 <= i < |log| => log[i].depth), 1) == (ShapesOf(cs), [])
            && forall i :: 0 <= i < |log| ==> log[i].id as int == i + 1 && log[i].timingValid
                                              && Some(log[i].duration as nat) == PostOrders(cs, 1)[i].visit.Duration()
  {
    var es := PostOrders(cs, 1);
    LogIsCompletionOrder(available, es);
    var log := RecordAll(Fresh(available), es).log;
    assert Decode(DepthsOf(es), 1) == (ShapesOf(cs), []) by {
      DepthsDetermineCalls(cs, [], []);
    }
    DepthsOfLog(log, es);
  }

  /** The depth and duration columns. */
  function RowsOfLog(log: seq<Event>): seq<Row> {
    seq(|log|, i requires 0 <= i < |log| => Row(log[i].depth, log[i].duration as nat))
  }

  lemma LogRows(log: seq<Event>, es: seq<Entry>)
    requires |log| == |es|
    requires forall i :: 0 <= i < |log| ==> log[i].depth == es[i].depth
    requires forall i :: 0 <= i < |log| ==> Some(log[i].duration as nat) == es[i].visit.Duration()
    ensures RowsOfLog(log) == RowsOf(es)
  {
  }

  lemma TimedRows(cs: seq<Call>, es: seq<Entry>)
    requires es == PostOrders(cs, 1) && forall i :: 0 <= i < |es| ==> es[i].visit.Duration().Some?
    ensures AllTimed(cs)
  {
    forall c | c in cs
      ensures c.visit.Duration().Some?
    {
      var i := RowOfCall(cs, 1, c);
    }
  }

  /** Under a monotone clock the durations in a complete log are inclusive over the forest that it decodes to: for
      every event, those of its children in the log add up to no more than its own, and those of the top level to no
      more than the whole span. */
  lemma CompleteLogIsInclusive(available: bool, cs: seq<Call>, lo: int, hi: int)
    requires !RecordAll(Fresh(available), Bottom(cs).Pending()).incomplete && Monotone(ReadingsOf(cs), lo, hi)
    ensures var rows := RowsOfLog(RecordAll(Fresh(available), Bottom(cs).Pending()).log);
            LogInclusive(rows) && (hi - lo <= ULONG_MAX as int ==> TimeAt(rows, |rows|, 1) <= hi - lo)
  {
    var es := PostOrders(cs, 1);
    var log := RecordAll(Fresh(available), es).log;
    CompleteLogDecodes(available, cs);
    LogIsCompletionOrder(available, es);
    LogRows(log, es);
    TimedRows(cs, es);
    ForestLogTiming(cs, es, lo, hi);
  }

  lemma DepthsOfLog(log: seq<Event>, es: seq<Entry>)
    requires |log| == |es| && forall i :: 0 <= i < |log| ==> log[i].depth == es[i].depth
    ensures seq(|log|, i requires 0 <= i < |log| => log[i].depth) == DepthsOf(es)
  {
  }

  // -------------------------------------------------------------- the shell

  /** The event table of a log: its events under their decimal ids. */
  function TableOf(log: seq<Event>): map<string, Event> { TableTo(log, |log|) }

  function TableTo(log: seq<Event>, n: nat): map<string, Event>
    requires n <= |log|
  {
    if n == 0 then map[] else TableTo(log, n - 1)[PrintInt(n) := log[n - 1]]
  }

  lemma {:induction false} TablePrefix(log: seq<Event>, more: seq<Event>, n: nat)
    requires n <= |log|
    ensures TableTo(log + more, n) == TableTo(log, n)
  {
    if n > 0 {
      TablePrefix(log, more, n - 1);
    }
  }

  lemma TableOfSnoc(log: seq<Event>, event: Event)
    ensures TableOf(log + [event]) == TableOf(log)[PrintInt(|log| + 1) := event]
  {
    TablePrefix(log, [event], |log|);
  }

  lemma {:induction false} LookupTo(log: seq<Event>, n: nat, id: int)
    requires n <= |log| && id > 0
    ensures PrintInt(id) in TableTo(log, n) <==> id <= n
    ensures id <= n ==> TableTo(log, n)[PrintInt(id)] == log[id - 1]
  {
    if n > 0 {
      LookupTo(log, n - 1, id);
      if PrintInt(id) == PrintInt(n) {
        PrintIntInjective(id, n);
      }
    }
  }

  /** Looking an id up finds exactly its event. */
  lemma TableLookup(log: seq<Event>, id: int)
    requires id > 0
    ensures PrintInt(id) in TableOf(log) <==> id <= |log|
    ensures id <= |log| ==> TableOf(log)[PrintInt(id)] == log[id - 1]
  {
    LookupTo(log, |log|, id);
  }

  /** What `source` puts back, and what it leaves as the script set it. */
  predicate Restores(before: Vars, after: Vars, o: Outcome) {
    match o
    case Missing => after == before
    case Ran(how, _, final) =>
      && after.subsh == before.subsh && after.thisjob == before.thisjob && after.lineno == before.lineno
      && after.loops == before.loops && after.shinStdin == before.shinStdin
      && after.scriptname == before.scriptname && after.scriptfilename == before.scriptfilename
      && after.cmdsp == before.cmdsp && after.trapState == before.trapState && after.trapReturn == before.trapReturn
      && after.lastval == LastvalOf(o) && !after.errError && after.errInterrupt == final.errInterrupt
      && after.exitPending == final.exitPending && after.retflag == (final.exitPending && final.retflag)
      && after.shin == if how.Interpreted? then before.shin else final.shin
  }

  /** The descriptor is the one thing that may not come back: exactly when a compiled script left another one. */
  lemma DescriptorBackIff(before: Vars, after: Vars, o: Outcome)
    requires Restores(before, after, o)
    ensures after.shin != before.shin <==> o.Ran? && o.how.Compiled? && o.final.shin != before.shin
  {
  }

  /** An instance: a compiled script that ends with another descriptor, which a shell keeps. */
  lemma DescriptorKept(before: Vars, shin: int) returns (after: Vars)
    requires shin != before.shin && !before.errError && !before.exitPending && !before.retflag
    ensures Restores(before, after, Ran(Compiled, [], before.(shin := shin)))
    ensures after == before.(shin := shin, lastval := after.lastval)
  {
    var o := Ran(Compiled, [], before.(shin := shin));
    after := before.(shin := shin, lastval := LastvalOf(o));
  }

  /** The last event is that of this attempt. Without a table, a path or a node there is none and the profile says
      that it is incomplete; the third case is that ids have run out. */
  ghost predicate LastTells(log: seq<Event>, incomplete: bool, a: Attempt, depth: nat, available: bool) {
    if available && a.pathCopied && a.nodeAllocated then
      |log| < INT_MAX as int ==> log != [] && forall e :: e == log[|log| - 1] ==> Tells(e, a, depth)
    else incomplete
  }

  class Shell {
    /** The variables scripts may set. */
    var vars: Vars
    var cmdstack: array<int>
    var funcstack: FuncStack
    var sourcelevel: int
    var shinSaves: nat
    // the profiler's statics; the table exists iff `available`
    const available: bool
    var depth: nat
    var count: int32
    var incomplete: bool
    var table: map<string, Event>
    ghost var log: seq<Event>
    ghost var open: Frames

    ghost function Snapshot(): Profile
      reads this
    {
      Profile(available, incomplete, log)
    }

    /** The saved structures next to the variables. */
    function Stacks(): (array<int>, FuncStack, int, nat)
      reads this
    {
      (cmdstack, funcstack, sourcelevel, shinSaves)
    }

    /** Holds whenever a script starts, makes a nested attempt, or ends: one open frame per depth,
        and the log is the completion order of what is complete below them. */
    ghost predicate Valid()
      reads this
    {
      && open.Depth() == depth
      && table == TableOf(log) && |log| == count as int
      && Snapshot() == RecordFrames(Fresh(available), open)
    }

    /** zp_source_setup_overrides; `hasTable` is false when the hash table cannot be created. */
    constructor (initial: Vars, stack: array<int>, hasTable: bool)
      ensures Valid() && depth == 0 && open == Bottom([]) && log == [] && !incomplete && available == hasTable
      ensures vars == initial && cmdstack == stack && funcstack == NoFrame && sourcelevel == 0 && shinSaves == 0
    {
      vars, cmdstack, funcstack, sourcelevel, shinSaves := initial, stack, NoFrame, 0, 0;
      available, depth, count, incomplete, table := hasTable, 0, 0, false, map[];
      log, open := [], Bottom([]);
    }

    /** zp_record_source. */
    method RecordSource(fullPath: Option<string>, started: Sample, sourceDepth: nat, status: int, exitStatus: int,
                        nodeAllocated: bool, ended: Sample, ghost v: Visit)
      requires table == TableOf(log) && |log| == count as int
      requires v.recordable <==> fullPath.Some? && nodeAllocated
      requires fullPath.Some? ==> fullPath.value == v.path
      requires v.started == started && v.ended == ended && v.status == status && v.exitStatus == exitStatus
      modifies this`count, this`incomplete, this`table, this`log
      ensures table == TableOf(log) && |log| == count as int
      ensures Snapshot() == Record(old(Snapshot()), Entry(v, sourceDepth))
    {
      if !available || fullPath.None? || count == INT_MAX {
        incomplete := true;
        return;
      }
      if !nodeAllocated {
        incomplete := true;
        return;
      }
      var timingValid, duration := Measure(started, ended, v);
      var event := Event(count + 1, fullPath.value, duration, timingValid,
                         sourceDepth, exitStatus, status);
      TableOfSnoc(log, event);
      count := count + 1;
      if !timingValid {
        incomplete := true;
      }
      table := table[PrintInt(count as int) := event];
      log := log + [event];
    }

    /** Lines 118 and 119: no duration unless both readings are good. */
    method Measure(started: Sample, ended: Sample, ghost v: Visit) returns (valid: bool, duration: uint64)
      requires v.started == started && v.ended == ended
      ensures valid == v.Duration().Some? && duration as nat == v.Duration().GetOr(0)
    {
      valid, duration := false, 0;
      if started.ok && ended.ok {
        valid, duration := ElapsedNs(started.stamp, ended.stamp, 0);
      }
    }

    /** custom_source. Every variable it saves is back on every exit, with one exception: the input
        descriptor is put back only on the interpreted path, so after a compiled script it is what
        the script left. The attempt is logged among the completed calls of the enclosing frame. */
    method CustomSource(a: Attempt) returns (ret: int)
      requires Valid()
      modifies this
      ensures Valid() && depth == old(depth)
      ensures open == old(open).Completed([CallOf(a)])
      ensures ret == StatusOf(a.outcome) && EndsWithStatus(a.outcome, ret)
      ensures Stacks() == old(Stacks())
      ensures Restores(old(vars), vars, a.outcome)
      ensures LastTells(log, incomplete, a, old(depth) + 1, available)
      decreases a, 1
    {
      var recordPath := if a.pathCopied then Some(SourcePath(a.pwd, a.script)) else None;
      if a.outcome.Missing? {
        OpenFrame();
        CloseFrame(a, recordPath, SOURCE_NOT_FOUND, 128 - SOURCE_NOT_FOUND);
        return SOURCE_NOT_FOUND;
      }
      ret := SourceScript(a, recordPath);
    }

    /** The part of custom_source for a script that is found. */
    method SourceScript(a: Attempt, recordPath: Option<string>) returns (ret: int)
      requires Valid()
      requires a.outcome.Ran? && recordPath == if a.pathCopied then Some(SourcePath(a.pwd, a.script)) else None
      modifies this
      ensures Valid() && depth == old(depth)
      ensures open == old(open).Completed([CallOf(a)])
      ensures ret == StatusOf(a.outcome)
      ensures Stacks() == old(Stacks())
      ensures Restores(old(vars), vars, a.outcome)
      ensures LastTells(log, incomplete, a, old(depth) + 1, available)
      decreases a, 0
    {
      var saved, savedStack := vars, cmdstack;
      RunScript(a.script, a.outcome.how, a.outcome.body);
      ret := FinishScript(a, recordPath, saved, savedStack);
    }

    /** Line 609 and lines 617 to 670: entering the script, and everything it does. */
    method RunScript(script: string, how: How, body: seq<Action>)
      requires Valid()
      modifies this
      ensures Valid() && depth == old(depth) + 1 && open == Open(CallsOf(body), old(open))
      ensures sourcelevel == old(sourcelevel) + 1
      ensures shinSaves == old(shinSaves) + if how.Interpreted? then 1 else 0
      ensures funcstack.Frame? && funcstack.prev == old(funcstack)
      decreases body, 1
    {
      open.CompletedInside(CallsOf(body));
      EnterScript(script, how);
      RunBody(body);
    }

    /** `++zp_source_depth`, line 609. */
    method OpenFrame()
      requires Valid()
      modifies this`depth, this`open
      ensures Valid() && depth == old(depth) + 1 && open == Open([], old(open))
    {
      depth := depth + 1;
      open := Open([], open);
    }

    /** `--zp_source_depth` and the record, lines 612-613 and 697-698. */
    method CloseFrame(a: Attempt, recordPath: Option<string>, status: int, exitStatus: int)
      requires Valid() && open.Open? && open.done == CallOf(a).kids
      requires recordPath == if a.pathCopied then Some(SourcePath(a.pwd, a.script)) else None
      requires status == VisitOf(a).status && exitStatus == VisitOf(a).exitStatus
      modifies this`depth, this`count, this`incomplete, this`table, this`log, this`open
      ensures Valid() && depth == old(depth) - 1 && open == old(open).outer.Completed([CallOf(a)])
      ensures LastTells(log, incomplete, a, old(depth), available)
    {
      EventTells(a, depth, if count < INT_MAX then count + 1 else 0);
      var sourceDepth := depth;
      depth := depth - 1;
      ClosedFrames(Snapshot(), Fresh(available), open, CallOf(a));
      RecordSource(recordPath, a.started, sourceDepth, status, exitStatus, a.nodeAllocated, a.ended, VisitOf(a));
      open := open.outer.Completed([CallOf(a)]);
    }

    /** Line 609 and lines 617 to 650 of custom_source. */
    method EnterScript(script: string, how: How)
      requires Valid()
      modifies this`vars, this`cmdstack, this`funcstack, this`sourcelevel, this`shinSaves, this`depth, this`open
      ensures Valid() && depth == old(depth) + 1 && open == Open([], old(open))
      ensures fresh(cmdstack) && cmdstack.Length == 256 && sourcelevel == old(sourcelevel) + 1
      ensures shinSaves == old(shinSaves) + if how.Interpreted? then 1 else 0
      ensures funcstack.Frame? && funcstack.prev == old(funcstack)
      ensures funcstack.name == script && funcstack.lineno == old(vars.lineno)
      ensures funcstack.caller == if old(funcstack).Frame? then old(funcstack).name
                                  else old(vars.scriptfilename).GetOr("zsh")
      ensures vars.scriptname == vars.scriptfilename == Some(script) && vars.lineno == 1 && vars.cmdsp == 0
      ensures vars.subsh == vars.loops == 0 && !vars.shinStdin && vars.trapState == 0
      ensures vars.shin == if how.Interpreted? then how.fd else old(vars.shin)
      ensures how.Compiled? ==> !vars.errError
    {
      OpenFrame();
      SwitchState(script, how);
    }

    /** The part of it that concerns the shell and not the profiler. */
    method SwitchState(script: string, how: How)
      modifies this`vars, this`cmdstack, this`funcstack, this`sourcelevel, this`shinSaves
      ensures fresh(cmdstack) && cmdstack.Length == 256 && sourcelevel == old(sourcelevel) + 1
      ensures shinSaves == old(shinSaves) + if how.Interpreted? then 1 else 0
      ensures funcstack.Frame? && funcstack.prev == old(funcstack)
      ensures funcstack.name == script && funcstack.lineno == old(vars.lineno)
      ensures funcstack.caller == if old(funcstack).Frame? then old(funcstack).name
                                  else old(vars.scriptfilename).GetOr("zsh")
      ensures vars.scriptname == vars.scriptfilename == Some(script) && vars.lineno == 1 && vars.cmdsp == 0
      ensures vars.subsh == vars.loops == 0 && !vars.shinStdin && vars.trapState == 0
      ensures vars.shin == if how.Interpreted? then how.fd else old(vars.shin)
      ensures how.Compiled? ==> !vars.errError
    {
      var v, saved := vars, vars;
      cmdstack := new int[CMDSTACKSZ];
      if how.Interpreted? {
        v := v.(shin := how.fd);
        shinSaves := shinSaves + 1;
      }
      v := v.(cmdsp := 0, subsh := 0, lineno := 1, loops := 0, shinStdin := false,
              scriptname := Some(script), scriptfilename := Some(script), trapState := TRAP_STATE_INACTIVE);
      sourcelevel := sourcelevel + 1;
      var caller := if funcstack.Frame? then funcstack.name else saved.scriptfilename.GetOr("zsh");
      funcstack := Frame(script, caller, saved.lineno, funcstack);
      if how.Compiled? {
        v := v.(errError := false);
      }
      vars := v;
    }

    /** Lines 651 to 696 of custom_source: the script ends and leaves its final variables. */
    method LeaveScript(o: Outcome, saved: Vars, savedStack: array<int>) returns (ret: int)
      requires o.Ran? && funcstack.Frame? && (o.how.Interpreted? ==> shinSaves > 0)
      modifies this`vars, this`cmdstack, this`funcstack, this`sourcelevel, this`shinSaves
      ensures ret == StatusOf(o) && cmdstack == savedStack && sourcelevel == old(sourcelevel) - 1
      ensures shinSaves == old(shinSaves) - if o.how.Interpreted? then 1 else 0
      ensures funcstack == old(funcstack).prev
      ensures Restores(saved, vars, o)
    {
      var v := o.final;
      ret := SOURCE_OK;
      if o.how.Compiled? {
        if v.errError || v.errInterrupt {
          ret := SOURCE_ERROR;
        }
      } else if o.how.result == LoopEmpty {
        v := v.(lastval := 0);
      } else if o.how.result == LoopError {
        ret := SOURCE_ERROR;
      }
      funcstack := funcstack.prev;
      sourcelevel := sourcelevel - 1;
      v := v.(trapState := saved.trapState, trapReturn := saved.trapReturn);
      if o.how.Interpreted? {
        v := v.(shin := saved.shin);
        shinSaves := shinSaves - 1;
      }
      v := v.(subsh := saved.subsh, thisjob := saved.thisjob, lineno := saved.lineno, loops := saved.loops,
              shinStdin := saved.shinStdin, errError := false);
      if !v.exitPending {
        v := v.(retflag := false);
      }
      vars := v.(scriptname := saved.scriptname, scriptfilename := saved.scriptfilename, cmdsp := saved.cmdsp);
      cmdstack := savedStack;
    }

    /** Lines 651 to 699 of custom_source. */
    method FinishScript(a: Attempt, recordPath: Option<string>, saved: Vars, savedStack: array<int>) returns (ret: int)
      requires Valid() && a.outcome.Ran? && funcstack.Frame? && (a.outcome.how.Interpreted? ==> shinSaves > 0)
      requires open.Open? && open.done == CallOf(a).kids
      requires recordPath == if a.pathCopied then Some(SourcePath(a.pwd, a.script)) else None
      modifies this
      ensures Valid() && depth == old(depth) - 1 && open == old(open).outer.Completed([CallOf(a)])
      ensures ret == StatusOf(a.outcome) && cmdstack == savedStack && sourcelevel == old(sourcelevel) - 1
      ensures shinSaves == old(shinSaves) - if a.outcome.how.Interpreted? then 1 else 0
      ensures funcstack == old(funcstack).prev
      ensures Restores(saved, vars, a.outcome)
      ensures LastTells(log, incomplete, a, old(depth), available)
    {
      ret := LeaveScript(a.outcome, saved, savedStack);
      CloseFrame(a, recordPath, ret, if ret == SOURCE_OK then vars.lastval else 128 - ret);
    }

    /** execode and loop: the script's own actions, in order. */
    method RunBody(body: seq<Action>)
      requires Valid()
      modifies this, cmdstack
      ensures Valid() && depth == old(depth)
      ensures open == old(open).Completed(CallsOf(body))
      ensures Stacks() == old(Stacks())
      decreases body, 0
    {
      ghost var before := open;
      if body == [] {
        before.CompletedNothing();
      } else {
        RunBody(body[..|body| - 1]);
        RunAction(body[|body| - 1]);
        before.CompletedMore(CallsOf(body[..|body| - 1]), CallsOfAction(body[|body| - 1]));
      }
    }

    method RunAction(action: Action)
      requires Valid()
      modifies this, cmdstack
      ensures Valid() && depth == old(depth)
      ensures open == old(open).Completed(CallsOfAction(action))
      ensures Stacks() == old(Stacks())
      decreases action
    {
      match action
      case Assign(v) =>
        vars := v;
      case CmdPush(token) =>
        if 0 <= vars.cmdsp < cmdstack.Length {
          cmdstack[vars.cmdsp] := token;
          vars := vars.(cmdsp := vars.cmdsp + 1);
        }
      case Nested(attempt) =>
        var _ := CustomSource(attempt);
    }
  }

  /** A run to the letter: a compiled script that is sourced from its directory and takes three nanoseconds. */
  method SourceOne(initial: Vars, stack: array<int>, final: Vars) returns (shell: Shell, ret: int)
    requires !final.errError && !final.errInterrupt
    ensures shell.log == [Event(1, "/home/u/x.zsh", 3, true, 1, final.lastval, 0)] && ret == 0 && !shell.incomplete
  {
    shell := new Shell(initial, stack, true);
    var start, end := Sample(true, Stamp(1, 999_999_999)), Sample(true, Stamp(2, 2));
    var a := Attempt("./x.zsh", "/home/u", start, end, true, true, Ran(Compiled, [], final));
    OneCall(a);
    ret := shell.CustomSource(a);
    assert "./x.zsh"[2..] == "x.zsh" && "/home/u" + "/" + "x.zsh" == "/home/u/x.zsh";
  }

  lemma OneCall(a: Attempt)
    requires a.pathCopied && a.nodeAllocated && a.outcome.Ran? && a.outcome.body == []
    ensures var p := RecordFrames(Fresh(true), Bottom([]).Completed([CallOf(a)]));
            p == Record(Fresh(true), Entry(VisitOf(a), 1))
  {
    var c := CallOf(a);
    var f := Bottom([]).Completed([c]);
    assert [] + [c] == [c] && [c][..0] == [];
    RecordFramesInPostOrder(Fresh(true), f);
    assert c.kids == CallsOf(a.outcome.body);
    assert CallsOf(a.outcome.body) == [];
    assert PostOrders(c.kids, 2) == [];
    assert PostOrder(c, 1) == PostOrders(c.kids, 2) + [Entry(VisitOf(a), 1)];
    assert PostOrders([c], 1) == PostOrders([c][..0], 1) + PostOrder(c, 1);
    assert PostOrders([c], 1) == [Entry(VisitOf(a), 1)];
    assert [Entry(VisitOf(a), 1)][..0] == [];
  }
}
