/** src/core/source_hot.c: adding up the source history by script, and choosing the scripts to compile. */
module SourceHot {
  import opened Text
  import opened Order

  /** One accepted record of the history. */
  datatype Record = Record(path: string, ms: int)

  /** hot_script_t. */
  datatype Script = Script(path: string, totalMs: int, count: nat)

  // ------------------------------------------------------------- the records

  /** A history line "path ms": two tokens, the second a strict decimal not below a positive threshold. */
  function Accept(line: string, threshold: int): seq<Record> {
    var path := StrTok(line, ' ');
    var ms := if path.NoToken? then NoToken else StrTok(path.save, ' ');
    if ms.NoToken? || ParseLong(ms.text).None? || (threshold > 0 && ParseLong(ms.text).value < threshold) then []
    else [Record(path.text, ParseLong(ms.text).value)]
  }

  function Accepted(history: seq<string>, threshold: int): (rs: seq<Record>)
    ensures |rs| <= |history|
  {
    if history == [] then []
    else Accepted(history[..|history| - 1], threshold) + Accept(history[|history| - 1], threshold)
  }

  /** The history line of a record is accepted as that record. */
  lemma AcceptReadsBack(r: Record, threshold: int)
    requires r.path != "" && ' ' !in r.path && LONG_MIN <= r.ms <= LONG_MAX
    ensures Accept(r.path + " " + PrintInt(r.ms), threshold) == if threshold > 0 && r.ms < threshold then [] else [r]
  {
    StrTokJoined(r.path, ' ', PrintInt(r.ms));
    StrTokJoined(PrintInt(r.ms), ' ', "");
    ParseLongInvertsPrinting(r.ms);
  }

  /** A line is accepted exactly when it has two words, the second a strict decimal, and the threshold allows it; then
      as the record of both. */
  lemma AcceptIff(line: string, threshold: int, r: Record)
    ensures Accept(line, threshold) == [r]
       <==> var path := StrTok(line, ' ');
            && path.Token? && path.text == r.path
            && var ms := StrTok(path.save, ' ');
               ms.Token? && ParseLong(ms.text) == Some(r.ms) && (threshold > 0 ==> r.ms >= threshold)
    ensures |Accept(line, threshold)| <= 1
  {
    if Accept(line, threshold) == [r] {
      assert Accept(line, threshold)[0] == r;
    }
  }

  // ------------------------------------------------------------- adding up

  function PathOf(s: Script): string { s.path }

  /** The place of a path in the table, or its length. */
  function Find(table: seq<Script>, path: string): (j: nat)
    ensures j <= |table|
    ensures j < |table| ==> table[j].path == path
    ensures forall k :: 0 <= k < j ==> table[k].path != path
  {
    FirstWith(table, PathOf, path)
  }

  function Bump(s: Script, ms: int): Script {
    Script(s.path, s.totalMs + ms, s.count + 1)
  }

  function Add(table: seq<Script>, r: Record): seq<Script> {
    var j := Find(table, r.path);
    if j < |table| then table[j := Bump(table[j], r.ms)] else table + [Script(r.path, r.ms, 1)]
  }

  function Aggregate(rs: seq<Record>): seq<Script> {
    if rs == [] then [] else Add(Aggregate(rs[..|rs| - 1]), rs[|rs| - 1])
  }

  function TotalOf(rs: seq<Record>, path: string): int {
    if rs == [] then 0
    else TotalOf(rs[..|rs| - 1], path) + if rs[|rs| - 1].path == path then rs[|rs| - 1].ms else 0
  }

  function TimesOf(rs: seq<Record>, path: string): nat {
    if rs == [] then 0
    else TimesOf(rs[..|rs| - 1], path) + if rs[|rs| - 1].path == path then 1 else 0
  }

  ghost predicate OnePerPath(table: seq<Script>) {
    forall i, j :: 0 <= i < j < |table| ==> table[i].path != table[j].path
  }

  ghost predicate SumsUp(s: Script, rs: seq<Record>) {
    s.totalMs == TotalOf(rs, s.path) && s.count == TimesOf(rs, s.path) > 0
  }

  ghost predicate IsGroupBy(table: seq<Script>, rs: seq<Record>) {
    && OnePerPath(table)
    && (forall i :: 0 <= i < |table| ==> SumsUp(table[i], rs))
    && (forall p :: TimesOf(rs, p) > 0 ==> Find(table, p) < |table|)
  }

  lemma {:induction false} TotalOfAbsent(rs: seq<Record>, path: string)
    requires TimesOf(rs, path) == 0
    ensures TotalOf(rs, path) == 0
  {
    if rs != [] {
      TotalOfAbsent(rs[..|rs| - 1], path);
    }
  }

  lemma FindKnown(table: seq<Script>, i: nat)
    requires i < |table|
    ensures Find(table, table[i].path) <= i
  {
  }

  /** The table has one script for every distinct path, with the sum and the number of its records. */
  lemma {:induction false} AggregateGroups(rs: seq<Record>)
    ensures IsGroupBy(Aggregate(rs), rs)
  {
    if rs != [] {
      AggregateGroups(rs[..|rs| - 1]);
      AddGroups(Aggregate(rs[..|rs| - 1]), rs);
    }
  }

  /** What grouping means: paths are distinct, every script has the sum and the number of its records, and every record
      has a script. */
  lemma GroupByIff(table: seq<Script>, rs: seq<Record>)
    ensures IsGroupBy(table, rs)
       <==> (forall i, j :: 0 <= i < j < |table| ==> table[i].path != table[j].path)
            && (forall s :: s in table ==>
                  s.totalMs == TotalOf(rs, s.path) && s.count == TimesOf(rs, s.path) && s.count > 0)
            && forall p :: TimesOf(rs, p) > 0 ==> exists s :: s in table && s.path == p
  {
    SumsIff(table, rs);
    AllIff(table, rs);
  }

  lemma AllIff(table: seq<Script>, rs: seq<Record>)
    ensures (forall p :: TimesOf(rs, p) > 0 ==> Find(table, p) < |table|)
       <==> forall p :: TimesOf(rs, p) > 0 ==> exists s :: s in table && s.path == p
  {
    if forall p :: TimesOf(rs, p) > 0 ==> Find(table, p) < |table| {
      forall p | TimesOf(rs, p) > 0
        ensures exists s :: s in table && s.path == p
      {
        FindIff(table, p);
      }
    }
    if forall p :: TimesOf(rs, p) > 0 ==> exists s :: s in table && s.path == p {
      forall p | TimesOf(rs, p) > 0
        ensures Find(table, p) < |table|
      {
        FindIff(table, p);
      }
    }
  }

  lemma FindIff(table: seq<Script>, path: string)
    ensures Find(table, path) < |table| <==> exists s :: s in table && s.path == path
  {
    if Find(table, path) < |table| {
      assert table[Find(table, path)] in table;
    }
  }

  lemma SumsIff(table: seq<Script>, rs: seq<Record>)
    ensures (forall i :: 0 <= i < |table| ==> SumsUp(table[i], rs))
       <==> forall s :: s in table ==> s.totalMs == TotalOf(rs, s.path) && s.count == TimesOf(rs, s.path) && s.count > 0
  {
    forall s
      ensures SumsUp(s, rs) <==> s.totalMs == TotalOf(rs, s.path) && s.count == TimesOf(rs, s.path) && s.count > 0
    {
    }
    if forall s :: s in table ==> SumsUp(s, rs) {
      forall i | 0 <= i < |table|
        ensures SumsUp(table[i], rs)
      {
        assert table[i] in table;
      }
    }
  }

  /** Sums and numbers of the records of a path. */
  lemma TotalsOfOne(rs: seq<Record>, r: Record, path: string)
    ensures TotalOf([], path) == 0 && TimesOf([], path) == 0
    ensures TotalOf(rs + [r], path) == TotalOf(rs, path) + if r.path == path then r.ms else 0
    ensures TimesOf(rs + [r], path) == TimesOf(rs, path) + if r.path == path then 1 else 0
  {
    assert (rs + [r])[..|rs|] == rs;
  }

  lemma AddGroups(table: seq<Script>, rs: seq<Record>)
    requires rs != [] && IsGroupBy(table, rs[..|rs| - 1])
    ensures IsGroupBy(Add(table, rs[|rs| - 1]), rs)
  {
    var r := rs[|rs| - 1];
    var after := Add(table, r);
    AddKeepsPaths(table, r);
    forall i | 0 <= i < |after|
      ensures SumsUp(after[i], rs)
    {
      AddRow(table, rs, i);
    }
    forall p | TimesOf(rs, p) > 0
      ensures Find(after, p) < |after|
    {
      assert p != r.path ==> TimesOf(rs[..|rs| - 1], p) > 0;
    }
  }

  lemma AddKeepsPaths(table: seq<Script>, r: Record)
    requires OnePerPath(table)
    ensures OnePerPath(Add(table, r))
    ensures forall p :: p == r.path || Find(table, p) < |table| ==> Find(Add(table, r), p) < |Add(table, r)|
  {
    var j, after := Find(table, r.path), Add(table, r);
    forall p | p == r.path || Find(table, p) < |table|
      ensures Find(after, p) < |after|
    {
      var k := if p == r.path then j else Find(table, p);
      assert after[k].path == p;
      FindKnown(after, k);
    }
  }

  lemma AddRow(table: seq<Script>, rs: seq<Record>, i: nat)
    requires rs != [] && OnePerPath(table) && forall k :: 0 <= k < |table| ==> SumsUp(table[k], rs[..|rs| - 1])
    requires forall p :: TimesOf(rs[..|rs| - 1], p) > 0 ==> Find(table, p) < |table|
    requires i < |Add(table, rs[|rs| - 1])|
    ensures SumsUp(Add(table, rs[|rs| - 1])[i], rs)
  {
    var init, r := rs[..|rs| - 1], rs[|rs| - 1];
    var j := Find(table, r.path);
    if i == |table| {
      TotalOfAbsent(init, r.path);
    } else if i != j {
      assert SumsUp(table[i], init) && table[i].path != r.path;
    } else {
      assert SumsUp(table[j], init);
    }
  }

  // ------------------------------------------------------------- conservation

  function SumTotals(table: seq<Script>): int {
    if table == [] then 0 else SumTotals(table[..|table| - 1]) + table[|table| - 1].totalMs
  }

  function SumCounts(table: seq<Script>): nat {
    if table == [] then 0 else SumCounts(table[..|table| - 1]) + table[|table| - 1].count
  }

  function SumMs(rs: seq<Record>): int {
    if rs == [] then 0 else SumMs(rs[..|rs| - 1]) + rs[|rs| - 1].ms
  }

  lemma {:induction false} SumAfterBump(table: seq<Script>, j: nat, ms: int)
    requires j < |table|
    ensures var after := table[j := Bump(table[j], ms)];
            SumTotals(after) == SumTotals(table) + ms && SumCounts(after) == SumCounts(table) + 1
  {
    var n := |table| - 1;
    var after := table[j := Bump(table[j], ms)];
    if j < n {
      assert after[..n] == table[..n][j := Bump(table[..n][j], ms)];
      SumAfterBump(table[..n], j, ms);
    } else {
      assert after[..n] == table[..n];
    }
  }

  lemma SumSnoc(table: seq<Script>, s: Script)
    ensures SumTotals(table + [s]) == SumTotals(table) + s.totalMs
    ensures SumCounts(table + [s]) == SumCounts(table) + s.count
  {
    var longer := table + [s];
    assert longer[..|table|] == table && longer[|table|] == s;
  }

  lemma AddConserves(table: seq<Script>, r: Record)
    ensures SumTotals(Add(table, r)) == SumTotals(table) + r.ms && SumCounts(Add(table, r)) == SumCounts(table) + 1
    ensures |Add(table, r)| <= |table| + 1
  {
    var j := Find(table, r.path);
    if j < |table| {
      SumAfterBump(table, j, r.ms);
    } else {
      SumSnoc(table, Script(r.path, r.ms, 1));
    }
  }

  /** Nothing is lost and nothing is counted twice. */
  lemma {:induction false} AggregateConserves(rs: seq<Record>)
    ensures SumTotals(Aggregate(rs)) == SumMs(rs) && SumCounts(Aggregate(rs)) == |rs|
    ensures |Aggregate(rs)| <= |rs|
  {
    if rs != [] {
      AggregateConserves(rs[..|rs| - 1]);
      AddConserves(Aggregate(rs[..|rs| - 1]), rs[|rs| - 1]);
    }
  }

  function Abs(i: int): nat { if i < 0 then -i else i }

  function SumAbs(rs: seq<Record>): nat {
    if rs == [] then 0 else SumAbs(rs[..|rs| - 1]) + Abs(rs[|rs| - 1].ms)
  }

  /** No addition to a total leaves a long when the magnitudes of the records do not add up beyond one. */
  lemma {:induction false} TotalsFit(rs: seq<Record>, k: nat, path: string)
    requires k <= |rs| && SumAbs(rs) <= LONG_MAX
    ensures -LONG_MAX <= TotalOf(rs[..k], path) <= LONG_MAX
    ensures Abs(TotalOf(rs[..k], path)) <= SumAbs(rs)
  {
    if rs == [] {
    } else if k < |rs| {
      var init := rs[..|rs| - 1];
      assert init[..k] == rs[..k];
      TotalsFit(init, k, path);
    } else {
      var init := rs[..|rs| - 1];
      assert rs[..k] == rs && init[..k - 1] == init;
      TotalsFit(init, k - 1, path);
    }
  }

  // ------------------------------------------------------------- the order

  /** compare_hot_scripts. */
  function HotCmp(a: Script, b: Script): int { ToInt(b.totalMs - a.totalMs) }

  /** The truncated difference still has the sign of the true one. */
  predicate SignSurvives(d: int) {
    d == 0 || 0 < Abs(d) % 0x1_0000_0000 < 0x8000_0000
  }

  predicate Honest(table: seq<Script>) {
    forall x, y :: x in table && y in table ==> SignSurvives(x.totalMs - y.totalMs)
  }

  /** Truncation by the rest modulo 2^32. */
  lemma ToIntOfRest(d: int, q: int, m: nat)
    requires d == q * 0x1_0000_0000 + m && m < 0x1_0000_0000
    ensures ToInt(d) == if m < 0x8000_0000 then m else m - 0x1_0000_0000
  {
  }

  lemma SignIff(d: int)
    requires d > 0
    ensures ToInt(d) > 0 <==> SignSurvives(d)
    ensures SignSurvives(d) ==> ToInt(0 - d) < 0
  {
    var q, m := d / 0x1_0000_0000, d % 0x1_0000_0000;
    ToIntOfRest(d, q, m);
    if m > 0 {
      ToIntOfRest(0 - d, 0 - q - 1, 0x1_0000_0000 - m);
    }
  }

  /** The comparator puts a script with less time behind one with more exactly when the sign of the
      difference survives: always when it fits an int, never when it is 2^31. */
  lemma ComparatorIff(a: Script, b: Script)
    requires a.totalMs < b.totalMs
    ensures HotCmp(a, b) > 0 && HotCmp(b, a) < 0 <==> SignSurvives(b.totalMs - a.totalMs)
    ensures b.totalMs - a.totalMs <= 0x7FFF_FFFF ==> SignSurvives(b.totalMs - a.totalMs)
    ensures b.totalMs - a.totalMs == 0x8000_0000 ==> HotCmp(a, b) < 0
  {
    var d := b.totalMs - a.totalMs;
    SignIff(d);
    assert a.totalMs - b.totalMs == 0 - d;
    if d == 0x8000_0000 {
      ToIntOfRest(d, 0, d);
    }
  }

  lemma CmpSign(a: Script, b: Script)
    requires SignSurvives(a.totalMs - b.totalMs)
    ensures HotCmp(a, b) <= 0 <==> a.totalMs >= b.totalMs
    ensures HotCmp(b, a) >= 0 <==> a.totalMs >= b.totalMs
  {
    if a.totalMs < b.totalMs {
      ComparatorIff(a, b);
    } else if b.totalMs < a.totalMs {
      ComparatorIff(b, a);
    }
  }

  /** An order that the comparator accepts. */
  ghost predicate InOrder(table: seq<Script>) {
    forall i, j :: 0 <= i < j < |table| ==> HotCmp(table[i], table[j]) <= 0
  }

  ghost predicate Descending(table: seq<Script>) {
    forall i, j :: 0 <= i < j < |table| ==> table[i].totalMs >= table[j].totalMs
  }

  lemma InOrderIsDescending(table: seq<Script>)
    requires Honest(table)
    ensures InOrder(table) <==> Descending(table)
  {
    forall i, j | 0 <= i < j < |table|
      ensures HotCmp(table[i], table[j]) <= 0 <==> table[i].totalMs >= table[j].totalMs
    {
      CmpSign(table[i], table[j]);
    }
  }

  /** Two scripts: the slower one may be put last exactly when the sign is lost, so one compiled script can
      be the wrong one. */
  lemma WrongOrderIff(slow: Script, fast: Script)
    requires fast.totalMs < slow.totalMs
    ensures InOrder([fast, slow]) <==> !SignSurvives(slow.totalMs - fast.totalMs)
  {
    TwoInOrder(fast, slow);
    SignIff(slow.totalMs - fast.totalMs);
  }

  lemma TwoInOrder(a: Script, b: Script)
    ensures InOrder([a, b]) <==> HotCmp(a, b) <= 0
  {
    assert [a, b][0] == a && [a, b][1] == b;
  }

  // ------------------------------------------------------------- what qsort promises

  /** Section 7.20.5 of ISO C99: the comparator is to give a total order of the objects that are sorted. */
  ghost predicate Consistent(table: seq<Script>) {
    && (forall x, y :: x in table && y in table ==> (HotCmp(x, y) <= 0 <==> HotCmp(y, x) >= 0))
    && (forall x, y, z :: x in table && y in table && z in table && HotCmp(x, y) <= 0 && HotCmp(y, z) <= 0 ==>
          HotCmp(x, z) <= 0)
  }

  /** A result that qsort may leave: a permutation, which is ordered when the comparator is consistent. */
  ghost predicate Conforming(table: seq<Script>, result: seq<Script>) {
    multiset(result) == multiset(table) && (Consistent(table) ==> InOrder(result))
  }

  /** When all signs survive, the comparator is consistent. */
  lemma HonestIsConsistent(table: seq<Script>)
    requires Honest(table)
    ensures Consistent(table)
  {
    forall x, y | x in table && y in table
      ensures HotCmp(x, y) <= 0 <==> x.totalMs >= y.totalMs
      ensures HotCmp(y, x) >= 0 <==> x.totalMs >= y.totalMs
    {
      CmpSign(x, y);
    }
  }

  function Insert(s: Script, table: seq<Script>): (r: seq<Script>)
    ensures |r| == |table| + 1 && multiset(r) == multiset(table) + multiset{s}
    ensures forall x :: x in r ==> x == s || x in table
  {
    if table == [] || HotCmp(s, table[0]) <= 0 then [s] + table
    else
      assert table == [table[0]] + table[1..];
      [table[0]] + Insert(s, table[1..])
  }

  function Sorted(table: seq<Script>): (r: seq<Script>)
    ensures |r| == |table| && multiset(r) == multiset(table)
  {
    if table == [] then []
    else
      assert table == table[..|table| - 1] + [table[|table| - 1]];
      Insert(table[|table| - 1], Sorted(table[..|table| - 1]))
  }

  lemma {:induction false} InsertInOrder(s: Script, table: seq<Script>, all: seq<Script>)
    requires Consistent(all) && s in all && forall x :: x in table ==> x in all
    requires InOrder(table)
    ensures InOrder(Insert(s, table))
  {
    if table != [] {
      var first, more := table[0], table[1..];
      assert first in table;
      if HotCmp(s, first) <= 0 {
        FirstInOrder(s, table, all);
      } else {
        InsertInOrder(s, more, all);
        HeadInOrder(first, more, s, Insert(s, more));
      }
    }
  }

  lemma FirstInOrder(s: Script, table: seq<Script>, all: seq<Script>)
    requires Consistent(all) && s in all && forall x :: x in table ==> x in all
    requires InOrder(table) && table != [] && HotCmp(s, table[0]) <= 0
    ensures InOrder([s] + table)
  {
    forall j | 0 <= j < |table|
      ensures HotCmp(s, table[j]) <= 0
    {
      assert table[0] in all && table[j] in all;
    }
  }

  lemma HeadInOrder(first: Script, more: seq<Script>, s: Script, longer: seq<Script>)
    requires InOrder(longer) && HotCmp(first, s) <= 0 && forall j :: 0 <= j < |more| ==> HotCmp(first, more[j]) <= 0
    requires forall x :: x in longer ==> x == s || x in more
    ensures InOrder([first] + longer)
  {
    forall j | 0 <= j < |longer|
      ensures HotCmp(first, longer[j]) <= 0
    {
      assert longer[j] in longer;
    }
  }

  lemma {:induction false} SortedInOrder(table: seq<Script>, all: seq<Script>)
    requires Consistent(all) && forall x :: x in table ==> x in all
    ensures InOrder(Sorted(table))
  {
    if table != [] {
      var front, last := table[..|table| - 1], table[|table| - 1];
      SortedInOrder(front, all);
      SameMembers(Sorted(front), front);
      InsertInOrder(last, Sorted(front), all);
    }
  }

  lemma SameMembers(a: seq<Script>, b: seq<Script>)
    requires multiset(a) == multiset(b)
    ensures forall x :: x in a <==> x in b
  {
    forall x
      ensures x in a <==> x in b
    {
      assert x in a <==> x in multiset(a);
      assert x in b <==> x in multiset(b);
    }
  }

  lemma HonestPermutation(a: seq<Script>, b: seq<Script>)
    requires Honest(a) && multiset(a) == multiset(b)
    ensures Honest(b)
  {
    SameMembers(a, b);
  }

  /** A script is put before every one that the comparator does not put before it. */
  lemma {:induction false} InsertedBefore(s: Script, table: seq<Script>, x: Script)
    requires x in table && HotCmp(s, x) <= 0 && s.totalMs < x.totalMs
    ensures !Descending(Insert(s, table))
  {
    var r := Insert(s, table);
    if HotCmp(s, table[0]) <= 0 {
      var j :| 0 <= j < |table| && table[j] == x;
      assert r[0] == s && r[j + 1] == x;
    } else {
      InsertedBefore(s, table[1..], x);
      assert r[1..] == Insert(s, table[1..]);
      TailDescends(r);
    }
  }

  lemma TailDescends(table: seq<Script>)
    requires table != []
    ensures Descending(table) ==> Descending(table[1..])
  {
  }

  /** Two scripts whose sign is lost give a result that qsort may leave and that is not descending. */
  lemma WrongRanking(table: seq<Script>, slow: Script, fast: Script) returns (result: seq<Script>)
    requires slow in table && fast in table && fast.totalMs < slow.totalMs
    requires !SignSurvives(slow.totalMs - fast.totalMs)
    ensures Conforming(table, result) && !Descending(result)
  {
    var rest := OneOut(table, fast, slow);
    result := Insert(fast, Sorted(rest));
    InSorted(rest, slow);
    LostSign(slow, fast, Sorted(rest));
    InsertedConforms(fast, rest, table);
  }

  lemma InsertedConforms(s: Script, rest: seq<Script>, table: seq<Script>)
    requires multiset(rest) + multiset{s} == multiset(table) && s in table && forall x :: x in rest ==> x in table
    ensures Conforming(table, Insert(s, Sorted(rest)))
  {
    if Consistent(table) {
      SameMembers(Sorted(rest), rest);
      SortedInOrder(rest, table);
      InsertInOrder(s, Sorted(rest), table);
    }
  }

  lemma LostSign(slow: Script, fast: Script, table: seq<Script>)
    requires slow in table && fast.totalMs < slow.totalMs && !SignSurvives(slow.totalMs - fast.totalMs)
    ensures !Descending(Insert(fast, table))
  {
    SignIff(slow.totalMs - fast.totalMs);
    InsertedBefore(fast, table, slow);
  }

  lemma InSorted(table: seq<Script>, x: Script)
    requires x in table
    ensures x in Sorted(table)
  {
    SameMembers(Sorted(table), table);
  }

  /** All but one place of a script; another one is still there. */
  lemma OneOut(table: seq<Script>, s: Script, other: Script) returns (rest: seq<Script>)
    requires s in table && other in table && other != s
    ensures multiset(rest) + multiset{s} == multiset(table)
    ensures other in rest && forall x :: x in rest ==> x in table
  {
    var i :| 0 <= i < |table| && table[i] == s;
    rest := table[..i] + table[i + 1..];
    assert table == table[..i] + [s] + table[i + 1..];
    OthersStay(table, i, rest, other);
  }

  lemma OthersStay(table: seq<Script>, i: nat, rest: seq<Script>, other: Script)
    requires i < |table| && rest == table[..i] + table[i + 1..] && other in table && other != table[i]
    ensures other in rest && forall x :: x in rest ==> x in table
  {
    var j :| 0 <= j < |table| && table[j] == other;
    assert rest[if j < i then j else j - 1] == other;
  }

  lemma HonestDescends(table: seq<Script>, r: seq<Script>)
    requires Conforming(table, r)
    ensures Honest(table) ==> Descending(r)
  {
    if Honest(table) {
      HonestIsConsistent(table);
      HonestPermutation(table, r);
      InOrderIsDescending(r);
    }
  }

  /** Whatever qsort does, the ranking descends exactly when no sign is lost. */
  lemma DescendingIffHonest(table: seq<Script>)
    ensures (forall r :: Conforming(table, r) ==> Descending(r)) <==> Honest(table)
  {
    if Honest(table) {
      forall r | Conforming(table, r)
        ensures Descending(r)
      {
        HonestDescends(table, r);
      }
    } else {
      var x, y :| x in table && y in table && !SignSurvives(x.totalMs - y.totalMs);
      var slow, fast := if x.totalMs > y.totalMs then x else y, if x.totalMs > y.totalMs then y else x;
      var r := WrongRanking(table, slow, fast);
    }
  }

  /** qsort on the first n scripts. C leaves the algorithm open: callers may only use that the result
      conforms. */
  method Qsort(scripts: array<Script>, n: nat)
    requires n <= scripts.Length
    modifies scripts
    ensures Conforming(old(scripts[..n]), scripts[..n])
  {
    var before := scripts[..n];
    var sorted := Sorted(before);
    forall i | 0 <= i < n {
      scripts[i] := sorted[i];
    }
    assert scripts[..n] == sorted;
    if Consistent(before) {
      SortedInOrder(before, before);
    }
  }

  // ------------------------------------------------------------- the command

  /** One record is added to the first n scripts, in place. */
  method AddRecord(scripts: array<Script>, n: nat, r: Record) returns (n': nat)
    requires n < scripts.Length
    modifies scripts
    ensures n <= n' <= n + 1 && scripts[..n'] == Add(old(scripts[..n]), r)
  {
    ghost var table := scripts[..n];
    for j := 0 to n
      invariant scripts[..n] == table && forall k :: 0 <= k < j ==> table[k].path != r.path
    {
      if scripts[j].path == r.path {
        assert Find(table, r.path) == j;
        scripts[j] := Bump(scripts[j], r.ms);
        return n;
      }
    }
    scripts[n] := Script(r.path, r.ms, 1);
    n' := n + 1;
  }

  /** The aggregation loop: the table never outgrows its allocation of one script per history line. */
  method AggregateHistory(history: seq<string>, threshold: int) returns (scripts: array<Script>, n: nat)
    ensures fresh(scripts) && n <= scripts.Length == |history|
    ensures scripts[..n] == Aggregate(Accepted(history, threshold))
  {
    scripts, n := new Script[|history|], 0;
    for i := 0 to |history|
      invariant n <= i && scripts[..n] == Aggregate(Accepted(history[..i], threshold))
    {
      AcceptedStep(history, i, threshold);
      var path := StrTok(history[i], ' ');
      if path.NoToken? {
        continue;
      }
      var ms := StrTok(path.save, ' ');
      if ms.NoToken? || ParseLong(ms.text).None? || (threshold > 0 && ParseLong(ms.text).value < threshold) {
        continue;
      }
      n := AddRecord(scripts, n, Record(path.text, ParseLong(ms.text).value));
    }
    assert history[..|history|] == history;
  }

  lemma AcceptedStep(history: seq<string>, i: nat, threshold: int)
    requires i < |history|
    ensures var before, after := Accepted(history[..i], threshold), Accepted(history[..i + 1], threshold);
            var more := Accept(history[i], threshold);
            Aggregate(after) == if more == [] then Aggregate(before) else Add(Aggregate(before), more[0])
  {
    assert history[..i + 1][..i] == history[..i];
    AggregateMore(Accepted(history[..i], threshold), Accept(history[i], threshold));
  }

  lemma AggregateMore(before: seq<Record>, more: seq<Record>)
    requires |more| <= 1
    ensures Aggregate(before + more) == if more == [] then Aggregate(before) else Add(Aggregate(before), more[0])
  {
    if more == [] {
      assert before + more == before;
    } else {
      AggregateSnoc(before, more[0]);
      assert more == [more[0]];
    }
  }

  lemma AggregateSnoc(before: seq<Record>, r: Record)
    ensures Aggregate(before + [r]) == Add(Aggregate(before), r)
  {
    var after := before + [r];
    assert after[..|before|] == before && after[|before|] == r;
  }

  function Limit(count: int, n: nat): (k: nat)
    ensures k <= n
  {
    if 0 < count < n then count else n
  }

  function Command(path: string, zwc: Option<string>): string {
    match zwc
    case Some(file) => "zcompile -o " + file + " " + path
    case None => "zcompile " + path
  }

  /** cmd_source_hot after its options: the commands it runs, and the ranking they were taken from, any that qsort
      may leave. When no sign is lost, every chosen script took at least as long as every other. */
  method SourceHot(history: seq<string>, count: int, threshold: int, zwc: Option<string>)
      returns (commands: seq<string>, ranking: seq<Script>)
    ensures Conforming(Aggregate(Accepted(history, threshold)), ranking)
    ensures |commands| == if 0 < count < |ranking| then count else |ranking|
    ensures forall i :: 0 <= i < |commands| ==>
              commands[i] == (if zwc.Some? then "zcompile -o " + zwc.value + " " else "zcompile ") + ranking[i].path
    ensures Honest(Aggregate(Accepted(history, threshold))) ==>
              forall i, j :: 0 <= i < |commands| <= j < |ranking| ==> ranking[i].totalMs >= ranking[j].totalMs
  {
    var scripts, n := AggregateHistory(history, threshold);
    ghost var table := scripts[..n];
    Qsort(scripts, n);
    ranking := scripts[..n];
    HonestDescends(table, ranking);
    assert |ranking| == |table|;
    commands := RunCommands(ranking, Limit(count, n), zwc);
  }

  /** The loop over the chosen scripts. */
  method RunCommands(ranking: seq<Script>, limit: nat, zwc: Option<string>) returns (commands: seq<string>)
    requires limit <= |ranking|
    ensures |commands| == limit && forall i :: 0 <= i < limit ==> commands[i] == Command(ranking[i].path, zwc)
  {
    commands := [];
    for i := 0 to limit
      invariant |commands| == i && forall k :: 0 <= k < i ==> commands[k] == Command(ranking[k].path, zwc)
    {
      commands := commands + [Command(ranking[i].path, zwc)];
    }
  }
}
