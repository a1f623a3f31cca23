/** The calls of nested `source` attempts and the order in which they complete. */
module CallTree {
  import opened CTypes
  import opened Clock
  import opened Text

  /** One reading of the clock; `ok` is false when the clock call failed. */
  datatype Sample = Sample(ok: bool, stamp: Stamp)

  /** What the profiler learns about one attempt. */
  datatype Visit = Visit(path: string, started: Sample, ended: Sample, recordable: bool,
                         status: int, exitStatus: int)
  {
    /** The elapsed time, when both readings are good and it fits 64 bits. */
    function Duration(): (d: Option<nat>)
      ensures d.Some? ==> d.value <= ULONG_MAX as nat
    {
      if started.ok && ended.ok then Elapsed(started.stamp, ended.stamp) else None
    }
  }

  /** A completed attempt with the attempts it made, in order. */
  datatype Call = Call(visit: Visit, kids: seq<Call>)

  /** A line of the completion order: an attempt and its nesting depth. */
  datatype Entry = Entry(visit: Visit, depth: nat)

  /** Children before parents, earlier siblings before later ones. */
  function PostOrder(c: Call, depth: nat): (es: seq<Entry>)
    ensures es != [] && es[|es| - 1] == Entry(c.visit, depth)
  {
    PostOrders(c.kids, depth + 1) + [Entry(c.visit, depth)]
  }

  function PostOrders(cs: seq<Call>, depth: nat): seq<Entry> {
    if cs == [] then []
    else PostOrders(cs[..|cs| - 1], depth) + PostOrder(cs[|cs| - 1], depth)
  }

  /** The open `source` frames, innermost first, each with the calls already completed inside it;
      at the bottom are the completed top-level calls. */
  datatype Frames = Bottom(done: seq<Call>) | Open(done: seq<Call>, outer: Frames) {
    function Depth(): nat {
      if Bottom? then 0 else outer.Depth() + 1
    }

    /** The completion order of everything that is complete. */
    function Pending(): seq<Entry> {
      if Bottom? then PostOrders(done, 1) else outer.Pending() + PostOrders(done, Depth() + 1)
    }

    /** The frames after the innermost one has seen more calls complete. */
    function Completed(cs: seq<Call>): Frames {
      this.(done := done + cs)
    }

    lemma CompletedNothing()
      ensures Completed([]) == this
    {
      assert done + [] == done;
    }

    /** What has completed in a frame that was just opened. */
    lemma CompletedInside(cs: seq<Call>)
      ensures Open([], this).Completed(cs) == Open(cs, this)
    {
      assert [] + cs == cs;
    }

    lemma CompletedMore(cs: seq<Call>, more: seq<Call>)
      ensures Completed(cs).Completed(more) == Completed(cs + more)
    {
      assert done + cs + more == done + (cs + more);
    }
  }

  // ------------------------------------------------ the depths determine the calls

  /** The shape of a call: its children's shapes. */
  datatype Shape = Shape(kids: seq<Shape>)

  function ShapeOf(c: Call): Shape {
    Shape(ShapesOf(c.kids))
  }

  function ShapesOf(cs: seq<Call>): seq<Shape> {
    if cs == [] then [] else ShapesOf(cs[..|cs| - 1]) + [ShapeOf(cs[|cs| - 1])]
  }

  /** The depths of a forest in completion order, written after `before`. */
  function Depths(before: seq<nat>, forest: seq<Shape>, depth: nat): (ds: seq<nat>)
    ensures forest == [] ==> ds == before
    ensures forest != [] ==> ds != [] && ds[|ds| - 1] == depth
    decreases forest
  {
    if forest == [] then before
    else Depths(Depths(before, forest[..|forest| - 1], depth), forest[|forest| - 1].kids, depth + 1) + [depth]
  }

  function DepthsOf(es: seq<Entry>): (ds: seq<nat>)
    ensures |ds| == |es| && forall i :: 0 <= i < |es| ==> ds[i] == es[i].depth
  {
    seq(|es|, i requires 0 <= i < |es| => es[i].depth)
  }

  lemma DepthsSnoc(before: seq<nat>, older: seq<Shape>, kids: seq<Shape>, depth: nat)
    ensures Depths(before, older + [Shape(kids)], depth)
            == Depths(Depths(before, older, depth), kids, depth + 1) + [depth]
  {
    assert (older + [Shape(kids)])[..|older|] == older;
  }

  lemma {:induction false} DepthsOfPostOrders(before: seq<Entry>, cs: seq<Call>, depth: nat)
    ensures DepthsOf(before + PostOrders(cs, depth)) == Depths(DepthsOf(before), ShapesOf(cs), depth)
    decreases cs
  {
    if cs == [] {
      assert before + [] == before;
    } else {
      var front, last := cs[..|cs| - 1], cs[|cs| - 1];
      var upto := before + PostOrders(front, depth);
      var inner := upto + PostOrders(last.kids, depth + 1);
      DepthsOfPostOrders(before, front, depth);
      DepthsOfPostOrders(upto, last.kids, depth + 1);
      PostOrdersLast(before, cs, depth);
      DepthsSnoc(DepthsOf(before), ShapesOf(front), ShapesOf(last.kids), depth);
      DepthsOfSnoc(inner, Entry(last.visit, depth));
    }
  }

  lemma PostOrdersLast(before: seq<Entry>, cs: seq<Call>, depth: nat)
    requires cs != []
    ensures var last := cs[|cs| - 1];
            before + PostOrders(cs, depth)
            == before + PostOrders(cs[..|cs| - 1], depth) + PostOrders(last.kids, depth + 1)
               + [Entry(last.visit, depth)]
  {
  }

  lemma DepthsOfSnoc(es: seq<Entry>, e: Entry)
    ensures DepthsOf(es + [e]) == DepthsOf(es) + [e.depth]
  {
  }

  /** Reading a depth sequence from its end: the forest at `depth` that ends it, and what precedes. */
  function Decode(ds: seq<nat>, depth: nat): (r: (seq<Shape>, seq<nat>))
    ensures |r.1| <= |ds|
    decreases |ds|
  {
    if ds == [] || ds[|ds| - 1] != depth then ([], ds)
    else
      var (kids, before) := Decode(ds[..|ds| - 1], depth + 1);
      var (older, rest) := Decode(before, depth);
      (older + [Shape(kids)], rest)
  }

  lemma DecodeUnfold(ds: seq<nat>, init: seq<nat>, depth: nat, kids: seq<Shape>, before: seq<nat>, older: seq<Shape>,
                     rest: seq<nat>)
    requires ds != [] && ds[|ds| - 1] == depth && init == ds[..|ds| - 1]
    requires Decode(init, depth + 1) == (kids, before) && Decode(before, depth) == (older, rest)
    ensures Decode(ds, depth) == (older + [Shape(kids)], rest) && ds == init + [depth]
  {
  }

  /** Whatever the decoder reads is what was written. */
  lemma {:induction false} DecodeSound(ds: seq<nat>, depth: nat)
    ensures var (forest, rest) := Decode(ds, depth); ds == Depths(rest, forest, depth)
    decreases |ds|
  {
    if ds != [] && ds[|ds| - 1] == depth {
      var init := ds[..|ds| - 1];
      DecodeSound(init, depth + 1);
      var (kids, before) := Decode(init, depth + 1);
      DecodeSound(before, depth);
      var (older, rest) := Decode(before, depth);
      DecodeUnfold(ds, init, depth, kids, before, older, rest);
      DepthsSnoc(rest, older, kids, depth);
    }
  }

  lemma DecodeStep(ds: seq<nat>, depth: nat)
    ensures var (kids, before) := Decode(ds, depth + 1);
            var (older, rest) := Decode(before, depth);
            Decode(ds + [depth], depth) == (older + [Shape(kids)], rest)
  {
    assert (ds + [depth])[..|ds|] == ds;
  }

  /** Every forest is read back, whatever shallower entries precede it. */
  lemma {:induction false} DecodeComplete(before: seq<nat>, forest: seq<Shape>, depth: nat)
    requires before == [] || before[|before| - 1] < depth
    ensures Decode(Depths(before, forest, depth), depth) == (forest, before)
    decreases forest
  {
    if forest != [] {
      var older, last := forest[..|forest| - 1], forest[|forest| - 1];
      var upto := Depths(before, older, depth);
      DecodeComplete(before, older, depth);
      DecodeComplete(upto, last.kids, depth + 1);
      DecodeStep(Depths(upto, last.kids, depth + 1), depth);
      LastShape(forest);
    }
  }

  lemma LastShape(forest: seq<Shape>)
    requires forest != []
    ensures forest == forest[..|forest| - 1] + [Shape(forest[|forest| - 1].kids)]
  {
  }

  /** A depth sequence belongs to exactly one call forest. */
  lemma DepthsDetermineCalls(cs: seq<Call>, ds: seq<nat>, forest: seq<Shape>)
    ensures Decode(DepthsOf(PostOrders(cs, 1)), 1) == (ShapesOf(cs), [])
    ensures Decode(ds, 1) == (forest, []) <==> ds == Depths([], forest, 1)
  {
    DepthsOfPostOrders([], cs, 1);
    assert [] + PostOrders(cs, 1) == PostOrders(cs, 1);
    DecodeComplete([], ShapesOf(cs), 1);
    DecodeComplete([], forest, 1);
    DecodeSound(ds, 1);
  }

  // ------------------------------------------------------------ inclusive timing

  /** The clock readings of a call in the order they are taken. */
  function Readings(c: Call): seq<Sample> {
    [c.visit.started] + ReadingsOf(c.kids) + [c.visit.ended]
  }

  function ReadingsOf(cs: seq<Call>): seq<Sample> {
    if cs == [] then [] else Readings(cs[0]) + ReadingsOf(cs[1..])
  }

  /** A monotone clock with every reading good, observed between two instants. */
  predicate Monotone(rs: seq<Sample>, lo: int, hi: int) {
    if rs == [] then lo <= hi
    else
      rs[0].ok && rs[0].stamp.InRange() && lo <= rs[0].stamp.Instant()
      && Monotone(rs[1..], rs[0].stamp.Instant(), hi)
  }

  /** Every reading is good, in range and between the instants, and none is before another that was taken earlier. */
  lemma {:induction false} MonotoneIff(rs: seq<Sample>, lo: int, hi: int)
    ensures Monotone(rs, lo, hi)
       <==> lo <= hi && (forall i :: 0 <= i < |rs| ==>
                           rs[i].ok && rs[i].stamp.InRange() && lo <= rs[i].stamp.Instant() <= hi)
            && forall i, j :: 0 <= i < j < |rs| ==> rs[i].stamp.Instant() <= rs[j].stamp.Instant()
  {
    if rs != [] {
      var more := rs[1..];
      MonotoneIff(more, rs[0].stamp.Instant(), hi);
      assert forall i :: 0 <= i < |more| ==> more[i] == rs[i + 1];
      if Monotone(rs, lo, hi) {
        forall i, j | 0 <= i < j < |rs|
          ensures rs[i].stamp.Instant() <= rs[j].stamp.Instant()
        {
          assert rs[j] == more[j - 1] && (i > 0 ==> rs[i] == more[i - 1]);
        }
        forall i | 0 <= i < |rs|
          ensures rs[i].ok && rs[i].stamp.InRange() && lo <= rs[i].stamp.Instant() <= hi
        {
          assert i > 0 ==> rs[i] == more[i - 1];
        }
      }
    }
  }

  function LastInstant(rs: seq<Sample>, lo: int): int {
    if rs == [] then lo else rs[|rs| - 1].stamp.Instant()
  }

  lemma {:induction false} MonotoneSplit(a: seq<Sample>, b: seq<Sample>, lo: int, hi: int)
    requires Monotone(a + b, lo, hi)
    ensures Monotone(a, lo, LastInstant(a, lo)) && Monotone(b, LastInstant(a, lo), hi)
    ensures lo <= LastInstant(a, lo) <= hi
  {
    if a == [] {
      assert a + b == b;
      MonotoneBounds(b, lo, hi);
    } else {
      assert (a + b)[1..] == a[1..] + b;
      var first := a[0].stamp.Instant();
      MonotoneSplit(a[1..], b, first, hi);
      assert LastInstant(a, lo) == LastInstant(a[1..], first);
    }
  }

  lemma {:induction false} MonotoneBounds(rs: seq<Sample>, lo: int, hi: int)
    requires Monotone(rs, lo, hi)
    ensures lo <= hi
  {
    if rs != [] {
      MonotoneBounds(rs[1..], rs[0].stamp.Instant(), hi);
    }
  }

  /** Every timed call below `c` lasts at least as long as its direct children together. */
  predicate Inclusive(c: Call) {
    && (c.visit.Duration().Some? ==> AllTimed(c.kids) && TotalTime(c.kids) <= c.visit.Duration().value)
    && forall k :: k in c.kids ==> Inclusive(k)
  }

  predicate AllTimed(cs: seq<Call>) {
    forall c :: c in cs ==> c.visit.Duration().Some?
  }

  function TotalTime(cs: seq<Call>): nat
    requires AllTimed(cs)
  {
    if cs == [] then 0 else cs[0].visit.Duration().value + TotalTime(cs[1..])
  }

  lemma {:induction false} ForestTiming(cs: seq<Call>, lo: int, hi: int)
    requires Monotone(ReadingsOf(cs), lo, hi)
    ensures forall c :: c in cs ==> Inclusive(c)
    ensures hi - lo <= ULONG_MAX as int ==> AllTimed(cs) && TotalTime(cs) <= hi - lo
    decreases cs, 0
  {
    if cs != [] {
      var first := Readings(cs[0]);
      MonotoneSplit(first, ReadingsOf(cs[1..]), lo, hi);
      var mid := LastInstant(first, lo);
      InclusiveTiming(cs[0], lo, mid);
      ForestTiming(cs[1..], mid, hi);
      var v := cs[0].visit;
      assert first[0] == v.started && first[|first| - 1] == v.ended;
      assert lo <= v.started.stamp.Instant() <= v.ended.stamp.Instant() == mid;
      assert forall c :: c in cs ==> c == cs[0] || c in cs[1..];
    }
  }

  /** The readings of the children lie between the two of the call itself. */
  lemma KidsReadings(c: Call, lo: int, hi: int) returns (t1: int)
    requires Monotone(Readings(c), lo, hi)
    ensures c.visit.started.ok && c.visit.ended.ok && c.visit.started.stamp.InRange() && c.visit.ended.stamp.InRange()
    ensures lo <= c.visit.started.stamp.Instant() <= t1 <= c.visit.ended.stamp.Instant() <= hi
    ensures Monotone(ReadingsOf(c.kids), c.visit.started.stamp.Instant(), t1)
  {
    var kids, end := ReadingsOf(c.kids), [c.visit.ended];
    var t0 := c.visit.started.stamp.Instant();
    assert Readings(c)[1..] == kids + end;
    MonotoneSplit(kids, end, t0, hi);
    t1 := LastInstant(kids, t0);
    OneReading(c.visit.ended, t1, hi);
  }

  lemma OneReading(r: Sample, lo: int, hi: int)
    requires Monotone([r], lo, hi)
    ensures r.ok && r.stamp.InRange() && lo <= r.stamp.Instant() <= hi
  {
    assert [r][1..] == [];
  }

  lemma CoversKids(c: Call, t1: int)
    requires c.visit.started.ok && c.visit.ended.ok && c.visit.started.stamp.InRange() && c.visit.ended.stamp.InRange()
    requires c.visit.started.stamp.Instant() <= t1 <= c.visit.ended.stamp.Instant()
    requires forall k :: k in c.kids ==> Inclusive(k)
    requires t1 - c.visit.started.stamp.Instant() <= ULONG_MAX as int ==>
               AllTimed(c.kids) && TotalTime(c.kids) <= t1 - c.visit.started.stamp.Instant()
    ensures Inclusive(c)
  {
  }

  /** Under a monotone clock with every reading good, durations are inclusive. */
  lemma {:induction false} InclusiveTiming(c: Call, lo: int, hi: int)
    requires Monotone(Readings(c), lo, hi)
    ensures Inclusive(c)
    ensures c.visit.started.ok && c.visit.ended.ok && c.visit.started.stamp.InRange() && c.visit.ended.stamp.InRange()
    ensures lo <= c.visit.started.stamp.Instant() <= c.visit.ended.stamp.Instant() <= hi
    decreases c, 1
  {
    var t1 := KidsReadings(c, lo, hi);
    ForestTiming(c.kids, c.visit.started.stamp.Instant(), t1);
    CoversKids(c, t1);
  }

  // ------------------------------------------------------------ inclusive timing of a log

  /** The depth and the duration of an event. */
  datatype Row = Row(depth: nat, time: nat)

  function RowOf(e: Entry): Row { Row(e.depth, e.visit.Duration().GetOr(0)) }

  function RowsOf(es: seq<Entry>): (rows: seq<Row>)
    ensures |rows| == |es| && forall i :: 0 <= i < |es| ==> rows[i] == RowOf(es[i])
  {
    seq(|es|, i requires 0 <= i < |es| => RowOf(es[i]))
  }

  /** The time at a depth in the first n rows, since the last shallower one: what the forest takes that ends
      there. */
  function TimeAt(rows: seq<Row>, n: nat, depth: nat): nat
    requires n <= |rows|
  {
    if n == 0 || rows[n - 1].depth < depth then 0
    else TimeAt(rows, n - 1, depth) + if rows[n - 1].depth == depth then rows[n - 1].time else 0
  }

  lemma {:induction false} TimeAtPrefix(rows: seq<Row>, longer: seq<Row>, n: nat, depth: nat)
    requires n <= |rows| && rows <= longer
    ensures TimeAt(longer, n, depth) == TimeAt(rows, n, depth)
  {
    if n > 0 {
      TimeAtPrefix(rows, longer, n - 1, depth);
    }
  }

  /** Every row takes at least as long as its children in the log: the rows one level deeper since the last one
      that is not deeper than it. */
  predicate LogInclusive(rows: seq<Row>) {
    forall i: nat :: i < |rows| ==> CoversChildren(rows, i)
  }

  predicate CoversChildren(rows: seq<Row>, i: nat)
    requires i < |rows|
  {
    TimeAt(rows, i, rows[i].depth + 1) <= rows[i].time
  }

  /** A log is inclusive exactly when no row takes less than the rows one level deeper since the last one that is not
      deeper than it. */
  lemma InclusiveIff(rows: seq<Row>)
    ensures LogInclusive(rows) <==> forall i: nat :: i < |rows| ==> TimeAt(rows, i, rows[i].depth + 1) <= rows[i].time
  {
    forall i: nat | i < |rows|
      ensures CoversChildren(rows, i) <==> TimeAt(rows, i, rows[i].depth + 1) <= rows[i].time
    {
    }
  }

  lemma CoversChildrenPrefix(rows: seq<Row>, longer: seq<Row>, i: nat)
    requires i < |rows| && rows <= longer && CoversChildren(rows, i)
    ensures CoversChildren(longer, i)
  {
    TimeAtPrefix(rows, longer, i, rows[i].depth + 1);
  }

  lemma LogInclusiveSnoc(rows: seq<Row>, longer: seq<Row>, r: Row)
    requires LogInclusive(rows) && longer == rows + [r] && TimeAt(rows, |rows|, r.depth + 1) <= r.time
    ensures LogInclusive(longer)
  {
    forall i: nat | i < |rows|
      ensures CoversChildren(longer, i)
    {
      CoversChildrenPrefix(rows, longer, i);
    }
    TimeAtPrefix(rows, longer, |rows|, r.depth + 1);
  }

  function TimeOf(cs: seq<Call>): nat {
    if cs == [] then 0 else TimeOf(cs[..|cs| - 1]) + cs[|cs| - 1].visit.Duration().GetOr(0)
  }

  lemma {:induction false} TimeOfCons(cs: seq<Call>)
    requires cs != []
    ensures TimeOf(cs) == cs[0].visit.Duration().GetOr(0) + TimeOf(cs[1..])
  {
    if |cs| > 1 {
      TimeOfCons(cs[..|cs| - 1]);
      assert cs[..|cs| - 1][1..] == cs[1..][..|cs| - 2];
    } else {
      assert cs[..0] == [] && cs[1..] == [];
    }
  }

  lemma {:induction false} TimeOfTotal(cs: seq<Call>)
    requires AllTimed(cs)
    ensures TimeOf(cs) == TotalTime(cs)
  {
    if cs != [] {
      TimeOfCons(cs);
      TimeOfTotal(cs[1..]);
    }
  }

  lemma RowsSnoc(es: seq<Entry>, e: Entry)
    ensures RowsOf(es + [e]) == RowsOf(es) + [RowOf(e)]
  {
  }

  function TimeOfLog(es: seq<Entry>, depth: nat): nat { TimeAt(RowsOf(es), |es|, depth) }

  lemma TimeOfLogSnoc(es: seq<Entry>, e: Entry, depth: nat)
    ensures TimeOfLog(es + [e], depth)
         == if e.depth < depth then 0 else TimeOfLog(es, depth) + if e.depth == depth then RowOf(e).time else 0
  {
    RowsSnoc(es, e);
    TimeAtPrefix(RowsOf(es), RowsOf(es + [e]), |es|, depth);
  }

  /** The log of a forest at one depth: deeper rows add nothing there. */
  lemma {:induction false} TimeOfForest(before: seq<Entry>, cs: seq<Call>, depth: nat, at: nat)
    requires at <= depth
    ensures TimeOfLog(before + PostOrders(cs, depth), at)
         == TimeOfLog(before, at) + if at == depth then TimeOf(cs) else 0
    decreases cs
  {
    if cs == [] {
      assert before + [] == before;
    } else {
      var front, last := cs[..|cs| - 1], cs[|cs| - 1];
      var upto := before + PostOrders(front, depth);
      var inner := upto + PostOrders(last.kids, depth + 1);
      var e := Entry(last.visit, depth);
      TimeOfForest(before, front, depth, at);
      TimeOfForest(upto, last.kids, depth + 1, at);
      PostOrdersLast(before, cs, depth);
      TimeOfLogSnoc(inner, e, at);
    }
  }

  /** Calls that are timed, with inclusive durations at every level. */
  predicate AllInclusive(cs: seq<Call>) { AllTimed(cs) && forall c :: c in cs ==> Inclusive(c) }

  lemma InclusiveParts(cs: seq<Call>)
    requires cs != [] && AllInclusive(cs)
    ensures var front, last := cs[..|cs| - 1], cs[|cs| - 1];
            AllInclusive(front) && last.visit.Duration().Some? && Inclusive(last) && AllInclusive(last.kids)
  {
    var front, last := cs[..|cs| - 1], cs[|cs| - 1];
    assert cs == front + [last] && last in cs;
  }

  /** Durations that are inclusive in the forest are so in its log. */
  lemma {:induction false} InclusiveLog(before: seq<Entry>, cs: seq<Call>, depth: nat)
    requires LogInclusive(RowsOf(before)) && (before == [] || before[|before| - 1].depth <= depth)
    requires AllInclusive(cs)
    ensures LogInclusive(RowsOf(before + PostOrders(cs, depth)))
    decreases cs
  {
    if cs == [] {
      assert before + [] == before;
    } else {
      var front, last := cs[..|cs| - 1], cs[|cs| - 1];
      var upto := before + PostOrders(front, depth);
      InclusiveParts(cs);
      InclusiveLog(before, front, depth);
      LastDepth(before, front, depth);
      InclusiveLog(upto, last.kids, depth + 1);
      var inner := upto + PostOrders(last.kids, depth + 1);
      TimeOfKids(upto, inner, last, depth);
      CoversTimeOf(last);
      InclusiveSnoc(inner, Entry(last.visit, depth), TimeOf(last.kids));
      PostOrdersLast(before, cs, depth);
    }
  }

  lemma LastDepth(before: seq<Entry>, cs: seq<Call>, depth: nat)
    requires before == [] || before[|before| - 1].depth <= depth
    ensures var es := before + PostOrders(cs, depth); es == [] || es[|es| - 1].depth <= depth
  {
    if cs == [] {
      assert before + [] == before;
    } else {
      var last := cs[|cs| - 1];
      assert PostOrder(last, depth) != [];
    }
  }

  /** The time of a call's children in the log. */
  lemma TimeOfKids(upto: seq<Entry>, inner: seq<Entry>, c: Call, depth: nat)
    requires (upto == [] || upto[|upto| - 1].depth <= depth) && inner == upto + PostOrders(c.kids, depth + 1)
    ensures TimeOfLog(inner, depth + 1) == TimeOf(c.kids)
  {
    TimeOfForest(upto, c.kids, depth + 1, depth + 1);
    NothingDeeper(upto, depth + 1);
  }

  lemma NothingDeeper(es: seq<Entry>, depth: nat)
    requires es == [] || es[|es| - 1].depth < depth
    ensures TimeOfLog(es, depth) == 0
  {
  }

  lemma CoversTimeOf(c: Call)
    requires Inclusive(c) && c.visit.Duration().Some?
    ensures TimeOf(c.kids) <= c.visit.Duration().value
  {
    TimeOfTotal(c.kids);
  }

  lemma InclusiveSnoc(es: seq<Entry>, e: Entry, t: nat)
    requires LogInclusive(RowsOf(es)) && TimeOfLog(es, e.depth + 1) == t <= e.visit.Duration().GetOr(0)
    ensures LogInclusive(RowsOf(es + [e]))
  {
    RowsSnoc(es, e);
    LogInclusiveSnoc(RowsOf(es), RowsOf(es + [e]), RowOf(e));
  }

  /** Every call of a forest has a row in its log. */
  lemma {:induction false} RowOfCall(cs: seq<Call>, depth: nat, c: Call) returns (i: nat)
    requires c in cs
    ensures i < |PostOrders(cs, depth)| && PostOrders(cs, depth)[i].visit == c.visit
  {
    var front, last := cs[..|cs| - 1], cs[|cs| - 1];
    if c == last {
      i := |PostOrders(cs, depth)| - 1;
    } else {
      i := RowOfCall(front, depth, c);
    }
  }

  /** Under a monotone clock, the log of timed calls is inclusive, and its top level takes no longer than the
      whole span. */
  lemma ForestLogTiming(cs: seq<Call>, es: seq<Entry>, lo: int, hi: int)
    requires Monotone(ReadingsOf(cs), lo, hi) && AllTimed(cs) && es == PostOrders(cs, 1)
    ensures LogInclusive(RowsOf(es)) && (hi - lo <= ULONG_MAX as int ==> TimeOfLog(es, 1) <= hi - lo)
  {
    ForestTiming(cs, lo, hi);
    assert [] + es == es;
    InclusiveLog([], cs, 1);
    TimeOfForest([], cs, 1, 1);
    TimeOfTotal(cs);
  }
}
