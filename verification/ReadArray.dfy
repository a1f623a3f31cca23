/** src/builtins/zpreadarray.c: two loops that cut a stream into records and assign them to consecutive
    elements of an array, one with getline and one that grows its own buffer. */
module ReadArray {
  import opened Text

  const NUL := '\0'

  /** -t, -s, -n and -O, and with -C the quantum of -c. */
  datatype Options = Options(trim: bool, skip: int, count: int, origin: int, callback: Option<int>)

  /** One `name[index]=value`. */
  datatype Store = Store(index: int, value: string)

  // ---------------------------------------------------------------- records

  /** What the assignment sees of a buffer: the characters before the first NUL. */
  function CString(s: string): string { s[..IndexOf(s, NUL)] }

  /** It has no NUL, and is all there is or is followed by one. */
  lemma CStringIs(s: string)
    ensures '\0' !in CString(s) && (CString(s) == s || CString(s) + "\0" <= s)
  {
    var n := IndexOf(s, NUL);
    if n < |s| {
      assert s[..n + 1] == s[..n] + [NUL];
    } else {
      assert s[..n] == s;
    }
  }

  /** A terminator behind the characters changes nothing. */
  lemma TerminatorEnds(s: string)
    ensures CString(s + [NUL]) == CString(s)
  {
    var n := IndexOf(s, NUL);
    if n < |s| {
      assert (s + [NUL])[..n] == s[..n];
      IndexOfUnique(s + [NUL], NUL, n);
    } else {
      assert s[..n] == s;
      IndexOfAppend(s, NUL, [NUL]);
    }
  }

  /** The characters after the last delimiter among the first n. The delimiter is an int, as in the source: one
      that is no character never matches. */
  function TailTo(s: string, n: nat, delim: int): (t: string)
    requires n <= |s|
    ensures forall c :: c in t ==> c as int != delim
  {
    if n == 0 || s[n - 1] as int == delim then "" else TailTo(s, n - 1, delim) + [s[n - 1]]
  }

  function Kept(tail: string, c: char, trim: bool): string { if trim then tail else tail + [c] }

  /** The records that a delimiter ends among the first n characters, without it when `trim` is set. */
  function EndedTo(s: string, n: nat, delim: int, trim: bool): seq<string>
    requires n <= |s|
  {
    if n == 0 then []
    else if s[n - 1] as int != delim then EndedTo(s, n - 1, delim, trim)
    else EndedTo(s, n - 1, delim, trim) + [Kept(TailTo(s, n - 1, delim), s[n - 1], trim)]
  }

  function Tail(s: string, delim: int): string { TailTo(s, |s|, delim) }

  function Ended(s: string, delim: int, trim: bool): seq<string> { EndedTo(s, |s|, delim, trim) }

  /** All records: a last one without delimiter counts when it is not empty. */
  function Records(s: string, delim: int, trim: bool): seq<string> {
    if Tail(s, delim) == "" then Ended(s, delim, trim) else Ended(s, delim, trim) + [Tail(s, delim)]
  }

  function Concat(parts: seq<string>, n: nat): string
    requires n <= |parts|
  {
    if n == 0 then "" else Concat(parts, n - 1) + parts[n - 1]
  }

  lemma {:induction false} ConcatPrefix(parts: seq<string>, more: seq<string>, n: nat)
    requires n <= |parts|
    ensures Concat(parts + more, n) == Concat(parts, n)
  {
    if n > 0 {
      ConcatPrefix(parts, more, n - 1);
    }
  }

  lemma ConcatRecord(parts: seq<string>, tail: string, c: char, text: string)
    requires Concat(parts, |parts|) + tail == text
    ensures Concat(parts + [tail + [c]], |parts| + 1) == text + [c]
  {
    ConcatPrefix(parts, [tail + [c]], |parts|);
    Assoc(Concat(parts, |parts|), tail, [c]);
  }

  /** Untrimmed, the records rebuild the input. */
  lemma {:induction false} RecordsRebuildInput(s: string, n: nat, delim: int)
    requires n <= |s|
    ensures var ended := EndedTo(s, n, delim, false); Concat(ended, |ended|) + TailTo(s, n, delim) == s[..n]
  {
    if n > 0 {
      RecordsRebuildInput(s, n - 1, delim);
      assert s[..n] == s[..n - 1] + [s[n - 1]];
      var before, tail := EndedTo(s, n - 1, delim, false), TailTo(s, n - 1, delim);
      if s[n - 1] as int == delim {
        ConcatRecord(before, tail, s[n - 1], s[..n - 1]);
        assert s[..n] + "" == s[..n];
      } else {
        Assoc(Concat(before, |before|), tail, [s[n - 1]]);
      }
    }
  }

  /** Untrimmed, a record ends with the only delimiter in it. */
  lemma {:induction false} RecordsEndOnce(s: string, n: nat, delim: int)
    requires n <= |s|
    ensures forall r :: r in EndedTo(s, n, delim, false) ==>
              r != "" && r[|r| - 1] as int == delim && forall i :: 0 <= i < |r| - 1 ==> r[i] as int != delim
  {
    if n > 0 {
      RecordsEndOnce(s, n - 1, delim);
      var tail := TailTo(s, n - 1, delim);
      var longer := tail + [s[n - 1]];
      assert forall i :: 0 <= i < |tail| ==> longer[i] in tail;
    }
  }

  /** With trimming, the same records without their delimiter. */
  lemma {:induction false} TrimmedRecords(s: string, n: nat, delim: int)
    requires n <= |s| && 0 <= delim < 256
    ensures |EndedTo(s, n, delim, true)| == |EndedTo(s, n, delim, false)|
    ensures forall i :: 0 <= i < |EndedTo(s, n, delim, true)| ==>
              EndedTo(s, n, delim, false)[i] == EndedTo(s, n, delim, true)[i] + [delim as char]
  {
    if n > 0 {
      TrimmedRecords(s, n - 1, delim);
    }
  }

  // ---------------------------------------------------------------- what is assigned

  function Max(a: int, b: int): int { if a >= b then a else b }

  /** A record that is not assigned: -s skips it, or -n has been reached. */
  predicate Refused(place: nat, stored: nat, o: Options) {
    place < o.skip || (o.count > 0 && stored >= o.count)
  }

  /** The assignments of the first n records, from the origin on. */
  function StoresTo(records: seq<string>, n: nat, o: Options): seq<Store>
    requires n <= |records|
  {
    if n == 0 then []
    else
      var before := StoresTo(records, n - 1, o);
      if Refused(n - 1, |before|, o) then before
      else before + [Store(o.origin + |before|, CString(records[n - 1]))]
  }

  function Stores(records: seq<string>, o: Options): seq<Store> { StoresTo(records, |records|, o) }

  /** How many of n records are assigned. */
  function Wanted(n: nat, o: Options): nat {
    var left := Max(n - Max(o.skip, 0), 0);
    if o.count > 0 then Min(left, o.count) else left
  }

  /** The j-th assignment is the j-th record after the skipped ones, at the j-th element after the origin. */
  lemma {:induction false} StoresAt(records: seq<string>, n: nat, o: Options)
    requires n <= |records|
    ensures |StoresTo(records, n, o)| == Wanted(n, o)
    ensures forall j :: 0 <= j < Wanted(n, o) ==>
              StoresTo(records, n, o)[j] == Store(o.origin + j, CString(records[Max(o.skip, 0) + j]))
  {
    if n > 0 {
      StoresAt(records, n - 1, o);
    }
  }

  lemma {:induction false} StoresPrefix(records: seq<string>, longer: seq<string>, n: nat, o: Options)
    requires n <= |records| && records <= longer
    ensures StoresTo(longer, n, o) == StoresTo(records, n, o)
  {
    if n > 0 {
      StoresPrefix(records, longer, n - 1, o);
    }
  }

  lemma StoresSnoc(records: seq<string>, r: string, longer: seq<string>, o: Options)
    requires longer == records + [r]
    ensures var before := Stores(records, o);
            Stores(longer, o) == (
              if Refused(|records|, |before|, o) then before
              else before + [Store(o.origin + |before|, CString(r))])
  {
    StoresPrefix(records, longer, |records|, o);
    assert longer[|records|] == r;
  }

  /** The callback runs after the n-th assignment. */
  predicate IsCall(n: nat, o: Options) {
    o.callback.Some? && o.callback.value != 0 && n % o.callback.value == 0
  }

  /** The assignments among the first n after which the callback runs, with the arguments it gets. */
  function CallsTo(stores: seq<Store>, n: nat, o: Options): seq<Store>
    requires n <= |stores|
  {
    if n == 0 then []
    else if IsCall(n, o) then CallsTo(stores, n - 1, o) + [stores[n - 1]]
    else CallsTo(stores, n - 1, o)
  }

  function Calls(stores: seq<Store>, o: Options): seq<Store> { CallsTo(stores, |stores|, o) }

  lemma {:induction false} CallsPrefix(stores: seq<Store>, more: seq<Store>, n: nat, o: Options)
    requires n <= |stores|
    ensures CallsTo(stores + more, n, o) == CallsTo(stores, n, o)
  {
    if n > 0 {
      CallsPrefix(stores, more, n - 1, o);
    }
  }

  lemma CallsSnoc(stores: seq<Store>, s: Store, o: Options)
    ensures Calls(stores + [s], o) == if IsCall(|stores| + 1, o) then Calls(stores, o) + [s] else Calls(stores, o)
  {
    CallsPrefix(stores, [s], |stores|, o);
  }

  lemma MulAtLeast(x: int, q: nat)
    ensures x >= 1 ==> x * q >= q
    ensures x <= -1 ==> x * q <= 0 - q
  {
  }

  lemma DivIs(n: nat, q: nat, c: nat, r: nat)
    requires q > 0 && n == c * q + r && r < q
    ensures n / q == c && n % q == r
  {
    var d, s := n / q, n % q;
    assert n == d * q + s;
    assert (d - c) * q == r - s;
    MulAtLeast(d - c, q);
    assert d == c;
  }

  /** The multiples of q: one more number either completes one or does not. */
  lemma DivStep(n: nat, q: nat)
    requires q > 0
    ensures (n + 1) % q == 0 ==> (n + 1) / q == n / q + 1 && n + 1 == (n / q + 1) * q
    ensures (n + 1) % q != 0 ==> (n + 1) / q == n / q
  {
    var c, r := n / q, n % q;
    assert n == c * q + r;
    if r + 1 < q {
      DivIs(n + 1, q, c, r + 1);
    } else {
      assert (c + 1) * q == c * q + q;
      DivIs(n + 1, q, c + 1, 0);
    }
  }

  lemma WithinMultiples(n: nat, q: nat, k: nat)
    requires q > 0 && 0 < k <= n / q
    ensures 0 < k * q <= n
  {
    var d := n / q;
    assert n == d * q + n % q;
    assert d * q == k * q + (d - k) * q;
    MulAtLeast(k, q);
    if d > k {
      MulAtLeast(d - k, q);
    }
  }

  /** Every q-th assignment, k times. */
  function EveryNth(stores: seq<Store>, q: nat, k: nat): seq<Store>
    requires q > 0 && k <= |stores| / q
  {
    if k == 0 then [] else
      WithinMultiples(|stores|, q, k);
      EveryNth(stores, q, k - 1) + [stores[k * q - 1]]
  }

  lemma {:induction false} EveryNthAt(stores: seq<Store>, q: nat, k: nat, j: nat)
    requires q > 0 && j < k <= |stores| / q
    ensures |EveryNth(stores, q, k)| == k && 0 < (j + 1) * q <= |stores|
    ensures EveryNth(stores, q, k)[j] == stores[(j + 1) * q - 1]
  {
    WithinMultiples(|stores|, q, j + 1);
    if j < k - 1 {
      EveryNthAt(stores, q, k - 1, j);
    } else if k > 1 {
      EveryNthAt(stores, q, k - 1, 0);
    }
  }

  lemma DueIff(n: nat, q: nat, o: Options)
    requires q > 0 && (o.callback == Some(q) || o.callback == Some(0 - q))
    ensures IsCall(n, o) <==> n % q == 0
  {
    SameRest(n, q, 0 - q);
  }

  /** The rest does not depend on the sign of the quantum. */
  lemma SameRest(n: nat, q: nat, p: int)
    requires q > 0 && p == 0 - q
    ensures n % p == n % q
  {
    var d, r, e, s := n / q, n % q, n / p, n % p;
    assert n == d * q + r && n == e * p + s;
    assert e * p == (0 - e) * q;
    assert (0 - e - d) * q == r - s;
    MulAtLeast(0 - e - d, q);
  }

  lemma DivGrows(n: nat, m: nat, q: nat)
    requires q > 0 && n <= m
    ensures n / q <= m / q
  {
    var c, d := n / q, m / q;
    assert n == c * q + n % q && m == d * q + m % q;
    MulAtLeast(d - c, q);
  }

  /** With a quantum q, every q-th assignment is followed by a call, with what it assigned. */
  lemma {:induction false} CallsAre(stores: seq<Store>, n: nat, q: nat, o: Options)
    requires n <= |stores| && q > 0 && (o.callback == Some(q) || o.callback == Some(0 - q))
    ensures n / q <= |stores| / q && CallsTo(stores, n, o) == EveryNth(stores, q, n / q)
  {
    DivGrows(n, |stores|, q);
    if n == 0 {
      DivIs(0, q, 0, 0);
    } else {
      CallsAre(stores, n - 1, q, o);
      DivStep(n - 1, q);
      DueIff(n, q, o);
    }
  }

  /** -n bounds what is assigned, and nothing else but the skipped records is kept from it. */
  lemma WantedIs(n: nat, o: Options)
    ensures Wanted(n, o) > 0 ==> Max(o.skip, 0) + Wanted(n, o) <= n
    ensures o.count > 0 ==> Wanted(n, o) <= o.count
    ensures n > o.skip && (o.count <= 0 || Wanted(n, o) < o.count) ==> Max(o.skip, 0) + Wanted(n, o) == n
  {
  }

  /** What the getline loop assigns. */
  function LineStores(s: string, o: Options): seq<Store> {
    Stores(Records(s, '\n' as int, o.trim), o)
  }

  function EndedStores(s: string, delim: int, o: Options): seq<Store> {
    Stores(Ended(s, delim, o.trim), o)
  }

  /** What the generic loop assigns: -s counts delimiters only, and a negative -n refuses the last record
      without delimiter but no other. */
  function DelimStores(s: string, delim: int, o: Options): seq<Store> {
    var stores, tail := EndedStores(s, delim, o), Tail(s, delim);
    if tail != "" && (o.count == 0 || |stores| < o.count)
    then stores + [Store(o.origin + |stores|, CString(tail))]
    else stores
  }

  /** The two loops agree on a newline exactly when there is no last record without newline, or when -s
      skips no more than the newlines just if -n is not negative. */
  lemma LoopsAgreeIff(s: string, o: Options)
    ensures DelimStores(s, '\n' as int, o) == LineStores(s, o)
       <==> Tail(s, '\n' as int) == "" || (|Ended(s, '\n' as int, o.trim)| >= o.skip <==> o.count >= 0)
  {
    var n, tail := |Ended(s, '\n' as int, o.trim)|, Tail(s, '\n' as int);
    LastLine(s, o);
    if tail != "" {
      LastAgreesIff(EndedStores(s, '\n' as int, o), LineStores(s, o), DelimStores(s, '\n' as int, o), n, tail, o);
    }
  }

  /** What the getline loop does with a last record without newline. */
  lemma LastLine(s: string, o: Options)
    ensures var stores, tail := EndedStores(s, '\n' as int, o), Tail(s, '\n' as int);
            var n := |Ended(s, '\n' as int, o.trim)|;
            && |stores| == Wanted(n, o)
            && LineStores(s, o) == if tail == "" || Refused(n, |stores|, o) then stores
                                   else stores + [Store(o.origin + |stores|, CString(tail))]
  {
    LastOf(Ended(s, '\n' as int, o.trim), Tail(s, '\n' as int), Records(s, '\n' as int, o.trim), o);
  }

  lemma LastOf(ended: seq<string>, tail: string, all: seq<string>, o: Options)
    requires all == if tail == "" then ended else ended + [tail]
    ensures var stores := Stores(ended, o);
            && |stores| == Wanted(|ended|, o)
            && Stores(all, o) == if tail == "" || Refused(|ended|, |stores|, o) then stores
                                 else stores + [Store(o.origin + |stores|, CString(tail))]
  {
    StoresAt(ended, |ended|, o);
    if tail != "" {
      StoresSnoc(ended, tail, all, o);
    }
  }

  /** A last record without newline, after n others. */
  lemma LastAgreesIff(stores: seq<Store>, lines: seq<Store>, delims: seq<Store>, n: nat, tail: string, o: Options)
    requires |stores| == Wanted(n, o)
    requires lines == if Refused(n, |stores|, o) then stores else stores + [Store(o.origin + |stores|, CString(tail))]
    requires delims == if o.count == 0 || |stores| < o.count
                       then stores + [Store(o.origin + |stores|, CString(tail))] else stores
    ensures delims == lines <==> (n >= o.skip <==> o.count >= 0)
  {
    assert |stores + [Store(o.origin + |stores|, CString(tail))]| == |stores| + 1;
  }

  /** The callback of the generic loop never runs for a last record without delimiter, that of the getline loop
      does when it is due. So the calls agree on a newline exactly when there is no such record, or it is not
      assigned, or its number is no multiple of the quantum. */
  lemma CallsAgreeIff(s: string, o: Options)
    ensures var n := |Ended(s, '\n' as int, o.trim)|;
            Calls(LineStores(s, o), o) == Calls(EndedStores(s, '\n' as int, o), o)
            <==> Tail(s, '\n' as int) == "" || n < o.skip || 0 < o.count <= Wanted(n, o)
                 || !IsCall(Wanted(n, o) + 1, o)
  {
    var n, tail := |Ended(s, '\n' as int, o.trim)|, Tail(s, '\n' as int);
    LastLine(s, o);
    if tail != "" {
      CallsOfLast(EndedStores(s, '\n' as int, o), LineStores(s, o), n, tail, o);
    }
  }

  lemma CallsOfLast(stores: seq<Store>, more: seq<Store>, n: nat, tail: string, o: Options)
    requires |stores| == Wanted(n, o)
    requires more == if Refused(n, |stores|, o) then stores else stores + [Store(o.origin + |stores|, CString(tail))]
    ensures Calls(more, o) == Calls(stores, o)
       <==> n < o.skip || 0 < o.count <= Wanted(n, o) || !IsCall(Wanted(n, o) + 1, o)
  {
    CallsOfOneMore(stores, tail, o);
  }

  /** An instance: one record without newline. With a quantum of one, only the getline loop calls back; with a
      record to skip, only the generic loop assigns it. */
  lemma LoopsDiffer()
    ensures var o := Options(false, 0, 0, 1, Some(1));
            && Calls(LineStores("a", o), o) == [Store(1, "a")] && Calls(EndedStores("a", '\n' as int, o), o) == []
            && LineStores("a", o.(skip := 1)) == [] && DelimStores("a", '\n' as int, o.(skip := 1)) == [Store(1, "a")]
  {
    var nl, s, one := '\n' as int, "a", [Store(1, "a")];
    assert TailTo(s, 0, nl) == "" && TailTo(s, 1, nl) == s && EndedTo(s, 1, nl, false) == EndedTo(s, 0, nl, false);
    assert Records(s, nl, false) == [s] && CString(s) == s;
    var o := Options(false, 0, 0, 1, Some(1));
    assert StoresTo([s], 0, o) == [] && StoresTo([s], 0, o.(skip := 1)) == [];
    assert Stores([s], o) == one && CallsTo(one, 0, o) == [];
  }

  lemma CallsOfOneMore(stores: seq<Store>, tail: string, o: Options)
    ensures var more := stores + [Store(o.origin + |stores|, CString(tail))];
            more != stores && (Calls(more, o) == Calls(stores, o) <==> !IsCall(|stores| + 1, o))
  {
    CallsSnoc(stores, Store(o.origin + |stores|, CString(tail)), o);
  }

  /** What a loop leaves. With a quantum of zero, the test for the first callback divides by zero, which ends
      it there. */
  datatype Outcome = Outcome(stores: seq<Store>, calls: seq<Store>, crashed: bool)

  /** The loop when each of the assignments in `due` is followed by that test. */
  function OutcomeOf(stores: seq<Store>, due: seq<Store>, o: Options): Outcome {
    if o.callback == Some(0) && due != [] then Outcome(due[..1], [], true) else Outcome(stores, Calls(due, o), false)
  }

  function GetlineOutcome(s: string, o: Options): Outcome { OutcomeOf(LineStores(s, o), LineStores(s, o), o) }

  function DelimOutcome(s: string, delim: int, o: Options): Outcome {
    OutcomeOf(DelimStores(s, delim, o), EndedStores(s, delim, o), o)
  }

  /** With a quantum of zero both loops crash alike exactly when there is no last record without newline, or one
      before it is assigned, or none at all is by either of them. */
  lemma ZeroQuantumAgreesIff(s: string, o: Options)
    requires o.callback == Some(0)
    ensures var n := |Ended(s, '\n' as int, o.trim)|;
            GetlineOutcome(s, o) == DelimOutcome(s, '\n' as int, o)
            <==> Tail(s, '\n' as int) == "" || n > Max(o.skip, 0) || (n < o.skip && o.count < 0)
  {
    LastLine(s, o);
    CrashAlikeIff(EndedStores(s, '\n' as int, o), LineStores(s, o), DelimStores(s, '\n' as int, o),
                  |Ended(s, '\n' as int, o.trim)|, Tail(s, '\n' as int), o);
  }

  lemma CrashAlikeIff(stores: seq<Store>, lines: seq<Store>, delims: seq<Store>, n: nat, tail: string, o: Options)
    requires o.callback == Some(0) && |stores| == Wanted(n, o)
    requires lines == if tail == "" || Refused(n, |stores|, o) then stores
                      else stores + [Store(o.origin + |stores|, CString(tail))]
    requires delims == if tail != "" && (o.count == 0 || |stores| < o.count)
                       then stores + [Store(o.origin + |stores|, CString(tail))] else stores
    ensures OutcomeOf(lines, lines, o) == OutcomeOf(delims, stores, o)
       <==> tail == "" || n > Max(o.skip, 0) || (n < o.skip && o.count < 0)
  {
    FirstOfMore(stores, Store(o.origin + |stores|, CString(tail)));
    NoCalls(stores, |stores|, o);
    NoCalls(lines, |lines|, o);
  }

  lemma FirstOfMore(stores: seq<Store>, s: Store)
    ensures stores != [] ==> (stores + [s])[..1] == stores[..1]
  {
  }

  lemma {:induction false} NoCalls(stores: seq<Store>, n: nat, o: Options)
    requires n <= |stores| && o.callback == Some(0)
    ensures CallsTo(stores, n, o) == []
  {
    if n > 0 {
      NoCalls(stores, n - 1, o);
    }
  }

  // ---------------------------------------------------------------- a loop after some of its input

  /** The current record, how many records have ended, and what has been assigned. */
  datatype At = At(tail: string, ended: nat, stores: seq<Store>)

  /** A record ends. */
  function AddRecord(b: At, text: string, o: Options): At {
    At("", b.ended + 1,
       if Refused(b.ended, |b.stores|, o) then b.stores
       else b.stores + [Store(o.origin + |b.stores|, CString(text))])
  }

  function Next(b: At, c: char, delim: int, o: Options): At {
    if c as int != delim then b.(tail := b.tail + [c]) else AddRecord(b, Kept(b.tail, c, o.trim), o)
  }

  function StateAt(s: string, p: nat, delim: int, o: Options): At
    requires p <= |s|
  {
    if p == 0 then At("", 0, []) else Next(StateAt(s, p - 1, delim, o), s[p - 1], delim, o)
  }

  lemma RecordIs(ended: seq<string>, tail: string, text: string, more: seq<string>, o: Options)
    requires more == ended + [text]
    ensures AddRecord(At(tail, |ended|, Stores(ended, o)), text, o) == At("", |more|, Stores(more, o))
  {
    StoresSnoc(ended, text, more, o);
  }

  /** The loop assigns the records that end within what it has seen. */
  lemma {:induction false} StateIs(s: string, p: nat, delim: int, o: Options)
    requires p <= |s|
    ensures var ended := EndedTo(s, p, delim, o.trim);
            StateAt(s, p, delim, o) == At(TailTo(s, p, delim), |ended|, Stores(ended, o))
  {
    if p > 0 {
      StateIs(s, p - 1, delim, o);
      var ended, tail := EndedTo(s, p - 1, delim, o.trim), TailTo(s, p - 1, delim);
      if s[p - 1] as int == delim {
        RecordIs(ended, tail, Kept(tail, s[p - 1], o.trim), EndedTo(s, p, delim, o.trim), o);
      }
    }
  }

  /** Once -n is reached, nothing is assigned any more. */
  lemma {:induction false} LimitHolds(s: string, p: nat, q: nat, delim: int, o: Options)
    requires p <= q <= |s| && o.count > 0 && |StateAt(s, p, delim, o).stores| >= o.count
    ensures StateAt(s, q, delim, o).stores == StateAt(s, p, delim, o).stores
  {
    if p < q {
      LimitHolds(s, p, q - 1, delim, o);
    }
  }

  /** What has been assigned stays. */
  lemma {:induction false} StoresStay(s: string, p: nat, q: nat, delim: int, o: Options)
    requires p <= q <= |s|
    ensures StateAt(s, p, delim, o).stores <= StateAt(s, q, delim, o).stores
  {
    if p < q {
      StoresStay(s, p, q - 1, delim, o);
    }
  }

  /** How many records are still to be skipped. */
  function SkipLeft(skip: int, ended: nat): int { if skip <= 0 then skip else Max(skip - ended, 0) }

  /** One assignment, and the callback when it is due; with a quantum of zero it crashes. */
  method Assign(stores: seq<Store>, calls: seq<Store>, index: int, value: string, o: Options)
    returns (stores': seq<Store>, calls': seq<Store>, crashed: bool)
    requires index == o.origin + |stores| && calls == Calls(stores, o)
    ensures stores' == stores + [Store(index, value)] && calls' == Calls(stores', o)
    ensures crashed <==> o.callback == Some(0)
  {
    CallsSnoc(stores, Store(index, value), o);
    stores', calls', crashed := stores + [Store(index, value)], calls, o.callback == Some(0);
    if o.callback.Some? && !crashed && (index - o.origin + 1) % o.callback.value == 0 {
      calls' := calls' + [Store(index, value)];
    }
  }

  /** What ends a loop before its input does. */
  datatype Stop = Go | Full | Crash

  /** A record that -s does not skip: it is assigned unless -n has been reached. */
  method Offer(stores: seq<Store>, calls: seq<Store>, index: int, text: string, o: Options)
    returns (stores': seq<Store>, calls': seq<Store>, stop: Stop)
    requires index == o.origin + |stores| && calls == Calls(stores, o)
    ensures stop.Full? <==> o.count > 0 && |stores| >= o.count
    ensures stop.Crash? <==> !stop.Full? && o.callback == Some(0)
    ensures stores' == if stop.Full? then stores else stores + [Store(index, CString(text))]
    ensures calls' == Calls(stores', o)
  {
    stop := if o.count > 0 && index - o.origin >= o.count then Full else Go;
    stores', calls' := stores, calls;
    if stop.Go? {
      var crashed;
      stores', calls', crashed := Assign(stores, calls, index, CString(text), o);
      stop := if crashed then Crash else Go;
    }
  }

  // ---------------------------------------------------------------- the getline loop

  /** getline: where the line that begins at p ends, with its newline if there is one. */
  function LineEnd(s: string, p: nat): (e: nat)
    requires p <= |s|
    ensures p <= e <= |s| && (p < |s| ==> p < e)
    ensures forall i :: p <= i < e - 1 ==> s[i] != '\n'
    ensures e < |s| ==> s[e - 1] == '\n'
    decreases |s| - p
  {
    if p == |s| then p else if s[p] == '\n' then p + 1 else LineEnd(s, p + 1)
  }

  /** What the getline loop keeps of a line. */
  function LineValue(line: string, trim: bool): string {
    if trim && line != "" && line[|line| - 1] == '\n' then line[..|line| - 1] else line
  }

  /** The getline loop after the lines up to p: a last line without newline has been taken as well. */
  function LinesAt(s: string, p: nat, o: Options): At
    requires p <= |s|
  {
    var b := StateAt(s, p, '\n' as int, o);
    if b.tail == "" then b else AddRecord(b, b.tail, o)
  }

  lemma {:induction false} WithinLine(s: string, p: nat, q: nat, o: Options)
    requires p <= q <= |s| && StateAt(s, p, '\n' as int, o).tail == "" && forall i :: p <= i < q ==> s[i] != '\n'
    ensures StateAt(s, q, '\n' as int, o) == StateAt(s, p, '\n' as int, o).(tail := Between(s, p, q))
  {
    if p < q {
      WithinLine(s, p, q - 1, o);
    }
  }

  /** The last character of a line. */
  lemma EndOfLine(b: At, front: string, c: char, o: Options)
    requires b.tail == ""
    ensures var a := Next(b.(tail := front), c, '\n' as int, o);
            && (c == '\n' ==> a == AddRecord(b, LineValue(front + [c], o.trim), o))
            && (c != '\n' ==>
                  a.tail != "" && AddRecord(a, a.tail, o) == AddRecord(b, LineValue(front + [c], o.trim), o))
  {
    LineValueOf(front, c, o.trim);
  }

  /** One line more. */
  lemma LineStep(s: string, p: nat, e: nat, b: At, o: Options)
    requires p < |s| && e == LineEnd(s, p) && b == StateAt(s, p, '\n' as int, o) && b.tail == ""
    ensures LinesAt(s, e, o) == AddRecord(b, LineValue(Between(s, p, e), o.trim), o)
    ensures e < |s| ==> StateAt(s, e, '\n' as int, o) == LinesAt(s, e, o)
  {
    WithinLine(s, p, e - 1, o);
    EndOfLine(b, Between(s, p, e - 1), s[e - 1], o);
  }

  lemma LineValueOf(front: string, c: char, trim: bool)
    ensures LineValue(front + [c], trim) == if c == '\n' then Kept(front, c, trim) else front + [c]
  {
  }

  lemma LinesAtEnd(s: string, o: Options)
    ensures LinesAt(s, |s|, o).stores == LineStores(s, o)
  {
    StateIs(s, |s|, '\n' as int, o);
    LastLine(s, o);
  }

  method GetLine(s: string, p: nat) returns (line: string, e: nat)
    requires p < |s|
    ensures e == LineEnd(s, p) && line == Between(s, p, e) && line != ""
  {
    e := LineEnd(s, p);
    line := s[p..e];
    BetweenIsSlice(s, p, e);
  }

  lemma NoMoreLines(s: string, p: nat, o: Options)
    requires p <= |s| && o.count > 0 && |StateAt(s, p, '\n' as int, o).stores| >= o.count
    ensures LineStores(s, o) == StateAt(s, p, '\n' as int, o).stores
  {
    LimitHolds(s, p, |s|, '\n' as int, o);
    LinesAtEnd(s, o);
  }

  /** Lines 121 to 123. */
  method TrimLine(line: string, trim: bool) returns (value: string)
    requires line != ""
    ensures value == LineValue(line, trim)
  {
    value := line;
    if trim && line[|line| - 1] == '\n' {
      value := line[..|line| - 1];
    }
  }

  /** The first assignment, if it crashes. */
  lemma CrashedLine(s: string, e: nat, o: Options)
    requires e <= |s| && |LinesAt(s, e, o).stores| == 1 && o.callback == Some(0)
    requires e < |s| ==> StateAt(s, e, '\n' as int, o) == LinesAt(s, e, o)
    ensures var stores := LinesAt(s, e, o).stores; GetlineOutcome(s, o) == Outcome(stores, Calls(stores, o), true)
  {
    NoCalls(LinesAt(s, e, o).stores, 1, o);
    StoresStay(s, e, |s|, '\n' as int, o);
    LinesAtEnd(s, o);
    assert LinesAt(s, e, o).stores <= LineStores(s, o);
  }

  method GetlineLoop(input: string, o: Options) returns (stores: seq<Store>, calls: seq<Store>, crashed: bool)
    ensures Outcome(stores, calls, crashed) == GetlineOutcome(input, o)
  {
    var skipFirst, index, p := o.skip, o.origin, 0;
    stores, calls, crashed := [], [], false;
    LinesAtEnd(input, o);
    ghost var b := At("", 0, []);
    while p < |input|
      invariant p <= |input| && b == LinesAt(input, p, o) && stores == b.stores && calls == Calls(stores, o)
      invariant p < |input| ==> b == StateAt(input, p, '\n' as int, o) && b.tail == ""
      invariant index == o.origin + |stores| && skipFirst == SkipLeft(o.skip, b.ended)
      invariant !crashed && (o.callback == Some(0) ==> stores == [])
    {
      var line, e := GetLine(input, p);
      LineStep(input, p, e, b, o);
      var stop;
      stores, calls, index, skipFirst, stop := TakeLine(stores, calls, index, skipFirst, line, o, b);
      if stop.Full? {
        NoMoreLines(input, p, o);
        return;
      }
      if stop.Crash? {
        CrashedLine(input, e, o);
        crashed := true;
        return;
      }
      b, p := LinesAt(input, e, o), e;
    }
  }

  /** Lines 117 to 135: one line. */
  method TakeLine(stores: seq<Store>, calls: seq<Store>, index: int, skipFirst: int, line: string, o: Options,
                  ghost b: At)
    returns (stores': seq<Store>, calls': seq<Store>, index': int, skip': int, stop: Stop)
    requires stores == b.stores && calls == Calls(stores, o) && line != ""
    requires index == o.origin + |stores| && skipFirst == SkipLeft(o.skip, b.ended)
    ensures stop.Full? ==> o.count > 0 && |stores| >= o.count && stores' == stores
    ensures stop.Crash? ==> o.callback == Some(0) && |stores'| == |stores| + 1
    ensures stop.Go? && o.callback == Some(0) ==> stores' == stores
    ensures calls' == Calls(stores', o)
    ensures !stop.Full? ==> stores' == AddRecord(b, LineValue(line, o.trim), o).stores
    ensures stop.Go? ==> index' == o.origin + |stores'| && skip' == SkipLeft(o.skip, b.ended + 1)
  {
    stores', calls', index', skip', stop := stores, calls, index, skipFirst, Go;
    if skipFirst > 0 {
      skip' := skipFirst - 1;
      return;
    }
    var value := TrimLine(line, o.trim);
    stores', calls', stop := Offer(stores, calls, index, value, o);
    if stop.Go? {
      index' := index + 1;
    }
  }

  // ---------------------------------------------------------------- the generic loop

  /** Room for a character and a terminator behind the first `sz` characters: the buffer doubles when it is
      too small. */
  method Reserve(buf: array<char>, sz: nat) returns (nbuf: array<char>)
    requires 2 <= buf.Length && sz < buf.Length
    ensures nbuf == buf || fresh(nbuf)
    ensures sz + 1 < nbuf.Length && nbuf[..sz] == buf[..sz]
  {
    if sz + 1 < buf.Length {
      return buf;
    }
    nbuf := new char[buf.Length * 2];
    forall i | 0 <= i < sz {
      nbuf[i] := buf[i];
    }
  }

  /** The text that one assignment takes from the buffer. */
  method Terminated(buf: array<char>, sz: nat) returns (value: string)
    requires sz < buf.Length
    modifies buf
    ensures value == CString(old(buf[..sz])) && buf[..sz] == old(buf[..sz])
  {
    buf[sz] := NUL;
    TerminatorEnds(buf[..sz]);
    assert buf[..sz + 1] == buf[..sz] + [NUL];
    value := CString(buf[..sz + 1]);
  }

  method Put(buf: array<char>, sz: nat, c: char)
    requires sz < buf.Length
    modifies buf
    ensures buf[..sz + 1] == old(buf[..sz]) + [c]
  {
    buf[sz] := c;
  }

  /** The end of a record: its delimiter is kept unless -t is given. */
  method EndRecord(buf: array<char>, sz: nat, c: char, trim: bool) returns (value: string)
    requires sz + 1 < buf.Length
    modifies buf
    ensures value == CString(Kept(old(buf[..sz]), c, trim))
  {
    var end := sz;
    if !trim {
      Put(buf, end, c);
      end := end + 1;
    }
    value := Terminated(buf, end);
  }

  lemma StateAtEnd(s: string, delim: int, o: Options)
    ensures var b := StateAt(s, |s|, delim, o);
            EndedStores(s, delim, o) == b.stores && Tail(s, delim) == b.tail
  {
    StateIs(s, |s|, delim, o);
  }

  /** Once -n is reached the rest of the input makes no difference. */
  lemma FullBefore(s: string, p: nat, delim: int, o: Options)
    requires p <= |s| && o.count > 0 && |StateAt(s, p, delim, o).stores| >= o.count
    ensures EndedStores(s, delim, o) == DelimStores(s, delim, o) == StateAt(s, p, delim, o).stores
  {
    LimitHolds(s, p, |s|, delim, o);
    StateAtEnd(s, delim, o);
  }

  lemma CrashedRecord(s: string, p: nat, delim: int, o: Options)
    requires p <= |s| && |StateAt(s, p, delim, o).stores| == 1 && o.callback == Some(0)
    ensures var stores := StateAt(s, p, delim, o).stores;
            DelimOutcome(s, delim, o) == Outcome(stores, Calls(stores, o), true)
  {
    NoCalls(StateAt(s, p, delim, o).stores, 1, o);
    StoresStay(s, p, |s|, delim, o);
    StateAtEnd(s, delim, o);
  }

  /** The generic loop; every array store stays below the capacity of the buffer. */
  method DelimLoop(input: string, delim: int, o: Options)
    returns (stores: seq<Store>, calls: seq<Store>, crashed: bool)
    ensures Outcome(stores, calls, crashed) == DelimOutcome(input, delim, o)
  {
    var skipFirst, index := o.skip, o.origin;
    var sz: nat := 0;
    var buf := new char[1024];
    stores, calls, crashed := [], [], false;
    ghost var b := At("", 0, []);
    for p := 0 to |input|
      invariant b == StateAt(input, p, delim, o) && stores == b.stores && index == o.origin + |stores|
      invariant fresh(buf) && sz < buf.Length && buf.Length >= 2 && buf[..sz] == b.tail
      invariant calls == Calls(stores, o) && skipFirst == SkipLeft(o.skip, b.ended)
      invariant !crashed && (o.callback == Some(0) ==> stores == [])
    {
      var stop;
      buf, sz, stores, calls, index, skipFirst, stop :=
        TakeChar(buf, sz, input[p], stores, calls, index, skipFirst, delim, o, b);
      if stop.Full? {
        FullBefore(input, p, delim, o);
        return; // the test after the loop fails too
      }
      b := Next(b, input[p], delim, o);
      if stop.Crash? {
        CrashedRecord(input, p + 1, delim, o);
        crashed := true;
        return;
      }
    }
    StateAtEnd(input, delim, o);
    stores := LastRecord(buf, sz, stores, index, o);
  }

  /** Lines 147 to 183: one character. */
  method TakeChar(buf: array<char>, sz: nat, c: char, stores: seq<Store>, calls: seq<Store>, index: int,
                  skipFirst: int, delim: int, o: Options, ghost b: At)
    returns (buf': array<char>, sz': nat, stores': seq<Store>, calls': seq<Store>, index': int, skip': int, stop: Stop)
    requires sz < buf.Length && buf.Length >= 2 && buf[..sz] == b.tail && stores == b.stores
    requires calls == Calls(stores, o) && index == o.origin + |stores| && skipFirst == SkipLeft(o.skip, b.ended)
    modifies buf
    ensures buf' == buf || fresh(buf')
    ensures calls' == Calls(stores', o)
    ensures stop.Full? ==> o.count > 0 && |stores| >= o.count && stores' == stores
    ensures stop.Crash? ==> o.callback == Some(0) && |stores'| == |stores| + 1
    ensures !stop.Full? ==> stores' == Next(b, c, delim, o).stores
    ensures stop.Go? ==> sz' < buf'.Length && buf'.Length >= 2 && buf'[..sz'] == Next(b, c, delim, o).tail
    ensures stop.Go? ==> index' == o.origin + |stores'| && skip' == SkipLeft(o.skip, Next(b, c, delim, o).ended)
    ensures stop.Go? && o.callback == Some(0) ==> stores' == stores
  {
    buf', sz', stores', calls', index', skip', stop := buf, sz, stores, calls, index, skipFirst, Go;
    if skipFirst > 0 && c as int == delim {
      skip', sz' := skipFirst - 1, 0;
      return;
    }
    buf' := Reserve(buf, sz);
    if c as int == delim {
      stores', calls', stop := AtDelimiter(buf', sz, c, stores, calls, index, o);
      if stop.Go? {
        index', sz' := index + 1, 0;
      }
    } else {
      Put(buf', sz, c);
      sz' := sz + 1;
    }
  }

  /** Lines 185 to 190: a last record without delimiter. */
  method LastRecord(buf: array<char>, sz: nat, stores: seq<Store>, index: int, o: Options)
    returns (stores': seq<Store>)
    requires sz < buf.Length && index == o.origin + |stores|
    modifies buf
    ensures stores' == stores + (if sz > 0 && (o.count == 0 || |stores| < o.count)
                                 then [Store(index, CString(old(buf[..sz])))] else [])
  {
    stores' := stores;
    if sz > 0 && (o.count == 0 || index - o.origin < o.count) {
      var value := Terminated(buf, sz);
      stores' := stores + [Store(index, value)];
    }
  }

  /** Lines 163 to 180: a record ends, and is assigned unless -n has been reached. */
  method AtDelimiter(buf: array<char>, sz: nat, c: char, stores: seq<Store>, calls: seq<Store>, index: int, o: Options)
    returns (stores': seq<Store>, calls': seq<Store>, stop: Stop)
    requires sz + 1 < buf.Length
    requires index == o.origin + |stores| && calls == Calls(stores, o)
    modifies buf
    ensures stop.Full? <==> o.count > 0 && |stores| >= o.count
    ensures stop.Crash? <==> !stop.Full? && o.callback == Some(0)
    ensures stop.Full? ==> stores' == stores
    ensures !stop.Full? ==> stores' == stores + [Store(index, CString(Kept(old(buf[..sz]), c, o.trim)))]
    ensures calls' == Calls(stores', o)
  {
    var value := EndRecord(buf, sz, c, o.trim);
    stop := if o.count > 0 && index - o.origin >= o.count then Full else Go;
    stores', calls' := stores, calls;
    if stop.Go? {
      var crashed;
      stores', calls', crashed := Assign(stores, calls, index, value, o);
      stop := if crashed then Crash else Go;
    }
  }
}
