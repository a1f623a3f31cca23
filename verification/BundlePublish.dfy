/** src/core/bundle_build.c, zp_bundle_build_core: the size cap, the chunked copy and the atomic
    publication, on a disk where any operation may fail. */
module BundlePublish {
  import opened CTypes
  import opened Text
  import opened BundleTree
  import opened BundleSources

  /** How much one fread call may deliver. */
  const CHUNK: nat := 8192

  // ------------------------------------------------------------- the bundle's bytes

  function Header(maxKb: int): string {
    "# zpmod bundle-build max-kb:" + PrintInt(maxKb) + "\n"
  }

  /** The source bytes of a file between its markers. */
  function Frame(e: Entry): string {
    "# BEGIN " + e.rel + "\n" + e.content + "\n# END " + e.rel + "\n"
  }

  function Frames(es: seq<Entry>): string {
    if es == [] then "" else Frames(es[..|es| - 1]) + Frame(es[|es| - 1])
  }

  function TotalSize(es: seq<Entry>): int {
    if es == [] then 0 else TotalSize(es[..|es| - 1]) + es[|es| - 1].size as int
  }

  /** `k` files fit a limit of source bytes (zero is unlimited), one more would not, and each of them
      delivers exactly its size. */
  predicate IsCapped(k: nat, items: seq<Entry>, limit: nat) {
    && k <= |items|
    && (forall i :: 0 <= i < k ==> |items[i].content| == items[i].size as int)
    && (limit > 0 ==> TotalSize(items[..k]) <= limit)
    && (k < |items| ==> limit > 0 && TotalSize(items[..k + 1]) > limit)
  }

  function BundleText(maxKb: int, items: seq<Entry>, k: nat): string
    requires k <= |items|
  {
    Header(maxKb) + Frames(items[..k])
  }

  /** A complete bundle of the tree. */
  ghost predicate IsBundle(text: string, dir: Node, root: string, output: string, maxKb: nat) {
    exists items, k :: SortedSources(items, dir, root, output) && IsCapped(k, items, maxKb * 1024)
                       && text == BundleText(maxKb, items, k)
  }

  lemma {:induction false} TotalSizeGrows(items: seq<Entry>, i: nat, j: nat)
    requires i <= j <= |items| && forall n :: i <= n < j ==> items[n].size >= 0
    ensures TotalSize(items[..i]) <= TotalSize(items[..j])
    decreases j
  {
    if i < j {
      TotalSizeGrows(items, i, j - 1);
      assert items[..j][..j - 1] == items[..j - 1];
    }
  }

  /** The cap is the longest prefix that fits: when no size is negative, a prefix fits exactly when it
      is no longer than the emitted one. */
  lemma CapIsLongestFit(items: seq<Entry>, k: nat, limit: nat, n: nat)
    requires IsCapped(k, items, limit) && n <= |items| && forall i :: 0 <= i < |items| ==> items[i].size >= 0
    ensures n <= k <==> limit == 0 || TotalSize(items[..n]) <= limit
  {
    if n <= k {
      TotalSizeGrows(items, n, k);
    } else {
      TotalSizeGrows(items, k + 1, n);
    }
  }

  lemma CapUnique(items: seq<Entry>, k: nat, m: nat, limit: nat)
    requires IsCapped(k, items, limit) && IsCapped(m, items, limit)
    ensures k == m
  {
    if k < m {
      TotalSizeGrows(items, k + 1, m);
    } else if m < k {
      TotalSizeGrows(items, m + 1, k);
    }
  }

  /** One tree, one bundle: the bytes do not depend on the readdir order, the chunk sizes or the run. */
  lemma BundleDeterministic(a: string, b: string, dir: Node, root: string, output: string, maxKb: nat)
    requires IsBundle(a, dir, root, output, maxKb) && IsBundle(b, dir, root, output, maxKb)
    ensures a == b
  {
    var s, k :| SortedSources(s, dir, root, output) && IsCapped(k, s, maxKb * 1024) && a == BundleText(maxKb, s, k);
    var t, m :| SortedSources(t, dir, root, output) && IsCapped(m, t, maxKb * 1024) && b == BundleText(maxKb, t, m);
    SortedSourcesUnique(s, t, dir, root, output);
    CapUnique(s, k, m, maxKb * 1024);
  }

  // ------------------------------------------------------------- the disk

  /** The directory of the output. Each operation is one step of the disk; on a disk with `faults` it may
      fail, and a failed write may leave a part of its bytes. `history` is every state the disk goes through. */
  class Disk {
    var files: map<string, string>
    ghost var history: seq<map<string, string>>
    ghost var stuck: bool
    const faults: bool

    constructor (initial: map<string, string>, faulty: bool)
      ensures files == initial && history == [] && !stuck && faults == faulty
    {
      files, history, stuck, faults := initial, [], false, faulty;
    }

    /** mkstemp: an exclusive creation. */
    method Create(path: string) returns (ok: bool)
      modifies this
      ensures ok ==> path !in old(files) && files == old(files)[path := ""]
      ensures !ok ==> files == old(files) && (faults || path in old(files))
      ensures history == old(history) + [files] && stuck == old(stuck)
    {
      ok := *;
      ok := (ok || !faults) && path !in files;
      if ok {
        files := files[path := ""];
      }
      history := history + [files];
    }

    method Append(path: string, bytes: string) returns (ok: bool)
      requires path in files
      modifies this
      ensures ok ==> files == old(files)[path := old(files)[path] + bytes]
      ensures !ok ==> path in files && files == old(files)[path := files[path]] && faults
      ensures history == old(history) + [files] && stuck == old(stuck)
    {
      ok := *;
      ok := ok || !faults;
      if ok {
        files := files[path := files[path] + bytes];
      } else {
        var written :| 0 <= written <= |bytes|;
        files := files[path := files[path] + bytes[..written]];
      }
      history := history + [files];
    }

    method Rename(from: string, to: string) returns (ok: bool)
      requires from in files && from != to
      modifies this
      ensures files == if ok then old(files)[to := old(files)[from]] - {from} else old(files)
      ensures history == old(history) + [files] && stuck == old(stuck) && (ok || faults)
    {
      ok := *;
      ok := ok || !faults;
      if ok {
        files := files[to := files[from]] - {from};
      }
      history := history + [files];
    }

    /** unlink; the program ignores its failure, which leaves the file `stuck`. */
    method Unlink(path: string)
      modifies this
      ensures old(stuck) ==> stuck
      ensures stuck ==> old(stuck) || faults
      ensures !old(stuck) ==> files == if stuck then old(files) else old(files) - {path}
      ensures history == old(history) + [files]
    {
      var ok: bool := *;
      if ok || !faults {
        files := files - {path};
      } else {
        stuck := true;
      }
      history := history + [files];
    }
  }

  /** Since the first `n` states the disk has only ever differed from `before` in the file `temp`. */
  ghost predicate OnlyTouches(history: seq<map<string, string>>, n: nat, before: map<string, string>, temp: string) {
    n <= |history| && forall i :: n <= i < |history| ==> history[i] - {temp} == before - {temp}
  }

  /** From one moment to the next only the file `temp` is written. */
  ghost predicate Touched(h1: seq<map<string, string>>, f1: map<string, string>, h2: seq<map<string, string>>,
                          f2: map<string, string>, temp: string)
  {
    h1 <= h2 && temp in f2 && f2 == f1[temp := f2[temp]] && OnlyTouches(h2, |h1|, f1, temp)
  }

  lemma NothingTouched(h: seq<map<string, string>>, f: map<string, string>, temp: string)
    requires temp in f
    ensures Touched(h, f, h, f, temp)
  {
  }

  lemma TouchedOnce(h: seq<map<string, string>>, f1: map<string, string>, f2: map<string, string>, temp: string)
    requires temp in f2 && f2 == f1[temp := f2[temp]]
    ensures Touched(h, f1, h + [f2], f2, temp)
  {
  }

  lemma TouchedMore(h1: seq<map<string, string>>, f1: map<string, string>, h2: seq<map<string, string>>,
                    f2: map<string, string>, h3: seq<map<string, string>>, f3: map<string, string>, temp: string)
    requires Touched(h1, f1, h2, f2, temp) && Touched(h2, f2, h3, f3, temp)
    ensures Touched(h1, f1, h3, f3, temp)
  {
    forall i | |h1| <= i < |h3|
      ensures h3[i] - {temp} == f1 - {temp}
    {
      assert f2 - {temp} == f1 - {temp};
      if i < |h2| {
        assert h3[i] == h2[i];
      }
    }
  }

  // ------------------------------------------------------------- copying one source

  /** Lines 349 to 364: `chunks` of any size are read and written. A file that delivers more or fewer bytes
      than its size, a read error or a write error fails, and nothing else does. No subtraction or sum wraps. */
  method CopyChunks(disk: Disk, temp: string, e: Entry) returns (ok: bool, copied: uint64)
    requires temp in disk.files && e.size >= 0
    modifies disk
    ensures Touched(old(disk.history), old(disk.files), disk.history, disk.files, temp) && disk.stuck == old(disk.stuck)
    ensures ok ==> disk.files[temp] == old(disk.files)[temp] + e.content
                   && |e.content| == e.size as int == copied as int
    ensures !ok ==> disk.faults || |e.content| != e.size as int
  {
    copied := 0;
    var off := 0;
    ghost var start, h0, f0 := disk.files[temp], disk.history, disk.files;
    assert start + e.content[..0] == start;
    NothingTouched(h0, f0, temp);
    while off < |e.content|
      invariant off == copied as int <= |e.content| && off <= e.size as int
      invariant Touched(h0, f0, disk.history, disk.files, temp) && disk.stuck == old(disk.stuck)
      invariant disk.files[temp] == start + e.content[..off]
    {
      var bytes :| 0 <= bytes <= |e.content| - off && bytes <= CHUNK && (bytes == 0 ==> disk.faults);
      if bytes == 0 || bytes as uint64 > e.size as uint64 - copied {
        return false, copied;
      }
      ok := AppendTo(disk, temp, e.content[off..off + bytes], h0, f0);
      if !ok {
        return false, copied;
      }
      assert start + e.content[..off] + e.content[off..off + bytes] == start + e.content[..off + bytes];
      copied := copied + bytes as uint64;
      off := off + bytes;
    }
    assert e.content[..off] == e.content;
    var readError: bool := *;
    var closeFailed: bool := *;
    ok := !(disk.faults && (readError || closeFailed)) && copied == e.size as uint64;
  }

  /** One write, after others since an earlier moment. */
  method AppendTo(disk: Disk, temp: string, bytes: string, ghost h0: seq<map<string, string>>,
                  ghost f0: map<string, string>)
    returns (ok: bool)
    requires Touched(h0, f0, disk.history, disk.files, temp)
    modifies disk
    ensures Touched(h0, f0, disk.history, disk.files, temp) && disk.stuck == old(disk.stuck)
    ensures if ok then disk.files[temp] == old(disk.files)[temp] + bytes else disk.faults
  {
    ghost var h, f := disk.history, disk.files;
    ok := disk.Append(temp, bytes);
    TouchedOnce(h, f, disk.files, temp);
    TouchedMore(h0, f0, h, f, disk.history, disk.files, temp);
  }

  /** Lines 348 to 364: the opening marker and the bytes. */
  method BeginSource(disk: Disk, temp: string, e: Entry) returns (ok: bool, copied: uint64)
    requires temp in disk.files && e.size >= 0
    modifies disk
    ensures Touched(old(disk.history), old(disk.files), disk.history, disk.files, temp) && disk.stuck == old(disk.stuck)
    ensures ok ==> disk.files[temp] == old(disk.files)[temp] + ("# BEGIN " + e.rel + "\n") + e.content
                   && |e.content| == e.size as int == copied as int
    ensures !ok ==> disk.faults || |e.content| != e.size as int
  {
    copied := 0;
    ghost var h0, f0 := disk.history, disk.files;
    NothingTouched(h0, f0, temp);
    ok := AppendTo(disk, temp, "# BEGIN " + e.rel + "\n", h0, f0);
    if ok {
      ghost var h, f := disk.history, disk.files;
      ok, copied := CopyChunks(disk, temp, e);
      TouchedMore(h0, f0, h, f, disk.history, disk.files, temp);
    }
  }

  /** Lines 348 to 369: one frame. */
  method CopySource(disk: Disk, temp: string, e: Entry) returns (ok: bool, copied: uint64)
    requires temp in disk.files && e.size >= 0
    modifies disk
    ensures Touched(old(disk.history), old(disk.files), disk.history, disk.files, temp) && disk.stuck == old(disk.stuck)
    ensures ok ==> disk.files[temp] == old(disk.files)[temp] + Frame(e) && |e.content| == e.size as int == copied as int
    ensures !ok ==> disk.faults || |e.content| != e.size as int
  {
    ghost var h0, f0 := disk.history, disk.files;
    ok, copied := BeginSource(disk, temp, e);
    if ok {
      FrameParts(f0[temp], e);
      ok := AppendTo(disk, temp, "\n# END " + e.rel + "\n", h0, f0);
    }
  }

  lemma FrameParts(before: string, e: Entry)
    ensures before + ("# BEGIN " + e.rel + "\n") + e.content + ("\n# END " + e.rel + "\n") == before + Frame(e)
  {
  }

  // ------------------------------------------------------------- the emission loop

  /** Every file delivers its size, and the sizes add up to an unsigned long. */
  predicate Sound(items: seq<Entry>) {
    (forall i :: 0 <= i < |items| ==> |items[i].content| == items[i].size as int)
    && TotalSize(items) <= ULONG_MAX as int
  }

  lemma SoundNext(items: seq<Entry>, i: nat)
    requires i < |items|
    ensures Sound(items) ==>
              |items[i].content| == items[i].size as int
              && TotalSize(items[..i]) + items[i].size as int <= ULONG_MAX as int
  {
    if Sound(items) {
      TotalSizeStep(items, i);
      TotalSizeGrows(items, i + 1, |items|);
      assert items[..|items|] == items;
    }
  }

  /** The frames of the first k files. */
  function FramesTo(items: seq<Entry>, k: nat): string
    requires k <= |items|
  {
    if k == 0 then "" else FramesTo(items, k - 1) + Frame(items[k - 1])
  }

  lemma {:induction false} FramesToIs(items: seq<Entry>, k: nat)
    requires k <= |items|
    ensures FramesTo(items, k) == Frames(items[..k])
  {
    if k > 0 {
      FramesToIs(items, k - 1);
      assert items[..k][..k - 1] == items[..k - 1];
    }
  }

  /** Lines 316 to 370: frames up to the cap. The remaining room `limit - total` and the running total
      never wrap. */
  method EmitSources(disk: Disk, temp: string, items: seq<Entry>, maxKb: uint64) returns (ok: bool, emitted: nat)
    requires temp in disk.files && maxKb <= ULONG_MAX / 1024
    modifies disk
    ensures Touched(old(disk.history), old(disk.files), disk.history, disk.files, temp) && disk.stuck == old(disk.stuck)
    ensures !ok ==> disk.faults || !Sound(items)
    ensures ok ==> IsCapped(emitted, items, maxKb as nat * 1024)
                   && disk.files[temp] == old(disk.files)[temp] + Frames(items[..emitted])
  {
    var total: uint64 := 0;
    var limit := maxKb * 1024;
    emitted := 0;
    ghost var start, h0, f0 := disk.files[temp], disk.history, disk.files;
    assert start + FramesTo(items, 0) == start;
    NothingTouched(h0, f0, temp);
    ok := true;
    var stop := false;
    while emitted < |items| && ok && !stop
      invariant ok && !stop ==> Emitted(items, emitted, total as int, limit as int)
      invariant ok && stop ==> IsCapped(emitted, items, limit as int)
      invariant emitted <= |items| && (!ok ==> disk.faults || !Sound(items))
      invariant Touched(h0, f0, disk.history, disk.files, temp) && disk.stuck == old(disk.stuck)
      invariant ok ==> disk.files[temp] == start + FramesTo(items, emitted)
      decreases |items| - emitted, ok && !stop
    {
      ok, stop, total := EmitAt(disk, temp, items, emitted, total, limit, start, h0, f0);
      if ok && !stop {
        emitted := emitted + 1;
      }
    }
    FramesToIs(items, emitted);
    if ok && !stop {
      EmittedAll(items, total as int, limit as int);
    }
  }

  lemma EmittedAll(items: seq<Entry>, total: int, limit: nat)
    requires Emitted(items, |items|, total, limit)
    ensures IsCapped(|items|, items, limit)
  {
    TotalToIs(items, |items|);
  }

  /** The file at hand, with all that the loop keeps. */
  method EmitAt(disk: Disk, temp: string, items: seq<Entry>, i: nat, total: uint64, limit: uint64, ghost start: string,
                ghost h0: seq<map<string, string>>, ghost f0: map<string, string>)
    returns (ok: bool, stop: bool, newTotal: uint64)
    requires i < |items| && Emitted(items, i, total as int, limit as int)
    requires Touched(h0, f0, disk.history, disk.files, temp) && disk.files[temp] == start + FramesTo(items, i)
    modifies disk
    ensures !ok ==> disk.faults || !Sound(items)
    ensures ok && stop ==> IsCapped(i, items, limit as int) && disk.files == old(disk.files)
    ensures ok && !stop ==> Emitted(items, i + 1, newTotal as int, limit as int)
                            && temp in disk.files && disk.files[temp] == start + FramesTo(items, i + 1)
    ensures Touched(h0, f0, disk.history, disk.files, temp) && disk.stuck == old(disk.stuck)
  {
    ghost var h, f := disk.history, disk.files;
    ok, stop, newTotal := EmitNext(disk, temp, items[i], total, limit);
    TouchedMore(h0, f0, h, f, disk.history, disk.files, temp);
    EmittedNext(items, i, limit as int, start);
  }

  /** The bytes of the first k files. */
  function TotalTo(items: seq<Entry>, k: nat): int
    requires k <= |items|
  {
    if k == 0 then 0 else TotalTo(items, k - 1) + items[k - 1].size as int
  }

  lemma {:induction false} TotalToIs(items: seq<Entry>, k: nat)
    requires k <= |items|
    ensures TotalTo(items, k) == TotalSize(items[..k])
  {
    if k > 0 {
      TotalToIs(items, k - 1);
      TotalSizeStep(items, k - 1);
    }
  }

  /** The state of the emission loop after n files. */
  predicate Emitted(items: seq<Entry>, n: nat, total: int, limit: int) {
    && n <= |items| && total == TotalTo(items, n) && (limit > 0 ==> total <= limit)
    && forall i :: 0 <= i < n ==> |items[i].content| == items[i].size as int
  }

  /** What one more file means: the state goes on, or the cap is reached, or the files are not sound. */
  lemma EmittedNext(items: seq<Entry>, n: nat, limit: nat, start: string)
    requires n < |items| && Emitted(items, n, TotalTo(items, n), limit)
    ensures var e, total := items[n], TotalTo(items, n);
            && (limit > 0 && total + e.size as int > limit ==> IsCapped(n, items, limit))
            && (|e.content| == e.size as int && (limit > 0 ==> total + e.size as int <= limit) ==>
                  Emitted(items, n + 1, total + e.size as int, limit))
            && (|e.content| != e.size as int || total + e.size as int > ULONG_MAX as int ==> !Sound(items))
            && start + FramesTo(items, n + 1) == start + FramesTo(items, n) + Frame(e)
  {
    TotalToIs(items, n);
    TotalSizeStep(items, n);
    SoundNext(items, n);
    Assoc(start, FramesTo(items, n), Frame(items[n]));
  }

  /** One pass of the loop: refuse an impossible size, stop at the cap, or open, check and copy. */
  method EmitNext(disk: Disk, temp: string, e: Entry, total: uint64, limit: uint64)
    returns (ok: bool, stop: bool, newTotal: uint64)
    requires temp in disk.files && (limit > 0 ==> total <= limit)
    modifies disk
    ensures Touched(old(disk.history), old(disk.files), disk.history, disk.files, temp) && disk.stuck == old(disk.stuck)
    ensures !ok ==> disk.faults || |e.content| != e.size as int || total as int + e.size as int > ULONG_MAX as int
    ensures ok && stop ==> limit > 0 && total as int + e.size as int > limit as int && disk.files == old(disk.files)
    ensures ok && !stop ==> disk.files[temp] == old(disk.files)[temp] + Frame(e) && |e.content| == e.size as int
                            && newTotal as int == total as int + e.size as int && (limit > 0 ==> newTotal <= limit)
  {
    if e.size < 0 || e.size as uint64 > ULONG_MAX - total {
      return false, false, total;
    }
    if limit != 0 && e.size as uint64 > limit - total {
      return true, true, total;
    }
    var openFailed: bool := *;
    var changed: bool := *;
    if disk.faults && (openFailed || changed) {
      return false, false, total;
    }
    var copiedOk, copied := CopySource(disk, temp, e);
    if !copiedOk {
      return false, false, total;
    }
    return true, false, total + copied;
  }

  lemma TotalSizeStep(items: seq<Entry>, i: nat)
    requires i < |items|
    ensures TotalSize(items[..i + 1]) == TotalSize(items[..i]) + items[i].size as int
  {
    assert items[..i + 1][..i] == items[..i];
  }

  // ------------------------------------------------------------- publication

  /** Every state of a run leaves the output as it was or complete, and touches nothing but it and the
      temporary file. */
  ghost predicate Atomic(history: seq<map<string, string>>, n: nat, before: map<string, string>, output: string,
                         temp: string, complete: string -> bool)
  {
    n <= |history| && forall i :: n <= i < |history| ==> AtomicState(history[i], before, output, temp, complete)
  }

  ghost predicate AtomicState(state: map<string, string>, before: map<string, string>, output: string, temp: string,
                              complete: string -> bool)
  {
    state - {temp} == before - {temp}
    || (output in state && complete(state[output]) && state - {temp, output} == before - {temp, output})
  }

  ghost predicate Complete(text: string, items: seq<Entry>, maxKb: nat) {
    exists k :: IsCapped(k, items, maxKb * 1024) && text == BundleText(maxKb, items, k)
  }

  ghost function Completes(items: seq<Entry>, maxKb: nat): string -> bool { text => Complete(text, items, maxKb) }

  lemma AtomicMore(history: seq<map<string, string>>, last: map<string, string>, n: nat, before: map<string, string>,
                   output: string, temp: string, complete: string -> bool)
    requires Atomic(history, n, before, output, temp, complete)
    requires AtomicState(last, before, output, temp, complete)
    ensures Atomic(history + [last], n, before, output, temp, complete)
  {
  }

  lemma AtomicFurther(h1: seq<map<string, string>>, f1: map<string, string>, h2: seq<map<string, string>>, n: nat,
                      before: map<string, string>, output: string, temp: string, complete: string -> bool)
    requires Atomic(h1, n, before, output, temp, complete) && f1 - {temp} == before - {temp} && h1 <= h2
    requires Atomic(h2, |h1|, f1, output, temp, complete)
    ensures Atomic(h2, n, before, output, temp, complete)
  {
    forall i | n <= i < |h2|
      ensures AtomicState(h2[i], before, output, temp, complete)
    {
      if i < |h1| {
        assert h2[i] == h1[i];
      } else {
        AtomicStateAgain(h2[i], f1, before, output, temp, complete);
      }
    }
  }

  lemma AtomicStateAgain(state: map<string, string>, f1: map<string, string>, before: map<string, string>,
                         output: string, temp: string, complete: string -> bool)
    requires AtomicState(state, f1, output, temp, complete) && f1 - {temp} == before - {temp}
    ensures AtomicState(state, before, output, temp, complete)
  {
    assert f1 - {temp, output} == (f1 - {temp}) - {output};
    assert before - {temp, output} == (before - {temp}) - {output};
  }

  /** Lines 297 to 390. A success replaces the output by a complete bundle; a failure leaves every
      file as it was, except that a temporary file whose removal also fails stays behind. */
  method Publish(disk: Disk, items: seq<Entry>, output: string, maxKb: uint64, suffix: string) returns (ret: int)
    requires maxKb <= ULONG_MAX / 1024 && !disk.stuck
    modifies disk
    ensures old(disk.history) <= disk.history
    ensures Atomic(disk.history, |old(disk.history)|, old(disk.files), output, output + ".tmp." + suffix,
                   Completes(items, maxKb as nat))
    ensures ret == 0 ==> output in disk.files && Complete(disk.files[output], items, maxKb as nat)
                         && disk.files == old(disk.files)[output := disk.files[output]] && !disk.stuck
    ensures ret != 0 ==>
              disk.faults || !Sound(items) || output + ".tmp." + suffix in old(disk.files)
              || |output + ".tmp." + suffix| >= PATH_MAX || |suffix| != 6
    ensures disk.stuck ==> disk.faults
    ensures ret != 0 && !disk.stuck ==> disk.files == old(disk.files)
    ensures ret != 0 && disk.stuck ==>
              disk.files - {output + ".tmp." + suffix} == old(disk.files) && output + ".tmp." + suffix in disk.files
  {
    var temp := output + ".tmp." + suffix;
    if |temp| >= PATH_MAX || |suffix| != 6 {
      return 1;
    }
    ret := PublishBy(disk, temp, items, output, maxKb);
  }

  /** Lines 303 to 390, with the name of the temporary file. */
  method PublishBy(disk: Disk, temp: string, items: seq<Entry>, output: string, maxKb: uint64) returns (ret: int)
    requires maxKb <= ULONG_MAX / 1024 && !disk.stuck && temp != output
    modifies disk
    ensures old(disk.history) <= disk.history
    ensures Atomic(disk.history, |old(disk.history)|, old(disk.files), output, temp, Completes(items, maxKb as nat))
    ensures ret == 0 ==> output in disk.files && Complete(disk.files[output], items, maxKb as nat)
                         && disk.files == old(disk.files)[output := disk.files[output]] && !disk.stuck
    ensures ret != 0 ==> disk.faults || !Sound(items) || temp in old(disk.files)
    ensures disk.stuck ==> disk.faults
    ensures ret != 0 && !disk.stuck ==> disk.files == old(disk.files)
    ensures ret != 0 && disk.stuck ==> disk.files - {temp} == old(disk.files) && temp in disk.files
  {
    ghost var h0, f0, complete := disk.history, disk.files, Completes(items, maxKb as nat);
    var ok := disk.Create(temp);
    OnlyTemp(f0, disk.files, temp);
    AtomicMore(h0, disk.files, |h0|, f0, output, temp, complete);
    ret := if ok then 0 else 1;
    if ok {
      ok := FillTemporary(disk, temp, items, output, maxKb, h0, f0);
      ret := if ok then 0 else 1;
    }
  }

  /** Lines 308 to 390: from the new temporary file to the rename, or to its removal. */
  method FillTemporary(disk: Disk, temp: string, items: seq<Entry>, output: string, maxKb: uint64,
                       ghost h0: seq<map<string, string>>, ghost f0: map<string, string>)
    returns (ok: bool)
    requires maxKb <= ULONG_MAX / 1024 && !disk.stuck && temp != output
    requires temp !in f0 && disk.files == f0[temp := ""]
    requires Atomic(disk.history, |h0|, f0, output, temp, Completes(items, maxKb as nat))
    modifies disk
    ensures old(disk.history) <= disk.history
    ensures Atomic(disk.history, |h0|, f0, output, temp, Completes(items, maxKb as nat))
    ensures ok ==> output in disk.files && Complete(disk.files[output], items, maxKb as nat)
                   && disk.files == f0[output := disk.files[output]] && !disk.stuck
    ensures !ok ==> disk.faults || !Sound(items)
    ensures disk.stuck ==> disk.faults
    ensures !ok && !disk.stuck ==> disk.files == f0
    ensures !ok && disk.stuck ==> disk.files - {temp} == f0 && temp in disk.files
  {
    ghost var h1, f1, complete := disk.history, disk.files, Completes(items, maxKb as nat);
    ok := WriteAndRename(disk, temp, items, output, maxKb);
    ghost var h2, f2 := disk.history, disk.files;
    OnlyTemp(f0, f1, temp);
    AtomicFurther(h1, f1, h2, |h0|, f0, output, temp, complete);
    if ok {
      Renamed(f0, f1, f2, output, temp);
    } else {
      OnlyTemp(f0, f2, temp);
      disk.Unlink(temp);
      AtomicMore(h2, disk.files, |h0|, f0, output, temp, complete);
    }
  }

  lemma OnlyTemp(f0: map<string, string>, f: map<string, string>, temp: string)
    requires f == f0 || (temp !in f0 && temp in f && f - {temp} == f0 - {temp})
    ensures f - {temp} == f0 - {temp}
    ensures temp !in f0 ==> f0 - {temp} == f0 && f - {temp} == f0
  {
    if temp !in f0 {
      assert f0 - {temp} == f0;
    }
  }

  lemma Renamed(f0: map<string, string>, f1: map<string, string>, f2: map<string, string>, output: string, temp: string)
    requires temp !in f0 && temp != output && f1 == f0[temp := ""] && output in f2
    requires f2 == f1[output := f2[output]] - {temp}
    ensures f2 == f0[output := f2[output]]
  {
  }

  /** Lines 308 to 378: the stream, the header, the frames, and the rename that publishes them. */
  method WriteAndRename(disk: Disk, temp: string, items: seq<Entry>, output: string, maxKb: uint64) returns (ok: bool)
    requires maxKb <= ULONG_MAX / 1024 && temp != output && temp in disk.files && disk.files[temp] == ""
    modifies disk
    ensures old(disk.history) <= disk.history && disk.stuck == old(disk.stuck)
    ensures Atomic(disk.history, |old(disk.history)|, old(disk.files), output, temp, Completes(items, maxKb as nat))
    ensures ok ==> output in disk.files && Complete(disk.files[output], items, maxKb as nat)
                   && disk.files == old(disk.files)[output := disk.files[output]] - {temp}
    ensures !ok ==> temp in disk.files && disk.files == old(disk.files)[temp := disk.files[temp]]
                    && (disk.faults || !Sound(items))
  {
    ok := WriteTemporary(disk, temp, items, maxKb);
    if !ok {
      return false;
    }
    ghost var written := disk.history;
    ok := disk.Rename(temp, output);
    OneMoreState(written, disk.files, |old(disk.history)|, old(disk.files), output, temp,
                 Completes(items, maxKb as nat));
  }

  /** Lines 308 to 375: the complete bundle in the temporary file, closed. */
  method WriteTemporary(disk: Disk, temp: string, items: seq<Entry>, maxKb: uint64) returns (ok: bool)
    requires maxKb <= ULONG_MAX / 1024 && temp in disk.files && disk.files[temp] == ""
    modifies disk
    ensures Touched(old(disk.history), old(disk.files), disk.history, disk.files, temp) && disk.stuck == old(disk.stuck)
    ensures ok ==> Complete(disk.files[temp], items, maxKb as nat)
    ensures !ok ==> disk.faults || !Sound(items)
  {
    ghost var h0, f0 := disk.history, disk.files;
    NothingTouched(h0, f0, temp);
    var streamFailed: bool := *;
    if disk.faults && streamFailed {
      return false;
    }
    ok := AppendTo(disk, temp, Header(maxKb as int), h0, f0);
    if !ok {
      return false;
    }
    assert "" + Header(maxKb as int) == Header(maxKb as int);
    ghost var h, f := disk.history, disk.files;
    var emitted;
    ok, emitted := EmitSources(disk, temp, items, maxKb);
    TouchedMore(h0, f0, h, f, disk.history, disk.files, temp);
    assert ok ==> disk.files[temp] == BundleText(maxKb as int, items, emitted);
    var closeFailed: bool := *;
    ok := ok && !(disk.faults && closeFailed);
  }

  lemma OneMoreState(history: seq<map<string, string>>, last: map<string, string>, n: nat, before: map<string, string>,
                     output: string, temp: string, complete: string -> bool)
    requires OnlyTouches(history, n, before, temp) && AtomicState(last, before, output, temp, complete)
    ensures Atomic(history + [last], n, before, output, temp, complete)
  {
  }

  // ------------------------------------------------------------- the whole command

  /** What the path arguments resolve to: the real source directory and the real parent of the output,
      when they exist; what lstat says of the output; and mkstemp's choice. */
  datatype Place = Place(root: Option<string>, parent: Option<string>, existing: Existing, suffix: string)

  datatype Existing = Absent | File(mtime: int64) | NotRegular | Unknown

  /** A fresh bundle: no collected source is newer and the first line is the header of this cap. */
  predicate IsFresh(previous: string, existing: Existing, items: seq<Entry>, maxKb: int) {
    existing.File? && (forall i :: 0 <= i < |items| ==> items[i].mtime <= existing.mtime) && Header(maxKb) <= previous
  }

  /** The first line that fgets delivers is the header exactly when the text begins with it. */
  lemma FirstLineIs(content: string, maxKb: int)
    requires 0 <= maxKb <= LONG_MAX
    ensures content != "" && content[..FgetsLen(content, 96)] == Header(maxKb) <==> Header(maxKb) <= content
  {
    var line := "# zpmod bundle-build max-kb:" + PrintInt(maxKb);
    PrintedLong(maxKb);
    if Header(maxKb) <= content {
      var rest := content[|line| + 1..];
      assert content == line + "\n" + rest;
      FgetsWholeLine(line, rest, 96);
    }
  }

  /** Lines 279 to 292: the mtime loop, then the first line of the previous bundle. Opening it may
      fail, which only means a rebuild. */
  method CheckFresh(disk: Disk, output: string, existing: Existing, items: seq<Entry>, maxKb: uint64)
    returns (upToDate: bool)
    requires existing.File? <==> output in disk.files
    requires maxKb <= ULONG_MAX / 1024
    ensures upToDate ==> output in disk.files && IsFresh(disk.files[output], existing, items, maxKb as int)
    ensures !upToDate && !disk.faults && output in disk.files ==>
              !IsFresh(disk.files[output], existing, items, maxKb as int)
  {
    upToDate := existing.File?;
    for i := 0 to |items|
      invariant upToDate <==> existing.File? && forall j :: 0 <= j < i ==> items[j].mtime <= existing.mtime
    {
      if !existing.File? || items[i].mtime > existing.mtime {
        upToDate := false;
      }
    }
    if upToDate {
      var canOpen: bool := *;
      var content := disk.files[output];
      var header := Header(maxKb as int);
      upToDate := (canOpen || !disk.faults) && content != "" && content[..FgetsLen(content, 96)] == header;
      FirstLineIs(content, maxKb as int);
    }
  }

  /** Nothing about the request itself stands in the way of a bundle. */
  ghost predicate CanBuild(fromDir: string, outPath: string, maxKb: int64, place: Place, dir: Node) {
    var base := BaseName(outPath);
    && fromDir != "" && outPath != "" && 0 <= maxKb as int <= ULONG_MAX as int / 1024
    && base != "" && base != "." && base != ".." && place.root.Some? && place.parent.Some?
    && !place.existing.NotRegular? && !place.existing.Unknown? && |place.suffix| == 6
    && var output := place.parent.value + "/" + base;
       |output + ".tmp." + place.suffix| < PATH_MAX && !DirFails(dir, place.root.value, "", output, 0)
       && forall items :: SortedSources(items, dir, place.root.value, output) ==> Sound(items)
  }

  /** zp_bundle_build_core over a tree that nobody changes meanwhile. At every state of every run the
      output is what it was or a complete bundle of the tree. Success means either that the output is
      fresh and untouched, or that it now is the one bundle of the tree and nothing else changed; a
      disk without faults gives it whenever the request itself is sound. On
      failure every file is as before, but for a temporary file whose removal failed too. */
  method Build(disk: Disk, fromDir: string, outPath: string, maxKb: int64, place: Place, dir: Node, order: Listing)
    returns (ret: int, published: bool)
    requires dir.Dir? ==> ListsAll(dir, "", order)
    requires place.parent.Some? ==>
               (place.existing.File? <==> place.parent.value + "/" + BaseName(outPath) in disk.files)
    requires !disk.stuck
    modifies disk
    ensures old(disk.history) <= disk.history
    ensures var output := place.parent.GetOr("") + "/" + BaseName(outPath);
            && Atomic(disk.history, |old(disk.history)|, old(disk.files), output, output + ".tmp." + place.suffix,
                      text => maxKb >= 0 && IsBundle(text, dir, place.root.GetOr(""), output, maxKb as nat))
            && (ret == 0 && !published ==>
                  && output in disk.files && disk.files == old(disk.files) && maxKb >= 0
                  && exists items :: SortedSources(items, dir, place.root.GetOr(""), output)
                                     && IsFresh(disk.files[output], place.existing, items, maxKb as int))
            && (published && !disk.faults && output in old(disk.files) ==>
                  exists items :: SortedSources(items, dir, place.root.GetOr(""), output)
                                  && !IsFresh(old(disk.files)[output], place.existing, items, maxKb as int))
            && (published ==>
                  && ret == 0 && output in disk.files && disk.files == old(disk.files)[output := disk.files[output]]
                  && maxKb >= 0 && IsBundle(disk.files[output], dir, place.root.GetOr(""), output, maxKb as nat))
            && (ret != 0 ==> disk.faults || !CanBuild(fromDir, outPath, maxKb, place, dir)
                             || output + ".tmp." + place.suffix in old(disk.files))
            && (ret != 0 && !disk.stuck ==> disk.files == old(disk.files))
            && (ret != 0 && disk.stuck ==> disk.files - {output + ".tmp." + place.suffix} == old(disk.files))
  {
    if fromDir == "" || outPath == "" || maxKb < 0 || maxKb as uint64 > ULONG_MAX / 1024 {
      return 1, false;
    }
    var base := BaseName(outPath);
    if place.root.None? || base == "" || base == "." || base == ".." || place.parent.None? {
      return 1, false;
    }
    var root, output := place.root.value, place.parent.value + "/" + base;
    if |output| >= PATH_MAX || place.existing.NotRegular? || place.existing.Unknown? {
      return 1, false;
    }
    var v := new BbVec(disk.faults);
    var failed := Collect(dir, root, "", v, output, 0, order);
    if failed != 0 {
      return 1, false;
    }
    ghost var walk := v.items;
    Qsort(v);
    WalkSortsToSources(walk, v.items, dir, root, output, order);
    var upToDate := CheckFresh(disk, output, place.existing, v.items, maxKb as uint64);
    if upToDate {
      return 0, false;
    }
    var items := v.items;
    ghost var kb: nat := maxKb as nat;
    forall text | Complete(text, items, kb)
      ensures IsBundle(text, dir, root, output, kb)
    {
    }
    ret := Publish(disk, items, output, maxKb as uint64, place.suffix);
    published := ret == 0;
  }
}
