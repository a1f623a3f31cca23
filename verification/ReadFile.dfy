/** src/core/fs.c: reading a whole file under any schedule of short reads, and splitting it into records. */
module ReadFile {
  import opened Text

  // ---------------------------------------------------------------- what a split is

  const CR := '\r'
  const LF := '\n'

  /** A text cut into records and the separators behind them, up to a last record that has none. */
  datatype Split = Last(text: string) | Cut(body: string, separator: string, rest: Split) {
    /** The text that was cut. */
    function Text(): string {
      match this
      case Last(t) => t
      case Cut(b, sep, r) => b + sep + r.Text()
    }

    /** The records: an empty one at the end does not count. */
    function Records(): seq<string> {
      match this
      case Last(t) => if t == "" then [] else [t]
      case Cut(b, _, r) => [b] + r.Records()
    }

    /** No record holds the delimiter, every separator is the delimiter or, for CR, CR LF, and a bare CR
        is never followed by LF. */
    ghost predicate Canonical(delim: char) {
      match this
      case Last(t) => delim !in t
      case Cut(b, sep, r) =>
        delim !in b && r.Canonical(delim)
        && (sep == [delim] || (delim == CR && sep == [CR, LF]))
        && (delim == CR && sep == [CR] ==> !([LF] <= r.Text()))
    }
  }

  function SeparatorLen(s: string, i: nat, delim: char): (n: nat)
    requires i < |s|
    ensures 1 <= n <= |s| - i
  {
    if delim == CR && i + 1 < |s| && s[i + 1] == LF then 2 else 1
  }

  function SplitOf(s: string, delim: char): Split {
    var i := IndexOf(s, delim);
    if i == |s| then Last(s)
    else
      var n := SeparatorLen(s, i, delim);
      Cut(s[..i], s[i..i + n], SplitOf(s[i + n..], delim))
  }

  /** Putting the separators back rebuilds the text, and the cut is canonical. */
  lemma {:induction false} SplitIsCanonical(s: string, delim: char)
    ensures SplitOf(s, delim).Text() == s && SplitOf(s, delim).Canonical(delim)
  {
    var i := IndexOf(s, delim);
    if i == |s| {
      assert s[..i] == s;
    } else {
      var n := SeparatorLen(s, i, delim);
      SplitIsCanonical(s[i + n..], delim);
      ThreeParts(s, i, n);
      SeparatorIsGreedy(s, i, delim);
      CutIsCanonical(s[..i], s[i..i + n], SplitOf(s[i + n..], delim), s[i + n..], delim);
    }
  }

  lemma CutIsCanonical(body: string, sep: string, rest: Split, more: string, delim: char)
    requires rest.Text() == more && rest.Canonical(delim) && delim !in body
    requires sep == [delim] || (delim == CR && sep == [CR, LF])
    requires delim == CR && sep == [CR] ==> !([LF] <= more)
    ensures Cut(body, sep, rest).Text() == body + sep + more && Cut(body, sep, rest).Canonical(delim)
  {
  }

  lemma ThreeParts(s: string, i: nat, n: nat)
    requires i + n <= |s|
    ensures s[..i] + s[i..i + n] + s[i + n..] == s
  {
  }

  lemma SeparatorIsGreedy(s: string, i: nat, delim: char)
    requires i < |s| && s[i] == delim
    ensures var n := SeparatorLen(s, i, delim); var sep := s[i..i + n];
            (sep == [delim] || (delim == CR && sep == [CR, LF]))
            && (delim == CR && sep == [CR] ==> !([LF] <= s[i + n..]))
  {
    var n := SeparatorLen(s, i, delim);
    assert n == 1 ==> s[i..i + n] == [delim];
    assert n == 2 ==> s[i..i + n] == [CR, LF];
    assert n == 1 && i + 1 < |s| ==> s[i + n..][0] == s[i + 1];
  }

  /** A separator is the delimiter, with the line feed behind it when the delimiter is a carriage return. */
  lemma SeparatorIs(s: string, i: nat, delim: char)
    requires i < |s|
    ensures SeparatorLen(s, i, delim) == if delim == '\r' && i + 1 < |s| && s[i + 1] == '\n' then 2 else 1
  {
  }

  /** There is only one canonical way to cut a text. */
  lemma {:induction false} CanonicalSplitUnique(s: Split, delim: char)
    requires s.Canonical(delim)
    ensures s == SplitOf(s.Text(), delim)
  {
    var text := s.Text();
    match s
    case Last(t) =>
      IndexOfAppend(t, delim, "");
      assert t + "" == t;
    case Cut(b, sep, r) =>
      var more := r.Text();
      assert text == b + (sep + more);
      IndexOfAppend(b, delim, sep + more);
      assert IndexOf(sep + more, delim) == 0;
      CutAt(b, sep, more, delim);
      CanonicalSplitUnique(r, delim);
  }

  lemma CutAt(b: string, sep: string, more: string, delim: char)
    requires sep == [delim] || (delim == CR && sep == [CR, LF])
    requires delim == CR && sep == [CR] ==> !([LF] <= more)
    ensures var s := b + sep + more;
            SeparatorLen(s, |b|, delim) == |sep| && s[..|b|] == b
            && s[|b|..|b| + |sep|] == sep && s[|b| + |sep|..] == more
  {
    var s := b + sep + more;
    if |sep| == 1 && more != "" {
      assert s[|b| + 1] == more[0];
      assert more[0] == LF ==> [LF] <= more;
    }
  }

  // ---------------------------------------------------------------- the loops

  /** The records of a buffer from one offset on. */
  function RecordsFrom(s: string, start: nat, delim: char): seq<string>
    requires start <= |s|
  {
    SplitOf(s[start..], delim).Records()
  }

  ghost predicate Free(s: string, start: nat, end: nat, delim: char)
    requires start <= end <= |s|
  {
    forall k :: start <= k < end ==> s[k] != delim
  }

  lemma SplitStep(s: string, start: nat, i: nat, delim: char, record: string)
    requires start <= i < |s| && s[i] == delim && Free(s, start, i, delim) && record == s[start..i]
    ensures RecordsFrom(s, start, delim) == [record] + RecordsFrom(s, i + SeparatorLen(s, i, delim), delim)
  {
    var rest, k := s[start..], i - start;
    assert rest[..k] == record && rest[k] == delim;
    IndexOfUnique(rest, delim, k);
    var n := SeparatorLen(s, i, delim);
    assert SeparatorLen(rest, k, delim) == n by {
      assert k + 1 < |rest| ==> rest[k + 1] == s[i + 1];
    }
    assert rest[k + n..] == s[i + n..];
  }

  lemma SplitEnd(s: string, start: nat, delim: char)
    requires start <= |s| && Free(s, start, |s|, delim)
    ensures RecordsFrom(s, start, delim) == if start < |s| then [s[start..]] else []
  {
    assert forall k :: 0 <= k < |s| - start ==> s[start..][k] != delim;
    IndexOfAppend(s[start..], delim, "");
    assert s[start..] + "" == s[start..];
  }

  /** What the loop still appends when the current record began at `start` and it looks at i. */
  function Ahead(s: string, start: nat, i: nat, delim: char): seq<string>
    requires start <= i <= |s|
    decreases |s| - i
  {
    if i == |s| then if start < i then [s[start..i]] else []
    else if s[i] != delim then Ahead(s, start, i + 1, delim)
    else
      var next := i + SeparatorLen(s, i, delim);
      [s[start..i]] + Ahead(s, next, next, delim)
  }

  lemma {:induction false} AheadIsSplit(s: string, start: nat, i: nat, delim: char)
    requires start <= i <= |s| && Free(s, start, i, delim)
    ensures Ahead(s, start, i, delim) == RecordsFrom(s, start, delim)
    decreases |s| - i
  {
    if i == |s| {
      SplitEnd(s, start, delim);
      assert s[start..] == s[start..i];
    } else if s[i] != delim {
      AheadIsSplit(s, start, i + 1, delim);
    } else {
      var next := i + SeparatorLen(s, i, delim);
      SplitStep(s, start, i, delim, s[start..i]);
      AheadIsSplit(s, next, next, delim);
    }
  }

  /** The splitting loop over the first sz bytes of the buffer. */
  method SplitBuffer(buf: array<char>, sz: nat, delim: char) returns (records: seq<string>)
    requires sz <= buf.Length
    ensures records == SplitOf(buf[..sz], delim).Records()
  {
    ghost var s := buf[..sz];
    var start, i := 0, 0;
    records := [];
    while i < sz
      invariant start <= i <= sz
      invariant records + Ahead(s, start, i, delim) == Ahead(s, 0, 0, delim)
    {
      if buf[i] == delim {
        assert buf[start..i] == s[start..i];
        records := records + [buf[start..i]];
        if delim == CR && i + 1 < sz && buf[i + 1] == LF {
          start := i + 2;
          i := i + 1;
        } else {
          start := i + 1;
        }
      }
      i := i + 1;
    }
    if start < sz {
      assert buf[start..sz] == s[start..sz];
      records := records + [buf[start..sz]];
    }
    AheadIsSplit(s, 0, 0, delim);
    assert s[0..] == s;
  }

  /** The read loop: read delivers at most the room it is offered, less whenever it likes, and with
      `faults` it may fail. The buffer holds what was delivered and always has room left. */
  method ReadLoop(content: string, size: nat, faults: bool) returns (r: Option<array<char>>, sz: nat)
    ensures r.None? ==> faults
    ensures r.Some? ==> sz == |content| < r.value.Length && r.value[..sz] == content
  {
    var buf := new char[if size > 0 then size + 1 else 4096];
    sz := 0;
    while true
      invariant fresh(buf) && sz <= |content| && sz < buf.Length && buf[..sz] == content[..sz]
      decreases |content| - sz
    {
      var failed: bool := *;
      if failed && faults {
        return None, sz;
      }
      var room := buf.Length - sz;
      assert room > 0;
      if sz == |content| {
        break;
      }
      var rd: nat :| 1 <= rd <= room && rd <= |content| - sz;
      Deliver(buf, sz, content, rd);
      sz := sz + rd;
      if sz == buf.Length {
        buf := Doubled(buf);
      }
    }
    r := Some(buf);
  }

  method Deliver(buf: array<char>, off: nat, content: string, rd: nat)
    requires off + rd <= buf.Length && off + rd <= |content| && buf[..off] == content[..off]
    modifies buf
    ensures buf[..off + rd] == content[..off + rd]
  {
    forall k | 0 <= k < rd {
      buf[off + k] := content[off + k];
    }
    assert forall k :: 0 <= k < off ==> buf[k] == old(buf[..off])[k];
  }

  method Doubled(buf: array<char>) returns (nbuf: array<char>)
    ensures nbuf.Length == 2 * buf.Length && nbuf[..buf.Length] == buf[..]
    ensures fresh(nbuf)
  {
    nbuf := new char[2 * buf.Length];
    forall k | 0 <= k < buf.Length {
      nbuf[k] := buf[k];
    }
  }

  /** What the builtin leaves in the parameter. */
  datatype Param = Unchanged | Scalar(text: string) | Array(records: seq<string>)

  datatype Release = Nothing | Unmapped | Freed

  /** zp_readfile_core on a file that opens: `size` is what fstat says, `content` what the reads deliver, and
      `mapping` what mmap gives if it is asked. Any of them may differ when the file changes meanwhile. */
  method ReadFileCore(content: string, size: nat, useMmap: bool, mapping: Option<string>, split: bool, delim: char,
                      faults: bool)
      returns (rc: int, param: Param, mapped: bool, release: Release)
    requires mapping.Some? ==> |mapping.value| == size
    ensures mapped == (rc == 0 && useMmap && size > 0 && mapping.Some?)
    ensures rc == 0 ==>
              var bytes := if mapped then mapping.value else content;
              param == if split then Array(SplitOf(bytes, delim).Records()) else Scalar(bytes)
    ensures rc != 0 ==> rc == 1 && faults && param == Unchanged && release == Nothing
    ensures rc == 0 ==> release == if mapped then Unmapped else Freed
  {
    var buf, sz := new char[0], size;
    mapped := false;
    if useMmap && size > 0 && mapping.Some? {
      mapped := true;
      buf := new char[size](i requires 0 <= i < size => mapping.value[i]);
    }
    if !mapped {
      var r;
      r, sz := ReadLoop(content, size, faults);
      if r.None? {
        return 1, Unchanged, false, Nothing;
      }
      buf := r.value;
    }
    assert buf[..sz] == if mapped then mapping.value else content;
    if split {
      var records := SplitBuffer(buf, sz, delim);
      param := Array(records);
    } else {
      param := Scalar(buf[..sz]);
    }
    release := if useMmap && buf.Length == sz then Unmapped else Freed;
    rc := 0;
  }
}
