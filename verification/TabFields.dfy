/** Fields between tabs, as the snapshot and cache files use them. Parts of a text are given by where they begin and
    end. */
module TabFields {
  import opened Text

  /** A field that survives strtok_r. */
  predicate Field(s: string) { s != "" && '\t' !in s }

  /** The first tab from `a` on, or `b`. */
  function NextTab(s: string, a: nat, b: nat): (n: nat)
    requires a <= b <= |s|
    ensures a <= n <= b && (n < b ==> s[n] == '\t')
    ensures forall i :: a <= i < n ==> s[i] != '\t'
    decreases b - a
  {
    if a == b || s[a] == '\t' then a else NextTab(s, a + 1, b)
  }

  /** What is between the tabs from `a` to `b`, where it is not empty. */
  function WordsIn(s: string, a: nat, b: nat): (ws: seq<string>)
    requires a <= b <= |s|
    decreases b - a
  {
    if a == b then []
    else if s[a] == '\t' then WordsIn(s, a + 1, b)
    else var n := NextTab(s, a, b); [Between(s, a, n)] + WordsIn(s, n, b)
  }

  function Words(s: string): seq<string> { WordsIn(s, 0, |s|) }

  lemma AtTab(s: string, a: nat, b: nat)
    requires a < b <= |s| && s[a] == '\t'
    ensures WordsIn(s, a, b) == WordsIn(s, a + 1, b)
  {
  }

  lemma {:induction false} NextTabIs(s: string, a: nat, b: nat, n: nat)
    requires a <= n <= b <= |s| && (n < b ==> s[n] == '\t') && forall i :: a <= i < n ==> s[i] != '\t'
    ensures NextTab(s, a, b) == n
    decreases b - a
  {
    if a < n {
      NextTabIs(s, a + 1, b, n);
    }
  }

  // ------------------------------------------------------------- parts of a text

  /** `t` is found in `s` at this place. */
  predicate IsPart(t: string, s: string, from: nat) {
    from + |t| <= |s| && IsPartTo(t, s, from, |t|)
  }

  /** The first n characters of it are. */
  predicate IsPartTo(t: string, s: string, from: nat, n: nat)
    requires n <= |t| && from + |t| <= |s|
  {
    n == 0 || (t[n - 1] == s[from + n - 1] && IsPartTo(t, s, from, n - 1))
  }

  lemma {:induction false} SliceIsPart(t: string, s: string, from: nat, n: nat)
    requires n <= |t| && from + |t| <= |s| && t == s[from..from + |t|]
    ensures IsPartTo(t, s, from, n)
  {
    if n > 0 {
      SliceIsPart(t, s, from, n - 1);
    }
  }

  lemma {:induction false} PartToChar(t: string, s: string, from: nat, n: nat, p: nat)
    requires p < n <= |t| && from + |t| <= |s| && IsPartTo(t, s, from, n)
    ensures t[p] == s[from + p]
  {
    if p < n - 1 {
      PartToChar(t, s, from, n - 1, p);
    }
  }

  /** `s` is one text, a tab, and another. */
  predicate TabBetween(field: string, more: string, s: string) {
    |s| == |field| + 1 + |more| && s[|field|] == '\t' && IsPart(field, s, 0) && IsPart(more, s, |field| + 1)
  }

  lemma TabIsBetween(field: string, more: string)
    ensures TabBetween(field, more, field + "\t" + more)
  {
    var s := field + "\t" + more;
    assert s[0..|field|] == field;
    assert s[|field| + 1..|s|] == more;
    SliceIsPart(field, s, 0, |field|);
    SliceIsPart(more, s, |field| + 1, |more|);
  }

  lemma PartChar(s: string, from: nat, t: string, p: nat)
    requires IsPart(t, s, from) && p < |t|
    ensures t[p] == s[from + p]
  {
    PartToChar(t, s, from, |t|, p);
  }

  lemma {:induction false} NextTabOfPart(s: string, from: nat, t: string, p: nat, q: nat)
    requires IsPart(t, s, from) && p <= q <= |t|
    ensures NextTab(s, from + p, from + q) == from + NextTab(t, p, q)
    decreases q - p
  {
    if p < q {
      PartChar(s, from, t, p);
    }
    if p < q && t[p] != '\t' {
      NextTabOfPart(s, from, t, p + 1, q);
    }
  }

  lemma {:induction false} SamePart(s: string, from: nat, t: string, p: nat, q: nat)
    requires IsPart(t, s, from) && p <= q <= |t|
    ensures Between(t, p, q) == Between(s, from + p, from + q)
  {
    if p < q {
      SamePart(s, from, t, p, q - 1);
      PartChar(s, from, t, q - 1);
    }
  }

  lemma SameWords(s: string, from: nat, t: string, p: nat, n: nat, q: nat)
    requires p < n <= q <= |t| && from + q <= |s| && t[p] != '\t' && s[from + p] != '\t'
    requires n == NextTab(t, p, q) && from + n == NextTab(s, from + p, from + q)
    requires Between(t, p, n) == Between(s, from + p, from + n) && WordsIn(t, n, q) == WordsIn(s, from + n, from + q)
    ensures WordsIn(t, p, q) == WordsIn(s, from + p, from + q)
  {
  }

  lemma {:induction false} WordsOfPart(s: string, from: nat, t: string, p: nat, q: nat)
    requires IsPart(t, s, from) && p <= q <= |t|
    ensures WordsIn(t, p, q) == WordsIn(s, from + p, from + q)
    decreases q - p
  {
    if p < q {
      PartChar(s, from, t, p);
      if t[p] == '\t' {
        WordsOfPart(s, from, t, p + 1, q);
      } else {
        var n := NextTab(t, p, q);
        NextTabOfPart(s, from, t, p, q);
        SamePart(s, from, t, p, n);
        WordsOfPart(s, from, t, n, q);
        SameWords(s, from, t, p, n, q);
      }
    }
  }

  /** The words of a part. */
  lemma PartWords(s: string, a: nat, b: nat, t: string)
    requires a <= b <= |s| && t == s[a..b]
    ensures Words(t) == WordsIn(s, a, b)
  {
    SliceIsPart(t, s, a, |t|);
    WordsOfPart(s, a, t, 0, |t|);
  }

  // ------------------------------------------------------------- strtok_r

  lemma FirstWord(s: string, n: nat, word: string, rest: string)
    requires 0 < n == NextTab(s, 0, |s|) && word == s[..n] && rest == if n < |s| then s[n + 1..] else ""
    ensures Words(s) == [word] + Words(rest)
  {
    BetweenIsSlice(s, 0, n);
    assert s[0..n] == word;
    RestWords(s, n, rest);
  }

  lemma RestWords(s: string, n: nat, rest: string)
    requires 0 < n <= |s| && (n < |s| ==> s[n] == '\t') && rest == if n < |s| then s[n + 1..] else ""
    ensures WordsIn(s, n, |s|) == Words(rest)
  {
    if n < |s| {
      AtTab(s, n, |s|);
      PartWords(s, n + 1, |s|, rest);
    }
  }

  lemma IndexOfTab(s: string)
    ensures IndexOf(s, '\t') == NextTab(s, 0, |s|)
  {
    var n := NextTab(s, 0, |s|);
    assert '\t' !in s[..n];
    if n < |s| {
      IndexOfUnique(s, '\t', n);
    } else {
      assert s[..n] == s;
    }
  }

  /** A strtok_r call takes the first of the words and leaves the others. */
  lemma {:induction false} StrTokTakesWord(s: string)
    ensures StrTok(s, '\t').NoToken? <==> Words(s) == []
    ensures StrTok(s, '\t').Token? ==> Words(s) == [StrTok(s, '\t').text] + Words(StrTok(s, '\t').save)
  {
    if s != "" && s[0] == '\t' {
      StrTokTakesWord(s[1..]);
      PartWords(s, 1, |s|, s[1..]);
    } else if s != "" {
      IndexOfTab(s);
      var tok := StrTok(s, '\t');
      FirstWord(s, NextTab(s, 0, |s|), tok.text, tok.save);
    }
  }

  lemma FieldBetween(s: string, a: nat, n: nat)
    requires a < n <= |s| && forall i :: a <= i < n ==> s[i] != '\t'
    ensures Field(Between(s, a, n)) && forall c :: c in Between(s, a, n) ==> c in s
  {
    BetweenIsSlice(s, a, n);
  }

  lemma {:induction false} WordsAre(s: string, a: nat, b: nat, i: nat)
    requires a <= b <= |s| && i < |WordsIn(s, a, b)|
    ensures Field(WordsIn(s, a, b)[i]) && forall c :: c in WordsIn(s, a, b)[i] ==> c in s
    decreases b - a
  {
    if s[a] == '\t' {
      WordsAre(s, a + 1, b, i);
    } else {
      var n := NextTab(s, a, b);
      FieldBetween(s, a, n);
      if i > 0 {
        WordsAre(s, n, b, i - 1);
      }
    }
  }

  lemma WordsCons(field: string, rest: string)
    requires Field(field)
    ensures Words(field + "\t" + rest) == [field] + Words(rest)
    ensures Words(field) == [field]
  {
    FieldThenRest(field, rest, field + "\t" + rest);
    NextTabIs(field, 0, |field|, |field|);
    FirstWord(field, |field|, field, "");
    assert [field] + Words("") == [field];
  }

  lemma FieldThenRest(field: string, rest: string, s: string)
    requires Field(field) && s == field + "\t" + rest
    ensures Words(s) == [field] + Words(rest)
  {
    var n := |field|;
    assert s[..n] == field && s[n + 1..] == rest && s[n] == '\t';
    assert forall i :: 0 <= i < n ==> s[i] == field[i];
    NextTabIs(s, 0, |s|, n);
    FirstWord(s, n, field, rest);
  }

  /** Tab-separated fields. */
  function Join(fields: seq<string>): string
    requires fields != []
  {
    if |fields| == 1 then fields[0] else fields[0] + "\t" + Join(fields[1..])
  }

  predicate AllFields(fs: seq<string>) { forall i :: 0 <= i < |fs| ==> Field(fs[i]) }

  lemma {:induction false} WordsOfJoin(fields: seq<string>)
    requires fields != [] && AllFields(fields)
    ensures Words(Join(fields)) == fields
  {
    if |fields| == 1 {
      WordsCons(fields[0], "");
    } else {
      WordsOfJoin(fields[1..]);
      WordsCons(fields[0], Join(fields[1..]));
    }
  }

  // ------------------------------------------------------------- counting tabs

  function TabsIn(s: string, a: nat, b: nat): nat
    requires a <= b <= |s|
  {
    if a == b then 0 else TabsIn(s, a, b - 1) + if s[b - 1] == '\t' then 1 else 0
  }

  lemma {:induction false} TabsSplit(s: string, a: nat, k: nat, b: nat)
    requires a <= k <= b <= |s|
    ensures TabsIn(s, a, b) == TabsIn(s, a, k) + TabsIn(s, k, b)
    decreases b
  {
    if k < b {
      TabsSplit(s, a, k, b - 1);
    }
  }

  lemma {:induction false} NoTabs(s: string, a: nat, b: nat)
    requires a <= b <= |s| && forall i :: a <= i < b ==> s[i] != '\t'
    ensures TabsIn(s, a, b) == 0
  {
    if a < b {
      NoTabs(s, a, b - 1);
    }
  }

  lemma TabsAround(s: string, a: nat, k: nat, b: nat)
    requires a <= k < b <= |s| && s[k] == '\t'
    ensures TabsIn(s, a, b) == TabsIn(s, a, k) + 1 + TabsIn(s, k + 1, b)
  {
    TabsSplit(s, a, k + 1, b);
  }

  lemma {:induction false} TabsOfPart(s: string, from: nat, t: string, q: nat)
    requires IsPart(t, s, from) && q <= |t|
    ensures TabsIn(t, 0, q) == TabsIn(s, from, from + q)
  {
    if q > 0 {
      PartChar(s, from, t, q - 1);
      TabsOfPart(s, from, t, q - 1);
    }
  }

  lemma {:induction false} TabsOfJoin(fields: seq<string>)
    requires fields != [] && AllFields(fields)
    ensures TabsIn(Join(fields), 0, |Join(fields)|) == |fields| - 1
  {
    if |fields| == 1 {
      NoTabs(fields[0], 0, |fields[0]|);
    } else {
      TabsOfJoin(fields[1..]);
      TabIsBetween(fields[0], Join(fields[1..]));
      OneTabMore(fields[0], Join(fields[1..]), Join(fields));
    }
  }

  lemma OneTabMore(field: string, more: string, s: string)
    requires Field(field) && TabBetween(field, more, s)
    ensures TabsIn(s, 0, |s|) == 1 + TabsIn(more, 0, |more|)
  {
    NoTabs(field, 0, |field|);
    TabsOfPart(s, 0, field, |field|);
    TabsAround(s, 0, |field|, |s|);
    TabsOfPart(s, |field| + 1, more, |more|);
  }

  /** Many words need many tabs, and with no tab to spare the text ends in a word. */
  lemma {:induction false} WordsNeedTabs(s: string, a: nat, b: nat)
    requires a <= b <= |s|
    ensures |WordsIn(s, a, b)| <= TabsIn(s, a, b) + 1
    ensures |WordsIn(s, a, b)| == TabsIn(s, a, b) + 1 ==> a < b && s[b - 1] != '\t'
    decreases b - a
  {
    if a < b {
      var n := NextTab(s, a, b);
      CountStep(s, a, n, b);
      if n < b {
        WordsNeedTabs(s, n + 1, b);
      }
    }
  }

  /** Words and tabs up to the next tab. */
  lemma CountStep(s: string, a: nat, n: nat, b: nat)
    requires a < b <= |s| && n == NextTab(s, a, b)
    ensures |WordsIn(s, a, b)| == (if a < n then 1 else 0) + if n < b then |WordsIn(s, n + 1, b)| else 0
    ensures TabsIn(s, a, b) == if n < b then 1 + TabsIn(s, n + 1, b) else 0
  {
    NoTabs(s, a, n);
    if n < b {
      TabsAround(s, a, n, b);
      AtTab(s, n, b);
    }
  }

  // ------------------------------------------------------------- a path and its numbers inside a line

  /** Where the first of several words ends: at a tab that leaves the others. */
  lemma {:induction false} FirstWordEnd(s: string, a: nat, b: nat, word: string, others: seq<string>) returns (k: nat)
    requires a <= b <= |s| && WordsIn(s, a, b) == [word] + others && others != []
    ensures a + |word| <= k < b && s[k] == '\t' && WordsIn(s, k + 1, b) == others
    decreases b - a
  {
    if s[a] == '\t' {
      k := FirstWordEnd(s, a + 1, b, word, others);
    } else {
      k := NextTab(s, a, b);
      FirstAndOthers(Between(s, a, k), WordsIn(s, k, b), word, others);
      AtTab(s, k, b);
    }
  }

  lemma FirstAndOthers<T>(x: T, xs: seq<T>, y: T, ys: seq<T>)
    requires [x] + xs == [y] + ys
    ensures x == y && xs == ys
  {
    assert ([x] + xs)[0] == ([y] + ys)[0] && ([x] + xs)[1..] == ([y] + ys)[1..];
  }

  /** A path, a tab, and a tail with one tab less than it has fields. */
  predicate PathAndTail(body: string, len: nat, fields: nat) {
    len < |body| && body[len] == '\t' && TabsIn(body, len + 1, |body|) + 1 == fields
  }

  /** The text of a path, a tab and a tail. */
  lemma BodyIsPathAndTail(path: string, tail: string, body: string, fields: nat)
    requires body == path + "\t" + tail && TabsIn(tail, 0, |tail|) + 1 == fields
    ensures PathAndTail(body, |path|, fields)
  {
    TabIsBetween(path, tail);
    PathAndTailOf(path, tail, body, fields);
  }

  lemma PathAndTailOf(path: string, tail: string, body: string, fields: nat)
    requires TabBetween(path, tail, body) && TabsIn(tail, 0, |tail|) + 1 == fields
    ensures PathAndTail(body, |path|, fields)
  {
    TabsOfPart(body, |path| + 1, tail, |tail|);
  }

  lemma BodySlices(path: string, tail: string, body: string)
    requires body == path + "\t" + tail
    ensures body[..|path|] == path && body[|path| + 1..] == tail
    ensures '\n' !in path && '\n' !in tail ==> '\n' !in body
  {
  }

  /** Past a later tab too few are left. */
  lemma LaterTab(body: string, len: nat, fields: nat, at: nat, to: nat)
    requires PathAndTail(body, len, fields) && len < at < to <= |body| && body[at] == '\t'
    ensures TabsIn(body, at + 1, to) + 1 < fields
  {
    TabsAround(body, len + 1, at, |body|);
    TabsSplit(body, at + 1, to, |body|);
  }

  /** A part of a line that has a path as long as the line's and all fields starts where the line starts. */
  lemma PathOnlyAtStart(body: string, len: nat, fields: nat, from: nat, to: nat, word: string, others: seq<string>)
    requires PathAndTail(body, len, fields) && from <= to <= |body|
    requires WordsIn(body, from, to) == [word] + others && |others| >= fields > 0 && |word| == len
    ensures from == 0 && len < to && WordsIn(body, len + 1, to) == others
  {
    var k := FirstWordEnd(body, from, to, word, others);
    WordsNeedTabs(body, k + 1, to);
    if len < k {
      LaterTab(body, len, fields, k, to);
    }
  }
}
