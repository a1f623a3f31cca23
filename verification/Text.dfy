/** C strings and the few libc conversions the sources lean on.
    A byte is a `char`; a C string is a `string` without the NUL character. */
module Text {

  datatype Option<+T> = None | Some(value: T) {
    function GetOr(default: T): T {
      match this
      case Some(v) => v
      case None => default
    }
  }

  const LONG_MAX: int := 0x7FFF_FFFF_FFFF_FFFF
  const LONG_MIN: int := -0x8000_0000_0000_0000

  /** Index of the first `c` in `s`, or `|s|` when there is none (strchr). */
  function IndexOf(s: string, c: char): (i: nat)
    ensures i <= |s|
    ensures i < |s| ==> s[i] == c
    ensures c !in s[..i]
  {
    if s == "" || s[0] == c then 0 else 1 + IndexOf(s[1..], c)
  }

  lemma {:induction false} IndexOfAppend(s: string, c: char, rest: string)
    requires c !in s
    ensures IndexOf(s + rest, c) == |s| + IndexOf(rest, c)
  {
    if s == "" {
      assert s + rest == rest;
    } else {
      assert (s + rest)[1..] == s[1..] + rest;
      IndexOfAppend(s[1..], c, rest);
    }
  }

  lemma IndexOfUnique(s: string, c: char, i: nat)
    requires i < |s| && s[i] == c && c !in s[..i]
    ensures IndexOf(s, c) == i
  {
    assert s == s[..i] + s[i..];
    IndexOfAppend(s[..i], c, s[i..]);
  }

  /** The characters from p to q. */
  function Between(s: string, p: nat, q: nat): (t: string)
    requires p <= q <= |s|
    ensures |t| == q - p
  {
    if p == q then "" else Between(s, p, q - 1) + [s[q - 1]]
  }

  lemma {:induction false} BetweenIsSlice(s: string, p: nat, q: nat)
    requires p <= q <= |s|
    ensures Between(s, p, q) == s[p..q]
  {
    if p < q {
      BetweenIsSlice(s, p, q - 1);
      assert s[p..q] == s[p..q - 1] + [s[q - 1]];
    }
  }

  predicate EndsWith(s: string, suffix: string) {
    |suffix| <= |s| && s[|s| - |suffix|..] == suffix
  }

  /** The part of a path after its last slash. */
  function BaseName(path: string): string {
    if path == "" || path[|path| - 1] == '/' then "" else BaseName(path[..|path| - 1]) + [path[|path| - 1]]
  }

  /** The nonempty elements of a search path. */
  function NonEmpty(path: seq<string>): seq<string> {
    if path == [] then []
    else NonEmpty(path[..|path| - 1]) + if path[|path| - 1] == "" then [] else [path[|path| - 1]]
  }

  /** Exactly the nonempty elements, each as often and in the same order: a part counts for itself. */
  lemma {:induction false} NonEmptyAppend(a: seq<string>, b: seq<string>)
    ensures NonEmpty(a + b) == NonEmpty(a) + NonEmpty(b)
  {
    if b == [] {
      assert a + b == a;
    } else {
      var front, last := b[..|b| - 1], b[|b| - 1];
      LastOfBoth(a, b);
      NonEmptyAppend(a, front);
      Assoc(NonEmpty(a), NonEmpty(front), if last == "" then [] else [last]);
    }
  }

  lemma {:induction false} NonEmptyIff(path: seq<string>, p: string)
    ensures p in NonEmpty(path) <==> p in path && p != ""
    ensures "" !in path ==> NonEmpty(path) == path
  {
    if path != [] {
      NonEmptyIff(path[..|path| - 1], p);
      assert path == path[..|path| - 1] + [path[|path| - 1]];
    }
  }

  lemma EndsWithIff(s: string, suffix: string)
    ensures EndsWith(s, suffix) <==> exists front :: s == front + suffix
  {
    if EndsWith(s, suffix) {
      assert s == s[..|s| - |suffix|] + suffix;
    }
  }

  /** The last element of two parts. */
  lemma LastOfBoth<T>(a: seq<T>, b: seq<T>)
    requires b != []
    ensures (a + b)[..|a + b| - 1] == a + b[..|b| - 1] && (a + b)[|a + b| - 1] == b[|b| - 1]
  {
  }

  /** The base name of a path is its last component. */
  lemma {:induction false} BaseNameIs(dir: string, name: string)
    requires '/' !in name
    ensures BaseName(dir + "/" + name) == name && BaseName(name) == name
  {
    if name != "" {
      var front, c := name[..|name| - 1], name[|name| - 1];
      assert name == front + [c];
      BaseNameIs(dir, front);
      assert (dir + "/" + name)[..|dir + "/" + name| - 1] == dir + "/" + front;
    } else {
      assert dir + "/" + name == dir + "/";
    }
  }

  lemma Assoc<T>(a: seq<T>, b: seq<T>, c: seq<T>)
    ensures a + b + c == a + (b + c)
  {
  }

  lemma Neutral<T>(a: seq<T>)
    ensures [] + a == a && a + [] == a
  {
  }

  lemma CancelFront(h: string, x: string, y: string)
    ensures h + x == h + y ==> x == y
  {
    assert (h + x)[|h|..] == x && (h + y)[|h|..] == y;
  }

  lemma SplitLast<T>(es: seq<T>, rest: seq<T>)
    requires es != []
    ensures es[..|es| - 1] + ([es[|es| - 1]] + rest) == es + rest
  {
  }

  /** One element goes from the front of what is left to the end of what is done. */
  ghost function Moved<T>(done: seq<T>, x: T, more: seq<T>): (r: seq<T>)
    ensures r == done + [x] && r + more == done + ([x] + more)
  {
    done + [x]
  }

  // ---------------------------------------------------------------- numerals

  /** The numeral bases in use: %d and its relatives, and %o. */
  type Base = b: nat | b == 8 || b == 10 witness 10

  /** `c` is a digit of base `b` (eight or ten). */
  predicate IsDigitOf(c: char, b: Base) {
    '0' as int <= c as int < '0' as int + b
  }

  predicate AllDigits(s: string, b: Base) {
    forall c :: c in s ==> IsDigitOf(c, b)
  }

  function DigitChar(d: nat): (c: char)
    requires d < 10
    ensures c as int == '0' as int + d
  {
    ('0' as int + d) as char
  }

  function DigitVal(c: char, b: Base): (d: nat)
    requires IsDigitOf(c, b)
    ensures d < b
  {
    c as int - '0' as int
  }

  function NatOf(s: string, b: Base): nat
    requires AllDigits(s, b)
  {
    if s == "" then 0
    else NatOf(s[..|s| - 1], b) * b + DigitVal(s[|s| - 1], b)
  }

  /** printf's %d, %lu, %llu (base ten) and %o (base eight) on a non-negative value. */
  function PrintNat(n: nat, b: Base): (s: string)
    ensures s != "" && AllDigits(s, b)
    ensures s[0] == '0' ==> s == "0"
    decreases n
  {
    if n < b then [DigitChar(n)]
    else
      QuotientShrinks(n, b);
      PrintNat(n / b, b) + [DigitChar(n % b)]
  }

  lemma QuotientShrinks(n: nat, b: Base)
    requires b <= n
    ensures 0 < n / b < n
  {
  }

  /** Reading back a printed number gives the number. */
  lemma {:induction false} NatOfPrintNat(n: nat, b: Base)
    ensures NatOf(PrintNat(n, b), b) == n
    decreases n
  {
    var s := PrintNat(n, b);
    if n < b {
      assert s[..0] == "";
    } else {
      QuotientShrinks(n, b);
      NatOfPrintNat(n / b, b);
      assert s[..|s| - 1] == PrintNat(n / b, b);
      assert if b == 8 then n == n / 8 * 8 + n % 8 else n == n / 10 * 10 + n % 10;
    }
  }

  lemma PrintNatInjective(m: nat, n: nat, b: Base)
    requires PrintNat(m, b) == PrintNat(n, b)
    ensures m == n
  {
    NatOfPrintNat(m, b);
    NatOfPrintNat(n, b);
  }

  /** printf's %d and %ld. */
  function PrintInt(i: int): (s: string)
    ensures s != ""
    ensures forall c :: c in s ==> c == '-' || IsDigitOf(c, 10)
  {
    if i < 0 then "-" + PrintNat(-i, 10) else PrintNat(i, 10)
  }

  function Pow10(k: nat): (p: nat) ensures p > 0 { if k == 0 then 1 else 10 * Pow10(k - 1) }

  lemma {:induction false} PrintedDigits(n: nat, k: nat)
    requires 0 < k && n < Pow10(k)
    ensures |PrintNat(n, 10)| <= k
  {
    if n >= 10 {
      assert Pow10(k) == 10 * Pow10(k - 1) && Pow10(0) == 1;
      PrintedDigits(n / 10, k - 1);
    }
  }

  /** A printed long has at most 20 characters. */
  lemma PrintedLong(i: int)
    requires LONG_MIN <= i <= LONG_MAX
    ensures |PrintInt(i)| <= 20
  {
    assert Pow10(6) == 1_000_000;
    assert Pow10(12) == 1_000_000_000_000;
    assert Pow10(18) == 1_000_000_000_000_000_000;
    assert Pow10(19) == 10 * Pow10(18);
    PrintedDigits(if i < 0 then -i else i, 19);
  }

  /** Length of the longest prefix of base-b digits. */
  function DigitRun(s: string, b: Base): (n: nat)
    ensures n <= |s| && AllDigits(s[..n], b)
    ensures n < |s| ==> !IsDigitOf(s[n], b)
  {
    if s == "" || !IsDigitOf(s[0], b) then 0
    else
      var n := 1 + DigitRun(s[1..], b);
      assert s[..n] == [s[0]] + s[1..][..n - 1];
      n
  }

  lemma {:induction false} DigitRunAppend(s: string, b: Base, rest: string)
    requires AllDigits(s, b)
    requires rest != "" ==> !IsDigitOf(rest[0], b)
    ensures DigitRun(s + rest, b) == |s|
  {
    if s == "" {
      assert s + rest == rest;
    } else {
      assert (s + rest)[1..] == s[1..] + rest;
      DigitRunAppend(s[1..], b, rest);
    }
  }

  predicate IsSpace(c: char) {
    c == ' ' || 9 <= c as int <= 13
  }

  /** Section 7.4.1.10 of ISO C99, in the C locale. */
  lemma SpacesAre(c: char)
    ensures IsSpace(c) <==> c as int in {9, 10, 11, 12, 13, 32}
  {
  }

  function SpaceRun(s: string): (n: nat)
    ensures n <= |s|
    ensures n < |s| ==> !IsSpace(s[n])
    ensures forall i :: 0 <= i < n ==> IsSpace(s[i])
  {
    if s == "" || !IsSpace(s[0]) then 0 else 1 + SpaceRun(s[1..])
  }

  /** What strtol leaves behind: the value, the end offset and whether it set ERANGE. */
  datatype Number = Number(value: int, end: nat, range: bool)

  /** strtol: section 7.20.1.4 of ISO C99, for the bases eight and ten. */
  function Strtol(s: string, b: Base): (n: Number)
    ensures n.end <= |s|
    ensures LONG_MIN <= n.value <= LONG_MAX
  {
    var w := SpaceRun(s);
    var neg := w < |s| && s[w] == '-';
    var p := if w < |s| && (s[w] == '-' || s[w] == '+') then w + 1 else w;
    var run := DigitRun(s[p..], b);
    if run == 0 then Number(0, 0, false)
    else
      var magnitude: int := NatOf(s[p..][..run], b);
      var v := if neg then -magnitude else magnitude;
      if v < LONG_MIN then Number(LONG_MIN, p + run, true)
      else if v > LONG_MAX then Number(LONG_MAX, p + run, true)
      else Number(v, p + run, false)
  }

  /** strtol on nothing but digits: their value, or the largest long. */
  lemma StrtolPlain(s: string, b: Base)
    requires s != "" && AllDigits(s, b)
    ensures Strtol(s, b) == if NatOf(s, b) > LONG_MAX then Number(LONG_MAX, |s|, true)
                            else Number(NatOf(s, b), |s|, false)
  {
    assert IsDigitOf(s[0], b) && SpaceRun(s) == 0;
    WholeRun(s, b);
    assert s[0..] == s;
  }

  lemma WholeRun(s: string, b: Base)
    requires AllDigits(s, b)
    ensures DigitRun(s, b) == |s| && s[..|s|] == s
  {
    DigitRunAppend(s, b, "");
    assert s + "" == s;
  }

  /** strtol on a minus sign and digits. */
  lemma StrtolMinus(s: string, digits: string)
    requires s == "-" + digits && digits != "" && AllDigits(digits, 10)
    ensures Strtol(s, 10) == if NatOf(digits, 10) > -LONG_MIN then Number(LONG_MIN, |s|, true)
                             else Number(0 - NatOf(digits, 10), |s|, false)
  {
    assert SpaceRun(s) == 0;
    WholeRun(digits, 10);
    assert s[1..] == digits;
  }

  /** A plus sign changes nothing. */
  lemma StrtolPlus(s: string, digits: string)
    requires s == "+" + digits && digits != "" && AllDigits(digits, 10)
    ensures Strtol(s, 10) == if NatOf(digits, 10) > LONG_MAX then Number(LONG_MAX, |s|, true)
                             else Number(NatOf(digits, 10), |s|, false)
  {
    assert SpaceRun(s) == 0;
    WholeRun(digits, 10);
    assert s[1..] == digits;
  }

  /** A printed natural number reads back, or is cut off at the largest long. */
  lemma StrtolDigits(n: nat, b: Base)
    ensures var s := PrintNat(n, b);
            Strtol(s, b) == if n > LONG_MAX then Number(LONG_MAX, |s|, true) else Number(n, |s|, false)
  {
    NatOfPrintNat(n, b);
    StrtolPlain(PrintNat(n, b), b);
  }

  lemma StrtolPrinted(i: int)
    ensures var s := PrintInt(i);
            Strtol(s, 10) == if i < LONG_MIN then Number(LONG_MIN, |s|, true)
                             else if i > LONG_MAX then Number(LONG_MAX, |s|, true)
                             else Number(i, |s|, false)
  {
    if i < 0 {
      var digits := PrintNat(-i, 10);
      assert PrintInt(i) == "-" + digits;
      NatOfPrintNat(-i, 10);
      StrtolMinus(PrintInt(i), digits);
    } else {
      assert PrintInt(i) == PrintNat(i, 10);
      StrtolDigits(i, 10);
    }
  }

  /** Storing a long in an int keeps its low 32 bits. */
  function ToInt(v: int): int { (v + 0x8000_0000) % 0x1_0000_0000 - 0x8000_0000 }

  /** zp_parse_long: strict decimal, no leading space, no tail, no overflow. */
  function ParseLong(s: string): Option<int> {
    if s == "" || IsSpace(s[0]) then None
    else
      var n := Strtol(s, 10);
      if n.end == 0 || n.end != |s| || n.range then None else Some(n.value)
  }

  /** Printing and strict parsing are inverse on exactly the values of a long. */
  lemma ParseLongInvertsPrinting(i: int)
    ensures ParseLong(PrintInt(i)) == if -9223372036854775808 <= i <= 9223372036854775807 then Some(i) else None
  {
    StrtolPrinted(i);
    var s := PrintInt(i);
    assert s[0] == '-' || IsDigitOf(s[0], 10);
  }

  lemma PrintIntSign(i: int)
    ensures PrintInt(i)[0] == '-' <==> i < 0
  {
    if i >= 0 {
      assert IsDigitOf(PrintNat(i, 10)[0], 10);
    }
  }

  lemma PrintIntInjective(i: int, j: int)
    requires PrintInt(i) == PrintInt(j)
    ensures i == j
  {
    PrintIntSign(i);
    PrintIntSign(j);
    if i < 0 {
      assert PrintNat(-i, 10) == PrintInt(i)[1..] == PrintInt(j)[1..] == PrintNat(-j, 10);
      PrintNatInjective(-i, -j, 10);
    } else {
      PrintNatInjective(i, j, 10);
    }
  }

  // ------------------------------------------------------------ lines, tokens

  function Min(a: int, b: int): int { if a <= b then a else b }

  /** fgets (section 7.19.7.2 of ISO C99): how many characters of `s` one call with a buffer of
      `size` consumes; it stops after a newline or when `size - 1` characters are stored. */
  function FgetsLen(s: string, size: nat): (n: nat)
    requires size >= 2
    ensures n <= |s| && n < size
    ensures s != "" ==> n > 0
  {
    Min(Min(IndexOf(s, '\n') + 1, size - 1), |s|)
  }

  lemma FgetsWholeLine(line: string, rest: string, size: nat)
    requires size >= 2 && '\n' !in line && |line| + 1 < size
    ensures FgetsLen(line + "\n" + rest, size) == |line| + 1
  {
    assert line + "\n" + rest == line + ("\n" + rest);
    IndexOfAppend(line, '\n', "\n" + rest);
  }

  /** A short prefix shows in the first line that fgets delivers. */
  lemma FgetsStarts(start: string, s: string, size: nat)
    requires size >= 2 && '\n' !in start && |start| < size
    ensures start <= s[..FgetsLen(s, size)] <==> start <= s
  {
    if start <= s {
      assert forall i :: 0 <= i < |start| ==> s[i] == start[i] && start[i] in start;
    }
  }

  /** The line without its newline: what `*strchr(line, '\n') = 0` leaves. */
  function Chomp(line: string): (r: string)
    ensures '\n' !in r
  {
    line[..IndexOf(line, '\n')]
  }

  lemma ChompLine(body: string)
    requires '\n' !in body
    ensures Chomp(body + "\n") == body && Chomp(body) == body
  {
    IndexOfAppend(body, '\n', "\n");
    IndexOfAppend(body, '\n', "");
    assert body + "" == body;
  }

  /** One strtok_r call with a one-character delimiter set: the token and what is left to scan. */
  datatype Token = NoToken | Token(text: string, save: string)

  function StrTok(s: string, d: char): (t: Token)
    ensures t.Token? ==> t.text != "" && d !in t.text && |t.text| + |t.save| <= |s|
  {
    if s == "" then NoToken
    else if s[0] == d then StrTok(s[1..], d)
    else
      var n := IndexOf(s, d);
      Token(s[..n], if n < |s| then s[n + 1..] else "")
  }

  lemma StrTokJoined(field: string, d: char, rest: string)
    requires field != "" && d !in field
    ensures StrTok(field + [d] + rest, d) == Token(field, rest)
    ensures StrTok(field, d) == Token(field, "")
  {
    assert field + [d] + rest == field + ([d] + rest);
    IndexOfAppend(field, d, [d] + rest);
    assert field + "" == field;
    IndexOfAppend(field, d, "");
    assert field[0] != d;
  }
}
