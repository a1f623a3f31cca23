/** Compact JSON texts and a strict reader for them. The reader accepts a subset of sections 4 to 7 of
    RFC 8259 (no insignificant space, no escapes, integers only) and never reads a text as anything
    else than RFC 8259 does. */
module Json {
  import opened Text

  datatype Value =
    | Null | Bool(flag: bool) | Num(n: int) | Str(text: string) | Arr(items: Items) | Obj(members: Members)
  datatype Items = NoItem | Item(head: Value, tail: Items)
  datatype Members = NoMember | Member(key: string, value: Value, more: Members)

  /** The text of a value followed by `rest`. */
  function Show(j: Value, rest: string): string {
    match j
    case Null => "null" + rest
    case Bool(b) => (if b then "true" else "false") + rest
    case Num(n) => PrintInt(n) + rest
    case Str(s) => "\"" + (s + ("\"" + rest))
    case Arr(items) => "[" + ShowItems(items, "]" + rest)
    case Obj(members) => "{" + ShowMembers(members, "}" + rest)
  }

  function ShowItems(items: Items, rest: string): string {
    match items
    case NoItem => rest
    case Item(j, NoItem) => Show(j, rest)
    case Item(j, tail) => Show(j, "," + ShowItems(tail, rest))
  }

  function ShowMembers(ms: Members, rest: string): string {
    match ms
    case NoMember => rest
    case Member(k, j, NoMember) => "\"" + (k + ("\":" + Show(j, rest)))
    case Member(k, j, more) => "\"" + (k + ("\":" + Show(j, "," + ShowMembers(more, rest))))
  }

  datatype Parsed<+T> = Fail | Done(value: T, rest: string)

  predicate PlainChar(c: char) { c != '"' && c != '\\' && c as int >= 0x20 }

  predicate PlainText(s: string) { forall c :: c in s ==> PlainChar(c) }

  /** A string body up to its closing quote. */
  function ParseString(s: string): (p: Parsed<string>)
    ensures p.Done? ==> |p.rest| < |s|
  {
    var n := IndexOf(s, '"');
    if n == |s| || !PlainText(s[..n]) then Fail else Done(s[..n], s[n + 1..])
  }

  /** A fraction or an exponent begins. */
  predicate Extends(c: char) { c == '.' || c == 'e' || c == 'E' }

  /** An integer: no leading zeros, no fraction, no exponent. */
  function ParseNumber(s: string): (p: Parsed<int>)
    ensures p.Done? ==> |p.rest| < |s|
  {
    if s != "" && s[0] == '-' then ParseDigits(s[1..], true) else ParseDigits(s, false)
  }

  function ParseDigits(t: string, neg: bool): (p: Parsed<int>)
    ensures p.Done? ==> |p.rest| < |t|
  {
    var n := DigitRun(t, 10);
    if n == 0 || (n > 1 && t[0] == '0') || (n < |t| && Extends(t[n])) then Fail
    else Done(if neg then 0 - NatOf(t[..n], 10) else NatOf(t[..n], 10), t[n..])
  }

  function ParseValue(s: string): (p: Parsed<Value>)
    ensures p.Done? ==> |p.rest| < |s|
    decreases |s|, 0
  {
    if s == "" then Fail
    else if s[0] == '"' then
      match ParseString(s[1..]) case Done(t, rest) => Done(Str(t), rest) case Fail => Fail
    else if s[0] == '[' then
      if s[1..] != "" && s[1] == ']' then Done(Arr(NoItem), s[2..])
      else match ParseItems(s[1..]) case Done(items, rest) => Done(Arr(items), rest) case Fail => Fail
    else if s[0] == '{' then
      if s[1..] != "" && s[1] == '}' then Done(Obj(NoMember), s[2..])
      else match ParseMembers(s[1..]) case Done(ms, rest) => Done(Obj(ms), rest) case Fail => Fail
    else ParseScalar(s)
  }

  /** A keyword or a number. */
  function ParseScalar(s: string): (p: Parsed<Value>)
    ensures p.Done? ==> |p.rest| < |s|
  {
    if "null" <= s then Done(Null, s[4..])
    else if "true" <= s then Done(Bool(true), s[4..])
    else if "false" <= s then Done(Bool(false), s[5..])
    else match ParseNumber(s) case Done(n, rest) => Done(Num(n), rest) case Fail => Fail
  }

  function ParseItems(s: string): (p: Parsed<Items>)
    ensures p.Done? ==> |p.rest| < |s|
    decreases |s|, 1
  {
    match ParseValue(s)
    case Fail => Fail
    case Done(j, rest) =>
      if rest != "" && rest[0] == ']' then Done(Item(j, NoItem), rest[1..])
      else if rest != "" && rest[0] == ',' then
        match ParseItems(rest[1..]) case Done(tail, rest') => Done(Item(j, tail), rest') case Fail => Fail
      else Fail
  }

  function ParseMembers(s: string): (p: Parsed<Members>)
    ensures p.Done? ==> |p.rest| < |s|
    decreases |s|, 1
  {
    if s == "" || s[0] != '"' then Fail
    else match ParseString(s[1..])
      case Fail => Fail
      case Done(key, colon) =>
        if colon == "" || colon[0] != ':' then Fail
        else match ParseValue(colon[1..])
          case Fail => Fail
          case Done(j, rest) =>
            if rest != "" && rest[0] == '}' then Done(Member(key, j, NoMember), rest[1..])
            else if rest != "" && rest[0] == ',' then
              match ParseMembers(rest[1..])
              case Done(more, rest') => Done(Member(key, j, more), rest')
              case Fail => Fail
            else Fail
  }

  /** The reader is strict: a string has no raw quote, backslash or control character, and a number no leading zero,
      fraction or exponent. */
  lemma ReaderIsStrict(s: string)
    ensures ParseString(s).Done? ==>
              forall c :: c in ParseString(s).value ==> c != '"' && c != '\\' && c as int >= 32
    ensures ParseDigits(s, false).Done? ==>
              var rest := ParseDigits(s, false).rest;
              && (rest != "" ==> rest[0] != '.' && rest[0] != 'e' && rest[0] != 'E')
              && (s[0] == '0' ==> |s| == |rest| + 1)
  {
  }

  // ------------------------------------------------------------------- round trip

  /** Every string in the value can stand unescaped. */
  predicate Plain(j: Value) {
    match j
    case Str(s) => PlainText(s)
    case Arr(items) => PlainItems(items)
    case Obj(ms) => PlainMembers(ms)
    case _ => true
  }

  predicate PlainItems(items: Items) {
    items.Item? ==> Plain(items.head) && PlainItems(items.tail)
  }

  predicate PlainMembers(ms: Members) {
    ms.Member? ==> PlainText(ms.key) && Plain(ms.value) && PlainMembers(ms.more)
  }

  /** What follows a value in a document: nothing that could extend a number. */
  predicate Follows(rest: string) {
    rest != "" ==> !IsDigitOf(rest[0], 10) && !Extends(rest[0])
  }

  lemma StringRoundTrip(s: string, rest: string)
    requires PlainText(s)
    ensures ParseString(s + ("\"" + rest)) == Done(s, rest)
  {
    IndexOfAppend(s, '"', "\"" + rest);
  }

  lemma DigitsRoundTrip(digits: string, rest: string, neg: bool)
    requires digits != "" && AllDigits(digits, 10) && (digits[0] == '0' ==> digits == "0") && Follows(rest)
    ensures ParseDigits(digits + rest, neg) == Done(if neg then 0 - NatOf(digits, 10) else NatOf(digits, 10), rest)
  {
    DigitRunAppend(digits, 10, rest);
    Joint(digits, rest);
    DigitsParse(digits + rest, |digits|, digits, rest, neg);
  }

  lemma Joint(a: string, b: string)
    ensures (a + b)[..|a|] == a && (a + b)[|a|..] == b
    ensures (a != "" ==> (a + b)[0] == a[0]) && (b != "" ==> (a + b)[|a|] == b[0])
  {
  }

  lemma DigitsParse(t: string, n: nat, digits: string, rest: string, neg: bool)
    requires 0 < n <= |t| && n == DigitRun(t, 10) && t[..n] == digits && t[n..] == rest
    requires (n > 1 ==> t[0] != '0') && (n < |t| ==> !Extends(t[n])) && AllDigits(digits, 10)
    ensures ParseDigits(t, neg) == Done(if neg then 0 - NatOf(digits, 10) else NatOf(digits, 10), rest)
  {
  }

  lemma NumberRoundTrip(n: int, rest: string)
    requires Follows(rest)
    ensures ParseNumber(PrintInt(n) + rest) == Done(n, rest)
  {
    if n < 0 {
      NegativeReads(0 - n, PrintNat(-n, 10), rest);
    } else {
      PositiveReads(n, PrintNat(n, 10), rest);
    }
  }

  lemma PositiveReads(n: nat, digits: string, rest: string)
    requires Follows(rest) && digits == PrintNat(n, 10)
    ensures ParseNumber(digits + rest) == Done(n, rest)
  {
    NatOfPrintNat(n, 10);
    DigitsRoundTrip(digits, rest, false);
    Joint(digits, rest);
    assert IsDigitOf(digits[0], 10);
  }

  lemma NegativeReads(n: nat, digits: string, rest: string)
    requires Follows(rest) && digits == PrintNat(n, 10)
    ensures ParseNumber("-" + digits + rest) == Done(0 - n, rest)
  {
    NatOfPrintNat(n, 10);
    DigitsRoundTrip(digits, rest, true);
    SignThenDigits(digits, rest);
  }

  lemma SignThenDigits(digits: string, rest: string)
    ensures ParseNumber("-" + digits + rest) == ParseDigits(digits + rest, true)
  {
    assert ("-" + digits + rest)[1..] == digits + rest;
  }

  /** The first character of a value's text tells its kind. */
  lemma FirstChar(j: Value, rest: string)
    ensures var s := Show(j, rest);
      && s != ""
      && (j.Str? <==> s[0] == '"') && (j.Arr? <==> s[0] == '[') && (j.Obj? <==> s[0] == '{')
      && (j.Num? <==> s[0] == '-' || IsDigitOf(s[0], 10)) && s[0] != ']'
  {
    if j.Num? {
      assert PrintInt(j.n)[0] in PrintInt(j.n);
    }
  }

  /** Reading a printed value gives the value and leaves the rest. */
  lemma {:induction false} ValueRoundTrip(j: Value, rest: string)
    requires Plain(j) && Follows(rest)
    ensures ParseValue(Show(j, rest)) == Done(j, rest)
    decreases j
  {
    match j
    case Null => NullReads(rest);
    case Bool(b) => BoolReads(b, if b then "true" else "false", rest);
    case Num(n) =>
      NumberRoundTrip(n, rest);
      FirstChar(j, rest);
      NumberReads(PrintInt(n) + rest, n, rest);
    case Str(t) =>
      StringRoundTrip(t, rest);
      StringReads(t + ("\"" + rest), t, rest);
    case Arr(items) =>
      if items.Item? {
        ItemsRoundTrip(items, rest);
        FirstChar(items.head, if items.tail.NoItem? then "]" + rest else "," + ShowItems(items.tail, "]" + rest));
      }
      ArrayReads(ShowItems(items, "]" + rest), items, rest);
    case Obj(ms) =>
      if ms.Member? {
        MembersRoundTrip(ms, rest);
      }
      ObjectReads(ShowMembers(ms, "}" + rest), ms, rest);
  }

  /** The first character of a string, an array or an object. */
  predicate Opens(c: char) { c == '"' || c == '[' || c == '{' }

  lemma ScalarReads(s: string)
    requires s != "" && !Opens(s[0])
    ensures ParseValue(s) == ParseScalar(s)
  {
  }

  lemma NullReads(rest: string)
    ensures ParseValue("null" + rest) == Done(Null, rest)
  {
    Joint("null", rest);
    ScalarReads("null" + rest);
  }

  lemma BoolReads(b: bool, word: string, rest: string)
    requires word == if b then "true" else "false"
    ensures ParseValue(word + rest) == Done(Bool(b), rest)
  {
    Joint(word, rest);
    NotKeyword(word + rest, "null");
    NotKeyword(word + rest, if b then "false" else "true");
    ScalarReads(word + rest);
  }

  lemma NotKeyword(s: string, word: string)
    requires s != "" && word != "" && s[0] != word[0]
    ensures !(word <= s)
  {
  }

  lemma NumberReads(s: string, n: int, rest: string)
    requires ParseNumber(s) == Done(n, rest) && s != "" && (s[0] == '-' || IsDigitOf(s[0], 10))
    ensures ParseValue(s) == Done(Num(n), rest)
  {
    NotKeyword(s, "null");
    NotKeyword(s, "true");
    NotKeyword(s, "false");
    ScalarReads(s);
  }

  lemma StringReads(t: string, text: string, rest: string)
    requires ParseString(t) == Done(text, rest)
    ensures ParseValue("\"" + t) == Done(Str(text), rest)
  {
    assert ("\"" + t)[1..] == t;
  }

  lemma ArrayReads(t: string, items: Items, rest: string)
    requires if items.NoItem? then t == "]" + rest else t != "" && t[0] != ']' && ParseItems(t) == Done(items, rest)
    ensures ParseValue("[" + t) == Done(Arr(items), rest)
  {
    var s := "[" + t;
    assert s[1..] == t && (items.NoItem? ==> s[2..] == rest);
  }

  lemma ObjectReads(t: string, ms: Members, rest: string)
    requires if ms.NoMember? then t == "}" + rest else t != "" && t[0] != '}' && ParseMembers(t) == Done(ms, rest)
    ensures ParseValue("{" + t) == Done(Obj(ms), rest)
  {
    var s := "{" + t;
    assert s[1..] == t && (ms.NoMember? ==> s[2..] == rest);
  }

  lemma {:induction false} ItemsRoundTrip(items: Items, rest: string)
    requires items.Item? && PlainItems(items)
    ensures ParseItems(ShowItems(items, "]" + rest)) == Done(items, rest)
    decreases items
  {
    if items.tail.NoItem? {
      ValueRoundTrip(items.head, "]" + rest);
      assert ("]" + rest)[1..] == rest;
    } else {
      var next := ShowItems(items.tail, "]" + rest);
      ValueRoundTrip(items.head, "," + next);
      assert ("," + next)[1..] == next;
      ItemsRoundTrip(items.tail, rest);
    }
  }

  /** One member is read: its key, its value, and then what its value leaves. */
  lemma MemberStep(key: string, value: string, j: Value, next: string)
    requires PlainText(key) && ParseValue(value) == Done(j, next)
    ensures var p := ParseMembers("\"" + (key + ("\":" + value)));
            && (next != "" && next[0] == '}' ==> p == Done(Member(key, j, NoMember), next[1..]))
            && (next != "" && next[0] == ',' && ParseMembers(next[1..]).Done? ==>
                  p == Done(Member(key, j, ParseMembers(next[1..]).value), ParseMembers(next[1..]).rest))
  {
    MemberText(key, value);
    StringRoundTrip(key, ":" + value);
    AfterColon(value);
  }

  lemma MemberText(key: string, value: string)
    ensures var s := "\"" + (key + ("\":" + value)); s[0] == '"' && s[1..] == key + ("\"" + (":" + value))
  {
    assert "\":" + value == "\"" + (":" + value);
  }

  lemma AfterColon(value: string)
    ensures (":" + value)[0] == ':' && (":" + value)[1..] == value
  {
  }

  lemma {:induction false} MembersRoundTrip(ms: Members, rest: string)
    requires ms.Member? && PlainMembers(ms)
    ensures ParseMembers(ShowMembers(ms, "}" + rest)) == Done(ms, rest)
    decreases ms
  {
    var next := if ms.more.NoMember? then "}" + rest else "," + ShowMembers(ms.more, "}" + rest);
    ValueRoundTrip(ms.value, next);
    MemberStep(ms.key, Show(ms.value, next), ms.value, next);
    if ms.more.NoMember? {
      assert next[1..] == rest;
    } else {
      assert next[1..] == ShowMembers(ms.more, "}" + rest);
      MembersRoundTrip(ms.more, rest);
    }
  }

  // ------------------------------------------------------------ printing from the left

  /** `"key":` */
  function Key(key: string): string { "\"" + key + "\":" }

  /** What is on the stream after a value is printed behind `before`. */
  function Emit(before: string, j: Value): string
    decreases j
  {
    match j
    case Null => before + "null"
    case Bool(b) => before + if b then "true" else "false"
    case Num(n) => before + PrintInt(n)
    case Str(s) => before + "\"" + s + "\""
    case Arr(items) => EmitItems(before + "[", items) + "]"
    case Obj(ms) => EmitMembers(before + "{", ms) + "}"
  }

  function EmitItems(before: string, items: Items): string
    decreases items
  {
    match items
    case NoItem => before
    case Item(j, NoItem) => Emit(before, j)
    case Item(j, tail) => EmitItems(Emit(before, j) + ",", tail)
  }

  function EmitMembers(before: string, ms: Members): string
    decreases ms
  {
    match ms
    case NoMember => before
    case Member(k, j, NoMember) => Emit(before + Key(k), j)
    case Member(k, j, more) => EmitMembers(Emit(before + Key(k), j) + ",", more)
  }

  /** A member with others behind it. */
  function After(before: string, key: string, j: Value): string {
    Emit(before + Key(key), j) + ","
  }

  lemma EmitMember(before: string, key: string, j: Value, more: Members)
    requires more.Member?
    ensures EmitMembers(before, Member(key, j, more)) == EmitMembers(After(before, key, j), more)
  {
  }

  /** A document on its own. */
  function Printed(ms: Members): string { EmitMembers("{", ms) + "}" }

  lemma PrintedIsShow(ms: Members, rest: string)
    ensures Printed(ms) + rest == Show(Obj(ms), rest)
  {
    EmitMembersIsShow("{", ms, "}" + rest);
    Assoc(EmitMembers("{", ms), "}", rest);
  }

  lemma KeyText(key: string, value: string)
    ensures "\"" + (key + ("\":" + value)) == Key(key) + value
  {
  }

  /** Both ways of printing write the same text. */
  lemma {:induction false} EmitIsShow(before: string, j: Value, rest: string)
    ensures Emit(before, j) + rest == before + Show(j, rest)
    decreases j
  {
    match j
    case Str(s) =>
      Assoc(before + "\"" + s, "\"", rest);
      Assoc(before + "\"", s, "\"" + rest);
      Assoc(before, "\"", s + ("\"" + rest));
    case Arr(items) =>
      EmitItemsIsShow(before + "[", items, "]" + rest);
      Assoc(EmitItems(before + "[", items), "]", rest);
      Assoc(before, "[", ShowItems(items, "]" + rest));
    case Obj(ms) =>
      EmitMembersIsShow(before + "{", ms, "}" + rest);
      Assoc(EmitMembers(before + "{", ms), "}", rest);
      Assoc(before, "{", ShowMembers(ms, "}" + rest));
    case Num(n) => Assoc(before, PrintInt(n), rest);
    case Bool(b) => Assoc(before, if b then "true" else "false", rest);
    case Null => Assoc(before, "null", rest);
  }

  lemma {:induction false} EmitItemsIsShow(before: string, items: Items, rest: string)
    ensures EmitItems(before, items) + rest == before + ShowItems(items, rest)
    decreases items
  {
    match items
    case NoItem =>
    case Item(j, NoItem) => EmitIsShow(before, j, rest);
    case Item(j, tail) =>
      EmitItemsIsShow(Emit(before, j) + ",", tail, rest);
      Assoc(Emit(before, j), ",", ShowItems(tail, rest));
      EmitIsShow(before, j, "," + ShowItems(tail, rest));
  }

  lemma {:induction false} EmitMembersIsShow(before: string, ms: Members, rest: string)
    ensures EmitMembers(before, ms) + rest == before + ShowMembers(ms, rest)
    decreases ms
  {
    match ms
    case NoMember =>
    case Member(k, j, more) =>
      var next := if more.NoMember? then rest else "," + ShowMembers(more, rest);
      EmitIsShow(before + Key(k), j, next);
      Assoc(before, Key(k), Show(j, next));
      KeyText(k, Show(j, next));
      if !more.NoMember? {
        EmitMembersIsShow(Emit(before + Key(k), j) + ",", more, rest);
        Assoc(Emit(before + Key(k), j), ",", ShowMembers(more, rest));
      }
  }

  /** A list that grows at its end: each value but the first after a comma. */
  function Snoc(items: Items, j: Value): (r: Items)
    ensures r.Item?
  {
    if items.NoItem? then Item(j, NoItem) else Item(items.head, Snoc(items.tail, j))
  }

  lemma {:induction false} EmitSnoc(before: string, items: Items, j: Value)
    ensures EmitItems(before, Snoc(items, j))
            == Emit(if items.NoItem? then before else EmitItems(before, items) + ",", j)
    decreases items
  {
    if items.Item? {
      EmitSnoc(Emit(before, items.head) + ",", items.tail, j);
    }
  }
}
