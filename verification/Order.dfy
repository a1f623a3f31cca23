/** strcmp and what sorting by it determines. */
module Order {

  /** Section 7.21.4.2 of ISO C99: the sign of the first difference of two strings of bytes. */
  function Strcmp(a: string, b: string): int {
    if a == "" && b == "" then 0
    else if a == "" then -1
    else if b == "" then 1
    else if a[0] != b[0] then a[0] as int - b[0] as int
    else Strcmp(a[1..], b[1..])
  }

  lemma {:induction false} StrcmpZero(a: string, b: string)
    ensures Strcmp(a, b) == 0 <==> a == b
  {
    if a != "" && b != "" && a[0] == b[0] {
      StrcmpZero(a[1..], b[1..]);
      assert a == [a[0]] + a[1..] && b == [b[0]] + b[1..];
    }
  }

  lemma {:induction false} StrcmpAntisymmetric(a: string, b: string)
    ensures Strcmp(a, b) < 0 <==> Strcmp(b, a) > 0
  {
    if a != "" && b != "" && a[0] == b[0] {
      StrcmpAntisymmetric(a[1..], b[1..]);
    }
  }

  lemma {:induction false} StrcmpTransitive(a: string, b: string, c: string)
    requires Strcmp(a, b) <= 0 && Strcmp(b, c) <= 0
    ensures Strcmp(a, c) <= 0
    ensures Strcmp(a, b) < 0 || Strcmp(b, c) < 0 ==> Strcmp(a, c) < 0
  {
    if a != "" && b != "" && c != "" && a[0] == b[0] == c[0] {
      StrcmpTransitive(a[1..], b[1..], c[1..]);
    }
  }

  /** Behind a common beginning, the shorter text comes first, or the one with the smaller byte. */
  lemma {:induction false} StrcmpFirstDifference(common: string, a: string, b: string)
    ensures a == "" && b != "" ==> Strcmp(common + a, common + b) < 0
    ensures a != "" && b != "" && a[0] < b[0] ==> Strcmp(common + a, common + b) < 0
  {
    if common == "" {
      assert common + a == a && common + b == b;
    } else {
      assert (common + a)[1..] == common[1..] + a && (common + b)[1..] == common[1..] + b;
      StrcmpFirstDifference(common[1..], a, b);
    }
  }

  /** Keys in strictly increasing strcmp order. */
  predicate StrictlySorted(keys: seq<string>) {
    forall i, j :: 0 <= i < j < |keys| ==> Strcmp(keys[i], keys[j]) < 0
  }

  predicate SortedBy(keys: seq<string>) {
    forall i, j :: 0 <= i < j < |keys| ==> Strcmp(keys[i], keys[j]) <= 0
  }

  predicate Distinct<T(==)>(xs: seq<T>) {
    forall i, j :: 0 <= i < j < |xs| ==> xs[i] != xs[j]
  }

  /** The first element with this key, or |xs|. */
  function FirstWith<T>(xs: seq<T>, key: T -> string, k: string): (j: nat)
    ensures j <= |xs|
    ensures j < |xs| ==> key(xs[j]) == k
    ensures forall i :: 0 <= i < j ==> key(xs[i]) != k
  {
    if xs == [] || key(xs[0]) == k then 0 else 1 + FirstWith(xs[1..], key, k)
  }

  lemma SortedDistinctIsStrict(keys: seq<string>)
    requires SortedBy(keys) && Distinct(keys)
    ensures StrictlySorted(keys)
  {
    forall i, j | 0 <= i < j < |keys|
      ensures Strcmp(keys[i], keys[j]) < 0
    {
      StrcmpZero(keys[i], keys[j]);
    }
  }

  /** A strictly sorted key list is determined by its set of keys. */
  lemma {:induction false} StrictlySortedUnique(s: seq<string>, t: seq<string>)
    requires StrictlySorted(s) && StrictlySorted(t)
    requires forall k :: k in s <==> k in t
    ensures s == t
  {
    if s == [] {
      HeadMember(t);
    } else {
      assert s[0] in t && t[0] in s by {
        assert s[0] in s;
        assert t != [] by {
          assert s[0] in t;
        }
        assert t[0] in t;
      }
      SameHead(s, t);
      forall k
        ensures k in s[1..] <==> k in t[1..]
      {
        TailKeys(s, k);
        TailKeys(t, k);
      }
      StrictlySortedUnique(s[1..], t[1..]);
      assert s == [s[0]] + s[1..] && t == [t[0]] + t[1..];
    }
  }

  lemma HeadMember(t: seq<string>)
    ensures t != [] ==> t[0] in t
  {
  }

  lemma SameHead(s: seq<string>, t: seq<string>)
    requires s != [] && t != [] && StrictlySorted(s) && StrictlySorted(t) && s[0] in t && t[0] in s
    ensures s[0] == t[0]
  {
    var i :| 0 <= i < |t| && t[i] == s[0];
    var j :| 0 <= j < |s| && s[j] == t[0];
    if i > 0 && j > 0 {
      StrcmpAntisymmetric(t[0], t[i]);
    }
  }

  lemma TailKeys(s: seq<string>, k: string)
    requires s != [] && StrictlySorted(s)
    ensures k in s[1..] <==> k in s && k != s[0]
  {
    StrcmpZero(s[0], k);
  }
}
