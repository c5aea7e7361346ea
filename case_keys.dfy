/**
 * The sort key of the directory scan: `sorted(listing, key=str.lower)` under
 * Python 2, where names are byte strings, `str.lower` changes only the ASCII
 * letters A-Z, and strings compare code unit by code unit with a proper
 * prefix first.
 */
module CaseKeys {

  /** ASCII lower-casing of one character. */
  function LowerChar(c: char): char
  {
    if 'A' <= c <= 'Z' then (c as int + 32) as char else c
  }

  /** `str.lower` on a byte string: A-Z become a-z, every other character is kept. */
  function Lower(s: string): (r: string)
    ensures |r| == |s|
    ensures forall i :: 0 <= i < |s| ==> !('A' <= r[i] <= 'Z')
    ensures forall i :: 0 <= i < |s| && 'A' <= s[i] <= 'Z' ==> r[i] as int == s[i] as int + 32
    ensures forall i :: 0 <= i < |s| && !('A' <= s[i] <= 'Z') ==> r[i] == s[i]
  {
    seq(|s|, i requires 0 <= i < |s| => LowerChar(s[i]))
  }

  /** Lower-casing twice is lower-casing once. */
  lemma LowerIdempotent(s: string)
    ensures Lower(Lower(s)) == Lower(s)
  {
    var t := Lower(s);
    assert forall i :: 0 <= i < |t| ==> Lower(t)[i] == t[i];
  }

  /** Python's `<=` on strings: the first differing character decides, a proper prefix comes first. */
  predicate LexLe(a: string, b: string)
  {
    |a| == 0 || (|b| > 0 && (a[0] < b[0] || (a[0] == b[0] && LexLe(a[1..], b[1..]))))
  }

  lemma {:induction false} LexLeReflexive(a: string)
    ensures LexLe(a, a)
  {
    if |a| > 0 {
      LexLeReflexive(a[1..]);
    }
  }

  lemma {:induction false} LexLeTotal(a: string, b: string)
    ensures LexLe(a, b) || LexLe(b, a)
  {
    if |a| > 0 && |b| > 0 && a[0] == b[0] {
      LexLeTotal(a[1..], b[1..]);
    }
  }

  lemma {:induction false} LexLeAntisymmetric(a: string, b: string)
    requires LexLe(a, b) && LexLe(b, a)
    ensures a == b
  {
    if |a| > 0 {
      LexLeAntisymmetric(a[1..], b[1..]);
      assert a == [a[0]] + a[1..] && b == [b[0]] + b[1..];
    }
  }

  lemma {:induction false} LexLeTransitive(a: string, b: string, c: string)
    requires LexLe(a, b) && LexLe(b, c)
    ensures LexLe(a, c)
  {
    if |a| > 0 && a[0] == b[0] && b[0] == c[0] {
      LexLeTransitive(a[1..], b[1..], c[1..]);
    }
  }

  /** Two strings that agree before position `k` and differ there are ordered by that position. */
  lemma {:induction false} LexLeDecidedAt(a: string, b: string, k: nat)
    requires k < |a| && k < |b| && b[k] < a[k]
    requires forall m :: 0 <= m < k ==> a[m] == b[m]
    ensures !LexLe(a, b)
  {
    if k > 0 {
      LexLeDecidedAt(a[1..], b[1..], k - 1);
    }
  }

  /** The order `sorted(..., key=str.lower)` sorts by. */
  predicate KeyLe(a: string, b: string)
  {
    LexLe(Lower(a), Lower(b))
  }

  /** Names whose lower-cased first characters differ are ordered by them alone. */
  lemma KeyDecidedByFirst(a: string, b: string)
    requires a != [] && b != [] && LowerChar(a[0]) < LowerChar(b[0])
    ensures KeyLe(a, b) && !KeyLe(b, a)
  {
    LexLeDecidedAt(Lower(b), Lower(a), 0);
  }

  /** Every listing is sorted: by lower-cased keys, nondecreasing. */
  ghost predicate SortedByKey(s: seq<string>)
  {
    forall i, j :: 0 <= i < j < |s| ==> KeyLe(s[i], s[j])
  }

  /**
   * `s` is a possible result of `sorted(os.listdir(d), key=str.lower)` for a
   * directory whose entry names are `names`: every name exactly once, keys
   * nondecreasing. Names equal up to case may come in either order, because
   * the order `os.listdir` returns them in is not known.
   */
  ghost predicate IsSortedListing(s: seq<string>, names: set<string>)
  {
    SortedByKey(s) && multiset(s) == multiset(names)
  }

  lemma SortedPrepend(x: string, s: seq<string>)
    requires SortedByKey(s)
    requires forall y :: y in multiset(s) ==> KeyLe(x, y)
    ensures SortedByKey([x] + s)
  {
    forall i, j | 0 <= i < j < |[x] + s|
      ensures KeyLe(([x] + s)[i], ([x] + s)[j])
    {
      if i > 0 {
        assert ([x] + s)[i] == s[i - 1] && ([x] + s)[j] == s[j - 1];
      } else {
        assert s[j - 1] in multiset(s);
      }
    }
  }

  /** Inserts `x` into a sorted listing before the first entry whose key is not below it. */
  function InsertByKey(x: string, s: seq<string>): (r: seq<string>)
    requires SortedByKey(s)
    ensures SortedByKey(r)
    ensures multiset(r) == multiset(s) + multiset{x}
  {
    if s == [] then [x]
    else if KeyLe(x, s[0]) then
      HeadBelowAll(x, s);
      [x] + s
    else
      var rest := InsertByKey(x, s[1..]);
      HeadBelowInsert(x, s, rest);
      assert s == [s[0]] + s[1..];
      [s[0]] + rest
  }

  lemma HeadBelowAll(x: string, s: seq<string>)
    requires SortedByKey(s) && s != [] && KeyLe(x, s[0])
    ensures SortedByKey([x] + s)
  {
    forall y | y in multiset(s)
      ensures KeyLe(x, y)
    {
      var k :| 0 <= k < |s| && s[k] == y;
      if k > 0 {
        LexLeTransitive(Lower(x), Lower(s[0]), Lower(y));
      }
    }
    SortedPrepend(x, s);
  }

  lemma HeadBelowInsert(x: string, s: seq<string>, rest: seq<string>)
    requires SortedByKey(s) && s != [] && !KeyLe(x, s[0])
    requires SortedByKey(rest) && multiset(rest) == multiset(s[1..]) + multiset{x}
    ensures SortedByKey([s[0]] + rest)
  {
    LexLeTotal(Lower(x), Lower(s[0]));
    forall y | y in multiset(rest)
      ensures KeyLe(s[0], y)
    {
      if y != x {
        assert y in multiset(s[1..]);
        var k :| 0 <= k < |s[1..]| && s[1..][k] == y;
        assert s[k + 1] == y;
      }
    }
    SortedPrepend(s[0], rest);
  }

  /**
   * `sorted(os.listdir(d), key=str.lower)`: the entry names of a directory,
   * taken in an order the model does not know, put in nondecreasing key order.
   */
  method SortByKey(names: set<string>) returns (s: seq<string>)
    ensures IsSortedListing(s, names)
  {
    s := [];
    var rest := names;
    while rest != {}
      invariant rest <= names
      invariant SortedByKey(s)
      invariant multiset(s) == multiset(names - rest)
      decreases rest
    {
      var x :| x in rest;
      assert names - (rest - {x}) == (names - rest) + {x};
      assert x !in names - rest;
      s := InsertByKey(x, s);
      rest := rest - {x};
    }
    assert names - rest == names;
  }
}
