/**
 * The order in which a directory listing names its entries.  Go's
 * `ioutil.ReadDir` sorts entries by name, comparing the names' bytes; for
 * well-formed UTF-8 names that is the order of their code points, which is
 * the lexicographic order on `string` defined here.
 */
module NameOrder {

  /** Strict lexicographic order: a proper prefix comes first. */
  predicate Less(a: string, b: string)
    decreases |a|
  {
    if a == [] then b != []
    else if b == [] then false
    else if a[0] == b[0] then Less(a[1..], b[1..])
    else a[0] < b[0]
  }

  lemma {:induction false} LessIrreflexive(a: string)
    ensures !Less(a, a)
    decreases |a|
  {
    if a != [] {
      LessIrreflexive(a[1..]);
    }
  }

  lemma {:induction false} LessTransitive(a: string, b: string, c: string)
    requires Less(a, b) && Less(b, c)
    ensures Less(a, c)
    decreases |a|
  {
    if a != [] && a[0] == b[0] && b[0] == c[0] {
      LessTransitive(a[1..], b[1..], c[1..]);
    }
  }

  lemma {:induction false} LessTotal(a: string, b: string)
    ensures a == b || Less(a, b) || Less(b, a)
    decreases |a|
  {
    if a != [] && b != [] && a[0] == b[0] {
      LessTotal(a[1..], b[1..]);
      assert a == [a[0]] + a[1..] && b == [b[0]] + b[1..];
    }
  }

  lemma LessAsymmetric(a: string, b: string)
    ensures !(Less(a, b) && Less(b, a))
  {
    if Less(a, b) && Less(b, a) {
      LessTransitive(a, b, a);
      LessIrreflexive(a);
    }
  }

  /** Strictly increasing, hence also free of duplicates. */
  predicate StrictlySorted(s: seq<string>)
  {
    forall i, j :: 0 <= i < j < |s| ==> Less(s[i], s[j])
  }

  lemma {:induction false} HeadIsLeast(s: seq<string>)
    requires StrictlySorted(s) && s != []
    ensures forall y :: y in s[1..] ==> Less(s[0], y)
    ensures s[0] !in s[1..]
  {
    LessIrreflexive(s[0]);
  }

  lemma SortedCons(x: string, s: seq<string>)
    requires StrictlySorted(s)
    requires forall y :: y in s ==> Less(x, y)
    ensures StrictlySorted([x] + s)
  {
    var r := [x] + s;
    forall i, j | 0 <= i < j < |r|
      ensures Less(r[i], r[j])
    {
      if i == 0 {
        assert r[j] == s[j - 1] && s[j - 1] in s;
      } else {
        assert r[i] == s[i - 1] && r[j] == s[j - 1];
      }
    }
  }

  /** Insertion of a new name into a sorted listing. */
  function Insert(s: seq<string>, x: string): (r: seq<string>)
    requires StrictlySorted(s) && x !in s
    ensures StrictlySorted(r)
    ensures |r| == |s| + 1
    ensures forall y :: y in r <==> y in s || y == x
    decreases |s|
  {
    if s == [] then [x]
    else if Less(x, s[0]) then
      HeadIsLeast(s);
      forall y | y in s[1..] ensures Less(x, y) {
        LessTransitive(x, s[0], y);
      }
      assert s == [s[0]] + s[1..];
      SortedCons(x, s);
      [x] + s
    else
      LessTotal(x, s[0]);
      HeadIsLeast(s);
      assert s == [s[0]] + s[1..];
      var t := Insert(s[1..], x);
      SortedCons(s[0], t);
      [s[0]] + t
  }

  /** The sorted listing of a finite set of names. */
  ghost function SortedOf(names: set<string>): (r: seq<string>)
    ensures StrictlySorted(r)
    ensures forall y :: y in r <==> y in names
    decreases names
  {
    if names == {} then []
    else
      var x :| x in names;
      Insert(SortedOf(names - {x}), x)
  }

  lemma EmptyOrHasHead(s: seq<string>)
    ensures s == [] || s[0] in s
  {
  }

  /** A set of names has exactly one sorted listing. */
  lemma {:induction false} SortedUnique(a: seq<string>, b: seq<string>)
    requires StrictlySorted(a) && StrictlySorted(b)
    requires forall y :: y in a <==> y in b
    ensures a == b
    decreases |a|
  {
    if a == [] {
      EmptyOrHasHead(b);
    } else {
      assert a[0] in b;
      HeadIsLeast(a);
      HeadIsLeast(b);
      LessAsymmetric(a[0], b[0]);
      assert b[0] in a && a[0] in b;
      assert a == [a[0]] + a[1..] && b == [b[0]] + b[1..];
      assert b[0] == a[0];
      forall y ensures y in a[1..] <==> y in b[1..] {
        assert a == [a[0]] + a[1..] && b == [b[0]] + b[1..];
        assert y in a[1..] <==> y in a && y != a[0];
        assert y in b[1..] <==> y in b && y != b[0];
      }
      SortedUnique(a[1..], b[1..]);
      assert a == [a[0]] + a[1..] && b == [b[0]] + b[1..];
    }
  }
}
