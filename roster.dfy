/** The ordered key list of a JavaScript Map: `Array.from(map.keys())`
    lists keys in insertion order, `set` on a present key keeps its place and
    `delete` takes the key out. */
module Roster {

  predicate NoDup(s: seq<string>) {
    forall i, j :: 0 <= i < j < |s| ==> s[i] != s[j]
  }

  /** The list with `x` taken out, everything else in its order. */
  function Without(s: seq<string>, x: string): (r: seq<string>)
    ensures forall y :: y in r <==> y in s && y != x
    ensures NoDup(s) ==> NoDup(r)
    ensures x !in s ==> r == s
    ensures x in s && NoDup(s) ==> |r| == |s| - 1
  {
    if s == [] then []
    else if s[0] == x then Without(s[1..], x)
    else
      var r := Without(s[1..], x);
      assert NoDup(s) ==> s[0] !in s[1..] && NoDup(s[1..]);
      Prepend(s[0], r);
      [s[0]] + r
  }

  lemma Prepend(x: string, s: seq<string>)
    ensures x !in s && NoDup(s) ==> NoDup([x] + s)
  {
    if x !in s && NoDup(s) {
      forall i, j | 0 <= i < j < |[x] + s| ensures ([x] + s)[i] != ([x] + s)[j] {
        if i > 0 {
          assert ([x] + s)[i] == s[i - 1];
        }
      }
    }
  }

  /** Appending a name not yet listed keeps the list free of duplicates. */
  lemma AppendNew(s: seq<string>, x: string)
    requires NoDup(s) && x !in s
    ensures NoDup(s + [x])
    ensures forall y :: y in s + [x] <==> y in s || y == x
  {
  }

  /** Removing `x` commutes with concatenation, so the survivors keep their
      relative order. */
  lemma {:induction false} WithoutAppend(a: seq<string>, b: seq<string>, x: string)
    ensures Without(a + b, x) == Without(a, x) + Without(b, x)
  {
    if a == [] {
      assert a + b == b;
    } else {
      assert (a + b)[1..] == a[1..] + b;
      WithoutAppend(a[1..], b, x);
    }
  }
}
