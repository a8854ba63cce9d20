/** Ordinal lexicographic order on strings: characters are compared by their
    codes, and a proper prefix comes before every extension of it. This is the
    order in which a pre-order walk of an R-way trie meets its words when it
    visits child slots in increasing index order. */
module Ordering {

  /** `a` comes strictly before `b`: either `a` is a proper prefix of `b`, or
      at the first position where they differ `a` has the smaller code. */
  predicate Before(a: string, b: string)
  {
    if a == [] then b != []
    else b != [] && (a[0] < b[0] || (a[0] == b[0] && Before(a[1..], b[1..])))
  }

  /** Every element comes strictly before every later element. */
  predicate StrictlyAscending(s: seq<string>)
  {
    forall i, j :: 0 <= i < j < |s| ==> Before(s[i], s[j])
  }

  lemma {:induction false} BeforeIrreflexive(a: string)
    ensures !Before(a, a)
  {
    if a != [] {
      BeforeIrreflexive(a[1..]);
    }
  }

  lemma {:induction false} BeforeTransitive(a: string, b: string, c: string)
    requires Before(a, b) && Before(b, c)
    ensures Before(a, c)
  {
    if a != [] && a[0] == b[0] && b[0] == c[0] {
      BeforeTransitive(a[1..], b[1..], c[1..]);
    }
  }

  /** A word comes after each of its proper prefixes: the word stored at a
      node is listed before the words stored below it. */
  lemma {:induction false} PrefixBefore(k: string, w: string)
    requires k <= w && |k| < |w|
    ensures Before(k, w)
  {
    if k != [] {
      PrefixBefore(k[1..], w[1..]);
    }
  }

  /** Words below a smaller child slot come before words below a larger one
      of the same node. */
  lemma {:induction false} BranchBefore(k: string, c: char, d: char, u: string, v: string)
    requires c < d && k + [c] <= u && k + [d] <= v
    ensures Before(u, v)
  {
    if k == [] {
      assert u[0] == c && v[0] == d;
    } else {
      assert (k + [c])[1..] == k[1..] + [c] && (k + [d])[1..] == k[1..] + [d];
      assert u[0] == k[0] == v[0];
      BranchBefore(k[1..], c, d, u[1..], v[1..]);
    }
  }

  /** A strictly ascending sequence lists no string twice. */
  lemma AscendingDistinct(s: seq<string>)
    requires StrictlyAscending(s)
    ensures forall i, j :: 0 <= i < j < |s| ==> s[i] != s[j]
  {
    forall i, j | 0 <= i < j < |s|
      ensures s[i] != s[j]
    {
      BeforeIrreflexive(s[i]);
    }
  }

  /** Concatenating two ascending sequences, all of the first before all of
      the second, gives an ascending sequence. */
  lemma AppendAscending(a: seq<string>, b: seq<string>)
    requires StrictlyAscending(a) && StrictlyAscending(b)
    requires forall x, y :: x in a && y in b ==> Before(x, y)
    ensures StrictlyAscending(a + b)
  {
  }

  /** Only one strictly ascending sequence holds a given set of strings, so
      "these elements, strictly ascending" determines a listing exactly. */
  lemma {:induction false} AscendingUnique(a: seq<string>, b: seq<string>)
    requires StrictlyAscending(a) && StrictlyAscending(b)
    requires forall x :: x in a <==> x in b
    ensures a == b
    decreases |a|
  {
    if b != [] {
      assert b[0] in a;
    }
    if a != [] {
      assert a[0] in b;
      if a[0] != b[0] {
        var j :| 0 <= j < |b| && b[j] == a[0];
        var i :| 0 <= i < |a| && a[i] == b[0];
        assert Before(b[0], a[0]) && Before(a[0], b[0]);
        BeforeTransitive(a[0], b[0], a[0]);
        BeforeIrreflexive(a[0]);
        assert false;
      }
      forall x
        ensures x in a[1..] <==> x in b[1..]
      {
        if x in a[1..] {
          var i :| 1 <= i < |a| && a[i] == x;
          assert Before(a[0], a[i]);
          BeforeIrreflexive(x);
          assert x in b && x != b[0];
        }
        if x in b[1..] {
          var j :| 1 <= j < |b| && b[j] == x;
          assert Before(b[0], b[j]);
          BeforeIrreflexive(x);
          assert x in a && x != a[0];
        }
      }
      AscendingUnique(a[1..], b[1..]);
      assert a == [a[0]] + a[1..] && b == [b[0]] + b[1..];
    }
  }
}
