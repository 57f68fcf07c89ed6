/**
 Names that read as whiteout markers, said without cutting a path: a marker is
 what one writes into a directory, and so is what it deletes.
 */
module Markers {
  import opened PathParents
  import opened CheckoutExpected

  /** The path is the whiteout marker for a name in a directory. */
  predicate Marks(p: string, d: string, n: string) { '/' !in n && p == Under(d, ".wh." + n) }

  /** The last component begins as a whiteout marker does. */
  ghost predicate MarkerNamed(p: string)
  {
    exists d, n :: Marks(p, d, n)
  }

  lemma PrefixCut(base: string)
    requires HasPrefix(base, WHITEOUT_PREFIX)
    ensures base == ".wh." + base[4..]
  {
  }

  lemma PrefixPut(n: string)
    ensures HasPrefix(".wh." + n, WHITEOUT_PREFIX) && (".wh." + n)[4..] == n
    ensures ".wh." + n == OPAQUE_MARKER <==> n == ".wh..opq"
  {
    assert OPAQUE_MARKER == ".wh." + ".wh..opq";
    if ".wh." + n == OPAQUE_MARKER {
      assert n == (".wh." + n)[4..];
      assert OPAQUE_MARKER[4..] == ".wh..opq";
    }
  }

  lemma MarkerFromFront(d: string, n: string)
    requires '/' !in n
    ensures IsWhiteout(Under(d, ".wh." + n))
  {
    assert forall c | c in ".wh." + n :: c in ".wh." || c in n;
    JoinSplits(d, ".wh." + n);
    PrefixPut(n);
  }

  lemma MarkerFromBack(p: string) returns (d: string, n: string)
    requires Canonical(p) && IsWhiteout(p)
    ensures Marks(p, d, n) && Base(p) == ".wh." + n && n == Base(p)[4..]
    ensures d == "" <==> Dir(p) == "."
    ensures d != "" ==> d == Dir(p)
  {
    d := SplitJoins(p);
    n := Base(p)[4..];
    PrefixCut(Base(p));
  }

  lemma {:induction false} MarkerNames(p: string)
    requires Canonical(p)
    ensures MarkerNamed(p) <==> IsWhiteout(p)
  {
    if IsWhiteout(p) {
      var d, n := MarkerFromBack(p);
    }
    if MarkerNamed(p) {
      var d, n :| Marks(p, d, n);
      MarkerFromFront(d, n);
    }
  }
}
