/**
 Slash separated paths and the order a checkout is digested in.

 A Go string is a sequence of bytes. Here it is a `string` whose characters
 stand for those bytes, so `<` on characters is the byte order.
 */
module Paths {
  import opened Text

  /** The byte order Go gives strings, which is also what `sort.Strings` uses. */
  predicate Less(a: string, b: string)
  {
    b != "" && (a == "" || a[0] < b[0] || (a[0] == b[0] && Less(a[1..], b[1..])))
  }

  // `strings.Cut(s, "/")` answers with these three.
  function Head(s: string): string { s[..IndexOf(s, '/')] }

  predicate Deeper(s: string) { IndexOf(s, '/') < |s| }

  function Rest(s: string): string
  {
    if Deeper(s) then s[IndexOf(s, '/') + 1..] else ""
  }

  /** The order on paths, component by component. */
  predicate Before(a: string, b: string)
    decreases |a|
  {
    if Head(a) != Head(b) then Less(Head(a), Head(b))
    else if !Deeper(a) || !Deeper(b) then !Deeper(a) && Deeper(b)
    else Before(Rest(a), Rest(b))
  }

  /** The comparison the derivation sorts with: two strings shrink together. */
  method BeforeCheckoutPath(first: string, second: string) returns (before: bool)
    ensures before == Before(first, second)
  {
    var a, b := first, second;
    while true
      invariant Before(first, second) == Before(a, b)
      decreases |a|
    {
      if Head(a) != Head(b) {
        return Less(Head(a), Head(b));
      }
      if !Deeper(a) || !Deeper(b) {
        return !Deeper(a) && Deeper(b);
      }
      a, b := Rest(a), Rest(b);
    }
  }

  // ---------- strict total orders ----------

  lemma {:induction false} LessTransitive(a: string, b: string, c: string)
    requires Less(a, b) && Less(b, c)
    ensures Less(a, c)
  {
    if a != "" && a[0] == b[0] && b[0] == c[0] {
      LessTransitive(a[1..], b[1..], c[1..]);
    }
  }

  lemma {:induction false} LessTrichotomy(a: string, b: string)
    ensures a == b ==> !Less(a, b)
    ensures a != b ==> (Less(a, b) <==> !Less(b, a))
  {
    if a != "" && b != "" && a[0] == b[0] {
      assert a == [a[0]] + a[1..] && b == [b[0]] + b[1..];
      LessTrichotomy(a[1..], b[1..]);
    }
  }

  lemma CutRejoins(s: string)
    ensures s == if Deeper(s) then Head(s) + "/" + Rest(s) else Head(s)
  {
  }

  // ---------- what the orders mean ----------

  /** The two agree up to a place, where the first ends or has the smaller byte. */
  predicate SmallerFrom(a: string, b: string, k: nat)
  {
    k <= |a| && k < |b| && a[..k] == b[..k] && (k == |a| || a[k] < b[k])
  }

  lemma SmallerSplits(a: string, b: string, k: nat)
    requires SmallerFrom(a, b, k)
    ensures k == 0 || (a != "" && b != "" && a[0] == b[0] && SmallerFrom(a[1..], b[1..], k - 1))
  {
    if k > 0 {
      assert a[..k][0] == a[0] && b[..k][0] == b[0];
      assert a[1..][..k - 1] == a[..k][1..] && b[1..][..k - 1] == b[..k][1..];
    }
  }

  lemma {:induction false} LessMeaning(a: string, b: string)
    ensures Less(a, b) <==> exists k: nat :: SmallerFrom(a, b, k)
  {
    if a != "" && b != "" && a[0] == b[0] {
      LessMeaning(a[1..], b[1..]);
      if k: nat :| SmallerFrom(a[1..], b[1..], k) {
        assert a[..k + 1] == [a[0]] + a[1..][..k] && b[..k + 1] == [b[0]] + b[1..][..k];
        assert SmallerFrom(a, b, k + 1);
      }
      if k: nat :| SmallerFrom(a, b, k) {
        SmallerSplits(a, b, k);
      }
    } else {
      if Less(a, b) { assert SmallerFrom(a, b, 0); }
      if k: nat :| SmallerFrom(a, b, k) {
        SmallerSplits(a, b, k);
      }
    }
  }

  /**
   The paths share their components up to one: there the first has the smaller
   name, or it ends while the second goes on.
   */
  predicate PartsBefore(p: string, x: string, s: string, y: string, t: string)
  {
    && '/' !in x && '/' !in y && (p != "" ==> p[|p| - 1] == '/')
    && (s != "" ==> s[0] == '/') && (t != "" ==> t[0] == '/')
    && (Less(x, y) || (x == y && s == "" && t != ""))
  }

  ghost predicate ComponentsBefore(a: string, b: string)
  {
    exists p, x, s, y, t :: a == p + (x + s) && b == p + (y + t) && PartsBefore(p, x, s, y, t)
  }

  lemma HeadOfParts(x: string, s: string)
    requires '/' !in x && (s != "" ==> s[0] == '/')
    ensures Head(x + s) == x && (Deeper(x + s) <==> s != "")
  {
    if s != "" {
      assert x + s == x + ['/'] + s[1..];
      CutsAtIndex(x + s, '/', x, s[1..]);
    } else {
      assert x + s == x;
      assert forall j | 0 <= j < |x| :: x[j] in x;
    }
  }

  /** A shared prefix begins with a shared component. */
  lemma HeadOfPrefix(p: string, more: string) returns (q: string)
    requires p != "" && p[|p| - 1] == '/'
    ensures Deeper(p + more) && Head(p + more) == Head(p) && Deeper(p) && q == Rest(p)
    ensures Rest(p + more) == q + more && (q != "" ==> q[|q| - 1] == '/') && |q| < |p|
  {
    assert p[|p| - 1] in p;
    var i := IndexOf(p, '/');
    assert i < |p|;
    IndexCuts(p, '/');
    q := p[i + 1..];
    assert p + more == p[..i] + ['/'] + (q + more);
    CutsAtIndex(p + more, '/', p[..i], q + more);
  }

  lemma {:induction false} PartsAtOnce(x: string, s: string, y: string, t: string)
    requires PartsBefore("", x, s, y, t)
    ensures Before(x + s, y + t)
  {
    HeadOfParts(x, s);
    HeadOfParts(y, t);
    LessTrichotomy(x, y);
  }

  lemma {:induction false} BeforeBehind(p: string, u: string, v: string)
    requires p != "" && p[|p| - 1] == '/' && Before(Rest(p) + u, Rest(p) + v)
    ensures Before(p + u, p + v)
  {
    var q := HeadOfPrefix(p, u);
    var r := HeadOfPrefix(p, v);
  }

  lemma {:induction false} PartsAreBefore(p: string, x: string, s: string, y: string, t: string)
    requires PartsBefore(p, x, s, y, t)
    ensures Before(p + (x + s), p + (y + t))
    decreases |p|
  {
    if p == "" {
      PartsAtOnce(x, s, y, t);
      assert p + (x + s) == x + s && p + (y + t) == y + t;
    } else {
      var q := HeadOfPrefix(p, "");
      PartsAreBefore(q, x, s, y, t);
      BeforeBehind(p, x + s, y + t);
    }
  }

  /** What follows the first component, with the slash. */
  function Tail(a: string): string { a[IndexOf(a, '/')..] }

  lemma HeadAndTail(a: string)
    ensures a == Head(a) + Tail(a) && '/' !in Head(a)
    ensures (Tail(a) != "" <==> Deeper(a)) && (Tail(a) != "" ==> Tail(a)[0] == '/')
    ensures Deeper(a) ==> a == Head(a) + "/" + Rest(a)
  {
    assert forall j | 0 <= j < IndexOf(a, '/') :: a[j] != '/';
    CutRejoins(a);
  }

  lemma {:induction false} BeforeHasParts(a: string, b: string)
    requires Before(a, b)
    ensures ComponentsBefore(a, b)
    decreases |a|
  {
    HeadAndTail(a);
    HeadAndTail(b);
    if Head(a) != Head(b) || !Deeper(a) || !Deeper(b) {
      assert "" + (Head(a) + Tail(a)) == a && "" + (Head(b) + Tail(b)) == b;
      assert PartsBefore("", Head(a), Tail(a), Head(b), Tail(b));
    } else {
      BeforeHasParts(Rest(a), Rest(b));
      ComponentsBehind(Head(a), Rest(a), Rest(b));
    }
  }

  lemma Associate(u: string, v: string, w: string)
    ensures u + (v + w) == (u + v) + w
  {
  }

  lemma PartsBehind(front: string, p: string, x: string, s: string, y: string, t: string)
    requires PartsBefore(p, x, s, y, t) && front != "" && front[|front| - 1] == '/'
    ensures PartsBefore(front + p, x, s, y, t)
  {
  }

  lemma ComponentsBehind(head: string, a: string, b: string)
    requires ComponentsBefore(a, b)
    ensures ComponentsBefore(head + "/" + a, head + "/" + b)
  {
    var front := head + "/";
    var p, x, s, y, t :| a == p + (x + s) && b == p + (y + t) && PartsBefore(p, x, s, y, t);
    PartsBehind(front, p, x, s, y, t);
    Associate(front, p, x + s);
    Associate(front, p, y + t);
  }

  /** The order is component by component, each compared byte by byte, and a directory comes before what it holds. */
  lemma {:induction false} BeforeMeaning(a: string, b: string)
    ensures Before(a, b) <==> ComponentsBefore(a, b)
  {
    if Before(a, b) {
      BeforeHasParts(a, b);
    }
    if p, x, s, y, t :| a == p + (x + s) && b == p + (y + t) && PartsBefore(p, x, s, y, t) {
      PartsAreBefore(p, x, s, y, t);
    }
  }

  /** Irreflexive, asymmetric and total: exactly one of before, equal, after. */
  lemma {:induction false} BeforeTrichotomy(a: string, b: string)
    ensures a == b ==> !Before(a, b)
    ensures a != b ==> (Before(a, b) <==> !Before(b, a))
    decreases |a|
  {
    CutRejoins(a);
    CutRejoins(b);
    if Head(a) != Head(b) {
      LessTrichotomy(Head(a), Head(b));
    } else if Deeper(a) && Deeper(b) {
      BeforeTrichotomy(Rest(a), Rest(b));
    }
  }

  lemma {:induction false} BeforeTransitive(a: string, b: string, c: string)
    requires Before(a, b) && Before(b, c)
    ensures Before(a, c)
    decreases |a|
  {
    LessTrichotomy(Head(a), Head(c));
    if Head(a) != Head(b) && Head(b) != Head(c) {
      LessTransitive(Head(a), Head(b), Head(c));
      LessTrichotomy(Head(c), Head(a));
      LessTrichotomy(Head(a), Head(b));
    } else if Head(a) == Head(b) == Head(c) && Deeper(a) && Deeper(b) && Deeper(c) {
      BeforeTransitive(Rest(a), Rest(b), Rest(c));
    }
  }

  /** On names without a slash the two orders are the same. */
  lemma {:induction false} BeforeOnNames(a: string, b: string)
    requires '/' !in a && '/' !in b
    ensures Before(a, b) == Less(a, b)
  {
    NameHead(a);
    NameHead(b);
    LessTrichotomy(a, b);
  }

  lemma NameHead(a: string)
    requires '/' !in a
    ensures Head(a) == a && !Deeper(a)
  {
    assert forall i | 0 <= i < |a| :: a[i] in a;
  }

  /** What a path looks like once its first component is split off. */
  lemma CutJoined(name: string, rest: string)
    requires '/' !in name
    ensures var s := name + "/" + rest; Head(s) == name && Deeper(s) && Rest(s) == rest
  {
    var s := name + "/" + rest;
    assert s[|name|] == '/';
    assert forall j | 0 <= j < |name| :: s[j] == name[j] && s[j] in name;
    assert IndexOf(s, '/') == |name|;
    assert s[..|name|] == name;
    assert s[|name| + 1..] == rest;
  }

  // ---------- sorted sequences ----------

  ghost predicate Sorted(paths: seq<string>)
  {
    forall i, j | 0 <= i < j < |paths| :: Before(paths[i], paths[j])
  }

  ghost function Elements<T>(s: seq<T>): set<T> { set x | x in s }

  /** A strictly sorted sequence is determined by the set of its elements. */
  lemma {:induction false} SortedUnique(a: seq<string>, b: seq<string>)
    requires Sorted(a) && Sorted(b)
    requires Elements(a) == Elements(b)
    ensures a == b
  {
    if a == [] {
      assert forall i | 0 <= i < |b| :: b[i] in Elements(b);
    } else {
      assert a[0] in Elements(a);
      var k :| 0 <= k < |b| && b[k] == a[0];
      if k > 0 {
        assert b[0] in Elements(b);
        var m :| 0 <= m < |a| && a[m] == b[0];
        BeforeTrichotomy(a[0], b[0]);
      }
      assert a[0] == b[0];
      SortedTail(a);
      SortedTail(b);
      assert Elements(a[1..]) == Elements(a) - {a[0]};
      SortedUnique(a[1..], b[1..]);
      assert a == [a[0]] + a[1..] && b == [b[0]] + b[1..];
    }
  }

  lemma SortedTail(a: seq<string>)
    requires a != [] && Sorted(a)
    ensures Sorted(a[1..]) && Elements(a[1..]) == Elements(a) - {a[0]}
  {
    forall x | x in a[1..]
      ensures x != a[0]
    {
      var i :| 0 <= i < |a| - 1 && a[1..][i] == x;
      assert Before(a[0], a[i + 1]);
      BeforeTrichotomy(a[0], x);
    }
    assert a == [a[0]] + a[1..];
  }

  /** Puts one path where the order wants it. */
  function Insert(path: string, sorted: seq<string>): seq<string>
  {
    if sorted == [] then [path]
    else if Before(sorted[0], path) then [sorted[0]] + Insert(path, sorted[1..])
    else [path] + sorted
  }

  lemma {:induction false} InsertElements(path: string, sorted: seq<string>)
    ensures Elements(Insert(path, sorted)) == Elements(sorted) + {path}
  {
    if sorted != [] {
      assert sorted == [sorted[0]] + sorted[1..];
      if Before(sorted[0], path) {
        InsertElements(path, sorted[1..]);
        assert Elements(sorted) == {sorted[0]} + Elements(sorted[1..]);
        assert Elements(Insert(path, sorted)) == {sorted[0]} + Elements(Insert(path, sorted[1..]));
      }
    }
  }

  lemma {:induction false} SortedCons(first: string, tail: seq<string>)
    requires Sorted(tail)
    requires forall x | x in tail :: Before(first, x)
    ensures Sorted([first] + tail)
  {
  }

  lemma {:induction false} InsertSorted(path: string, sorted: seq<string>)
    requires Sorted(sorted) && path !in sorted
    ensures Sorted(Insert(path, sorted))
  {
    if sorted == [] {
    } else if Before(sorted[0], path) {
      InsertSorted(path, sorted[1..]);
      InsertElements(path, sorted[1..]);
      var tail := Insert(path, sorted[1..]);
      forall x | x in tail
        ensures Before(sorted[0], x)
      {
        assert x in Elements(tail);
      }
      SortedCons(sorted[0], tail);
    } else {
      BeforeTrichotomy(path, sorted[0]);
      forall x | x in sorted
        ensures Before(path, x)
      {
        if x != sorted[0] {
          BeforeTransitive(path, sorted[0], x);
        }
      }
      SortedCons(path, sorted);
    }
  }

  /** The paths of a set in order. */
  ghost function InOrder(paths: set<string>): (ordered: seq<string>)
    ensures Sorted(ordered) && Elements(ordered) == paths
  {
    if paths == {} then []
    else
      var path :| path in paths;
      var rest := InOrder(paths - {path});
      assert path !in Elements(rest);
      InsertSorted(path, rest);
      InsertElements(path, rest);
      Insert(path, rest)
  }

  /** Lists a set of paths in order, whatever order the set hands them out in. */
  method SortPaths(paths: set<string>) returns (ordered: seq<string>)
    ensures ordered == InOrder(paths)
  {
    ordered := [];
    var rest := paths;
    while rest != {}
      invariant rest <= paths
      invariant Sorted(ordered) && Elements(ordered) == paths - rest
      decreases |rest|
    {
      var path :| path in rest;
      assert path !in Elements(ordered);
      InsertSorted(path, ordered);
      InsertElements(path, ordered);
      ordered := Insert(path, ordered);
      rest := rest - {path};
    }
    SortedUnique(ordered, InOrder(paths));
  }
}

/** Parents, last components and ancestors of canonical paths. */
module PathParents {

  /** The position of the last slash, or -1. */
  function LastSlash(s: string): (i: int)
    ensures -1 <= i < |s|
    ensures i >= 0 ==> s[i] == '/'
    ensures forall j | i < j < |s| :: s[j] != '/'
  {
    if s == "" then -1
    else if s[|s| - 1] == '/' then |s| - 1
    else LastSlash(s[..|s| - 1])
  }

  // `path.Base` and `path.Dir`, which on canonical paths clean nothing.
  function Base(p: string): string { if LastSlash(p) < 0 then p else p[LastSlash(p) + 1..] }

  function Dir(p: string): (d: string)
    ensures LastSlash(p) >= 0 ==> |d| < |p|
  {
    if LastSlash(p) < 0 then "." else p[..LastSlash(p)]
  }

  predicate Name(n: string)
  {
    n != "" && '/' !in n && '\0' !in n && n != "." && n != ".."
  }

  /** A relative path without empty or dot components. */
  predicate Canonical(p: string)
    decreases |p|
  {
    Name(Base(p)) && (LastSlash(p) >= 0 ==> Canonical(Dir(p)))
  }

  /** A path a checkout is described under: only its last component may read as dots. */
  predicate Key(p: string)
  {
    Base(p) != "" && '\0' !in Base(p) && (LastSlash(p) >= 0 ==> Canonical(Dir(p)))
  }

  /** `a` is a directory strictly above `p`. */
  predicate Above(a: string, p: string)
  {
    |a| < |p| && p[..|a|] == a && p[|a|] == '/'
  }

  lemma AboveTransitive(a: string, b: string, c: string)
    requires Above(a, b) && Above(b, c)
    ensures Above(a, c)
  {
    assert c[..|a|] == c[..|b|][..|a|];
    assert c[|a|] == c[..|b|][|a|];
  }

  lemma AboveComparable(a: string, b: string, c: string)
    requires Above(a, c) && Above(b, c) && |a| < |b|
    ensures Above(a, b)
  {
    assert c[..|a|] == c[..|b|][..|a|];
    assert c[|a|] == c[..|b|][|a|];
  }

  /** The directories above a path are its parent and the directories above that. */
  lemma {:induction false} AboveIsParentChain(a: string, p: string)
    ensures LastSlash(p) < 0 ==> !Above(a, p)
    ensures LastSlash(p) >= 0 ==> (Above(a, p) <==> a == Dir(p) || Above(a, Dir(p)))
  {
    if Above(a, p) {
      assert |a| <= LastSlash(p);
      if |a| < LastSlash(p) {
        assert p[..|a|] == Dir(p)[..|a|];
        assert p[|a|] == Dir(p)[|a|];
      }
    } else if LastSlash(p) >= 0 && Above(a, Dir(p)) {
      assert Above(Dir(p), p);
      AboveTransitive(a, Dir(p), p);
    }
  }

  /** The parent of a key is canonical, so it is never mistaken for the root. */
  lemma {:induction false} ParentOfKey(p: string)
    requires Key(p)
    ensures LastSlash(p) < 0 ==> Dir(p) == "."
    ensures LastSlash(p) >= 0 ==> Canonical(Dir(p)) && Above(Dir(p), p) && Dir(p) != "." && Dir(p) != "/"
  {
    if LastSlash(p) >= 0 {
      var d := Dir(p);
      assert Canonical(d);
      CanonicalStart(d);
      assert d[0] != "/"[0];
    }
  }

  lemma {:induction false} CanonicalIsKey(p: string)
    requires Canonical(p)
    ensures Key(p)
  {
  }

  lemma {:induction false} NoSlash(n: string)
    requires '/' !in n
    ensures LastSlash(n) == -1 && Base(n) == n
  {
    assert forall i | 0 <= i < |n| :: n[i] in n;
  }

  lemma {:induction false} CanonicalStart(p: string)
    requires Canonical(p)
    ensures p != "" && p[0] != '/' && p != "."
    decreases |p|
  {
    if LastSlash(p) >= 0 {
      CanonicalStart(Dir(p));
      assert p[0] == Dir(p)[0];
      assert |p| > 1;
    }
  }

  lemma {:induction false} CanonicalHasNoNul(p: string)
    requires Canonical(p)
    ensures '\0' !in p
    decreases |p|
  {
    if LastSlash(p) >= 0 {
      CanonicalHasNoNul(Dir(p));
      assert p == Dir(p) + "/" + Base(p);
    }
  }

  lemma KeyHasNoNul(p: string)
    requires Key(p)
    ensures '\0' !in p
  {
    if LastSlash(p) >= 0 {
      CanonicalHasNoNul(Dir(p));
      assert p == Dir(p) + "/" + Base(p);
    }
  }

  lemma ChildSplits(parent: string, name: string)
    requires '/' !in name
    ensures var p := parent + "/" + name; LastSlash(p) == |parent| && Dir(p) == parent && Base(p) == name
  {
    var p := parent + "/" + name;
    assert forall j | |parent| < j < |p| :: p[j] == name[j - |parent| - 1] && p[j] in name;
    assert p[|parent|] == '/';
    assert p[..|parent|] == parent;
    assert p[|parent| + 1..] == name;
  }

  lemma {:induction false} LastSplits(p: string)
    requires LastSlash(p) >= 0
    ensures p == Dir(p) + "/" + Base(p) && '/' !in Base(p)
  {
    var k := LastSlash(p);
    assert forall j | 0 <= j < |Base(p)| :: Base(p)[j] == p[k + 1 + j];
  }

  /** A path in a directory; the root is written as nothing. */
  function Under(directory: string, path: string): string
  {
    if directory == "" then path else directory + "/" + path
  }

  lemma {:induction false} JoinSplits(d: string, n: string)
    requires '/' !in n
    ensures Base(Under(d, n)) == n
    ensures d == "" ==> LastSlash(Under(d, n)) < 0 && Dir(Under(d, n)) == "."
    ensures d != "" ==> LastSlash(Under(d, n)) >= 0 && Dir(Under(d, n)) == d
  {
    NoSlash(n);
    ChildSplits(d, n);
  }

  /** Every canonical path is its last component in its directory. */
  lemma {:induction false} SplitJoins(p: string) returns (d: string)
    requires Canonical(p)
    ensures '/' !in Base(p) && p == Under(d, Base(p))
    ensures (d == "" <==> LastSlash(p) < 0) && (d != "" ==> d == Dir(p) && d != ".")
  {
    CanonicalIsKey(p);
    ParentOfKey(p);
    if LastSlash(p) < 0 {
      d := "";
    } else {
      d := Dir(p);
      CanonicalStart(d);
      LastSplits(p);
    }
  }

  /** Everything above a key is canonical. */
  lemma {:induction false} AboveIsCanonical(a: string, p: string)
    requires Key(p) && Above(a, p)
    ensures Canonical(a)
    decreases |p|
  {
    AboveIsParentChain(a, p);
    if a != Dir(p) {
      CanonicalIsKey(Dir(p));
      AboveIsCanonical(a, Dir(p));
    }
  }

  /** Every directory above some path of a set. */
  ghost function Ancestors(paths: set<string>): set<string>
  {
    set p, i | p in paths && 0 <= i < |p| && p[i] == '/' :: p[..i]
  }

  lemma AncestorsAreAbove(paths: set<string>, a: string)
    ensures a in Ancestors(paths) <==> exists p :: p in paths && Above(a, p)
  {
    if a in Ancestors(paths) {
      var p, i :| p in paths && 0 <= i < |p| && p[i] == '/' && p[..i] == a;
      assert Above(a, p);
    }
    if p :| p in paths && Above(a, p) {
      assert p[..|a|] == a && p[|a|] == '/';
    }
  }
}
