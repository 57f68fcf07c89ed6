/** The few string operations the parsers and the addon configuration share, with case folded over ASCII. */
module Text {

  function LowerChar(c: char): char
  {
    if 'A' <= c <= 'Z' then (c as int + 32) as char else c
  }

  /** `strings.ToLower` */
  function Lower(s: string): (r: string)
    ensures |r| == |s|
    ensures forall i | 0 <= i < |s| :: r[i] == if 'A' <= s[i] <= 'Z' then (s[i] as int + 32) as char else s[i]
  {
    seq(|s|, i requires 0 <= i < |s| => LowerChar(s[i]))
  }

  lemma LowerIdempotent(s: string)
    ensures Lower(Lower(s)) == Lower(s)
  {
  }

  /** `strings.TrimSpace` trims these. */
  predicate IsSpace(c: char)
  {
    || '\t' <= c <= '\r' || c == ' ' || c == '\U{85}' || c == '\U{A0}' || c == '\U{1680}'
    || '\U{2000}' <= c <= '\U{200A}' || c == '\U{2028}' || c == '\U{2029}'
    || c == '\U{202F}' || c == '\U{205F}' || c == '\U{3000}'
  }

  function TrimLeft(s: string): string
  {
    if s != "" && IsSpace(s[0]) then TrimLeft(s[1..]) else s
  }

  function TrimRight(s: string): string
  {
    if s != "" && IsSpace(s[|s| - 1]) then TrimRight(s[..|s| - 1]) else s
  }

  /** `strings.TrimSpace` */
  function TrimSpace(s: string): string { TrimRight(TrimLeft(s)) }

  /** `strings.Trim` with one character, from either end. */
  function TrimLeftOf(s: string, c: char): string
  {
    if s != "" && s[0] == c then TrimLeftOf(s[1..], c) else s
  }

  function TrimRightOf(s: string, c: char): string
  {
    if s != "" && s[|s| - 1] == c then TrimRightOf(s[..|s| - 1], c) else s
  }

  function TrimOf(s: string, c: char): string { TrimRightOf(TrimLeftOf(s, c), c) }

  function Repeat(c: char, k: nat): string { seq(k, _ => c) }

  /** The text with any number of the character on either side. */
  ghost predicate Wraps(s: string, c: char, p: string)
  {
    exists k: nat, l: nat :: s == Repeat(c, k) + p + Repeat(c, l)
  }

  lemma {:induction false} TrimmedLeft(c: char, k: nat, p: string)
    requires p != "" ==> p[0] != c
    ensures TrimLeftOf(Repeat(c, k) + p, c) == p
  {
    if k > 0 {
      assert (Repeat(c, k) + p)[1..] == Repeat(c, k - 1) + p;
      TrimmedLeft(c, k - 1, p);
    } else {
      assert Repeat(c, 0) + p == p;
    }
  }

  lemma {:induction false} TrimmedRight(p: string, c: char, l: nat)
    requires p != "" ==> p[|p| - 1] != c
    ensures TrimRightOf(p + Repeat(c, l), c) == p
  {
    var s := p + Repeat(c, l);
    if l > 0 {
      assert s[..|s| - 1] == p + Repeat(c, l - 1);
      TrimmedRight(p, c, l - 1);
    } else {
      assert s == p;
    }
  }

  lemma {:induction false} LeftTrimmed(s: string, c: char) returns (k: nat)
    ensures s == Repeat(c, k) + TrimLeftOf(s, c)
  {
    k := 0;
    if s != "" && s[0] == c {
      var more := LeftTrimmed(s[1..], c);
      k := more + 1;
      assert s == [c] + s[1..];
      assert Repeat(c, k) == [c] + Repeat(c, more);
    }
  }

  lemma {:induction false} RightTrimmed(s: string, c: char) returns (l: nat)
    ensures s == TrimRightOf(s, c) + Repeat(c, l)
  {
    l := 0;
    if s != "" && s[|s| - 1] == c {
      var more := RightTrimmed(s[..|s| - 1], c);
      l := more + 1;
      assert s == s[..|s| - 1] + [c];
      assert Repeat(c, l) == Repeat(c, more) + [c];
    }
  }

  lemma WrappedIsTrimmed(c: char, k: nat, p: string, l: nat)
    requires p != "" && p[0] != c && p[|p| - 1] != c
    ensures TrimOf(Repeat(c, k) + p + Repeat(c, l), c) == p
  {
    assert Repeat(c, k) + p + Repeat(c, l) == Repeat(c, k) + (p + Repeat(c, l));
    TrimmedLeft(c, k, p + Repeat(c, l));
    TrimmedRight(p, c, l);
  }

  lemma TrimmedIsWrapped(s: string, c: char)
    ensures Wraps(s, c, TrimOf(s, c))
  {
    var k := LeftTrimmed(s, c);
    var l := RightTrimmed(TrimLeftOf(s, c), c);
    assert Repeat(c, k) + (TrimOf(s, c) + Repeat(c, l)) == Repeat(c, k) + TrimOf(s, c) + Repeat(c, l);
  }

  /** Trimming finds the text inside, when that neither begins nor ends with what is trimmed. */
  lemma TrimFinds(s: string, c: char, p: string)
    requires p != "" && p[0] != c && p[|p| - 1] != c
    ensures TrimOf(s, c) == p <==> Wraps(s, c, p)
  {
    TrimmedIsWrapped(s, c);
    if Wraps(s, c, p) {
      var k: nat, l: nat :| s == Repeat(c, k) + p + Repeat(c, l);
      WrappedIsTrimmed(c, k, p, l);
    }
  }

  ghost predicate AllSpace(s: string) { forall c | c in s :: IsSpace(c) }

  lemma {:induction false} TrimLeftCuts(s: string) returns (front: string)
    ensures AllSpace(front) && s == front + TrimLeft(s)
  {
    front := "";
    if s != "" && IsSpace(s[0]) {
      var more := TrimLeftCuts(s[1..]);
      front := [s[0]] + more;
      assert s == [s[0]] + s[1..];
    }
  }

  lemma {:induction false} TrimRightCuts(s: string) returns (back: string)
    ensures AllSpace(back) && s == TrimRight(s) + back
  {
    back := "";
    if s != "" && IsSpace(s[|s| - 1]) {
      var more := TrimRightCuts(s[..|s| - 1]);
      back := more + [s[|s| - 1]];
      assert s == s[..|s| - 1] + [s[|s| - 1]];
    }
  }

  /** Trimming takes white space from both ends, and leaves none there. */
  lemma TrimSpaceHolds(s: string) returns (front: string, back: string)
    ensures AllSpace(front) && AllSpace(back) && s == front + TrimSpace(s) + back
    ensures var t := TrimSpace(s); t != "" ==> !IsSpace(t[0]) && !IsSpace(t[|t| - 1])
  {
    front := TrimLeftCuts(s);
    back := TrimRightCuts(TrimLeft(s));
    TrimLeftStops(s);
    TrimRightStops(TrimLeft(s));
  }

  const DIGITS := "0123456789"

  function Digits(n: nat): (r: string)
    ensures r != "" && forall c | c in r :: c in DIGITS
  {
    if n < 10 then [DIGITS[n]] else Digits(n / 10) + [DIGITS[n % 10]]
  }

  /** The position of the first `c`, or the length when there is none. */
  function IndexOf(s: string, c: char): (i: nat)
    ensures i <= |s|
    ensures forall j | 0 <= j < i :: s[j] != c
    ensures i < |s| ==> s[i] == c
  {
    if s == "" || s[0] == c then 0 else 1 + IndexOf(s[1..], c)
  }

  /** `strings.Split` on one character. */
  function Split(s: string, c: char): seq<string>
  {
    var i := IndexOf(s, c);
    if i == |s| then [s] else [s[..i]] + Split(s[i + 1..], c)
  }

  /** The text is cut at the first of these characters. */
  predicate CutFirst(s: string, c: char, head: string, rest: string) { s == head + [c] + rest && c !in head }

  lemma {:induction false} IndexCuts(s: string, c: char)
    requires IndexOf(s, c) < |s|
    ensures CutFirst(s, c, s[..IndexOf(s, c)], s[IndexOf(s, c) + 1..])
  {
  }

  lemma {:induction false} CutsAtIndex(s: string, c: char, head: string, rest: string)
    requires CutFirst(s, c, head, rest)
    ensures IndexOf(s, c) == |head| < |s| && s[..|head|] == head && s[|head| + 1..] == rest
  {
    assert s[|head|] == c;
    assert forall j | 0 <= j < |head| :: s[j] == head[j] && head[j] in head;
  }

  /** The text is cut around a part at separators or at its ends. */
  predicate CutAround(s: string, c: char, x: string, part: string, y: string)
  {
    s == x + part + y && (x != "" ==> x[|x| - 1] == c) && (y != "" ==> y[0] == c)
  }

  /** The part lies between two separators, or an end of the text, and holds none. */
  ghost predicate PartOf(s: string, c: char, part: string)
  {
    c !in part && exists x, y :: CutAround(s, c, x, part, y)
  }

  lemma PartOfHead(s: string, c: char, i: nat)
    requires i < |s| && s[i] == c && c !in s[..i]
    ensures PartOf(s, c, s[..i])
  {
    assert s == "" + s[..i] + s[i..];
    assert CutAround(s, c, "", s[..i], s[i..]);
  }

  lemma PartOfRest(s: string, c: char, i: nat, part: string)
    requires i < |s| && s[i] == c && PartOf(s[i + 1..], c, part)
    ensures PartOf(s, c, part)
  {
    var x, y :| CutAround(s[i + 1..], c, x, part, y);
    var front := s[..i + 1] + x;
    assert s == s[..i + 1] + s[i + 1..];
    assert s == front + part + y;
    assert x == "" ==> front == s[..i + 1];
    assert CutAround(s, c, front, part, y);
  }

  lemma FirstPart(s: string, c: char, i: nat, part: string, y: string)
    requires i < |s| && s[i] == c && c !in s[..i] && c !in part && CutAround(s, c, "", part, y)
    ensures part == s[..i]
  {
    assert forall j | 0 <= j < i :: s[j] in s[..i];
    assert forall j | 0 <= j < |part| :: s[j] == part[j] && part[j] in part;
    assert |part| <= i;
    assert y != "" && s[|part|] == y[0];
  }

  lemma LaterPart(s: string, c: char, i: nat, x: string, part: string, y: string)
    requires i < |s| && s[i] == c && c !in s[..i] && c !in part && x != "" && CutAround(s, c, x, part, y)
    ensures PartOf(s[i + 1..], c, part)
  {
    assert forall j | 0 <= j < i :: s[j] in s[..i];
    assert s[|x| - 1] == x[|x| - 1];
    var inner := x[i + 1..];
    assert s[i + 1..] == inner + part + y;
    assert CutAround(s[i + 1..], c, inner, part, y);
  }

  lemma EndsAreIn(s: string, c: char)
    ensures s != "" && (s[0] == c || s[|s| - 1] == c) ==> c in s
  {
  }

  lemma WholePart(s: string, c: char, x: string, part: string, y: string)
    requires c !in s && CutAround(s, c, x, part, y)
    ensures part == s
  {
    EndsAreIn(x, c);
    EndsAreIn(y, c);
    assert c !in x && c !in y;
  }

  /** Splitting gives exactly the parts between the separators. */
  lemma {:induction false} SplitHolds(s: string, c: char, part: string)
    ensures part in Split(s, c) <==> PartOf(s, c, part)
  {
    var i := IndexOf(s, c);
    assert c !in s[..i];
    if i == |s| {
      assert s[..i] == s;
      assert s == "" + s + "" && CutAround(s, c, "", s, "");
      if x, y :| CutAround(s, c, x, part, y) {
        WholePart(s, c, x, part, y);
      }
    } else {
      SplitHolds(s[i + 1..], c, part);
      PartOfHead(s, c, i);
      if PartOf(s[i + 1..], c, part) { PartOfRest(s, c, i, part); }
      if PartOf(s, c, part) {
        var x, y :| CutAround(s, c, x, part, y);
        if x == "" { FirstPart(s, c, i, part, y); } else { LaterPart(s, c, i, x, part, y); }
      }
    }
  }

  // ---------- normalised names ----------

  /** A name without surrounding space, in lower case. */
  function Norm(s: string): string { Lower(TrimSpace(s)) }

  lemma {:induction false} TrimLeftOfLower(s: string)
    ensures TrimLeft(Lower(s)) == Lower(TrimLeft(s))
  {
    if s != "" && IsSpace(s[0]) {
      assert Lower(s)[1..] == Lower(s[1..]);
      TrimLeftOfLower(s[1..]);
    }
  }

  lemma {:induction false} TrimRightOfLower(s: string)
    ensures TrimRight(Lower(s)) == Lower(TrimRight(s))
  {
    if s != "" && IsSpace(s[|s| - 1]) {
      assert Lower(s)[..|s| - 1] == Lower(s[..|s| - 1]);
      TrimRightOfLower(s[..|s| - 1]);
    }
  }

  lemma TrimOfLower(s: string)
    ensures TrimSpace(Lower(s)) == Lower(TrimSpace(s))
  {
    TrimLeftOfLower(s);
    TrimRightOfLower(TrimLeft(s));
  }

  /** Trimming only ever shortens, and what it leaves it leaves alone. */
  lemma {:induction false} TrimRightStops(s: string)
    ensures |TrimRight(s)| <= |s| && (|TrimRight(s)| == |s| ==> TrimRight(s) == s)
    ensures TrimRight(s) != "" ==> !IsSpace(TrimRight(s)[|TrimRight(s)| - 1])
    ensures s != "" && !IsSpace(s[0]) ==> TrimRight(s) != "" && TrimRight(s)[0] == s[0]
  {
    if s != "" && IsSpace(s[|s| - 1]) {
      TrimRightStops(s[..|s| - 1]);
    }
  }

  lemma {:induction false} TrimLeftStops(s: string)
    ensures |TrimLeft(s)| <= |s| && (|TrimLeft(s)| == |s| ==> TrimLeft(s) == s)
    ensures TrimLeft(s) != "" ==> !IsSpace(TrimLeft(s)[0])
  {
    if s != "" && IsSpace(s[0]) {
      TrimLeftStops(s[1..]);
    }
  }

  lemma TrimIdempotent(s: string)
    ensures TrimSpace(TrimSpace(s)) == TrimSpace(s)
    ensures |TrimSpace(s)| == |s| ==> TrimSpace(s) == s
  {
    TrimLeftStops(s);
    TrimRightStops(TrimLeft(s));
    var t := TrimSpace(s);
    assert TrimLeft(t) == t;
    assert TrimRight(t) == t;
  }

  lemma NormIdempotent(s: string)
    ensures Norm(Norm(s)) == Norm(s)
  {
    TrimOfLower(TrimSpace(s));
    TrimIdempotent(s);
    LowerIdempotent(TrimSpace(s));
  }

  /** A spelling that differs from a normalised name only in case normalises to it. */
  lemma NormOfSpelling(s: string, name: string)
    requires Lower(s) == name && Norm(name) == name
    ensures Norm(s) == name
  {
    TrimOfLower(s);
    TrimIdempotent(name);
  }

  /** A normalised name is in lower case. */
  lemma NormIsLower(name: string)
    requires Norm(name) == name
    ensures Lower(name) == name
  {
    LowerIdempotent(TrimSpace(name));
  }
}
