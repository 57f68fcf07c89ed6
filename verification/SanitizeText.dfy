/**
 Bounded presentation text: bytes that are not UTF-8 and control characters are
 dropped, and the rest is cut to a limit without cutting a character in two.
 UTF-8 is as sections 3 and 4 of RFC 3629 define it.
 */
module SanitizeText {
  import opened Common

  // ---------- UTF-8 ----------

  predicate Continues(b: Byte) { 0x80 <= b <= 0xBF }

  /** The length of the character the bytes begin with, or 0 when they begin with none. */
  function CharLength(s: Bytes): (n: nat)
    ensures n <= 4 && n <= |s|
  {
    if s == [] then 0
    else if s[0] < 0x80 then 1
    else if 0xC2 <= s[0] <= 0xDF then (if |s| >= 2 && Continues(s[1]) then 2 else 0)
    else if 0xE0 <= s[0] <= 0xEF then
      (if |s| >= 3 && Continues(s[1]) && Continues(s[2])
          && (s[0] == 0xE0 ==> s[1] >= 0xA0) && (s[0] == 0xED ==> s[1] <= 0x9F) then 3 else 0)
    else if 0xF0 <= s[0] <= 0xF4 then
      (if |s| >= 4 && Continues(s[1]) && Continues(s[2]) && Continues(s[3])
          && (s[0] == 0xF0 ==> s[1] >= 0x90) && (s[0] == 0xF4 ==> s[1] <= 0x8F) then 4 else 0)
    else 0
  }

  /** `utf8.Valid`: nothing but whole characters. */
  predicate Valid(s: Bytes)
  {
    s == [] || (CharLength(s) > 0 && Valid(s[CharLength(s)..]))
  }

  /** What a character is does not depend on what follows it. */
  lemma CharPrefix(c: Bytes, rest: Bytes)
    requires CharLength(c) > 0
    ensures CharLength(c + rest) == CharLength(c)
  {
    assert forall i | 0 <= i < |c| :: (c + rest)[i] == c[i];
  }

  lemma CharAlone(s: Bytes)
    requires CharLength(s) > 0
    ensures CharLength(s[..CharLength(s)]) == CharLength(s)
  {
  }

  // ---------- cleaning ----------

  predicate IsControl(b: Byte) { b < 0x20 || b == 0x7F }

  /** `strings.ToValidUTF8(value, "")` */
  function ToValid(s: Bytes): Bytes
    decreases |s|
  {
    if s == [] then []
    else
      var n := CharLength(s);
      if n == 0 then ToValid(s[1..]) else s[..n] + ToValid(s[n..])
  }

  /** Drops the control characters of valid text. */
  function WithoutControls(s: Bytes): Bytes
    decreases |s|
  {
    if s == [] then []
    else
      var n := CharLength(s);
      if n == 0 then WithoutControls(s[1..])
      else (if n == 1 && IsControl(s[0]) then [] else s[..n]) + WithoutControls(s[n..])
  }

  function Cleaned(s: Bytes): Bytes { WithoutControls(ToValid(s)) }

  ghost predicate NoControls(s: Bytes) { forall i | 0 <= i < |s| :: s[i] >= 0x20 && s[i] != 0x7F }

  lemma {:induction false} ValidAppended(c: Bytes, rest: Bytes)
    requires CharLength(c) == |c| > 0 && Valid(rest)
    ensures Valid(c + rest)
  {
    CharPrefix(c, rest);
    assert (c + rest)[|c|..] == rest;
  }

  /** The bytes of a character that is not a control character are none. */
  lemma CharHasNoControls(s: Bytes)
    requires CharLength(s) > 0 && !(CharLength(s) == 1 && IsControl(s[0]))
    ensures NoControls(s[..CharLength(s)])
  {
  }

  lemma {:induction false} WithoutControlsIsClean(s: Bytes)
    ensures Valid(WithoutControls(s)) && NoControls(WithoutControls(s))
    decreases |s|
  {
    if s != [] {
      var n := CharLength(s);
      if n == 0 {
        WithoutControlsIsClean(s[1..]);
      } else {
        WithoutControlsIsClean(s[n..]);
        if !(n == 1 && IsControl(s[0])) {
          CharAlone(s);
          CharHasNoControls(s);
          ValidAppended(s[..n], WithoutControls(s[n..]));
        } else {
          assert [] + WithoutControls(s[n..]) == WithoutControls(s[n..]);
        }
      }
    }
  }

  lemma NoControlsBehind(s: Bytes, n: nat)
    requires NoControls(s) && n <= |s|
    ensures NoControls(s[n..])
  {
  }

  /** Cleaning leaves clean text alone. */
  lemma {:induction false} CleanStays(s: Bytes)
    requires Valid(s) && NoControls(s)
    ensures ToValid(s) == s && WithoutControls(s) == s
    decreases |s|
  {
    if s != [] {
      var n := CharLength(s);
      assert s == s[..n] + s[n..];
      NoControlsBehind(s, n);
      CleanStays(s[n..]);
    }
  }

  // ---------- what the characters are ----------

  /** The code points there are: up to the last plane, without the surrogates. */
  predicate Scalar(cp: nat) { cp <= 0x10FFFF && !(0xD800 <= cp <= 0xDFFF) }

  /** The bytes of a code point, as section 3 of RFC 3629 lays them out. */
  function Encode(cp: nat): Bytes
    requires Scalar(cp)
  {
    if cp < 0x80 then [cp]
    else if cp < 0x800 then [0xC0 + cp / 64, 0x80 + cp % 64]
    else if cp < 0x10000 then [0xE0 + cp / 4096, 0x80 + cp / 64 % 64, 0x80 + cp % 64]
    else [0xF0 + cp / 262144, 0x80 + cp / 4096 % 64, 0x80 + cp / 64 % 64, 0x80 + cp % 64]
  }

  ghost predicate IsEncoding(c: Bytes)
  {
    exists cp: nat :: Scalar(cp) && Encode(cp) == c
  }

  lemma {:induction false} EncodingIsCharacter(cp: nat)
    requires Scalar(cp)
    ensures CharLength(Encode(cp)) == |Encode(cp)| > 0
    ensures |Encode(cp)| == 1 && IsControl(Encode(cp)[0]) <==> cp < 0x20 || cp == 0x7F
  {
  }

  lemma {:induction false} TwoBytes(c: Bytes)
    requires CharLength(c) == |c| == 2
    ensures IsEncoding(c)
  {
    var x: int, y: int := c[0] as int - 0xC0, c[1] as int - 0x80;
    var cp: nat := x * 64 + y;
    assert cp / 64 == x && cp % 64 == y;
    assert Encode(cp) == c;
  }

  lemma {:induction false} ThreeBytes(c: Bytes)
    requires CharLength(c) == |c| == 3
    ensures IsEncoding(c)
  {
    var x: int, y: int, z: int := c[0] as int - 0xE0, c[1] as int - 0x80, c[2] as int - 0x80;
    var cp: nat := x * 4096 + y * 64 + z;
    assert cp / 4096 == x && cp / 64 % 64 == y && cp % 64 == z;
    assert Encode(cp) == c;
  }

  lemma SixBits(q: nat, r: nat)
    requires r < 64
    ensures (q * 64 + r) / 64 == q && (q * 64 + r) % 64 == r
  {
  }

  lemma SixBitsTwice(n: nat)
    ensures n / 4096 == n / 64 / 64 && n / 262144 == n / 4096 / 64
  {
  }

  lemma FourDigits(w: nat, x: nat, y: nat, z: nat)
    requires x < 64 && y < 64 && z < 64
    ensures var cp := ((w * 64 + x) * 64 + y) * 64 + z;
            cp / 262144 == w && cp / 4096 % 64 == x && cp / 64 % 64 == y && cp % 64 == z
  {
    SixBits((w * 64 + x) * 64 + y, z);
    SixBits(w * 64 + x, y);
    SixBits(w, x);
    SixBitsTwice(((w * 64 + x) * 64 + y) * 64 + z);
  }

  lemma {:induction false} FourBytes(c: Bytes)
    requires CharLength(c) == |c| == 4
    ensures IsEncoding(c)
  {
    var w: nat, x: nat := c[0] as int - 0xF0, c[1] as int - 0x80;
    var y: nat, z: nat := c[2] as int - 0x80, c[3] as int - 0x80;
    var cp := ((w * 64 + x) * 64 + y) * 64 + z;
    FourDigits(w, x, y, z);
    assert 0x10000 <= cp <= 0x10FFFF;
    assert Encode(cp) == c;
  }

  lemma {:induction false} CharacterIsEncoding(c: Bytes)
    requires CharLength(c) == |c| > 0
    ensures IsEncoding(c)
  {
    if |c| == 1 { assert Encode(c[0]) == c; }
    else if |c| == 2 { TwoBytes(c); }
    else if |c| == 3 { ThreeBytes(c); }
    else { FourBytes(c); }
  }

  /** The bytes begin with a character of this length exactly when so many of them encode a code point. */
  lemma {:induction false} CharacterMeaning(s: Bytes, n: nat)
    requires n > 0
    ensures CharLength(s) == n <==> n <= |s| && IsEncoding(s[..n])
  {
    if CharLength(s) == n {
      CharAlone(s);
      CharacterIsEncoding(s[..n]);
    }
    if n <= |s| && IsEncoding(s[..n]) {
      var cp: nat :| Scalar(cp) && Encode(cp) == s[..n];
      EncodingIsCharacter(cp);
      CharPrefix(s[..n], s[n..]);
      assert s == s[..n] + s[n..];
    }
  }

  ghost predicate AllScalar(cps: seq<nat>) { forall cp | cp in cps :: Scalar(cp) }

  ghost function EncodeAll(cps: seq<nat>): Bytes
    requires AllScalar(cps)
  {
    if cps == [] then [] else Encode(cps[0]) + EncodeAll(cps[1..])
  }

  lemma {:induction false} EncodeOneMore(cp: nat, more: seq<nat>)
    requires Scalar(cp) && AllScalar(more)
    ensures AllScalar([cp] + more) && EncodeAll([cp] + more) == Encode(cp) + EncodeAll(more)
  {
    assert ([cp] + more)[1..] == more;
  }

  lemma {:induction false} EncodedIsValid(cps: seq<nat>)
    requires AllScalar(cps)
    ensures Valid(EncodeAll(cps))
  {
    if cps != [] {
      EncodedIsValid(cps[1..]);
      EncodingIsCharacter(cps[0]);
      ValidAppended(Encode(cps[0]), EncodeAll(cps[1..]));
    }
  }

  lemma {:induction false} FirstEncoding(s: Bytes) returns (cp: nat, rest: Bytes)
    requires Valid(s) && s != []
    ensures Scalar(cp) && s == Encode(cp) + rest && Valid(rest) && |rest| < |s|
  {
    var n := CharLength(s);
    CharacterMeaning(s, n);
    cp :| Scalar(cp) && Encode(cp) == s[..n];
    rest := s[n..];
    assert s == s[..n] + rest;
  }

  lemma {:induction false} ValidIsEncoded(s: Bytes) returns (cps: seq<nat>)
    requires Valid(s)
    ensures AllScalar(cps) && s == EncodeAll(cps)
    decreases |s|
  {
    cps := [];
    if s != [] {
      var cp, rest := FirstEncoding(s);
      var more := ValidIsEncoded(rest);
      EncodeOneMore(cp, more);
      cps := [cp] + more;
    }
  }

  /** Valid text is a sequence of code points, each in its one encoding. */
  lemma {:induction false} ValidMeaning(s: Bytes)
    ensures Valid(s) <==> exists cps: seq<nat> :: AllScalar(cps) && s == EncodeAll(cps)
  {
    if Valid(s) {
      var cps := ValidIsEncoded(s);
    }
    if cps: seq<nat> :| AllScalar(cps) && s == EncodeAll(cps) {
      EncodedIsValid(cps);
    }
  }

  /** Cleaning keeps a code point unless it is a control character, whatever follows. */
  lemma {:induction false} CleanedCharacter(cp: nat, rest: Bytes)
    requires Scalar(cp)
    ensures Cleaned(Encode(cp) + rest) == (if cp < 0x20 || cp == 0x7F then [] else Encode(cp)) + Cleaned(rest)
  {
    var c := Encode(cp);
    EncodingIsCharacter(cp);
    CharPrefix(c, rest);
    CharPrefix(c, ToValid(rest));
    assert (c + rest)[..|c|] == c && (c + rest)[|c|..] == rest;
    assert (c + ToValid(rest))[..|c|] == c && (c + ToValid(rest))[|c|..] == ToValid(rest);
  }

  /** It drops a byte with which no encoding begins, and nothing else on its account. */
  lemma {:induction false} CleanedStray(b: Byte, rest: Bytes)
    requires forall n | 0 < n <= |rest| + 1 :: !IsEncoding(([b] + rest)[..n])
    ensures Cleaned([b] + rest) == Cleaned(rest)
  {
    var s := [b] + rest;
    if CharLength(s) > 0 {
      CharacterMeaning(s, CharLength(s));
      assert false;
    }
    assert s[1..] == rest;
  }

  // ---------- cutting ----------

  /** The longest prefix, up to a length, of whole characters. */
  function LongestValid(s: Bytes, k: nat): (r: nat)
    requires k <= |s|
    ensures r <= k && Valid(s[..r])
    ensures forall j | r < j <= k :: !Valid(s[..j])
  {
    if Valid(s[..k]) then k
    else
      assert k > 0 by { assert s[..0] == []; }
      LongestValid(s, k - 1)
  }

  function Sanitized(value: Bytes, limit: int): Bytes
  {
    if limit <= 0 then []
    else
      var clean := Cleaned(value);
      if |clean| <= limit then clean else clean[..LongestValid(clean, limit)]
  }

  method Sanitize(value: Bytes, limit: int) returns (r: Bytes)
    ensures r == Sanitized(value, limit)
  {
    if limit <= 0 {
      return [];
    }
    var clean := Cleaned(value);
    if |clean| <= limit {
      return clean;
    }
    var encoded := clean[..limit];
    while !Valid(encoded)
      invariant |encoded| <= limit && encoded == clean[..|encoded|]
      invariant forall j | |encoded| < j <= limit :: !Valid(clean[..j])
      decreases |encoded|
    {
      encoded := encoded[..|encoded| - 1];
    }
    r := encoded;
  }

  /** In valid text a cut is never more than three bytes past the end of a character. */
  lemma {:induction false} CharacterNearby(s: Bytes, limit: nat) returns (k: nat)
    requires Valid(s) && limit <= |s|
    ensures k <= limit <= k + 3 && Valid(s[..k])
    decreases |s|
  {
    var n := CharLength(s);
    if limit < n || s == [] {
      k := 0;
      assert s[..0] == [];
    } else {
      var m := CharacterNearby(s[n..], limit - n);
      k := n + m;
      CharAlone(s);
      ValidAppended(s[..n], s[n..][..m]);
      assert s[..k] == s[..n] + s[n..][..m];
    }
  }

  /**
   Sanitised text is valid UTF-8 without control characters, no longer than the
   limit; it is the longest whole-character prefix of the cleaned text that
   fits, and at most three bytes short of the limit when something was cut.
   */
  lemma SanitizedText(value: Bytes, limit: nat)
    ensures var r, clean := Sanitized(value, limit), Cleaned(value);
            && Valid(r) && NoControls(r) && |r| <= limit && r <= clean
            && (|clean| <= limit ==> r == clean)
            && (|clean| > limit ==> limit <= |r| + 3)
            && (forall j | |r| < j <= limit && j <= |clean| :: !Valid(clean[..j]))
  {
    var clean := Cleaned(value);
    WithoutControlsIsClean(ToValid(value));
    if 0 < limit < |clean| {
      var k := CharacterNearby(clean, limit);
    }
  }

  /** Sanitising twice is sanitising once. */
  lemma SanitizeIdempotent(value: Bytes, limit: int)
    ensures Sanitized(Sanitized(value, limit), limit) == Sanitized(value, limit)
  {
    if limit > 0 {
      SanitizedText(value, limit);
      CleanStays(Sanitized(value, limit));
    }
  }

  /** Sanitising to a smaller limit afterwards comes to the same as going there directly. */
  lemma SanitizeInSteps(value: Bytes, limit: int, smaller: int)
    requires smaller <= limit
    ensures Sanitized(Sanitized(value, limit), smaller) == Sanitized(value, smaller)
  {
    if smaller > 0 {
      var clean, text := Cleaned(value), Sanitized(value, limit);
      SanitizedText(value, limit);
      CleanStays(text);
      if |clean| > limit {
        if |text| <= smaller {
          PrefixLongest(clean, |text|, smaller);
        } else {
          SamePrefixes(clean, |text|, smaller);
        }
      }
    }
  }

  /** The longest valid prefix up to a limit is the one a longer limit found, when that fits. */
  lemma {:induction false} PrefixLongest(clean: Bytes, n: nat, k: nat)
    requires n <= k <= |clean| && Valid(clean[..n]) && forall j | n < j <= k :: !Valid(clean[..j])
    ensures LongestValid(clean, k) == n
  {
  }

  /** Below a cut, the prefixes of what was cut are those of the whole. */
  lemma {:induction false} SamePrefixes(clean: Bytes, n: nat, k: nat)
    requires k <= n <= |clean|
    ensures LongestValid(clean[..n], k) == LongestValid(clean, k)
    ensures clean[..n][..LongestValid(clean, k)] == clean[..LongestValid(clean, k)]
  {
    assert clean[..n][..k] == clean[..k];
    if !Valid(clean[..k]) {
      assert k > 0 by { assert clean[..0] == []; }
      SamePrefixes(clean, n, k - 1);
    }
  }

  /** Text that already is clean and fits comes out as it went in. */
  lemma {:induction false} CleanTextStays(value: Bytes, limit: nat)
    requires Valid(value) && NoControls(value)
    ensures Sanitized(value, limit) == value <==> |value| <= limit
  {
    CleanStays(value);
  }

  // ---------- the acceptor ----------

  datatype Objection = Acceptable | NotUtf8 | Empty | TooLong | HasControl

  method SafeText(value: Bytes, limit: int, empty: bool) returns (r: Objection)
    ensures r.Acceptable? <==> Valid(value) && (empty || value != []) && |value| <= limit && NoControls(value)
    ensures r.NotUtf8? <==> !Valid(value)
  {
    if !Valid(value) {
      return NotUtf8;
    }
    if !empty && value == [] {
      return Empty;
    }
    if |value| > limit {
      return TooLong;
    }
    var i := 0;
    while i < |value|
      invariant i <= |value| && Valid(value[i..])
      invariant forall j | 0 <= j < i :: !IsControl(value[j])
    {
      var rest := value[i..];
      var n := CharLength(rest);
      if n == 1 && IsControl(rest[0]) {
        assert value[i] == rest[0];
        return HasControl;
      }
      CharHasNoControls(rest);
      assert forall j | i <= j < i + n :: value[j] == rest[..n][j - i];
      assert value[i + n..] == rest[n..];
      i := i + n;
    }
    r := Acceptable;
  }

  /** What comes out of sanitising is accepted under the same limit. */
  method SanitizedIsSafe(value: Bytes, limit: nat) returns (text: Bytes, verdict: Objection)
    ensures text == Sanitized(value, limit) && verdict.Acceptable?
  {
    text := Sanitize(value, limit);
    verdict := SafeText(text, limit, true);
    SanitizedText(value, limit);
  }
}
