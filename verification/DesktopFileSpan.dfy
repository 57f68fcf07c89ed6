/**
 Which arguments of a menu launch are files the user chose: two counts taken
 when the entry is written, and read back when it is started.
 */
module DesktopFileSpan {
  import opened Common
  import opened Text

  /** How many publisher arguments stand on each side of the files. */
  datatype Span = Span(before: nat, after: nat)

  datatype Count = NoPlaceholder | SeveralPlaceholders | Counted(span: Span)

  // ---------- counting ----------

  /** A field code a launcher replaces with what the user selected, quoted or not. */
  predicate IsPlaceholder(argument: string)
  {
    TrimOf(argument, '"') in {"%f", "%F", "%u", "%U"}
  }

  /** A placeholder is one of the four field codes, with any number of quotes around. */
  lemma PlaceholderMeaning(argument: string)
    ensures IsPlaceholder(argument) <==>
            || Wraps(argument, '"', "%f") || Wraps(argument, '"', "%F")
            || Wraps(argument, '"', "%u") || Wraps(argument, '"', "%U")
  {
    TrimFinds(argument, '"', "%f");
    TrimFinds(argument, '"', "%F");
    TrimFinds(argument, '"', "%u");
    TrimFinds(argument, '"', "%U");
  }

  /** Counts the arguments on each side of the one placeholder. */
  method CountDesktopFileSpan(arguments: seq<string>) returns (r: Count)
    ensures r.NoPlaceholder? <==> forall i | 0 <= i < |arguments| :: !IsPlaceholder(arguments[i])
    ensures r.SeveralPlaceholders? <==>
            exists i, j :: 0 <= i < j < |arguments| && IsPlaceholder(arguments[i]) && IsPlaceholder(arguments[j])
    ensures r.Counted? ==> r.span.before + r.span.after + 1 == |arguments| && IsPlaceholder(arguments[r.span.before])
  {
    var placeholder := -1;
    for i := 0 to |arguments|
      invariant -1 <= placeholder < i
      invariant placeholder >= 0 ==> IsPlaceholder(arguments[placeholder])
      invariant forall j | 0 <= j < i && j != placeholder :: !IsPlaceholder(arguments[j])
    {
      if IsPlaceholder(arguments[i]) {
        if placeholder >= 0 {
          return SeveralPlaceholders;
        }
        placeholder := i;
      }
    }
    if placeholder < 0 {
      return NoPlaceholder;
    }
    r := Counted(Span(placeholder, |arguments| - placeholder - 1));
  }

  /** Whether the argument at an index is one the user chose, of so many that arrived. */
  predicate Selects(span: Span, index: int, total: int)
  {
    total > span.before + span.after && span.before <= index < total - span.after
  }

  /** What a launcher passes: the placeholder gives way to the files, however many. */
  function Launched(arguments: seq<string>, at: nat, files: seq<string>): seq<string>
    requires at < |arguments|
  {
    arguments[..at] + files + arguments[at + 1..]
  }

  /**
   The counted span selects exactly the substituted positions: what it selects
   of a launch are the files, in order, and what it leaves is the publisher's
   own list without the placeholder.
   */
  lemma SpanSelectsFiles(arguments: seq<string>, at: nat, files: seq<string>)
    requires at < |arguments|
    ensures var span := Span(at, |arguments| - at - 1);
            var launched := Launched(arguments, at, files);
            && (forall i :: Selects(span, i, |launched|) <==> at <= i < at + |files|)
            && (forall i | Selects(span, i, |launched|) :: launched[i] == files[i - at])
            && (forall i | 0 <= i < |launched| && !Selects(span, i, |launched|) ::
                  launched[i] == if i < at then arguments[i] else arguments[i - |files| + 1])
  {
  }

  // ---------- printing and parsing ----------

  /** `strconv.Itoa` on each side of a comma. */
  function Print(span: Span): string { Digits(span.before) + "," + Digits(span.after) }

  function DigitValue(c: char): Option<nat>
  {
    if '0' <= c <= '9' then Some(c as int - '0' as int) else None
  }

  function NumeralValue(s: string): Option<nat>
  {
    if s == "" then None
    else
      var last := DigitValue(s[|s| - 1]);
      if last.None? then None
      else if |s| == 1 then last
      else
        var rest := NumeralValue(s[..|s| - 1]);
        if rest.None? then None else Some(10 * rest.value + last.value)
  }

  /** `strconv.Atoi`: an optional sign, decimal digits, and a value that fits. */
  function Atoi(s: string): Option<int>
  {
    var digits := if s != "" && (s[0] == '-' || s[0] == '+') then s[1..] else s;
    var value := NumeralValue(digits);
    if value.None? then None
    else if s[0] == '-' then
      var negative: int := 0 - value.value;
      if value.value > MAXIMUM + 1 then None else Some(negative)
    else if value.value > MAXIMUM then None
    else Some(value.value)
  }

  function Parse(value: string): (r: Option<Span>)
  {
    var i := IndexOf(value, ',');
    if i == |value| then None
    else
      var leading, trailing := Atoi(value[..i]), Atoi(value[i + 1..]);
      if leading.None? || leading.value < 0 || trailing.None? || trailing.value < 0 then None
      else Some(Span(leading.value, trailing.value))
  }

  lemma {:induction false} NumeralOfDigits(n: nat)
    ensures NumeralValue(Digits(n)) == Some(n)
  {
    var s := Digits(n);
    assert DigitValue(DIGITS[n % 10]) == Some(n % 10);
    if n >= 10 {
      NumeralOfDigits(n / 10);
      assert s[..|s| - 1] == Digits(n / 10) && s[|s| - 1] == DIGITS[n % 10];
    }
  }

  lemma {:induction false} AtoiOfNumeral(s: string, n: nat)
    requires s != "" && s[0] != '-' && s[0] != '+' && NumeralValue(s) == Some(n) && n <= MAXIMUM
    ensures Atoi(s) == Some(n)
  {
  }

  lemma {:induction false} DigitsHaveNoSign(n: nat)
    ensures Digits(n)[0] != '-' && Digits(n)[0] != '+' && ',' !in Digits(n)
  {
    assert Digits(n)[0] in Digits(n);
  }

  lemma {:induction false} AtoiOfDigits(n: nat)
    requires n <= MAXIMUM
    ensures Atoi(Digits(n)) == Some(n)
  {
    NumeralOfDigits(n);
    DigitsHaveNoSign(n);
    AtoiOfNumeral(Digits(n), n);
  }

  // ---------- what is read as a count ----------

  /** Zeros in front of the decimal form of a number. */
  ghost predicate IsNumeral(s: string, n: nat)
  {
    exists k: nat :: s == Repeat('0', k) + Digits(n)
  }

  lemma {:induction false} ValueOfOneMore(rest: string, n: nat, d: nat)
    requires d < 10 && NumeralValue(rest) == Some(n)
    ensures NumeralValue(rest + [DIGITS[d]]) == Some(10 * n + d)
  {
    var s := rest + [DIGITS[d]];
    assert s[..|s| - 1] == rest;
    assert DigitValue(DIGITS[d]) == Some(d);
  }

  lemma ValueOfOne(d: nat)
    requires d < 10
    ensures NumeralValue([DIGITS[d]]) == Some(d)
  {
    assert DigitValue(DIGITS[d]) == Some(d);
  }

  lemma {:induction false} ValueOfZeros(k: nat)
    requires k > 0
    ensures NumeralValue(Repeat('0', k)) == Some(0)
  {
    if k == 1 {
      ValueOfOne(0);
      assert Repeat('0', 1) == [DIGITS[0]];
    } else {
      ValueOfZeros(k - 1);
      ValueOfOneMore(Repeat('0', k - 1), 0, 0);
      assert Repeat('0', k) == Repeat('0', k - 1) + [DIGITS[0]];
    }
  }

  lemma {:induction false} NumeralOfZeros(k: nat, n: nat)
    ensures NumeralValue(Repeat('0', k) + Digits(n)) == Some(n)
  {
    if n >= 10 {
      NumeralOfZeros(k, n / 10);
      ValueOfOneMore(Repeat('0', k) + Digits(n / 10), n / 10, n % 10);
      assert Repeat('0', k) + Digits(n) == Repeat('0', k) + Digits(n / 10) + [DIGITS[n % 10]];
    } else if k > 0 {
      ValueOfZeros(k);
      ValueOfOneMore(Repeat('0', k), 0, n);
    } else {
      ValueOfOne(n);
      assert Repeat('0', 0) + Digits(n) == [DIGITS[n]];
    }
  }

  lemma OneMoreDigit(k: nat, n: nat, d: nat) returns (more: nat)
    requires d < 10
    ensures Repeat('0', k) + Digits(n) + [DIGITS[d]] == Repeat('0', more) + Digits(10 * n + d)
  {
    if n == 0 {
      more := k + 1;
      assert Repeat('0', k) + Digits(0) == Repeat('0', more);
    } else {
      more := k;
      assert (10 * n + d) / 10 == n && (10 * n + d) % 10 == d;
    }
  }

  lemma {:induction false} ValueIsNumeral(s: string)
    requires NumeralValue(s).Some?
    ensures IsNumeral(s, NumeralValue(s).value)
  {
    var d := DigitValue(s[|s| - 1]).value;
    assert DIGITS[d] == s[|s| - 1];
    if |s| == 1 {
      assert s == Repeat('0', 0) + Digits(d);
    } else {
      var rest := s[..|s| - 1];
      ValueIsNumeral(rest);
      var n := NumeralValue(rest).value;
      var k: nat :| rest == Repeat('0', k) + Digits(n);
      var more := OneMoreDigit(k, n, d);
      assert s == rest + [s[|s| - 1]];
    }
  }

  lemma {:induction false} NumeralMeaning(s: string, n: nat)
    ensures NumeralValue(s) == Some(n) <==> IsNumeral(s, n)
  {
    if NumeralValue(s) == Some(n) {
      ValueIsNumeral(s);
    }
    if k: nat :| s == Repeat('0', k) + Digits(n) {
      NumeralOfZeros(k, n);
    }
  }

  /**
   A count as it may be written: a plus sign, or a minus sign on nothing, then
   zeros, then the digits; and it fits.
   */
  ghost predicate Reads(text: string, n: nat)
  {
    && n <= MAXIMUM
    && (IsNumeral(text, n) || (text != "" && (text[0] == '+' || (text[0] == '-' && n == 0)) && IsNumeral(text[1..], n)))
  }

  lemma {:induction false} NumeralHasNoSign(s: string, n: nat)
    requires IsNumeral(s, n)
    ensures s != "" && s[0] != '+' && s[0] != '-'
  {
    var k: nat :| s == Repeat('0', k) + Digits(n);
    DigitsHaveNoSign(n);
  }

  lemma {:induction false} AtoiMeaning(text: string, n: nat)
    ensures Atoi(text) == Some(n) <==> Reads(text, n)
  {
    if text != "" && (text[0] == '-' || text[0] == '+') {
      NumeralMeaning(text[1..], n);
      if IsNumeral(text, n) { NumeralHasNoSign(text, n); }
      if NumeralValue(text[1..]).Some? {
        NumeralMeaning(text[1..], NumeralValue(text[1..]).value);
      }
    } else {
      NumeralMeaning(text, n);
    }
  }

  lemma ParseAtCut(value: string, a: string, b: string, span: Span)
    requires CutFirst(value, ',', a, b)
    ensures Parse(value) == Some(span) <==> Reads(a, span.before) && Reads(b, span.after)
  {
    CutsAtIndex(value, ',', a, b);
    AtoiMeaning(a, span.before);
    AtoiMeaning(b, span.after);
  }

  /** Exactly these texts are parsed, and to exactly this: two counts that can be read, cut at the first comma. */
  lemma {:induction false} ParseMeaning(value: string, span: Span)
    ensures Parse(value) == Some(span) <==>
            exists a, b :: CutFirst(value, ',', a, b) && Reads(a, span.before) && Reads(b, span.after)
  {
    if Parse(value) == Some(span) {
      var i := IndexOf(value, ',');
      IndexCuts(value, ',');
      ParseAtCut(value, value[..i], value[i + 1..], span);
    }
    if a, b :| CutFirst(value, ',', a, b) && Reads(a, span.before) && Reads(b, span.after) {
      ParseAtCut(value, a, b, span);
    }
  }

  /** A span survives being printed and parsed. */
  lemma PrintParse(span: Span)
    requires span.before <= MAXIMUM && span.after <= MAXIMUM
    ensures Parse(Print(span)) == Some(span)
  {
    var a, b := Digits(span.before), Digits(span.after);
    var s := Print(span);
    DigitsHaveNoSign(span.before);
    assert forall j | 0 <= j < |a| :: s[j] == a[j] && a[j] in a;
    assert s[|a|] == ',';
    assert IndexOf(s, ',') == |a|;
    assert s[..|a|] == a && s[|a| + 1..] == b;
    AtoiOfDigits(span.before);
    AtoiOfDigits(span.after);
  }
}
