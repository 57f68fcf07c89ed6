/**
 The Exec line of an exported desktop entry: quoting one argument as "The Exec
 key" section of the Desktop Entry Specification describes, splitting a line
 into its quoted arguments, and recovering the program it starts.
 */
module DesktopExec {
  import opened Common
  import opened Text

  /** Escaped inside quotes. */
  predicate IsEscaped(c: char) { c == '\\' || c == '"' || c == '`' || c == '$' }

  /** What makes an argument need quotes. */
  predicate IsReserved(c: char) { c == ' ' || c == '\t' || c == '\n' || IsEscaped(c) }

  predicate Plain(value: string) { forall c | c in value :: !IsReserved(c) }

  function Escape(value: string): string
  {
    if value == "" then ""
    else (if IsEscaped(value[0]) then ['\\', value[0]] else [value[0]]) + Escape(value[1..])
  }

  /** The form an argument takes on an Exec line. */
  function ExecArgument(value: string): string
  {
    if Plain(value) then value else ['"'] + Escape(value) + ['"']
  }

  /** Several arguments, each preceded by a space. */
  function Trailing(values: seq<string>): string
  {
    if values == [] then "" else " " + ExecArgument(values[0]) + Trailing(values[1..])
  }

  /** `strings.Join` of the quoted arguments with a space between them. */
  function ExecLine(values: seq<string>): string
  {
    if values == [] then "" else ExecArgument(values[0]) + Trailing(values[1..])
  }

  // ---------- what a quoted argument looks like ----------

  /**
   Every quote, grave accent and dollar sign stands behind a backslash, and a
   backslash stands only in front of one of the four.
   */
  predicate Safe(e: string)
  {
    if e == "" then true
    else if e[0] == '\\' then |e| >= 2 && e[1] in "\\\"`$" && Safe(e[2..])
    else e[0] !in "\"`$" && Safe(e[1..])
  }

  /** What is meant: the character behind each backslash, and every other as it is. */
  function Meant(e: string): string
  {
    if e == "" then ""
    else if e[0] == '\\' && |e| >= 2 then [e[1]] + Meant(e[2..])
    else [e[0]] + Meant(e[1..])
  }

  lemma {:induction false} EscapeIsSafe(v: string)
    ensures Safe(Escape(v)) && Meant(Escape(v)) == v
  {
    if v != "" {
      var more := Escape(v[1..]);
      EscapeIsSafe(v[1..]);
      EscapeStarts(v, "");
      if IsEscaped(v[0]) {
        assert Escape(v)[2..] == more;
      } else {
        assert Escape(v)[1..] == more;
      }
    }
  }

  /**
   An argument stands as it is exactly when it holds none of the seven reserved
   characters; any other is put in quotes, in which nothing of it stands
   unescaped that has to be, and from which it is read back.
   */
  lemma {:induction false} ArgumentForm(v: string)
    ensures var f := ExecArgument(v);
            if forall c | c in v :: c !in " \t\n\"`$\\" then f == v
            else && |f| >= 2 && f[0] == '"' && f[|f| - 1] == '"'
                 && Safe(f[1..|f| - 1]) && Meant(f[1..|f| - 1]) == v
  {
    EscapeIsSafe(v);
    var f := ['"'] + Escape(v) + ['"'];
    assert f[1..|f| - 1] == Escape(v);
    forall c
      ensures IsReserved(c) <==> c in " \t\n\"`$\\"
    {
    }
  }

  // ---------- splitting ----------

  function Token(current: string): seq<string> { if current == "" then [] else [current] }

  /** The tokens of what is left of a line, with the one being read and the state of the reader. */
  function Tokens(rest: string, current: string, quoted: bool, escaped: bool): seq<string>
  {
    if rest == "" then Token(current)
    else
      var c, more := rest[0], rest[1..];
      if escaped then Tokens(more, current + [c], quoted, false)
      else if c == '\\' then Tokens(more, current + [c], quoted, true)
      else if c == '"' then Tokens(more, current + [c], !quoted, false)
      else if (c == ' ' || c == '\t') && !quoted then Token(current) + Tokens(more, "", false, false)
      else Tokens(more, current + [c], quoted, false)
  }

  /** One character of the reader. */
  lemma {:induction false} TokensStep(c: char, more: string, current: string, quoted: bool, escaped: bool)
    ensures Tokens([c] + more, current, quoted, escaped) ==
            if escaped then Tokens(more, current + [c], quoted, false)
            else if c == '\\' then Tokens(more, current + [c], quoted, true)
            else if c == '"' then Tokens(more, current + [c], !quoted, false)
            else if (c == ' ' || c == '\t') && !quoted then Token(current) + Tokens(more, "", false, false)
            else Tokens(more, current + [c], quoted, false)
  {
    assert ([c] + more)[1..] == more;
  }

  lemma Regroup(a: string, c: char, b: string)
    ensures a + [c] + b == a + ([c] + b)
  {
  }

  lemma FirstOf(v: string, rest: string)
    requires v != ""
    ensures v == [v[0]] + v[1..] && v + rest == [v[0]] + (v[1..] + rest)
  {
  }

  /** How an escaped text begins, in front of anything. */
  lemma {:induction false} EscapeStarts(v: string, rest: string)
    requires v != ""
    ensures Escape(v) == if IsEscaped(v[0]) then ['\\'] + ([v[0]] + Escape(v[1..])) else [v[0]] + Escape(v[1..])
    ensures Escape(v) + rest ==
            if IsEscaped(v[0]) then ['\\'] + ([v[0]] + (Escape(v[1..]) + rest)) else [v[0]] + (Escape(v[1..]) + rest)
  {
    var more := Escape(v[1..]);
    assert ['\\', v[0]] + more == ['\\'] + ([v[0]] + more);
    assert ['\\'] + ([v[0]] + more) + rest == ['\\'] + ([v[0]] + (more + rest));
    assert [v[0]] + more + rest == [v[0]] + (more + rest);
  }

  function From(s: string, i: nat): string
    requires i <= |s|
  {
    if i == 0 then s else s[i..]
  }

  lemma FromStep(s: string, i: nat)
    requires i < |s|
    ensures From(s, i) == [s[i]] + From(s, i + 1)
  {
  }

  /** One more character of the token being read. */
  lemma SliceGrows(s: string, start: nat, i: nat)
    requires start <= i < |s|
    ensures s[start..i] + [s[i]] == s[start..i + 1]
  {
  }

  /** A token is done: it joins those before it, and the next begins empty. */
  lemma TokenDone(tokens: seq<string>, current: string, more: seq<string>)
    ensures tokens + (Token(current) + more) == (tokens + Token(current)) + more
    ensures current == "" ==> tokens + Token(current) == tokens
  {
  }

  /** Breaks a line into tokens the way a launcher does. */
  method SplitArguments(value: string) returns (tokens: seq<string>)
    ensures tokens == Tokens(value, "", false, false)
  {
    tokens := [];
    var start, quoted, escaped := 0, false, false;
    for index := 0 to |value|
      invariant 0 <= start <= index
      invariant tokens + Tokens(From(value, index), value[start..index], quoted, escaped) ==
                Tokens(value, "", false, false)
    {
      ghost var current, more := value[start..index], From(value, index + 1);
      FromStep(value, index);
      SliceGrows(value, start, index);
      TokensStep(value[index], more, current, quoted, escaped);
      if escaped {
        escaped := false;
      } else if value[index] == '\\' {
        escaped := true;
      } else if value[index] == '"' {
        quoted := !quoted;
      } else if (value[index] == ' ' || value[index] == '\t') && !quoted {
        TokenDone(tokens, current, Tokens(more, "", false, false));
        if start < index {
          tokens := tokens + [value[start..index]];
        }
        start := index + 1;
        assert value[start..index + 1] == "";
      }
    }
    assert From(value, |value|) == "";
    if start < |value| {
      tokens := tokens + [value[start..|value|]];
    } else {
      assert value[start..|value|] == "" && tokens + [] == tokens;
    }
  }

  lemma {:induction false} TokensOfPlain(p: string, rest: string, current: string)
    requires Plain(p)
    ensures Tokens(p + rest, current, false, false) == Tokens(rest, current + p, false, false)
    decreases |p|
  {
    if p == "" {
      assert p + rest == rest && current + p == current;
    } else {
      var more := p[1..];
      assert p[0] in p && Plain(more);
      FirstOf(p, rest);
      TokensStep(p[0], more + rest, current, false, false);
      TokensOfPlain(more, rest, current + [p[0]]);
      Regroup(current, p[0], more);
    }
  }

  lemma {:induction false} TokensOfEscaped(v: string, rest: string, current: string)
    ensures Tokens(Escape(v) + rest, current, true, false) == Tokens(rest, current + Escape(v), true, false)
    decreases |v|
  {
    if v == "" {
      assert Escape(v) + rest == rest && current + Escape(v) == current;
    } else {
      var c, more := v[0], Escape(v[1..]);
      EscapeStarts(v, rest);
      if IsEscaped(c) {
        TokensStep('\\', [c] + (more + rest), current, true, false);
        TokensStep(c, more + rest, current + ['\\'], true, true);
        TokensOfEscaped(v[1..], rest, current + ['\\'] + [c]);
        Regroup(current + ['\\'], c, more);
        Regroup(current, '\\', [c] + more);
      } else {
        TokensStep(c, more + rest, current, true, false);
        TokensOfEscaped(v[1..], rest, current + [c]);
        Regroup(current, c, more);
      }
    }
  }

  /** A quoted argument in front of anything, one character at a time. */
  lemma {:induction false} QuotesRegroup(v: string, rest: string)
    ensures ['"'] + Escape(v) + ['"'] + rest == ['"'] + (Escape(v) + (['"'] + rest))
  {
  }

  lemma {:induction false} TokensOfQuotes(v: string, rest: string)
    ensures Tokens(['"'] + Escape(v) + ['"'] + rest, "", false, false) ==
            Tokens(rest, ['"'] + Escape(v) + ['"'], false, false)
  {
    var closing := ['"'] + rest;
    QuotesRegroup(v, rest);
    TokensStep('"', Escape(v) + closing, "", false, false);
    assert "" + ['"'] == ['"'];
    TokensOfEscaped(v, closing, ['"']);
    TokensStep('"', rest, ['"'] + Escape(v), true, false);
  }

  lemma {:induction false} TokensOfArgument(v: string, rest: string)
    ensures Tokens(ExecArgument(v) + rest, "", false, false) == Tokens(rest, ExecArgument(v), false, false)
  {
    if Plain(v) {
      TokensOfPlain(v, rest, "");
      assert "" + v == v;
    } else {
      TokensOfQuotes(v, rest);
    }
  }

  function Quoted(values: seq<string>): seq<string>
  {
    if values == [] then [] else Token(ExecArgument(values[0])) + Quoted(values[1..])
  }

  lemma {:induction false} TrailingStarts(values: seq<string>)
    requires values != []
    ensures Trailing(values) == [' '] + (ExecArgument(values[0]) + Trailing(values[1..]))
  {
  }

  lemma {:induction false} TokensOfTrailing(values: seq<string>, current: string)
    ensures Tokens(Trailing(values), current, false, false) == Token(current) + Quoted(values)
    decreases |values|
  {
    if values == [] {
      assert Token(current) + [] == Token(current);
    } else {
      var argument, more := ExecArgument(values[0]), Trailing(values[1..]);
      TrailingStarts(values);
      TokensStep(' ', argument + more, current, false, false);
      TokensOfArgument(values[0], more);
      TokensOfTrailing(values[1..], argument);
    }
  }

  /** An argument is quoted to nothing exactly when it is empty. */
  lemma EmptyArgument(v: string)
    ensures ExecArgument(v) == "" <==> v == ""
  {
  }

  /** Splitting a line gives back its quoted arguments one by one, leaving out only the empty ones. */
  lemma {:induction false} SplitRecoversArguments(values: seq<string>)
    ensures Tokens(ExecLine(values), "", false, false) == Quoted(values)
  {
    if values != [] {
      TokensOfArgument(values[0], Trailing(values[1..]));
      TokensOfTrailing(values[1..], ExecArgument(values[0]));
    }
  }

  function Arguments(values: seq<string>): (r: seq<string>)
    ensures |r| == |values|
    ensures forall i | 0 <= i < |r| :: r[i] == ExecArgument(values[i])
  {
    seq(|values|, i requires 0 <= i < |values| => ExecArgument(values[i]))
  }

  lemma {:induction false} QuotedOfNonEmpty(values: seq<string>)
    requires forall i | 0 <= i < |values| :: values[i] != ""
    ensures Quoted(values) == Arguments(values)
  {
    if values != [] {
      EmptyArgument(values[0]);
      QuotedOfNonEmpty(values[1..]);
    }
  }

  // ---------- the program ----------

  /** The first unquoted word of what is left, with what was read of it and the state of the reader. */
  function Word(rest: string, word: string, quoted: bool, escaped: bool): Option<string>
  {
    if rest == "" then (if escaped || quoted || word == "" then None else Some(word))
    else
      var c, more := rest[0], rest[1..];
      if escaped then Word(more, word + [c], quoted, false)
      else if c == '\\' then Word(more, word, quoted, true)
      else if c == '"' then Word(more, word, !quoted, false)
      else if !quoted && (c == ' ' || c == '\t') then
        (if word != "" then Some(word) else Word(more, word, quoted, false))
      else Word(more, word + [c], quoted, false)
  }

  /** One character of the reader. */
  lemma {:induction false} WordStep(c: char, more: string, word: string, quoted: bool, escaped: bool)
    ensures Word([c] + more, word, quoted, escaped) ==
            if escaped then Word(more, word + [c], quoted, false)
            else if c == '\\' then Word(more, word, quoted, true)
            else if c == '"' then Word(more, word, !quoted, false)
            else if !quoted && (c == ' ' || c == '\t') then
              (if word != "" then Some(word) else Word(more, word, quoted, false))
            else Word(more, word + [c], quoted, false)
  {
    assert ([c] + more)[1..] == more;
  }

  /** The program a command starts, unquoted. */
  method EntryExecutable(command: string) returns (r: Option<string>)
    ensures r == Word(TrimSpace(command), "", false, false)
  {
    var text := TrimSpace(command);
    if text == "" {
      return None;
    }
    var word, quoted, escaped := "", false, false;
    for i := 0 to |text|
      invariant Word(From(text, i), word, quoted, escaped) == Word(text, "", false, false)
    {
      FromStep(text, i);
      var c := text[i];
      if escaped {
        word, escaped := word + [c], false;
      } else if c == '\\' {
        escaped := true;
      } else if c == '"' {
        quoted := !quoted;
      } else if !quoted && (c == ' ' || c == '\t') {
        if word != "" {
          return Some(word);
        }
      } else {
        word := word + [c];
      }
    }
    assert From(text, |text|) == "";
    r := if escaped || quoted || word == "" then None else Some(word);
  }

  lemma {:induction false} WordOfPlain(p: string, rest: string, word: string)
    requires Plain(p)
    ensures Word(p + rest, word, false, false) == Word(rest, word + p, false, false)
    decreases |p|
  {
    if p == "" {
      assert p + rest == rest && word + p == word;
    } else {
      var more := p[1..];
      assert p[0] in p && Plain(more);
      FirstOf(p, rest);
      WordStep(p[0], more + rest, word, false, false);
      WordOfPlain(more, rest, word + [p[0]]);
      Regroup(word, p[0], more);
    }
  }

  lemma {:induction false} WordOfEscaped(v: string, rest: string, word: string)
    ensures Word(Escape(v) + rest, word, true, false) == Word(rest, word + v, true, false)
    decreases |v|
  {
    if v == "" {
      assert Escape(v) + rest == rest && word + v == word;
    } else {
      var c, more := v[0], Escape(v[1..]);
      EscapeStarts(v, rest);
      if IsEscaped(c) {
        WordStep('\\', [c] + (more + rest), word, true, false);
        WordStep(c, more + rest, word, true, true);
      } else {
        WordStep(c, more + rest, word, true, false);
      }
      WordOfEscaped(v[1..], rest, word + [c]);
      Regroup(word, c, v[1..]);
      FirstOf(v, rest);
    }
  }

  lemma {:induction false} WordOfQuotes(v: string, rest: string)
    requires v != "" && (rest == "" || rest[0] == ' ')
    ensures Word(['"'] + Escape(v) + ['"'] + rest, "", false, false) == Some(v)
  {
    var closing := ['"'] + rest;
    QuotesRegroup(v, rest);
    WordStep('"', Escape(v) + closing, "", false, false);
    WordOfEscaped(v, closing, "");
    assert "" + v == v;
    WordStep('"', rest, v, true, false);
    if rest != "" { assert rest == [' '] + rest[1..]; }
  }

  /** Followed by nothing or by a space, a quoted argument reads back as the argument. */
  lemma {:induction false} WordOfArgument(v: string, rest: string)
    requires v != "" && (rest == "" || rest[0] == ' ')
    ensures Word(ExecArgument(v) + rest, "", false, false) == Some(v)
  {
    if Plain(v) {
      WordOfPlain(v, rest, "");
      assert "" + v == v;
    } else {
      WordOfQuotes(v, rest);
    }
  }

  // ---------- what trimming the command costs ----------

  predicate Blank(s: string) { forall i | 0 <= i < |s| :: IsSpace(s[i]) }

  lemma {:induction false} TrimRightOfConcat(a: string, b: string)
    ensures TrimRight(a + b) == if Blank(b) then TrimRight(a) else a + TrimRight(b)
    decreases |b|
  {
    if b == "" {
      assert a + b == a;
    } else if IsSpace(b[|b| - 1]) {
      var rest := b[..|b| - 1];
      assert (a + b)[..|a + b| - 1] == a + rest;
      assert Blank(b) <==> Blank(rest);
      TrimRightOfConcat(a, rest);
    }
  }

  lemma {:induction false} TrimRightKeepsStart(s: string)
    requires !Blank(s)
    ensures TrimRight(s) != "" && TrimRight(s)[0] == s[0] && !IsSpace(TrimRight(s)[|TrimRight(s)| - 1])
    decreases |s|
  {
    if IsSpace(s[|s| - 1]) {
      var rest := s[..|s| - 1];
      assert Blank(rest) ==> Blank(s);
      TrimRightKeepsStart(rest);
    }
  }

  lemma {:induction false} TrimLeftOfBlank(b: string, s: string)
    requires Blank(b)
    ensures TrimLeft(b + s) == TrimLeft(s)
    decreases |b|
  {
    if b == "" {
      assert b + s == s;
    } else {
      assert (b + s)[1..] == b[1..] + s;
      TrimLeftOfBlank(b[1..], s);
    }
  }

  /** What trimming leaves of something not blank in front of more text. */
  lemma {:induction false} TrimLeftOfWord(p: string, s: string) returns (u: string)
    requires !Blank(p)
    ensures u != "" && !IsSpace(u[0]) && TrimLeft(p + s) == u + s && (forall c | c in u :: c in p)
    decreases |p|
  {
    if IsSpace(p[0]) {
      assert (p + s)[1..] == p[1..] + s;
      assert Blank(p[1..]) ==> Blank(p);
      u := TrimLeftOfWord(p[1..], s);
    } else {
      u := p;
    }
  }

  /** The word only ever grows. */
  lemma {:induction false} WordExtends(rest: string, word: string, quoted: bool, escaped: bool)
    ensures var w := Word(rest, word, quoted, escaped); w.Some? ==> word <= w.value
    decreases |rest|
  {
    if rest != "" {
      var c, more := rest[0], rest[1..];
      if escaped {
        WordExtends(more, word + [c], quoted, false);
      } else if c == '\\' {
        WordExtends(more, word, quoted, true);
      } else if c == '"' {
        WordExtends(more, word, !quoted, false);
      } else if !quoted && (c == ' ' || c == '\t') {
        WordExtends(more, word, quoted, false);
      } else {
        WordExtends(more, word + [c], quoted, false);
      }
    }
  }

  /** A command that begins with an ordinary character starts a program that begins with it. */
  lemma {:induction false} WordStarts(u: string, s: string, x: string)
    requires u != "" && !IsSpace(u[0]) && !IsReserved(u[0]) && x != "" && IsSpace(x[0])
    ensures Word(TrimRight(u + s), "", false, false) != Some(x)
  {
    assert u + s == [u[0]] + (u + s)[1..];
    assert !Blank(u + s) by { assert (u + s)[0] == u[0]; }
    TrimRightKeepsStart(u + s);
    var text := TrimRight(u + s);
    assert "" + [text[0]] == [text[0]];
    WordExtends(text[1..], [text[0]], false, false);
  }

  lemma TrimOfArgument(v: string, s: string)
    requires v != "" && (Plain(v) ==> !IsSpace(v[0]) && !IsSpace(v[|v| - 1]))
    requires s == "" || s[0] == ' '
    ensures Word(TrimSpace(ExecArgument(v) + s), "", false, false) == Some(v)
  {
    var q := ExecArgument(v);
    assert !IsSpace(q[0]) && !IsSpace(q[|q| - 1]);
    TrimRightOfConcat(q, s);
    if Blank(s) {
      assert q + "" == q;
      WordOfArgument(v, "");
    } else {
      TrimRightKeepsStart(s);
      WordOfArgument(v, TrimRight(s));
    }
  }

  lemma {:induction false} TrimLeftOfTrailing(values: seq<string>)
    requires values != []
    ensures TrimLeft(Trailing(values)) == TrimLeft(ExecArgument(values[0]) + Trailing(values[1..]))
  {
    TrailingStarts(values);
    TrimLeftOfBlank(" ", ExecArgument(values[0]) + Trailing(values[1..]));
  }

  /** What follows a program never becomes a program that begins with a space. */
  lemma {:induction false} TrailingStart(values: seq<string>, x: string)
    requires x != "" && Plain(x) && IsSpace(x[0])
    ensures Word(TrimSpace(Trailing(values)), "", false, false) != Some(x)
    decreases |values|
  {
    if values != [] {
      var v, tail := values[0], Trailing(values[1..]);
      TrimLeftOfTrailing(values);
      if !Plain(v) {
        assert tail == "" || tail[0] == ' ';
        TrimOfArgument(v, tail);
      } else if Blank(v) {
        TrimLeftOfBlank(v, tail);
        TrailingStart(values[1..], x);
      } else {
        var u := TrimLeftOfWord(v, tail);
        assert u[0] in v;
        WordStarts(u, tail, x);
      }
    }
  }

  /**
   The program is recovered exactly when trimming the command leaves its
   argument whole: it was quoted, or it begins without white space and either
   ends without white space or is followed by something that is not white space.
   */
  lemma {:induction false} ExecutableRecovered(program: string, values: seq<string>)
    requires program != ""
    ensures Word(TrimSpace(ExecLine([program] + values)), "", false, false) == Some(program) <==>
            || !Plain(program)
            || (!IsSpace(program[0]) && (!IsSpace(program[|program| - 1]) || !Blank(Trailing(values))))
  {
    var tail := Trailing(values);
    assert ([program] + values)[1..] == values;
    assert tail == "" || tail[0] == ' ';
    if !Plain(program) || (!IsSpace(program[0]) && !IsSpace(program[|program| - 1])) {
      TrimOfArgument(program, tail);
    } else if IsSpace(program[0]) {
      if Blank(program) {
        TrimLeftOfBlank(program, tail);
        TrailingStart(values, program);
      } else {
        var u := TrimLeftOfWord(program, tail);
        assert u[0] in program;
        WordStarts(u, tail, program);
      }
    } else {
      TrailingSpace(program, tail);
    }
  }

  /** A program that ends with white space, and nothing but white space after it. */
  lemma {:induction false} SpaceIsTrimmed(program: string)
    requires program != "" && Plain(program) && !IsSpace(program[0]) && IsSpace(program[|program| - 1])
    ensures Word(TrimRight(program), "", false, false) != Some(program)
  {
    assert !Blank(program);
    TrimRightKeepsStart(program);
    TrimRightOfPlain(program);
    var text := TrimRight(program);
    WordOfPlain(text, "", "");
    assert text + "" == text && "" + text == text;
  }

  lemma {:induction false} SpaceIsKept(program: string, rest: string)
    requires program != "" && Plain(program) && rest != "" && rest[0] == ' '
    ensures Word(program + rest, "", false, false) == Some(program)
  {
    WordOfPlain(program, rest, "");
    assert "" + program == program && rest == [' '] + rest[1..];
    WordStep(' ', rest[1..], program, false, false);
  }

  lemma {:induction false} TrailingSpace(program: string, tail: string)
    requires program != "" && Plain(program) && !IsSpace(program[0]) && IsSpace(program[|program| - 1])
    requires tail == "" || tail[0] == ' '
    ensures Word(TrimSpace(program + tail), "", false, false) == Some(program) <==> !Blank(tail)
  {
    TrimRightOfConcat(program, tail);
    assert (program + tail)[0] == program[0];
    if Blank(tail) {
      SpaceIsTrimmed(program);
    } else {
      TrimRightKeepsStart(tail);
      SpaceIsKept(program, TrimRight(tail));
    }
  }

  lemma {:induction false} TrimRightOfPlain(p: string)
    requires Plain(p)
    ensures Plain(TrimRight(p))
    decreases |p|
  {
    if p != "" && IsSpace(p[|p| - 1]) {
      TrimRightOfPlain(p[..|p| - 1]);
    }
  }

  // ---------- any line that is written in pieces ----------

  /** A character as it stands, or behind a backslash. */
  datatype Mark = Bare(c: char) | Pair(c: char)

  /** A run of marks, in quotes or not. */
  datatype Piece = Piece(marks: seq<Mark>, quoted: bool)

  /** A mark that can be written there: in quotes a blank may stand as it is. */
  predicate Writable(m: Mark, quoted: bool)
  {
    m.Bare? ==> m.c != '\\' && m.c != '"' && (quoted || (m.c != ' ' && m.c != '\t'))
  }

  ghost predicate WellWritten(ps: seq<Piece>)
  {
    forall p, m | p in ps && m in p.marks :: Writable(m, p.quoted)
  }

  function MarkText(m: Mark): string { if m.Pair? then ['\\', m.c] else [m.c] }

  function MarksText(ms: seq<Mark>): string
  {
    if ms == [] then "" else MarkText(ms[0]) + MarksText(ms[1..])
  }

  function MarksMean(ms: seq<Mark>): string
  {
    if ms == [] then "" else [ms[0].c] + MarksMean(ms[1..])
  }

  function PieceText(p: Piece): string
  {
    if p.quoted then ['"'] + MarksText(p.marks) + ['"'] else MarksText(p.marks)
  }

  function PiecesText(ps: seq<Piece>): string
  {
    if ps == [] then "" else PieceText(ps[0]) + PiecesText(ps[1..])
  }

  function PiecesMean(ps: seq<Piece>): string
  {
    if ps == [] then "" else MarksMean(ps[0].marks) + PiecesMean(ps[1..])
  }

  lemma Concat(a: string, b: string, c: string)
    ensures (a + b) + c == a + (b + c)
  {
  }

  lemma {:induction false} ReadMark(m: Mark, rest: string, current: string, word: string, quoted: bool)
    requires Writable(m, quoted)
    ensures Tokens(MarkText(m) + rest, current, quoted, false) == Tokens(rest, current + MarkText(m), quoted, false)
    ensures Word(MarkText(m) + rest, word, quoted, false) == Word(rest, word + [m.c], quoted, false)
  {
    if m.Pair? {
      assert MarkText(m) + rest == ['\\'] + ([m.c] + rest);
      TokensStep('\\', [m.c] + rest, current, quoted, false);
      TokensStep(m.c, rest, current + ['\\'], quoted, true);
      assert current + ['\\'] + [m.c] == current + MarkText(m);
      WordStep('\\', [m.c] + rest, word, quoted, false);
      WordStep(m.c, rest, word, quoted, true);
    } else {
      TokensStep(m.c, rest, current, quoted, false);
      WordStep(m.c, rest, word, quoted, false);
    }
  }

  lemma {:induction false} ReadMarks(ms: seq<Mark>, rest: string, current: string, word: string, quoted: bool)
    requires forall m | m in ms :: Writable(m, quoted)
    ensures Tokens(MarksText(ms) + rest, current, quoted, false) == Tokens(rest, current + MarksText(ms), quoted, false)
    ensures Word(MarksText(ms) + rest, word, quoted, false) == Word(rest, word + MarksMean(ms), quoted, false)
  {
    if ms == [] {
      assert MarksText(ms) + rest == rest && current + MarksText(ms) == current && word + MarksMean(ms) == word;
    } else {
      var first, more := MarkText(ms[0]), MarksText(ms[1..]);
      Concat(first, more, rest);
      ReadMark(ms[0], more + rest, current, word, quoted);
      ReadMarks(ms[1..], rest, current + first, word + [ms[0].c], quoted);
      Concat(current, first, more);
      Concat(word, [ms[0].c], MarksMean(ms[1..]));
    }
  }

  lemma {:induction false} ReadPiece(p: Piece, rest: string, current: string, word: string)
    requires forall m | m in p.marks :: Writable(m, p.quoted)
    ensures Tokens(PieceText(p) + rest, current, false, false) == Tokens(rest, current + PieceText(p), false, false)
    ensures Word(PieceText(p) + rest, word, false, false) == Word(rest, word + MarksMean(p.marks), false, false)
  {
    if p.quoted {
      var inner, closing := MarksText(p.marks), ['"'] + rest;
      assert PieceText(p) + rest == ['"'] + (inner + closing);
      TokensStep('"', inner + closing, current, false, false);
      WordStep('"', inner + closing, word, false, false);
      ReadMarks(p.marks, closing, current + ['"'], word, true);
      TokensStep('"', rest, current + ['"'] + inner, true, false);
      WordStep('"', rest, word + MarksMean(p.marks), true, false);
      assert current + ['"'] + inner + ['"'] == current + PieceText(p);
    } else {
      ReadMarks(p.marks, rest, current, word, false);
    }
  }

  lemma {:induction false} ReadPieces(ps: seq<Piece>, rest: string, current: string, word: string)
    requires WellWritten(ps)
    ensures Tokens(PiecesText(ps) + rest, current, false, false) == Tokens(rest, current + PiecesText(ps), false, false)
    ensures Word(PiecesText(ps) + rest, word, false, false) == Word(rest, word + PiecesMean(ps), false, false)
  {
    if ps == [] {
      assert PiecesText(ps) + rest == rest && current + PiecesText(ps) == current && word + PiecesMean(ps) == word;
    } else {
      var first, more := PieceText(ps[0]), PiecesText(ps[1..]);
      Concat(first, more, rest);
      ReadPiece(ps[0], more + rest, current, word);
      ReadPieces(ps[1..], rest, current + first, word + MarksMean(ps[0].marks));
      Concat(current, first, more);
      Concat(word, MarksMean(ps[0].marks), PiecesMean(ps[1..]));
    }
  }

  /** One blank at least, spaces and tabs in any order. */
  predicate IsBlank(s: string) { s != "" && forall c | c in s :: c == ' ' || c == '\t' }

  lemma {:induction false} ReadBlank(blank: string, rest: string, current: string)
    requires IsBlank(blank)
    ensures Tokens(blank + rest, current, false, false) == Token(current) + Tokens(rest, "", false, false)
    decreases |blank|
  {
    var more := blank[1..];
    assert blank[0] in blank && forall c | c in more :: c in blank;
    FirstOf(blank, rest);
    TokensStep(blank[0], more + rest, current, false, false);
    if more != "" {
      ReadBlank(more, rest, "");
      assert [] + Tokens(rest, "", false, false) == Tokens(rest, "", false, false);
    } else {
      assert more + rest == rest;
    }
  }

  /** Words with a blank in front of each. */
  datatype Spaced = Spaced(blank: string, word: seq<Piece>)

  ghost predicate WellSpaced(line: seq<Spaced>)
  {
    forall w | w in line :: IsBlank(w.blank) && WellWritten(w.word)
  }

  function LineText(line: seq<Spaced>, tail: string): string
  {
    if line == [] then tail else line[0].blank + (PiecesText(line[0].word) + LineText(line[1..], tail))
  }

  function WordTexts(line: seq<Spaced>): seq<string>
  {
    if line == [] then [] else Token(PiecesText(line[0].word)) + WordTexts(line[1..])
  }

  lemma {:induction false} ReadLine(line: seq<Spaced>, tail: string, current: string)
    requires WellSpaced(line) && (tail == "" || IsBlank(tail))
    ensures Tokens(LineText(line, tail), current, false, false) == Token(current) + WordTexts(line)
  {
    if line == [] {
      if tail != "" {
        ReadBlank(tail, "", current);
        assert tail + "" == tail;
      }
      assert Token(current) + [] == Token(current);
    } else {
      var text, rest := PiecesText(line[0].word), LineText(line[1..], tail);
      ReadBlank(line[0].blank, text + rest, current);
      ReadPieces(line[0].word, rest, "", "");
      assert "" + text == text;
      ReadLine(line[1..], tail, text);
    }
  }

  /**
   Whatever is escaped, quoted or set apart by spaces and tabs: splitting gives
   the words as they are written, leaving out only those written as nothing.
   */
  lemma {:induction false} SplitGivesWords(first: seq<Piece>, line: seq<Spaced>, tail: string)
    requires WellWritten(first) && WellSpaced(line) && (tail == "" || IsBlank(tail))
    ensures Tokens(PiecesText(first) + LineText(line, tail), "", false, false) ==
            Token(PiecesText(first)) + WordTexts(line)
  {
    ReadPieces(first, LineText(line, tail), "", "");
    assert "" + PiecesText(first) == PiecesText(first);
    ReadLine(line, tail, PiecesText(first));
  }

  /** The program of such a line is what its first word means, with quotes and backslashes taken away. */
  lemma {:induction false} FirstWordIsProgram(first: seq<Piece>, line: seq<Spaced>, tail: string)
    requires WellWritten(first) && WellSpaced(line) && (tail == "" || IsBlank(tail)) && PiecesMean(first) != ""
    ensures Word(PiecesText(first) + LineText(line, tail), "", false, false) == Some(PiecesMean(first))
  {
    var rest := LineText(line, tail);
    ReadPieces(first, rest, "", "");
    assert "" + PiecesMean(first) == PiecesMean(first);
    if rest != "" {
      assert rest[0] == if line == [] then tail[0] else line[0].blank[0];
      assert line == [] ==> tail[0] in tail;
      assert line != [] ==> line[0] in line && line[0].blank[0] in line[0].blank;
      WordStep(rest[0], rest[1..], PiecesMean(first), false, false);
      assert [rest[0]] + rest[1..] == rest;
    }
  }
}
