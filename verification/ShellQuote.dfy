/** Quoting a package name for a shell script, against a lexer that reads words as section 2.2
    (Quoting) of the Shell Command Language in IEEE Std 1003.1 does. */
module ShellQuote {
  import opened Text

  // ------------------------------------------------------------------------------------- quoting

  predicate Plain(c: char) {
    c == '-' || c == '_' || c == '.' || c == '+' || 'a' <= c <= 'z' || 'A' <= c <= 'Z' || '0' <= c <= '9'
  }

  const QUOTED_QUOTE: string := ['\'', '"', '\'', '"', '\'']

  /** Every single quote replaced: close, a double-quoted single quote, reopen. */
  function Escape(s: string): string {
    if s == "" then "" else (if s[0] == '\'' then QUOTED_QUOTE else [s[0]]) + Escape(s[1..])
  }

  function Quote(raw: string): string {
    var s := Trim(raw);
    if s == "" then "''"
    else if forall c :: c in s ==> Plain(c) then s
    else "'" + Escape(s) + "'"
  }

  const DIGITS: string := "0123456789"
  const SIGNS: string := "-_.+"

  /** The characters a shell never takes for anything else. */
  const PLAIN: string := SMALL + CAPITAL + DIGITS + SIGNS

  lemma PlainMeans(c: char)
    ensures Plain(c) <==> c in PLAIN
  {
    Alphabets();
    assert forall i :: 0 <= i < 10 ==> DIGITS[i] == '0' + i as char;
    if 'a' <= c <= 'z' { assert SMALL[(c - 'a') as int] == c; }
    if 'A' <= c <= 'Z' { assert CAPITAL[(c - 'A') as int] == c; }
    if '0' <= c <= '9' { assert DIGITS[(c - '0') as int] == c; }
    assert SIGNS[0] == '-' && SIGNS[1] == '_' && SIGNS[2] == '.' && SIGNS[3] == '+';
  }

  lemma {:induction false} EscapesOnlyQuotes(s: string)
    requires '\'' !in s
    ensures Escape(s) == s
  {
    if s != "" {
      assert s[0] in s && s == [s[0]] + s[1..];
      EscapesOnlyQuotes(s[1..]);
    }
  }

  /** A name of plain characters stays as it is, any other goes between single quotes, and so does nothing. */
  lemma QuotesIfNeeded(raw: string)
    ensures var s := Trim(raw);
            && (s == "" ==> Quote(raw) == "''")
            && (s != "" && (forall c :: c in s ==> c in PLAIN) ==> Quote(raw) == s)
            && ((exists c :: c in s && c !in PLAIN) && '\'' !in s ==> Quote(raw) == "'" + s + "'")
  {
    forall c
      ensures Plain(c) <==> c in PLAIN
    {
      PlainMeans(c);
    }
    if '\'' !in Trim(raw) {
      EscapesOnlyQuotes(Trim(raw));
    }
  }

  // -------------------------------------------------------------------------------------- lexing

  /** One word and what follows it, the number of a redirection, or no literal word at all: an open
      quote, an expansion, a pattern, or a character no shell word can hold. */
  datatype Lexed = Word(value: string, rest: string) | IoNumber(digits: string, rest: string) | NoWord

  /** Blanks, newlines and operator characters end an unquoted word. */
  predicate Ends(c: char) {
    c == ' ' || c == '\t' || c == '\n' || c == ';' || c == '&' || c == '|'
    || c == '<' || c == '>' || c == '(' || c == ')'
  }

  /** Unquoted, these may mean something other than themselves. */
  predicate Active(c: char) {
    c == '$' || c == '`' || c == '*' || c == '?' || c == '[' || c == '#' || c == '~' || c == '='
    || c == '%' || c == NUL
  }

  function Unquoted(s: string, value: string): Lexed
    decreases |s|
  {
    if s == "" || Ends(s[0]) then Word(value, s)
    else if s[0] == '\'' then SingleQuoted(s[1..], value)
    else if s[0] == '"' then DoubleQuoted(s[1..], value)
    else if s[0] == '\\' then
      if |s| == 1 || s[1] == NUL then NoWord
      else if s[1] == '\n' then Unquoted(s[2..], value)
      else Unquoted(s[2..], value + [s[1]])
    else if Active(s[0]) then NoWord
    else Unquoted(s[1..], value + [s[0]])
  }

  function SingleQuoted(s: string, value: string): Lexed
    decreases |s|
  {
    if s == "" || s[0] == NUL then NoWord
    else if s[0] == '\'' then Unquoted(s[1..], value)
    else SingleQuoted(s[1..], value + [s[0]])
  }

  function DoubleQuoted(s: string, value: string): Lexed
    decreases |s|
  {
    if s == "" || s[0] == NUL || s[0] == '$' || s[0] == '`' then NoWord
    else if s[0] == '"' then Unquoted(s[1..], value)
    else if s[0] == '\\' && |s| > 1 && s[1] == '\n' then DoubleQuoted(s[2..], value)
    else if s[0] == '\\' && |s| > 1 && (s[1] == '$' || s[1] == '`' || s[1] == '"' || s[1] == '\\')
    then DoubleQuoted(s[2..], value + [s[1]])
    else DoubleQuoted(s[1..], value + [s[0]])
  }

  predicate Redirects(s: string) {
    s != "" && (s[0] == '<' || s[0] == '>')
  }

  predicate IsDigit(c: char) {
    '0' <= c <= '9'
  }

  /** How many digits a text begins with. */
  function DigitCount(s: string): (n: nat)
    ensures n <= |s| && (n < |s| ==> !IsDigit(s[n])) && forall i :: 0 <= i < n ==> IsDigit(s[i])
  {
    if s == "" || !IsDigit(s[0]) then 0 else 1 + DigitCount(s[1..])
  }

  /** Digits right before a redirection operator are its number (section 2.10.1, Shell Grammar Lexical
      Conventions); all else is read as a word. */
  function LexWord(s: string): Lexed {
    var n := DigitCount(s);
    if n > 0 && Redirects(s[n..]) then IoNumber(s[..n], s[n..])
    else if s == "" || Ends(s[0]) then NoWord
    else Unquoted(s, "")
  }

  // -------------------------------------------------------------------------------- the inverse

  lemma {:induction false} PlainReads(s: string, value: string, rest: string)
    requires forall c :: c in s ==> Plain(c)
    requires rest == "" || Ends(rest[0])
    ensures Unquoted(s + rest, value) == Word(value + s, rest)
  {
    if s == "" {
      assert s + rest == rest && value + s == value;
    } else {
      assert s[0] in s;
      assert (s + rest)[0] == s[0] && (s + rest)[1..] == s[1..] + rest;
      PlainReads(s[1..], value + [s[0]], rest);
      assert value + [s[0]] + s[1..] == value + s;
    }
  }

  /** The escape of one single quote, read inside single quotes, is that quote. */
  lemma QuoteReads(tail: string, value: string)
    ensures SingleQuoted(QUOTED_QUOTE + tail, value) == SingleQuoted(tail, value + "'")
  {
    var s := QUOTED_QUOTE + tail;
    assert s[1..][0] == '"' && s[1..][1..] == s[2..];
    assert s[2..][0] == '\'' && s[2..][1..] == s[3..];
    assert s[3..][0] == '"' && s[3..][1..] == s[4..];
    assert s[4..][0] == '\'' && s[4..][1..] == tail;
    assert SingleQuoted(s, value) == Unquoted(s[1..], value);
    assert Unquoted(s[1..], value) == DoubleQuoted(s[2..], value);
    assert DoubleQuoted(s[2..], value) == DoubleQuoted(s[3..], value + "'");
    assert DoubleQuoted(s[3..], value + "'") == Unquoted(s[4..], value + "'");
    assert Unquoted(s[4..], value + "'") == SingleQuoted(tail, value + "'");
  }

  lemma {:induction false} EscapedReads(s: string, value: string, rest: string)
    ensures SingleQuoted(Escape(s) + "'" + rest, value) ==
            if NUL in s then NoWord else Unquoted(rest, value + s)
  {
    if s == "" {
      assert Escape(s) + "'" + rest == "'" + rest;
      assert ("'" + rest)[1..] == rest && value + s == value;
    } else {
      var tail := Escape(s[1..]) + "'" + rest;
      assert s == [s[0]] + s[1..];
      EscapedReads(s[1..], value + [s[0]], rest);
      assert value + [s[0]] + s[1..] == value + s;
      if s[0] == '\'' {
        assert Escape(s) + "'" + rest == QUOTED_QUOTE + tail;
        QuoteReads(tail, value);
        assert value + "'" == value + [s[0]];
      } else {
        var all := Escape(s) + "'" + rest;
        assert all == [s[0]] + tail;
        assert all[1..] == tail;
      }
    }
  }

  predicate AllDigits(s: string) {
    s != "" && forall c :: c in s ==> IsDigit(c)
  }

  lemma PlainDigits(s: string, rest: string)
    requires s != "" && (forall c :: c in s ==> Plain(c)) && (rest == "" || Ends(rest[0]))
    ensures var n := DigitCount(s + rest);
            && (n > 0 && Redirects((s + rest)[n..]) <==> AllDigits(s) && Redirects(rest))
            && (AllDigits(s) ==> n == |s|)
  {
    var t, n := s + rest, DigitCount(s + rest);
    if n < |s| {
      assert t[n] == s[n] && s[n] in s;
    } else {
      forall c | c in s
        ensures IsDigit(c)
      {
        var i :| 0 <= i < |s| && s[i] == c;
        assert t[i] == s[i];
      }
      assert rest != "" ==> t[|s|] == rest[0] && !IsDigit(rest[0]);
      assert n == |s| && t[n..] == rest;
    }
  }

  lemma EmptyQuoteReads(rest: string)
    ensures LexWord("''" + rest) == Unquoted(rest, "")
  {
    var q := "''" + rest;
    assert q[1..][1..] == rest;
    assert SingleQuoted(q[1..], "") == Unquoted(rest, "");
  }

  lemma PlainWordReads(s: string, rest: string)
    requires s != "" && (forall c :: c in s ==> Plain(c)) && (rest == "" || Ends(rest[0]))
    ensures LexWord(s + rest) == if AllDigits(s) && Redirects(rest) then IoNumber(s, rest) else Word(s, rest)
    ensures NUL !in s
  {
    assert s[0] in s && (s + rest)[0] == s[0];
    PlainDigits(s, rest);
    PlainReads(s, "", rest);
    assert "" + s == s;
    assert (s + rest)[..|s|] == s && (s + rest)[|s|..] == rest;
  }

  lemma QuotedWordReads(s: string, rest: string)
    ensures LexWord("'" + Escape(s) + "'" + rest) == if NUL in s then NoWord else Unquoted(rest, s)
  {
    var q := "'" + Escape(s) + "'" + rest;
    assert q[0] == '\'' && q[1..] == Escape(s) + "'" + rest;
    assert DigitCount(q) == 0;
    EscapedReads(s, "", rest);
    assert "" + s == s;
  }

  /** Wherever a quoted name stands in a script, the shell reads it as exactly one word whose value is the
      trimmed name. There are two exceptions: a name with a NUL inside cannot be written at all, and a
      name of digits only, put right before a redirection, is taken for the number of a file. */
  lemma QuoteIsOneWord(raw: string, rest: string)
    requires rest == "" || Ends(rest[0])
    ensures LexWord(Quote(raw) + rest) ==
            if NUL in Trim(raw) then NoWord
            else if AllDigits(Trim(raw)) && Redirects(rest) then IoNumber(Trim(raw), rest)
            else Word(Trim(raw), rest)
  {
    var s := Trim(raw);
    assert Unquoted(rest, s) == Word(s, rest);
    if s == "" {
      EmptyQuoteReads(rest);
    } else if forall c :: c in s ==> Plain(c) {
      PlainWordReads(s, rest);
    } else {
      var c :| c in s && !Plain(c);
      assert !IsDigit(c);
      QuotedWordReads(s, rest);
    }
  }

  /** So two names quote to the same text only if they are the same name but for outer blanks. */
  lemma QuoteInjective(a: string, b: string)
    requires NUL !in Trim(a) && NUL !in Trim(b)
    ensures Quote(a) == Quote(b) <==> Trim(a) == Trim(b)
  {
    QuoteIsOneWord(a, "");
    QuoteIsOneWord(b, "");
    assert Quote(a) + "" == Quote(a) && Quote(b) + "" == Quote(b);
  }
}
