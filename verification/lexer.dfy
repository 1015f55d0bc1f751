/** The scanner `next` (parser.go:85-142; plzero.go:90-147 is the same text):
    one call classifies the bytes at the head of the input and yields one token,
    the unread input and the current line number. */
module Lexer {
  import opened Outcomes
  import opened Bytes

  /** A token. `Empty` is Go's zero value `token{}`, the current token before
      the first one has been read. */
  datatype Token =
    | Empty
    | Integer(val: int)
    | Identifier(name: string)
    | Keyword(word: string)
    | Operator(op: string)
  {
    /** The `typ` string the parser compares against in `accept`/`expect`. */
    function Typ(): string {
      match this
      case Empty => ""
      case Integer(_) => "integer"
      case Identifier(_) => "identifier"
      case Keyword(w) => w
      case Operator(o) => o
    }

    /** The `name` field: set for identifiers only, empty otherwise. */
    function Name(): string {
      if Identifier? then name else ""
    }

    /** The `val` field: set for integers only, zero otherwise. */
    function Val(): int {
      if Integer? then val else 0
    }
  }

  const Keywords: set<string> :=
    {"const", "var", "procedure", "call", "begin", "end", "if", "then",
     "while", "do", "odd", "read", "write"}

  const Operators: set<string> :=
    {":=", "=", "#", "<", "<=", ">", ">=", "+", "-", "*", "/", "(", ")", ";", ",", "."}

  /** A token read, the input left unread and the line counter afterwards. */
  datatype Lexeme = Lexeme(tok: Token, rest: seq<byte>, line: int)

  /** What `fatal` prints: the line and the message. */
  datatype Fault = Fault(line: int, msg: string)

  const NewLine: byte := 10

  /** `unicode.IsSpace` on a byte value (the Latin-1 range). */
  predicate IsSpace(c: byte) {
    (9 <= c <= 13) || c == 32 || c == 0x85 || c == 0xA0
  }

  /** `unicode.IsDigit` on a byte value: only the ASCII digits. */
  predicate IsDigit(c: byte) {
    '0' as int <= c <= '9' as int
  }

  /** `unicode.IsLetter` on a byte value: ASCII and Latin-1 letters. */
  predicate IsLetter(c: byte) {
    ('A' as int <= c <= 'Z' as int) || ('a' as int <= c <= 'z' as int)
    || c == 0xAA || c == 0xB5 || c == 0xBA
    || (0xC0 <= c <= 0xD6) || (0xD8 <= c <= 0xF6) || 0xF8 <= c
  }

  predicate IsWordStart(c: byte) {
    c == '_' as int || IsLetter(c)
  }

  predicate IsWordChar(c: byte) {
    c == '_' as int || IsDigit(c) || IsLetter(c)
  }

  /** Number of `'\n'` bytes in `w`. */
  function NewLines(w: seq<byte>): nat {
    if |w| == 0 then 0 else (if w[0] == NewLine then 1 else 0) + NewLines(w[1..])
  }

  /** Length of the longest prefix of `s` made of bytes satisfying `p`. */
  function RunLength(s: seq<byte>, p: byte -> bool): (n: nat)
    ensures n <= |s|
    ensures forall i :: 0 <= i < n ==> p(s[i])
    ensures n < |s| ==> !p(s[n])
  {
    if |s| == 0 || !p(s[0]) then 0 else 1 + RunLength(s[1..], p)
  }

  /** The value of a run of decimal digits, most significant first. */
  function DigitsValue(ds: seq<byte>): nat
    requires forall i :: 0 <= i < |ds| ==> IsDigit(ds[i])
  {
    if |ds| == 0 then 0
    else
      var last := ds[|ds| - 1];
      assert IsDigit(last);
      10 * DigitsValue(ds[..|ds| - 1]) + (last - '0' as int)
  }

  /** A keyword gets its own token type, any other word is an identifier
      carrying its name. */
  function WordToken(w: seq<byte>): Token {
    var name := Text(w);
    if name in Keywords then Keyword(name) else Identifier(name)
  }

  /** A run of bytes none of which is a newline leaves the line counter alone. */
  lemma {:induction false} NoNewLines(w: seq<byte>)
    requires forall i :: 0 <= i < |w| ==> w[i] != NewLine
    ensures NewLines(w) == 0
  {
    if |w| > 0 {
      NoNewLines(w[1..]);
    }
  }

  /** One call of `next`. Every byte consumed is gone from `rest`; the
      remaining input is a proper suffix of the input. */
  function Next(input: seq<byte>, line: int): (r: Result<Lexeme, Fault>)
    ensures r.Ok? ==> |r.value.rest| < |input|
    ensures r.Ok? ==> r.value.rest == input[|input| - |r.value.rest|..]
    ensures r.Ok? ==> r.value.line == line + NewLines(input[..|input| - |r.value.rest|])
    decreases |input|
  {
    if |input| == 0 then Err(Fault(line, "EOF"))
    else
      var c := input[0];
      if IsSpace(c) then
        var r := Next(input[1..], if c == NewLine then line + 1 else line);
        SkippedLines(input, line, r);
        r
      else if IsDigit(c) then NextInteger(input, line)
      else if IsWordStart(c) then NextWord(input, line)
      else if c == '.' as int then
        NoNewLines(input[..1]);
        Ok(Lexeme(Operator("."), input[1..], line))
      else NextOperator(input, line)
  }

  /** What a lexeme read after the first byte consumed, counted from the
      first byte: the skipped byte adds its newline, if it is one. */
  lemma SkippedLines(input: seq<byte>, line: int, r: Result<Lexeme, Fault>)
    requires |input| > 0
    requires var t := input[1..];
      r.Ok? ==> && |r.value.rest| < |t| && r.value.rest == t[|t| - |r.value.rest|..]
                && r.value.line == (if input[0] == NewLine then line + 1 else line)
                                   + NewLines(t[..|t| - |r.value.rest|])
    ensures r.Ok? ==> |r.value.rest| < |input|
    ensures r.Ok? ==> r.value.rest == input[|input| - |r.value.rest|..]
    ensures r.Ok? ==> r.value.line == line + NewLines(input[..|input| - |r.value.rest|])
  {
    if r.Ok? {
      var k := |input| - |r.value.rest|;
      assert input[..k][1..] == input[1..][..k - 1];
    }
  }

  /** The integer branch of `next`: the longest run of digits. */
  function NextInteger(input: seq<byte>, line: int): (r: Result<Lexeme, Fault>)
    requires |input| > 0 && IsDigit(input[0])
    ensures r.Ok? ==> |r.value.rest| < |input|
    ensures r.Ok? ==> r.value.rest == input[|input| - |r.value.rest|..]
    ensures r.Ok? ==> r.value.line == line + NewLines(input[..|input| - |r.value.rest|])
  {
    var n := RunLength(input, IsDigit);
    assert forall i :: 0 <= i < n ==> input[..n][i] == input[i];
    NoNewLines(input[..n]);
    Ok(Lexeme(Integer(DigitsValue(input[..n])), input[n..], line))
  }

  /** The word branch of `next`: the longest run of word bytes, which must
      not reach the end of the input. */
  function NextWord(input: seq<byte>, line: int): (r: Result<Lexeme, Fault>)
    requires |input| > 0 && IsWordStart(input[0])
    ensures r.Ok? ==> |r.value.rest| < |input|
    ensures r.Ok? ==> r.value.rest == input[|input| - |r.value.rest|..]
    ensures r.Ok? ==> r.value.line == line + NewLines(input[..|input| - |r.value.rest|])
  {
    var n := RunLength(input, IsWordChar);
    if n == |input| then Err(Fault(line, "EOF"))
    else
      assert forall i :: 0 <= i < n ==> input[..n][i] == input[i];
      NoNewLines(input[..n]);
      Ok(Lexeme(WordToken(input[..n]), input[n..], line))
  }

  /** The operator branch of `next`: a second byte must follow, and the
      two-byte operator is tried before the one-byte one. */
  function NextOperator(input: seq<byte>, line: int): (r: Result<Lexeme, Fault>)
    requires |input| > 0
    ensures r.Ok? ==> |r.value.rest| < |input|
    ensures r.Ok? ==> r.value.rest == input[|input| - |r.value.rest|..]
    ensures r.Ok? ==> r.value.line == line + NewLines(input[..|input| - |r.value.rest|])
  {
    if |input| == 1 then Err(Fault(line, "EOF"))
    else
      var op := Text(input[..1]);
      var op2 := Text(input[..2]);
      if op2 in Operators then
        NoNewLines(input[..2]);
        Ok(Lexeme(Operator(op2), input[2..], line))
      else if op in Operators then
        NoNewLines(input[..1]);
        Ok(Lexeme(Operator(op), input[1..], line))
      else Err(Fault(line, "unknown token"))
  }
}

module LexerFacts {
  import opened Outcomes
  import opened Bytes
  import opened Lexer

  lemma {:induction false} RunLengthOfPrefix(w: seq<byte>, s: seq<byte>, p: byte -> bool)
    requires forall i :: 0 <= i < |w| ==> p(w[i])
    requires |s| == 0 || !p(s[0])
    ensures RunLength(w + s, p) == |w|
  {
    if |w| > 0 {
      assert (w + s)[1..] == w[1..] + s;
      RunLengthOfPrefix(w[1..], s, p);
    } else {
      assert w + s == s;
    }
  }

  /** Whitespace is skipped and every skipped `'\n'` adds exactly one to the
      line counter. */
  lemma {:induction false} SkipsWhitespace(w: seq<byte>, s: seq<byte>, line: int)
    requires forall i :: 0 <= i < |w| ==> IsSpace(w[i])
    ensures Next(w + s, line) == Next(s, line + NewLines(w))
  {
    if |w| == 0 {
      assert w + s == s;
    } else {
      assert (w + s)[0] == w[0];
      assert (w + s)[1..] == w[1..] + s;
      NextSkipsSpace(w + s, line);
      SkipsWhitespace(w[1..], s, if w[0] == NewLine then line + 1 else line);
    }
  }

  /** One whitespace byte is skipped, counting a newline. */
  lemma NextSkipsSpace(input: seq<byte>, line: int)
    requires |input| > 0 && IsSpace(input[0])
    ensures Next(input, line) == Next(input[1..], if input[0] == NewLine then line + 1 else line)
  {
  }

  /** An integer is the longest run of digits; the byte after it stays unread.
      Running into the end of the input is fine here, since `Fscanf` stops at
      the end of the input without an error. */
  lemma ScansInteger(ds: seq<byte>, s: seq<byte>, line: int)
    requires |ds| > 0 && forall i :: 0 <= i < |ds| ==> IsDigit(ds[i])
    requires |s| == 0 || !IsDigit(s[0])
    ensures Next(ds + s, line) == Ok(Lexeme(Integer(DigitsValue(ds)), s, line))
  {
    RunLengthOfPrefix(ds, s, IsDigit);
    assert (ds + s)[..|ds|] == ds;
    assert (ds + s)[|ds|..] == s;
  }

  /** A word starts with `_` or a letter and extends over the longest run of
      `_`, letters and digits; the byte after it is left unread. A keyword gets
      its own token type, any other word is an identifier carrying its name. */
  lemma ScansWord(w: seq<byte>, s: seq<byte>, line: int)
    requires |w| > 0 && IsWordStart(w[0])
    requires forall i :: 0 <= i < |w| ==> IsWordChar(w[i])
    requires |s| > 0 && !IsWordChar(s[0])
    ensures Next(w + s, line).Ok?
    ensures Next(w + s, line).value.rest == s
    ensures Next(w + s, line).value.line == line
    ensures Text(w) in Keywords ==> Next(w + s, line).value.tok == Keyword(Text(w))
    ensures Text(w) !in Keywords ==> Next(w + s, line).value.tok == Identifier(Text(w))
  {
    RunLengthOfPrefix(w, s, IsWordChar);
    assert (w + s)[0] == w[0];
    assert (w + s)[..|w|] == w;
    assert (w + s)[|w|..] == s;
  }

  /** A word that runs into the end of the input is an error: the scanner
      reads one byte past the word to find its end. */
  lemma WordAtEndOfInput(w: seq<byte>, line: int)
    requires |w| > 0 && IsWordStart(w[0])
    requires forall i :: 0 <= i < |w| ==> IsWordChar(w[i])
    ensures Next(w, line) == Err(Fault(line, "EOF"))
  {
    RunLengthOfPrefix(w, [], IsWordChar);
    assert w + [] == w;
  }

  /** `.` is produced without reading a second byte, so a program may end
      right after its final `.`. */
  lemma DotNeedsNoLookahead(s: seq<byte>, line: int)
    ensures Next(['.' as int] + s, line) == Ok(Lexeme(Operator("."), s, line))
  {
    assert (['.' as int] + s)[1..] == s;
  }

  /** An operator byte pair: a two-byte operator wins; otherwise a one-byte
      operator wins and the second byte is unread; otherwise the scanner
      fails with "unknown token". */
  lemma OperatorLongestMatch(c: byte, d: byte, s: seq<byte>, line: int)
    requires !IsSpace(c) && !IsDigit(c) && !IsWordStart(c) && c != '.' as int
    ensures (Text([c, d]) in Operators) ==>
              Next([c, d] + s, line) == Ok(Lexeme(Operator(Text([c, d])), s, line))
    ensures (Text([c, d]) !in Operators && Text([c]) in Operators) ==>
              Next([c, d] + s, line) == Ok(Lexeme(Operator(Text([c])), [d] + s, line))
    ensures (Text([c, d]) !in Operators && Text([c]) !in Operators) ==>
              Next([c, d] + s, line) == Err(Fault(line, "unknown token"))
  {
    var input := [c, d] + s;
    assert input[0] == c;
    assert input[..2] == [c, d];
    assert input[..1] == [c];
    assert input[2..] == s;
    assert input[1..] == [d] + s;
  }

  /** A lone `:` is not an operator, so `:` not followed by `=` is rejected. */
  lemma LoneColonRejected(d: byte, s: seq<byte>, line: int)
    requires d != '=' as int
    ensures Next([':' as int, d] + s, line) == Err(Fault(line, "unknown token"))
  {
    OperatorLongestMatch(':' as int, d, s, line);
    assert Text([':' as int, d])[1] as int == d;
    assert Text([':' as int, d]) != ":=";
  }

  /** Decimal spelling of a natural number, most significant digit first. */
  function Decimal(v: nat): (ds: seq<byte>)
    ensures |ds| > 0
    ensures forall i :: 0 <= i < |ds| ==> IsDigit(ds[i])
  {
    if v < 10 then ['0' as int + v] else Decimal(v / 10) + ['0' as int + v % 10]
  }

  lemma {:induction false} DecimalValue(v: nat)
    ensures DigitsValue(Decimal(v)) == v
  {
    if v >= 10 {
      var ds := Decimal(v);
      assert ds[..|ds| - 1] == Decimal(v / 10);
      DecimalValue(v / 10);
    }
  }

  /** Tokens that have a spelling in the source language. */
  predicate Spellable(t: Token) {
    match t
    case Empty => false
    case Integer(v) => v >= 0
    case Identifier(n) =>
      && IsByteText(n) && |n| > 0 && IsWordStart(n[0] as int)
      && (forall i :: 0 <= i < |n| ==> IsWordChar(n[i] as int))
      && n !in Keywords
    case Keyword(w) => w in Keywords
    case Operator(o) => o in Operators
  }

  lemma KeywordShape(w: string)
    requires w in Keywords
    ensures IsByteText(w) && |w| > 0 && IsWordStart(w[0] as int)
    ensures forall i :: 0 <= i < |w| ==> IsWordChar(w[i] as int)
  {
  }

  lemma OperatorShape(o: string)
    requires o in Operators
    ensures IsByteText(o) && 1 <= |o| <= 2
    ensures !IsSpace(o[0] as int) && !IsDigit(o[0] as int) && !IsWordStart(o[0] as int)
    ensures o[0] == '.' ==> o == "."
    ensures |o| == 1 ==> o + " " !in Operators
  {
    if |o| == 1 {
      var t := o + " ";
      assert |t| == 2 && t[1] == ' ';
      assert t != ":=" && t != "<=" && t != ">=" by {
        assert ":="[1] == '=' && "<="[1] == '=' && ">="[1] == '=';
      }
    }
  }

  /** The bytes of a token as they appear in a program. */
  function Spell(t: Token): (b: seq<byte>)
    requires Spellable(t)
    ensures |b| > 0
  {
    match t
    case Integer(v) => Decimal(v)
    case Identifier(n) => Ascii(n)
    case Keyword(w) => KeywordShape(w); Ascii(w)
    case Operator(o) => OperatorShape(o); Ascii(o)
  }

  /** Scanning a spelled token followed by a blank gives the token back and
      leaves the blank unread. */
  lemma NextSpelled(t: Token, s: seq<byte>, line: int)
    requires Spellable(t)
    ensures Next(Spell(t) + [' ' as int] + s, line) == Ok(Lexeme(t, [' ' as int] + s, line))
  {
    var tail: seq<byte> := [' ' as int] + s;
    assert Spell(t) + [' ' as int] + s == Spell(t) + tail;
    match t
    case Integer(v) =>
      ScansInteger(Decimal(v), tail, line);
      DecimalValue(v);
    case Identifier(n) =>
      ScansWord(Ascii(n), tail, line);
      TextOfAscii(n);
    case Keyword(w) =>
      KeywordShape(w);
      ScansWord(Ascii(w), tail, line);
      TextOfAscii(w);
    case Operator(o) =>
      OperatorShape(o);
      var b := Ascii(o);
      if o == "." {
        DotNeedsNoLookahead(tail, line);
      } else if |o| == 2 {
        assert b == [b[0], b[1]];
        assert Text(b) == o;
        OperatorLongestMatch(b[0], b[1], tail, line);
      } else {
        assert b == [b[0]];
        assert Text([b[0]]) == o;
        assert Text([b[0], ' ' as int]) == o + " ";
        OperatorLongestMatch(b[0], ' ' as int, s, line);
        assert [b[0], ' ' as int] + s == b + tail;
      }
  }
}
