/**
 The rewriting of SQLite placeholders (?N and ?) into PostgreSQL ones ($N), and
 the statement each database then reads.
 */
module Placeholders {
  import opened Numerals
  import opened Sequences

  /** How many digits `s` starts with. */
  function Digits(s: string): (n: nat)
    ensures n <= |s|
    ensures forall i :: 0 <= i < n ==> IsDigit(s[i])
    ensures n < |s| ==> !IsDigit(s[n])
  {
    if s != "" && IsDigit(s[0]) then 1 + Digits(s[1..]) else 0
  }

  // ---- where one stands in a statement ----

  /**
   The modes ending in Quote, Start and End are those between the two characters of a doubled quote or
   a comment mark.
   */
  datatype Mode =
    | Code | Literal | LiteralQuote | Name | NameQuote
    | LineComment | BlockStart | BlockComment | BlockEnd

  predicate Then(s: string, c: char) { |s| > 1 && s[1] == c }

  /** What a database makes of the first character of `s`: the mode of the next one. */
  function Advance(m: Mode, s: string): Mode
    requires s != ""
  {
    var c := s[0];
    match m
    case Code =>
      if c == '\'' then Literal
      else if c == '"' then Name
      else if c == '-' && Then(s, '-') then LineComment
      else if c == '/' && Then(s, '*') then BlockStart
      else Code
    case Literal => if c != '\'' then Literal else if Then(s, '\'') then LiteralQuote else Code
    case LiteralQuote => Literal
    case Name => if c != '"' then Name else if Then(s, '"') then NameQuote else Code
    case NameQuote => Name
    case LineComment => if c == '\n' then Code else LineComment
    case BlockStart => BlockComment
    case BlockComment => if c == '*' && Then(s, '/') then BlockEnd else BlockComment
    case BlockEnd => Code
  }

  /** What the translation makes of it: it knows of literals only. */
  function Track(m: Mode, s: string): Mode
    requires s != ""
  {
    match m
    case Literal => if s[0] != '\'' then Literal else if Then(s, '\'') then LiteralQuote else Code
    case LiteralQuote => Literal
    case _ => if s[0] == '\'' then Literal else Code
  }

  /** Between the two characters of a mark the second one is still to come. */
  predicate Fits(m: Mode, s: string) {
    && (m == LiteralQuote ==> s != "" && s[0] == '\'')
    && (m == NameQuote ==> s != "" && s[0] == '"')
    && (m == BlockStart ==> s != "" && s[0] == '*')
    && (m == BlockEnd ==> s != "" && s[0] == '/')
  }

  predicate InComment(m: Mode) { m == LineComment || m == BlockStart || m == BlockComment || m == BlockEnd }

  // ---- the translation ----

  /** The bare placeholders counted once the one at the head of `s` is passed. */
  function NextBare(s: string, next: nat): nat
    requires s != ""
  {
    if Digits(s[1..]) == 0 then next + 1 else next
  }

  /** What is written for the '?' at the head of `s`; the digits after it are copied. */
  function Dollar(s: string, next: nat): string
    requires s != ""
  {
    if Digits(s[1..]) == 0 then "$" + ToText(next + 1) else "$"
  }

  /** The rest of a statement, in a literal or not, after `next` bare placeholders. */
  function Translate(s: string, t: Mode, next: nat): string
    decreases |s|
  {
    if s == "" then ""
    else if t == Code && s[0] == '?' then Dollar(s, next) + Translate(s[1..], Code, NextBare(s, next))
    else [s[0]] + Translate(s[1..], Track(t, s), next)
  }

  lemma TranslateNext(s: string, t: Mode, next: nat)
    requires s != ""
    ensures Translate(s, t, next) ==
      if t == Code && s[0] == '?' then Dollar(s, next) + Translate(s[1..], Code, NextBare(s, next))
      else [s[0]] + Translate(s[1..], Track(t, s), next)
  {
  }

  lemma TranslateEnd(t: Mode, next: nat)
    ensures Translate("", t, next) == ""
  {
  }

  /** Outside literals characters other than '?' and a quote are copied. */
  lemma {:induction false} PassThrough(d: string, rest: string, next: nat)
    requires forall i :: 0 <= i < |d| ==> d[i] != '?' && d[i] != '\''
    ensures Translate(d + rest, Code, next) == d + Translate(rest, Code, next)
    decreases |d|
  {
    hide Translate, Dollar, NextBare, Digits, ToText;
    if d == "" {
      assert d + rest == rest;
    } else {
      assert (d + rest)[1..] == d[1..] + rest;
      TranslateNext(d + rest, Code, next);
      PassThrough(d[1..], rest, next);
      Regroup([d[0]], d[1..], Translate(rest, Code, next));
    }
  }

  /** A doubled quote inside a literal is copied and does not end it. */
  lemma TranslateDoubled(s: string, next: nat)
    requires |s| > 1 && s[0] == '\'' && s[1] == '\''
    ensures Translate(s, Literal, next) == "''" + Translate(s[2..], Literal, next)
  {
    assert s[1..][1..] == s[2..];
    assert Translate(s, Literal, next) == ['\''] + Translate(s[1..], LiteralQuote, next);
    assert Translate(s[1..], LiteralQuote, next) == ['\''] + Translate(s[2..], Literal, next);
  }

  /** The digits after a '?' are copied. */
  lemma DigitsCopied(s: string, next: nat)
    ensures var n := Digits(s); Translate(s, Code, next) == s[..n] + Translate(s[n..], Code, next)
  {
    hide Translate;
    var n := Digits(s);
    assert s == s[..n] + s[n..];
    assert forall i :: 0 <= i < n ==> IsDigit(s[..n][i]);
    PassThrough(s[..n], s[n..], next);
  }

  lemma TranslateParam(s: string, next: nat)
    requires s != "" && s[0] == '?'
    ensures var n := Digits(s[1..]); var d := if n == 0 then ToText(next + 1) else s[1..1 + n];
      Translate(s, Code, next) == "$" + d + Translate(s[1 + n..], Code, NextBare(s, next))
  {
    hide ToText, Translate, Digits;
    var n := Digits(s[1..]);
    TranslateNext(s, Code, next);
    DigitsCopied(s[1..], next);
    assert s[1..][..n] == s[1..1 + n] && s[1..][n..] == s[1 + n..];
    Regroup("$", s[1..1 + n], Translate(s[1 + n..], Code, next));
  }

  /** The run of digits from `i` on. */
  method ReadDigits(sql: string, i: nat) returns (j: nat)
    requires i <= |sql|
    ensures j == i + Digits(sql[i..])
  {
    j := i;
    while j < |sql| && IsDigit(sql[j])
      invariant i <= j <= |sql|
      invariant Digits(sql[i..]) == j - i + Digits(sql[j..])
    {
      assert sql[j..][1..] == sql[j + 1..];
      j := j + 1;
    }
  }

  function LiteralMode(inLiteral: bool): Mode { if inLiteral then Literal else Code }

  method TranslatePlaceholders(sql: string) returns (out: string)
    ensures out == Translate(sql, Code, 0)
  {
    hide Translate, ToText, Digits;
    out := "";
    var nextPositional := 0;
    var inLiteral := false;
    var i := 0;
    assert sql[0..] == sql && "" + Translate(sql, Code, 0) == Translate(sql, Code, 0);
    while i < |sql|
      invariant 0 <= i <= |sql| && 0 <= nextPositional
      invariant out + Translate(sql[i..], LiteralMode(inLiteral), nextPositional) == Translate(sql, Code, 0)
      decreases |sql| - i
    {
      var c := sql[i];
      ghost var rest := sql[i..];
      assert rest[1..] == sql[i + 1..];
      if inLiteral && c == '\'' && i + 1 < |sql| && sql[i + 1] == '\'' {
        assert rest[2..] == sql[i + 2..];
        TranslateDoubled(rest, nextPositional);
        Regroup(out, "''", Translate(sql[i + 2..], Literal, nextPositional));
        out := out + "''";
        i := i + 2;
      } else if inLiteral || c != '?' {
        TranslateNext(rest, LiteralMode(inLiteral), nextPositional);
        inLiteral := (c == '\'') != inLiteral;
        Regroup(out, [c], Translate(sql[i + 1..], LiteralMode(inLiteral), nextPositional));
        out := out + [c];
        i := i + 1;
      } else {
        TranslateParam(rest, nextPositional);
        var j := ReadDigits(sql, i + 1);
        assert rest[1..j - i] == sql[i + 1..j] && rest[j - i..] == sql[j..];
        var digits := sql[i + 1..j];
        if digits == "" {
          nextPositional := nextPositional + 1;
          digits := ToText(nextPositional);
        }
        Regroup(out, "$" + digits, Translate(sql[j..], Code, nextPositional));
        out := out + ("$" + digits);
        i := j;
      }
    }
    TranslateEnd(LiteralMode(inLiteral), nextPositional);
    assert sql[i..] == "" && out + "" == out;
  }

  // ---- what each database reads ----

  /** A character of a literal, of a quoted name, of the rest of the statement, or a numbered parameter. */
  datatype Token = Quoted(c: char) | Named(c: char) | Plain(c: char) | Param(digits: string)

  /** What the first character of `s` gives; comments give nothing. */
  function Read(m: Mode, s: string): seq<Token>
    requires s != ""
  {
    var after := Advance(m, s);
    if InComment(m) || (m == Code && InComment(after)) then []
    else if m == Literal || m == LiteralQuote || (m == Code && after == Literal) then [Quoted(s[0])]
    else if m == Name || m == NameQuote || (m == Code && after == Name) then [Named(s[0])]
    else [Plain(s[0])]
  }

  /**
   How bare placeholders are numbered: in order of appearance, as the translation means them, or one
   more than the largest number so far, as SQLite does.
   */
  datatype Numbering = InTurn | PastLargest

  /** The number the next bare placeholder follows, once the placeholder at the head of `s` is passed. */
  function NextNumber(how: Numbering, s: string, next: nat): nat
    requires s != ""
  {
    var n := Digits(s[1..]);
    if n == 0 then next + 1
    else if how == PastLargest then Max(next, Value(s[1..1 + n]))
    else next
  }

  /** The statement as it is meant, with its bare placeholders numbered. */
  function Meant(s: string, m: Mode, how: Numbering, next: nat): seq<Token>
    decreases |s|
  {
    if s == "" then []
    else if m == Code && s[0] == '?' then
      var n := Digits(s[1..]);
      [Param(if n == 0 then ToText(next + 1) else s[1..1 + n])] + Meant(s[1 + n..], Code, how, NextNumber(how, s, next))
    else Read(m, s) + Meant(s[1..], Advance(m, s), how, next)
  }

  /** Letters, underscore and every character beyond ASCII start a word; digits and '$' only go on with one. */
  predicate StartsWord(c: char) { 'a' <= c <= 'z' || 'A' <= c <= 'Z' || c == '_' || c as int >= 0x80 }

  predicate InWord(word: bool, c: char) { StartsWord(c) || (word && (IsDigit(c) || c == '$')) }

  predicate NextWord(m: Mode, s: string, word: bool)
    requires s != ""
  {
    m == Code && Advance(m, s) == Code && InWord(word, s[0])
  }

  /** PostgreSQL: $ and digits, in code and outside words, is a parameter. */
  function Postgres(s: string, m: Mode, word: bool): seq<Token>
    decreases |s|
  {
    if s == "" then []
    else
      var n := if m == Code && s[0] == '$' && !word then Digits(s[1..]) else 0;
      if n > 0 then [Param(s[1..1 + n])] + Postgres(s[1 + n..], Code, false)
      else Read(m, s) + Postgres(s[1..], Advance(m, s), NextWord(m, s, word))
  }

  /**
   What the statement must keep to, read with the translation's own idea of where
   literals are (`t`, and `counted` bare placeholders) beside the database's (`m`,
   and the number `next` it has come to): a placeholder in code is seen as one,
   stands apart from words and gets its own number; a '?' in a literal or a quoted
   name is not taken for one; and no $digit stands in code outside words.
   */
  predicate Clean(s: string, t: Mode, m: Mode, word: bool, counted: nat, how: Numbering, next: nat)
    decreases |s|
  {
    if s == "" then true
    else if s[0] == '?' && m == Code then
      && t == Code && !word && (Digits(s[1..]) == 0 ==> counted == next)
      && Clean(s[1 + Digits(s[1..])..], Code, Code, false, NextBare(s, counted), how, NextNumber(how, s, next))
    else if s[0] == '?' && t == Code then
      InComment(m) && Clean(s[1..], Code, Advance(m, s), false, NextBare(s, counted), how, next)
    else
      && (m == Code && s[0] == '$' && !word ==> Digits(s[1..]) == 0)
      && Clean(s[1..], Track(t, s), Advance(m, s), NextWord(m, s, word), counted, how, next)
  }

  // ---- they agree exactly on clean statements ----

  /** Translation keeps the first character, but for '?'. */
  lemma FirstKept(s: string, t: Mode, next: nat)
    ensures var out := Translate(s, t, next);
      && (out == "" <==> s == "")
      && (s != "" ==> out[0] == if t == Code && s[0] == '?' then '$' else s[0])
  {
    hide ToText;
  }

  lemma ThenKept(s: string, t: Mode, next: nat, c: char, d: char)
    requires d == '\'' || d == '"' || d == '-' || d == '*' || d == '/'
    ensures Then([c] + Translate(s, t, next), d) <==> Then([c] + s, d)
  {
    hide Translate;
    FirstKept(s, t, next);
  }

  /** A copied character is read the same before its translated rest. */
  lemma ReadKept(s: string, t: Mode, next: nat, m: Mode)
    requires s != ""
    ensures var out := [s[0]] + Translate(s[1..], t, next);
      Advance(m, out) == Advance(m, s) && Track(m, out) == Track(m, s) && Read(m, out) == Read(m, s)
  {
    hide Translate, Then;
    assert [s[0]] + s[1..] == s;
    ThenKept(s[1..], t, next, s[0], '\'');
    ThenKept(s[1..], t, next, s[0], '"');
    ThenKept(s[1..], t, next, s[0], '-');
    ThenKept(s[1..], t, next, s[0], '*');
    ThenKept(s[1..], t, next, s[0], '/');
  }

  lemma {:induction false} DigitsOf(d: string, rest: string)
    requires forall i :: 0 <= i < |d| ==> IsDigit(d[i])
    requires rest != "" ==> !IsDigit(rest[0])
    ensures Digits(d + rest) == |d|
    decreases |d|
  {
    if d != "" {
      assert (d + rest)[1..] == d[1..] + rest;
      DigitsOf(d[1..], rest);
    } else {
      assert d + rest == rest;
    }
  }

  lemma ConsEqual(a: Token, x: seq<Token>, b: Token, y: seq<Token>)
    ensures [a] + x == [b] + y <==> a == b && x == y
  {
    if [a] + x == [b] + y {
      assert ([a] + x)[0] == ([b] + y)[0] && ([a] + x)[1..] == ([b] + y)[1..];
    }
  }

  lemma SameStart(k: seq<Token>, x: seq<Token>, y: seq<Token>)
    ensures k + x == k + y <==> x == y
  {
    assert (k + x)[|k|..] == x && (k + y)[|k|..] == y;
  }

  /** Whether the two readings of a statement agree from some point on. */
  predicate Agree(s: string, t: Mode, m: Mode, word: bool, counted: nat, how: Numbering, next: nat) {
    Postgres(Translate(s, t, counted), m, word) == Meant(s, m, how, next)
  }

  lemma PostgresNext(s: string, m: Mode, word: bool)
    requires s != ""
    ensures m == Code && s[0] == '$' && !word && Digits(s[1..]) > 0 ==>
      Postgres(s, m, word) == [Param(s[1..1 + Digits(s[1..])])] + Postgres(s[1 + Digits(s[1..])..], Code, false)
    ensures !(m == Code && s[0] == '$' && !word && Digits(s[1..]) > 0) ==>
      Postgres(s, m, word) == Read(m, s) + Postgres(s[1..], Advance(m, s), NextWord(m, s, word))
  {
    hide Read, Advance, NextWord;
  }

  /** A number written after '$' in code is read back as that parameter, unless it stands in a word. */
  lemma ReadsParam(d: string, rest: string, word: bool)
    requires d != "" && forall i :: 0 <= i < |d| ==> IsDigit(d[i])
    requires rest != "" ==> !IsDigit(rest[0])
    ensures !word ==> Postgres("$" + d + rest, Code, word) == [Param(d)] + Postgres(rest, Code, false)
    ensures word ==> Postgres("$" + d + rest, Code, word) == [Plain('$')] + Postgres(d + rest, Code, true)
  {
    hide Postgres, Digits, Read, Advance;
    var s := "$" + d + rest;
    assert s[1..] == d + rest;
    DigitsOf(d, rest);
    assert s[1..1 + |d|] == d && s[1 + |d|..] == rest;
    PostgresNext(s, Code, word);
    DollarIsPlain(s);
  }

  lemma DigitsSame(s: string, t: Mode, next: nat)
    ensures Digits(Translate(s, t, next)) == 0 <==> Digits(s) == 0
  {
    hide Translate;
    FirstKept(s, t, next);
  }

  lemma MeantNext(s: string, m: Mode, how: Numbering, next: nat)
    requires s != "" && !(m == Code && s[0] == '?')
    ensures Meant(s, m, how, next) == Read(m, s) + Meant(s[1..], Advance(m, s), how, next)
  {
    hide Read, Advance;
  }

  lemma MeantParam(s: string, how: Numbering, next: nat)
    requires s != "" && s[0] == '?'
    ensures var n := Digits(s[1..]); var d := if n == 0 then ToText(next + 1) else s[1..1 + n];
      Meant(s, Code, how, next) == [Param(d)] + Meant(s[1 + n..], Code, how, NextNumber(how, s, next))
  {
    hide ToText;
  }

  /** A copied character: the readings agree when they do on the rest, but for a $digit. */
  lemma AgreeCopied(s: string, t: Mode, m: Mode, word: bool, counted: nat, how: Numbering, next: nat)
    requires s != "" && !(s[0] == '?' && (t == Code || m == Code))
    ensures Agree(s, t, m, word, counted, how, next) <==>
      && (m == Code && s[0] == '$' && !word ==> Digits(s[1..]) == 0)
      && Agree(s[1..], Track(t, s), Advance(m, s), NextWord(m, s, word), counted, how, next)
  {
    hide Translate, Postgres, Meant, Advance, Track, Digits, Read, InWord;
    var rest := Translate(s[1..], Track(t, s), counted);
    var out := [s[0]] + rest;
    TranslateNext(s, t, counted);
    assert out[1..] == rest;
    ReadKept(s, Track(t, s), counted, m);
    DigitsSame(s[1..], Track(t, s), counted);
    PostgresNext(out, m, word);
    MeantNext(s, m, how, next);
    SameStart(Read(m, s), Postgres(rest, Advance(m, s), NextWord(m, s, word)), Meant(s[1..], Advance(m, s), how, next));
    if m == Code && s[0] == '$' {
      DollarIsPlain(s);
      ConsEqual(Param(rest[..Digits(rest)]), Postgres(rest[Digits(rest)..], Code, false),
                Plain('$'), Meant(s[1..], Advance(m, s), how, next));
      assert out[1..1 + Digits(rest)] == rest[..Digits(rest)] && out[1 + Digits(rest)..] == rest[Digits(rest)..];
    }
  }

  lemma DollarIsPlain(s: string)
    requires s != "" && s[0] == '$'
    ensures Read(Code, s) == [Plain('$')] && Advance(Code, s) == Code
  {
  }

  /** A '?' in code that the translation takes for part of a literal stays one, and is no parameter. */
  lemma MissedParam(s: string, t: Mode, word: bool, counted: nat, how: Numbering, next: nat)
    requires s != "" && s[0] == '?' && t != Code
    ensures !Agree(s, t, Code, word, counted, how, next)
  {
    hide Translate, Postgres, Meant, Track, Digits, ToText;
    var rest := Translate(s[1..], Track(t, s), counted);
    TranslateNext(s, t, counted);
    PostgresNext([s[0]] + rest, Code, word);
    MeantParam(s, how, next);
    QuestionIsPlain([s[0]] + rest);
    var n := Digits(s[1..]);
    ConsEqual(Plain('?'), Postgres(([s[0]] + rest)[1..], Code, NextWord(Code, [s[0]] + rest, word)),
              Param(if n == 0 then ToText(next + 1) else s[1..1 + n]),
              Meant(s[1 + n..], Code, how, NextNumber(how, s, next)));
  }

  lemma QuestionIsPlain(s: string)
    requires s != "" && s[0] == '?'
    ensures Read(Code, s) == [Plain('?')] && Advance(Code, s) == Code
  {
  }

  /** A '?' of a literal or a quoted name that the translation rewrites is changed. */
  lemma RewrittenInside(s: string, m: Mode, counted: nat, how: Numbering, next: nat)
    requires s != "" && s[0] == '?' && m != Code && !InComment(m)
    ensures !Agree(s, Code, m, false, counted, how, next)
  {
    hide Translate, Postgres, Meant, Digits, ToText;
    TranslateNext(s, Code, counted);
    FirstKept(s, Code, counted);
    var out := Translate(s, Code, counted);
    PostgresNext(out, m, false);
    MeantNext(s, m, how, next);
    var a, b := Read(m, out), Read(m, s);
    assert |a| == |b| == 1 && a[0] != b[0];
    ConsEqual(a[0], Postgres(out[1..], Advance(m, out), false), b[0], Meant(s[1..], Advance(m, s), how, next));
    assert a == [a[0]] && b == [b[0]];
  }

  /** In a comment the characters of a parameter give nothing. */
  lemma {:induction false} CommentSkips(piece: string, rest: string, m: Mode)
    requires m == LineComment || m == BlockComment
    requires forall i :: 0 <= i < |piece| ==> IsDigit(piece[i]) || piece[i] == '$'
    ensures Postgres(piece + rest, m, false) == Postgres(rest, m, false)
    decreases |piece|
  {
    if piece == "" {
      assert piece + rest == rest;
    } else {
      var s := piece + rest;
      assert s[1..] == piece[1..] + rest && (IsDigit(piece[0]) || piece[0] == '$');
      CommentSkips(piece[1..], rest, m);
      PostgresNext(s, m, false);
      assert Read(m, s) == [] && Advance(m, s) == m;
    }
  }

  lemma DollarChars(s: string, next: nat)
    requires s != ""
    ensures forall i :: 0 <= i < |Dollar(s, next)| ==> IsDigit(Dollar(s, next)[i]) || Dollar(s, next)[i] == '$'
  {
    ToTextValue(next + 1);
  }

  /** A '?' rewritten in a comment changes nothing that is read, but it is counted. */
  lemma AgreeComment(s: string, m: Mode, counted: nat, how: Numbering, next: nat)
    requires s != "" && s[0] == '?' && InComment(m) && Fits(m, s)
    ensures Agree(s, Code, m, false, counted, how, next) <==>
      Agree(s[1..], Code, Advance(m, s), false, NextBare(s, counted), how, next)
  {
    hide Translate, Postgres, Meant, Digits, Dollar, NextBare, NextNumber;
    TranslateNext(s, Code, counted);
    DollarChars(s, counted);
    var rest := Translate(s[1..], Code, NextBare(s, counted));
    CommentSkips(Dollar(s, counted), rest, m);
    MeantNext(s, m, how, next);
    assert [] + Meant(s[1..], Advance(m, s), how, next) == Meant(s[1..], Advance(m, s), how, next);
  }

  lemma ParamIsNumber(s: string, next: nat)
    requires s != "" && s[0] == '?'
    ensures var n := Digits(s[1..]); var rest := s[1 + n..]; var d := if n == 0 then ToText(next + 1) else s[1..1 + n];
      && d != "" && (forall i :: 0 <= i < |d| ==> IsDigit(d[i]))
      && (rest != "" ==> !IsDigit(rest[0]))
  {
    hide Digits, ToText, Value;
    ToTextValue(next + 1);
    var n := Digits(s[1..]);
    var rest, d := s[1 + n..], s[1..1 + n];
    if rest != "" {
      assert rest[0] == s[1..][n];
    }
    forall i | 0 <= i < |d| ensures IsDigit(d[i]) {
      assert d[i] == s[1..][i];
    }
  }

  /** A placeholder in code, seen as one. */
  lemma AgreeParam(s: string, word: bool, counted: nat, how: Numbering, next: nat)
    requires s != "" && s[0] == '?'
    ensures var n := Digits(s[1..]);
      Agree(s, Code, Code, word, counted, how, next) <==>
        && !word && (n == 0 ==> counted == next)
        && Agree(s[1 + n..], Code, Code, false, NextBare(s, counted), how, NextNumber(how, s, next))
  {
    hide Postgres, Translate, Meant, NextBare, NextNumber, ToText, Digits;
    var n := Digits(s[1..]);
    var rest := s[1 + n..];
    var d := if n == 0 then ToText(counted + 1) else s[1..1 + n];
    var e := if n == 0 then ToText(next + 1) else s[1..1 + n];
    TranslateParam(s, counted);
    MeantParam(s, how, next);
    ParamIsNumber(s, counted);
    FirstKept(rest, Code, NextBare(s, counted));
    var out, meant := Translate(rest, Code, NextBare(s, counted)), Meant(rest, Code, how, NextNumber(how, s, next));
    ReadsParam(d, out, word);
    ToTextInjective(counted + 1, next + 1);
    assert d == e <==> (n == 0 ==> counted == next);
    ConsEqual(Param(d), Postgres(out, Code, false), Param(e), meant);
    ConsEqual(Plain('$'), Postgres(d + out, Code, true), Param(e), meant);
  }

  lemma FitsNext(m: Mode, s: string)
    requires s != "" && Fits(m, s)
    ensures Fits(Advance(m, s), s[1..])
  {
  }

  lemma CleanNext(s: string, t: Mode, m: Mode, word: bool, counted: nat, how: Numbering, next: nat)
    requires s != ""
    ensures Clean(s, t, m, word, counted, how, next) <==>
      if s[0] == '?' && m == Code then
        && t == Code && !word && (Digits(s[1..]) == 0 ==> counted == next)
        && Clean(s[1 + Digits(s[1..])..], Code, Code, false, NextBare(s, counted), how, NextNumber(how, s, next))
      else if s[0] == '?' && t == Code then
        InComment(m) && Clean(s[1..], Code, Advance(m, s), false, NextBare(s, counted), how, next)
      else
        && (m == Code && s[0] == '$' && !word ==> Digits(s[1..]) == 0)
        && Clean(s[1..], Track(t, s), Advance(m, s), NextWord(m, s, word), counted, how, next)
  {
    hide NextBare, NextNumber, Track, Advance, NextWord;
  }

  lemma NothingToRead(t: Mode, m: Mode, word: bool, counted: nat, how: Numbering, next: nat)
    ensures Agree("", t, m, word, counted, how, next) && Clean("", t, m, word, counted, how, next)
  {
  }

  /**
   PostgreSQL reads the translation as what was meant, in either numbering, if and
   only if the statement is clean.
   */
  lemma {:induction false} MeaningKeptExactly(s: string, t: Mode, m: Mode, word: bool, counted: nat,
                                              how: Numbering, next: nat)
    requires Fits(m, s) && (m != Code ==> !word)
    ensures Postgres(Translate(s, t, counted), m, word) == Meant(s, m, how, next)
       <==> Clean(s, t, m, word, counted, how, next)
    decreases |s|
  {
    hide Postgres, Translate, Meant, Clean, Advance, Track, InWord, Digits, Fits, NextBare, NextNumber, Read;
    if s == "" {
      NothingToRead(t, m, word, counted, how, next);
      return;
    }
    CleanNext(s, t, m, word, counted, how, next);
    if s[0] == '?' && m == Code {
      if t == Code {
        AgreeParam(s, word, counted, how, next);
        FitsCode(s[1 + Digits(s[1..])..]);
        MeaningKeptExactly(s[1 + Digits(s[1..])..], Code, Code, false, NextBare(s, counted), how,
                           NextNumber(how, s, next));
      } else {
        MissedParam(s, t, word, counted, how, next);
      }
    } else if s[0] == '?' && t == Code {
      if InComment(m) {
        AgreeComment(s, m, counted, how, next);
        FitsNext(m, s);
        MeaningKeptExactly(s[1..], Code, Advance(m, s), false, NextBare(s, counted), how, next);
      } else {
        RewrittenInside(s, m, counted, how, next);
      }
    } else {
      AgreeCopied(s, t, m, word, counted, how, next);
      FitsNext(m, s);
      MeaningKeptExactly(s[1..], Track(t, s), Advance(m, s), NextWord(m, s, word), counted, how, next);
    }
  }

  lemma FitsCode(s: string)
    ensures Fits(Code, s)
  {
  }

  // ---- translating twice ----

  /** Translating again changes nothing. */
  lemma {:induction false} TranslatedOnce(s: string, t: Mode, next: nat, again: nat)
    ensures Translate(Translate(s, t, next), t, again) == Translate(s, t, next)
    decreases |s|
  {
    hide Translate, Track, NextBare, Dollar;
    if s == "" {
      TranslateEnd(t, next);
      TranslateEnd(t, again);
    } else {
      TranslateNext(s, t, next);
      if t == Code && s[0] == '?' {
        TranslatedOnce(s[1..], Code, NextBare(s, next), again);
        DollarChars(s, next);
        PassThrough(Dollar(s, next), Translate(s[1..], Code, NextBare(s, next)), again);
      } else {
        var rest := Translate(s[1..], Track(t, s), next);
        TranslatedOnce(s[1..], Track(t, s), next, again);
        ReadKept(s, Track(t, s), next, t);
        TranslateNext([s[0]] + rest, t, again);
        assert ([s[0]] + rest)[1..] == rest;
      }
    }
  }

  // ---- the numbers SQLite gives ----

  /** A statement as SQLite reads it. */
  function Sqlite(sql: string): seq<Token> { Meant(sql, Code, PastLargest, 0) }

  /**
   PostgreSQL reads the translation as SQLite reads the original if and only if the
   statement is clean in SQLite's numbering: at each bare placeholder of the code the
   bare ones rewritten so far, those of comments included, are as many as the largest
   number so far.
   */
  lemma ReadAsSqliteExactly(sql: string)
    ensures Postgres(Translate(sql, Code, 0), Code, false) == Sqlite(sql)
       <==> Clean(sql, Code, Code, false, 0, PastLargest, 0)
  {
    FitsCode(sql);
    MeaningKeptExactly(sql, Code, Code, false, 0, PastLargest, 0);
  }

  /** Before each bare placeholder no number exceeds the bare ones so far. */
  predicate InOrder(s: string, m: Mode, next: nat, highest: nat)
    decreases |s|
  {
    if s == "" then true
    else if m == Code && s[0] == '?' then
      var n := Digits(s[1..]);
      if n == 0 then highest <= next && InOrder(s[1..], Code, next + 1, highest)
      else InOrder(s[1 + n..], Code, next, Max(highest, Value(s[1..1 + n])))
    else InOrder(s[1..], Advance(m, s), next, highest)
  }

  lemma BareNumbered(s: string, next: nat, highest: nat)
    requires s != "" && s[0] == '?' && Digits(s[1..]) == 0
    ensures var largest := Max(next, highest);
      Meant(s, Code, InTurn, next) == Meant(s, Code, PastLargest, largest) <==>
        highest <= next && Meant(s[1..], Code, InTurn, next + 1) == Meant(s[1..], Code, PastLargest, next + 1)
  {
    hide ToText, Meant;
    var largest := Max(next, highest);
    MeantParam(s, InTurn, next);
    MeantParam(s, PastLargest, largest);
    ToTextInjective(next + 1, largest + 1);
    ConsEqual(Param(ToText(next + 1)), Meant(s[1..], Code, InTurn, next + 1),
              Param(ToText(largest + 1)), Meant(s[1..], Code, PastLargest, largest + 1));
  }

  lemma PlacedNumbered(s: string, next: nat, highest: nat)
    requires s != "" && s[0] == '?' && Digits(s[1..]) > 0
    ensures var n := Digits(s[1..]); var most := Max(highest, Value(s[1..1 + n]));
      Meant(s, Code, InTurn, next) == Meant(s, Code, PastLargest, Max(next, highest)) <==>
        Meant(s[1 + n..], Code, InTurn, next) == Meant(s[1 + n..], Code, PastLargest, Max(next, most))
  {
    hide ToText, Meant;
    var n := Digits(s[1..]);
    var d := s[1..1 + n];
    var largest := Max(next, highest);
    MeantParam(s, InTurn, next);
    MeantParam(s, PastLargest, largest);
    ConsEqual(Param(d), Meant(s[1 + n..], Code, InTurn, next),
              Param(d), Meant(s[1 + n..], Code, PastLargest, Max(largest, Value(d))));
  }

  lemma CopiedNumbered(s: string, m: Mode, next: nat, largest: nat)
    requires s != "" && !(m == Code && s[0] == '?')
    ensures Meant(s, m, InTurn, next) == Meant(s, m, PastLargest, largest) <==>
      Meant(s[1..], Advance(m, s), InTurn, next) == Meant(s[1..], Advance(m, s), PastLargest, largest)
  {
    hide Advance, Read, Meant;
    MeantNext(s, m, InTurn, next);
    MeantNext(s, m, PastLargest, largest);
    SameStart(Read(m, s), Meant(s[1..], Advance(m, s), InTurn, next),
              Meant(s[1..], Advance(m, s), PastLargest, largest));
  }

  lemma InOrderNext(s: string, m: Mode, next: nat, highest: nat)
    requires s != ""
    ensures InOrder(s, m, next, highest) <==>
      if m == Code && s[0] == '?' then
        var n := Digits(s[1..]);
        if n == 0 then highest <= next && InOrder(s[1..], Code, next + 1, highest)
        else InOrder(s[1 + n..], Code, next, Max(highest, Value(s[1..1 + n])))
      else InOrder(s[1..], Advance(m, s), next, highest)
  {
    hide Advance;
  }

  /** The two numberings agree exactly when bare placeholders never come after a larger number. */
  lemma {:induction false} NumberedAsSqliteExactly(s: string, m: Mode, next: nat, highest: nat)
    ensures Meant(s, m, InTurn, next) == Meant(s, m, PastLargest, Max(next, highest)) <==> InOrder(s, m, next, highest)
    decreases |s|
  {
    hide Advance, Meant, InOrder, Value, Digits;
    if s == "" {
      MeantEnd(m, InTurn, next);
      MeantEnd(m, PastLargest, Max(next, highest));
      InOrderEnd(m, next, highest);
      return;
    }
    InOrderNext(s, m, next, highest);
    if m == Code && s[0] == '?' {
      var n := Digits(s[1..]);
      if n == 0 {
        BareNumbered(s, next, highest);
        NumberedAsSqliteExactly(s[1..], Code, next + 1, highest);
      } else {
        PlacedNumbered(s, next, highest);
        DigitsAreDigits(s[1..], n);
        assert s[1..][..n] == s[1..1 + n];
        NumberedAsSqliteExactly(s[1 + n..], Code, next, Max(highest, Value(s[1..1 + n])));
      }
    } else {
      CopiedNumbered(s, m, next, Max(next, highest));
      NumberedAsSqliteExactly(s[1..], Advance(m, s), next, highest);
    }
  }

  lemma DigitsAreDigits(s: string, n: nat)
    requires n == Digits(s)
    ensures AllDigits(s[..n])
  {
    assert forall i :: 0 <= i < n ==> s[..n][i] == s[i];
  }

  lemma InOrderEnd(m: Mode, next: nat, highest: nat)
    ensures InOrder("", m, next, highest)
  {
  }

  /** What is translated as it was meant is read as SQLite reads it exactly when it is in order. */
  lemma ReadAsSqlite(sql: string)
    requires Clean(sql, Code, Code, false, 0, InTurn, 0)
    ensures Postgres(Translate(sql, Code, 0), Code, false) == Sqlite(sql) <==> InOrder(sql, Code, 0, 0)
  {
    hide Postgres, Translate, Meant, Clean, InOrder;
    FitsCode(sql);
    MeaningKeptExactly(sql, Code, Code, false, 0, InTurn, 0);
    NumberedAsSqliteExactly(sql, Code, 0, 0);
  }

  // ---- statements that fail, and one that does not ----

  lemma MixedTails()
    ensures var sql := "?2=?";
      && Digits(sql[1..]) == 1 && sql[1..1 + 1] == "2" && sql[1 + 1..] == "=?"
      && "=?"[1..] == "?" && Digits("?"[1..]) == 0
    ensures Value("2") == 2 && ToText(1) == "1" && ToText(3) == "3" && "?"[1 + 0..] == "" && "?"[1..] == ""
  {
    assert "?2=?"[1..] == "2=?" && "2=?"[1..] == "=?";
    assert "2"[..0] == "";
  }

  lemma MixedMeant(how: Numbering)
    ensures Meant("?2=?", Code, how, 0) == [Param("2"), Plain('='), Param(if how == InTurn then "1" else "3")]
  {
    hide Meant, Digits, ToText, Value;
    MixedTails();
    var next := if how == InTurn then 0 else 2;
    MeantParam("?2=?", how, 0);
    assert NextNumber(how, "?2=?", 0) == next;
    MeantNext("=?", Code, how, next);
    MeantParam("?", how, next);
    MeantEnd(Code, how, NextNumber(how, "?", next));
  }

  lemma MixedNotClean()
    ensures !Clean("?2=?", Code, Code, false, 0, PastLargest, 0)
  {
    hide Meant, Translate, Digits, ToText, Value;
    MixedTails();
    assert !Clean("?", Code, Code, false, 0, PastLargest, 2);
    assert !Clean("=?", Code, Code, false, 0, PastLargest, 2);
  }

  /** Mixing the two kinds: "?2=?" is numbered 2 then 1, where SQLite gives 2 then 3. */
  lemma MixedNumbering()
    ensures var sql := "?2=?";
      && Meant(sql, Code, InTurn, 0) == [Param("2"), Plain('='), Param("1")]
      && Sqlite(sql) == [Param("2"), Plain('='), Param("3")]
      && Postgres(Translate(sql, Code, 0), Code, false) != Sqlite(sql)
  {
    hide Meant, Translate, Postgres, Clean;
    MixedMeant(InTurn);
    MixedMeant(PastLargest);
    MixedNotClean();
    ReadAsSqliteExactly("?2=?");
  }

  lemma CommentTails()
    ensures "/*?*/?"[1..] == "*?*/?" && "*?*/?"[1..] == "?*/?" && "?*/?"[1..] == "*/?"
    ensures "*/?"[1..] == "/?" && "/?"[1..] == "?" && "?"[1..] == ""
  {
  }

  lemma CommentMeant(how: Numbering)
    ensures Meant("/*?*/?", Code, how, 0) == [Param("1")]
  {
    hide Translate, Clean, Meant;
    CommentTails();
    assert ToText(1) == "1" && Digits("") == 0 && "?"[1 + 0..] == "";
    MeantParam("?", how, 0);
    MeantEnd(Code, how, 1);
    MeantSilent("/?", BlockEnd, how, 0);
    MeantSilent("*/?", BlockComment, how, 0);
    MeantSilent("?*/?", BlockComment, how, 0);
    MeantSilent("*?*/?", BlockStart, how, 0);
    MeantSilent("/*?*/?", Code, how, 0);
  }

  lemma MeantEnd(m: Mode, how: Numbering, next: nat)
    ensures Meant("", m, how, next) == []
  {
  }

  /** A character of a comment adds nothing. */
  lemma MeantSilent(s: string, m: Mode, how: Numbering, next: nat)
    requires s != "" && !(m == Code && s[0] == '?') && Read(m, s) == []
    ensures Meant(s, m, how, next) == Meant(s[1..], Advance(m, s), how, next)
  {
    hide Read, Advance, Meant;
    MeantNext(s, m, how, next);
    assert [] + Meant(s[1..], Advance(m, s), how, next) == Meant(s[1..], Advance(m, s), how, next);
  }

  lemma CommentTranslated()
    ensures Translate("/*?*/?", Code, 0) == "/*$1*/$2"
  {
    hide Meant, Clean;
    CommentTails();
    assert ToText(1) == "1" && ToText(2) == "2";
    assert Translate("?", Code, 1) == "$2";
    assert Translate("/?", Code, 1) == "/$2";
    assert Translate("*/?", Code, 1) == "*/$2";
    assert Translate("?*/?", Code, 0) == "$1*/$2";
    assert Translate("*?*/?", Code, 0) == "*$1*/$2";
  }

  /** The commented placeholder is counted, so the one after it must be the second. */
  lemma CommentClean(how: Numbering, next: nat)
    ensures Clean("/*?*/?", Code, Code, false, 0, how, next) <==> next == 1
  {
    hide Meant, Translate, Clean, ToText, NextNumber;
    CommentTails();
    NothingToRead(Code, Code, false, 2, how, NextNumber(how, "?", next));
    CleanNext("?", Code, Code, false, 1, how, next);
    CleanNext("/?", Code, BlockEnd, false, 1, how, next);
    CleanNext("*/?", Code, BlockComment, false, 1, how, next);
    CleanNext("?*/?", Code, BlockComment, false, 0, how, next);
    CleanNext("*?*/?", Code, BlockStart, false, 0, how, next);
    CleanNext("/*?*/?", Code, Code, false, 0, how, next);
  }

  lemma CommentInOrder(highest: nat)
    ensures InOrder("/*?*/?", Code, 0, highest) <==> highest == 0
  {
    hide Meant, Translate, Clean;
    CommentTails();
    assert InOrder("?", Code, 0, highest) <==> highest == 0;
    assert InOrder("/?", BlockEnd, 0, highest) <==> highest == 0;
    assert InOrder("*/?", BlockComment, 0, highest) <==> highest == 0;
    assert InOrder("?*/?", BlockComment, 0, highest) <==> highest == 0;
    assert InOrder("*?*/?", BlockStart, 0, highest) <==> highest == 0;
  }

  /**
   A bare '?' in a comment takes a number: the one after it is parameter 1 in both numberings, and
   is written $2.
   */
  lemma CommentCounts()
    ensures var sql := "/*?*/?";
      && Translate(sql, Code, 0) == "/*$1*/$2"
      && Meant(sql, Code, InTurn, 0) == Sqlite(sql) == [Param("1")]
      && InOrder(sql, Code, 0, 0) && !Clean(sql, Code, Code, false, 0, InTurn, 0)
      && Postgres(Translate(sql, Code, 0), Code, false) != Sqlite(sql)
  {
    hide Meant, Postgres, Translate, Clean, InOrder;
    CommentMeant(InTurn);
    CommentMeant(PastLargest);
    CommentTranslated();
    CommentClean(InTurn, 0);
    CommentClean(PastLargest, 0);
    CommentInOrder(0);
    ReadAsSqliteExactly("/*?*/?");
  }

  lemma NumberedTails()
    ensures var sql := "?1/*?*/?";
      Digits(sql[1..]) == 1 && sql[1..1 + 1] == "1" && sql[1 + 1..] == "/*?*/?" && Value("1") == 1
  {
    assert "?1/*?*/?"[1..] == "1/*?*/?" && "1/*?*/?"[1..] == "/*?*/?";
    assert "1"[..0] == "";
  }

  /**
   A number and a comment can make up for each other: "?1/*?*/?" is not in order and not as it was
   meant, and PostgreSQL reads its translation as SQLite reads the original.
   */
  lemma CommentMakesUp()
    ensures var sql := "?1/*?*/?";
      && !InOrder(sql, Code, 0, 0) && !Clean(sql, Code, Code, false, 0, InTurn, 0)
      && Postgres(Translate(sql, Code, 0), Code, false) == Sqlite(sql)
  {
    hide Meant, Postgres, Translate, Digits, Value;
    NumberedTails();
    CommentInOrder(1);
    CommentClean(InTurn, 0);
    CommentClean(PastLargest, 1);
    ReadAsSqliteExactly("?1/*?*/?");
  }
}
