/**
 Blanking comments and string bodies before counting `expect(` calls, and finding
 the end of a call (tools/_test_asserts_rules.py).

 `Code`, `Line`, `Block` and `Str` are the blanked text of a suffix in each lexer
 mode. The in-place lexer computes `Code`; blanking is then proved to be a
 projection onto the clean texts: those with no comment and only blank strings.
 */
module NoiseBlanking {

  predicate IsQuote(c: char) { c == '\'' || c == '"' || c == '`' }

  /** A blanked character: newlines survive, everything else becomes a space. */
  function Blanked(c: char): char { if c == '\n' then '\n' else ' ' }

  predicate StartsTwo(s: string, a: char, b: char) { |s| >= 2 && s[0] == a && s[1] == b }

  function Code(s: string): (r: string)
    ensures |r| == |s|
    decreases |s|, 1
  {
    if s == "" then ""
    else if StartsTwo(s, '/', '/') then Line(s)
    else if StartsTwo(s, '/', '*') then [' ', ' '] + Block(s[2..])
    else if IsQuote(s[0]) then [s[0]] + Str(s[1..], s[0])
    else [s[0]] + Code(s[1..])
  }

  /** Inside a line comment: blank up to, not including, the newline. */
  function Line(s: string): (r: string)
    ensures |r| == |s|
    decreases |s|, if s != "" && s[0] == '\n' then 2 else 0
  {
    if s == "" then "" else if s[0] == '\n' then Code(s) else [' '] + Line(s[1..])
  }

  /** Inside a block comment: blank through the closing mark, or to the end. */
  function Block(s: string): (r: string)
    ensures |r| == |s|
    decreases |s|, 0
  {
    if s == "" then ""
    else if StartsTwo(s, '*', '/') then [' ', ' '] + Code(s[2..])
    else [Blanked(s[0])] + Block(s[1..])
  }

  /** Inside a string: blank through the closing quote, which stays; an escape blanks two characters. */
  function Str(s: string, quote: char): (r: string)
    ensures |r| == |s|
    decreases |s|, 0
  {
    if s == "" then ""
    else if s[0] == '\\' then
      if |s| == 1 then [' '] else [' ', Blanked(s[1])] + Str(s[2..], quote)
    else if s[0] == quote then [quote] + Code(s[1..])
    else [Blanked(s[0])] + Str(s[1..], quote)
  }

  // ------------------------------------------------- what blanking changes

  /** Every character is kept or became a space, and newlines are kept. */
  ghost predicate OnlyBlanks(s: string, r: string) {
    |r| == |s| && forall i :: 0 <= i < |s| ==> (r[i] == s[i] || r[i] == ' ') && (s[i] == '\n' ==> r[i] == '\n')
  }

  lemma OnlyBlanksCons(s: string, head: string, tail: string)
    requires |head| <= |s| && OnlyBlanks(s[..|head|], head) && OnlyBlanks(s[|head|..], tail)
    ensures OnlyBlanks(s, head + tail)
  {
    assert forall i :: 0 <= i < |head| ==> s[i] == s[..|head|][i];
    assert forall i :: |head| <= i < |s| ==> s[i] == s[|head|..][i - |head|];
  }

  lemma {:induction false} CodeOnlyBlanks(s: string)
    ensures OnlyBlanks(s, Code(s))
    decreases |s|, 1
  {
    if s == "" {
    } else if StartsTwo(s, '/', '/') {
      LineOnlyBlanks(s);
    } else if StartsTwo(s, '/', '*') {
      BlockOnlyBlanks(s[2..]);
      OnlyBlanksCons(s, [' ', ' '], Block(s[2..]));
    } else if IsQuote(s[0]) {
      StrOnlyBlanks(s[1..], s[0]);
      OnlyBlanksCons(s, [s[0]], Str(s[1..], s[0]));
    } else {
      CodeOnlyBlanks(s[1..]);
      OnlyBlanksCons(s, [s[0]], Code(s[1..]));
    }
  }

  lemma {:induction false} LineOnlyBlanks(s: string)
    ensures OnlyBlanks(s, Line(s))
    decreases |s|, if s != "" && s[0] == '\n' then 2 else 0
  {
    if s == "" {
    } else if s[0] == '\n' {
      CodeOnlyBlanks(s);
    } else {
      LineOnlyBlanks(s[1..]);
      OnlyBlanksCons(s, [' '], Line(s[1..]));
    }
  }

  lemma {:induction false} BlockOnlyBlanks(s: string)
    ensures OnlyBlanks(s, Block(s))
    decreases |s|, 0
  {
    if s == "" {
    } else if StartsTwo(s, '*', '/') {
      CodeOnlyBlanks(s[2..]);
      OnlyBlanksCons(s, [' ', ' '], Code(s[2..]));
    } else {
      BlockOnlyBlanks(s[1..]);
      OnlyBlanksCons(s, [Blanked(s[0])], Block(s[1..]));
    }
  }

  lemma {:induction false} StrOnlyBlanks(s: string, quote: char)
    ensures OnlyBlanks(s, Str(s, quote))
    decreases |s|, 0
  {
    if s == "" {
    } else if s[0] == '\\' {
      if |s| > 1 {
        StrOnlyBlanks(s[2..], quote);
        OnlyBlanksCons(s, [' ', Blanked(s[1])], Str(s[2..], quote));
      }
    } else if s[0] == quote {
      CodeOnlyBlanks(s[1..]);
      OnlyBlanksCons(s, [quote], Code(s[1..]));
    } else {
      StrOnlyBlanks(s[1..], quote);
      OnlyBlanksCons(s, [Blanked(s[0])], Str(s[1..], quote));
    }
  }

  // --------------------------------------------------- the clean texts

  predicate IsBlank(c: char) { c == ' ' || c == '\n' }

  /** No comment starts here, and every string from here on holds only blanks. */
  predicate Clean(s: string)
    decreases |s|
  {
    s == "" ||
    if IsQuote(s[0]) then CleanString(s[1..], s[0])
    else !StartsTwo(s, '/', '/') && !StartsTwo(s, '/', '*') && Clean(s[1..])
  }

  predicate CleanString(s: string, quote: char)
    decreases |s|
  {
    s == "" || if s[0] == quote then Clean(s[1..]) else IsBlank(s[0]) && CleanString(s[1..], quote)
  }

  lemma CleanBlankCons(c: char, tail: string)
    requires IsBlank(c)
    ensures Clean([c] + tail) <==> Clean(tail)
    ensures forall q :: IsQuote(q) ==> (CleanString([c] + tail, q) <==> CleanString(tail, q))
  {
    assert ([c] + tail)[1..] == tail;
  }

  /** Whatever the input, the blanked text is clean: also for unterminated strings and comments. */
  lemma {:induction false} CodeIsClean(s: string)
    ensures Clean(Code(s))
    decreases |s|, 1
  {
    if s == "" {
    } else if StartsTwo(s, '/', '/') {
      LineIsClean(s);
    } else if StartsTwo(s, '/', '*') {
      BlockIsClean(s[2..]);
      TwoBlanks(' ', ' ', Block(s[2..]));
    } else if IsQuote(s[0]) {
      StrIsClean(s[1..], s[0]);
      assert Code(s)[1..] == Str(s[1..], s[0]);
    } else {
      CodeIsClean(s[1..]);
      assert Code(s)[1..] == Code(s[1..]);
      CodeOnlyBlanks(s[1..]);
      assert |s| > 1 ==> Code(s)[1] == s[1] || Code(s)[1] == ' ';
    }
  }

  lemma TwoBlanks(a: char, b: char, tail: string)
    requires IsBlank(a) && IsBlank(b)
    ensures Clean([a, b] + tail) <==> Clean(tail)
    ensures forall q :: IsQuote(q) ==> (CleanString([a, b] + tail, q) <==> CleanString(tail, q))
  {
    assert [a, b] + tail == [a] + ([b] + tail);
    CleanBlankCons(b, tail);
    CleanBlankCons(a, [b] + tail);
  }

  lemma {:induction false} LineIsClean(s: string)
    ensures Clean(Line(s))
    decreases |s|, if s != "" && s[0] == '\n' then 2 else 0
  {
    if s == "" {
    } else if s[0] == '\n' {
      CodeIsClean(s);
    } else {
      LineIsClean(s[1..]);
      CleanBlankCons(' ', Line(s[1..]));
    }
  }

  lemma {:induction false} BlockIsClean(s: string)
    ensures Clean(Block(s))
    decreases |s|, 0
  {
    if s == "" {
    } else if StartsTwo(s, '*', '/') {
      CodeIsClean(s[2..]);
      TwoBlanks(' ', ' ', Code(s[2..]));
    } else {
      BlockIsClean(s[1..]);
      CleanBlankCons(Blanked(s[0]), Block(s[1..]));
    }
  }

  lemma {:induction false} StrIsClean(s: string, quote: char)
    requires IsQuote(quote)
    ensures CleanString(Str(s, quote), quote)
    decreases |s|, 0
  {
    if s == "" {
    } else if s[0] == '\\' {
      if |s| > 1 {
        StrIsClean(s[2..], quote);
        TwoBlanks(' ', Blanked(s[1]), Str(s[2..], quote));
      }
    } else if s[0] == quote {
      CodeIsClean(s[1..]);
      assert Str(s, quote)[1..] == Code(s[1..]);
    } else {
      StrIsClean(s[1..], quote);
      CleanBlankCons(Blanked(s[0]), Str(s[1..], quote));
    }
  }

  /** A clean text is left exactly as it is. */
  lemma {:induction false} CleanIsFixed(s: string)
    requires Clean(s)
    ensures Code(s) == s
    decreases |s|
  {
    if s != "" {
      if IsQuote(s[0]) { CleanStringIsFixed(s[1..], s[0]); } else { CleanIsFixed(s[1..]); }
      assert s == [s[0]] + s[1..];
    }
  }

  lemma {:induction false} CleanStringIsFixed(s: string, quote: char)
    requires CleanString(s, quote) && IsQuote(quote)
    ensures Str(s, quote) == s
    decreases |s|
  {
    if s != "" {
      if s[0] == quote {
        CleanIsFixed(s[1..]);
      } else {
        CleanStringIsFixed(s[1..], quote);
      }
      assert s == [s[0]] + s[1..];
    }
  }

  /** The texts blanking leaves alone are exactly the clean ones, and blanking twice changes nothing more. */
  lemma BlankingIsAProjection(s: string)
    ensures Code(s) == s <==> Clean(s)
    ensures Code(Code(s)) == Code(s)
  {
    CodeIsClean(s);
    CleanIsFixed(Code(s));
    if Clean(s) { CleanIsFixed(s); }
  }

  // ------------------------------------------------------ the in-place lexer

  /** `s.find(ab, from)`: the first position of the pair at or after `from`, or -1. */
  function FindTwo(s: string, a: char, b: char, from: nat): (at: int)
    requires from <= |s|
    ensures at == -1 || (from <= at && at + 2 <= |s|)
    decreases |s| - from
  {
    if StartsTwo(s[from..], a, b) then from
    else if from == |s| then -1
    else FindTwo(s, a, b, from + 1)
  }

  function BlankedAll(s: string): (r: string)
    ensures |r| == |s| && forall i :: 0 <= i < |s| ==> r[i] == if s[i] == '\n' then '\n' else ' '
  {
    seq(|s|, i requires 0 <= i < |s| => Blanked(s[i]))
  }

  lemma BlankedAllCons(s: string, i: nat, j: nat)
    requires i < j <= |s|
    ensures BlankedAll(s[i..j]) == [Blanked(s[i])] + BlankedAll(s[i + 1..j])
  {
    assert s[i..j] == [s[i]] + s[i + 1..j];
  }

  /** Where a block comment entered at `from` ends. */
  function BlockEnd(s: string, from: nat): (end: nat)
    requires from <= |s|
    ensures from <= end <= |s|
  {
    var close := FindTwo(s, '*', '/', from);
    if close == -1 then |s| else close + 2
  }

  /** The block-comment mode is "blank everything through the first closing mark". */
  lemma {:induction false} BlockThroughClose(s: string, from: nat)
    requires from <= |s|
    ensures Block(s[from..]) == BlankedAll(s[from..BlockEnd(s, from)]) + Code(s[BlockEnd(s, from)..])
    decreases |s| - from
  {
    var rest := s[from..];
    if StartsTwo(rest, '*', '/') {
      assert rest[2..] == s[from + 2..];
      assert BlankedAll(s[from..from + 2]) == [' ', ' '];
    } else if from < |s| {
      BlockThroughClose(s, from + 1);
      assert rest[1..] == s[from + 1..];
      assert BlockEnd(s, from + 1) == BlockEnd(s, from);
      BlankedAllCons(s, from, BlockEnd(s, from));
    }
  }

  // --------------------------------------------------- what is kept

  /** The first character of a stretch, split off before and after blanking. */
  lemma Peel(c: string, tail: string, after: string)
    requires c != ""
    ensures c + tail == [c[0]] + (c[1..] + tail)
    ensures BlankedAll(c) + after == [Blanked(c[0])] + (BlankedAll(c[1..]) + after)
  {
    BlankedAllCons(c, 0, |c|);
    assert c[0..|c|] == c && c[0 + 1..|c|] == c[1..];
  }

  /** A character outside comments and strings is kept, and blanking goes on behind it. */
  lemma CodeIsKept(c: char, rest: string)
    requires c != '\'' && c != '"' && c != '`'
    requires c == '/' ==> rest == "" || (rest[0] != '/' && rest[0] != '*')
    ensures Code([c] + rest) == [c] + Code(rest)
  {
    assert ([c] + rest)[1..] == rest;
    assert rest != "" ==> ([c] + rest)[1] == rest[0];
  }

  lemma LineCons(c: char, rest: string)
    requires c != '\n'
    ensures Line([c] + rest) == [' '] + Line(rest)
  {
    assert ([c] + rest)[1..] == rest;
  }

  lemma LineStops(rest: string)
    requires rest == "" || rest[0] == '\n'
    ensures Line(rest) == Code(rest)
  {
  }

  lemma {:induction false} LineRunsToNewline(c: string, rest: string)
    requires '\n' !in c && (rest == "" || rest[0] == '\n')
    ensures Line(c + rest) == BlankedAll(c) + Code(rest)
  {
    if c == "" {
      LineStops(rest);
      assert c + rest == rest && BlankedAll(c) + Code(rest) == Code(rest);
    } else {
      LineRunsToNewline(c[1..], rest);
      Peel(c, rest, Code(rest));
      LineCons(c[0], c[1..] + rest);
    }
  }

  /** A line comment is blanked up to its newline, and what follows is code again. */
  lemma LineCommentExtent(c: string, rest: string)
    requires '\n' !in c
    ensures Code("//" + c + "\n" + rest) == BlankedAll("//" + c) + "\n" + Code(rest)
    ensures Code("//" + c) == BlankedAll("//" + c)
  {
    var comment := "//" + c;
    assert forall x :: x in comment ==> x == '/' || x in c;
    LineRunsToNewline(comment, "\n" + rest);
    LineRunsToNewline(comment, "");
    CodeIsKept('\n', rest);
    assert comment + "\n" + rest == comment + ("\n" + rest);
    assert StartsTwo(comment + ("\n" + rest), '/', '/') && StartsTwo(comment, '/', '/');
    assert comment + "" == comment && BlankedAll(comment) + Code("") == BlankedAll(comment);
  }

  /** No closing mark starts inside `c`, also not with its last character. */
  ghost predicate NoCloseIn(c: string) {
    forall i :: 0 <= i < |c| ==> !(c[i] == '*' && (if i + 1 < |c| then c[i + 1] else '*') == '/')
  }

  lemma NoCloseInTail(c: string, rest: string)
    requires c != "" && NoCloseIn(c)
    ensures NoCloseIn(c[1..])
    ensures var tail := c[1..] + ("*/" + rest); !(c[0] == '*' && tail[0] == '/')
  {
    forall i | 0 <= i < |c[1..]|
      ensures !(c[1..][i] == '*' && (if i + 1 < |c[1..]| then c[1..][i + 1] else '*') == '/')
    {
      assert c[1..][i] == c[i + 1];
    }
  }

  lemma BlockCons(c: char, rest: string)
    requires !(c == '*' && rest != "" && rest[0] == '/')
    ensures Block([c] + rest) == [Blanked(c)] + Block(rest)
  {
    assert ([c] + rest)[1..] == rest;
  }

  lemma BlockCloses(rest: string)
    ensures Block("*/" + rest) == "  " + Code(rest)
  {
    assert ("*/" + rest)[2..] == rest;
  }

  lemma {:induction false} BlockRunsToClose(c: string, rest: string)
    requires NoCloseIn(c)
    ensures Block(c + ("*/" + rest)) == BlankedAll(c) + ("  " + Code(rest))
  {
    if c == "" {
      BlockCloses(rest);
      assert c + ("*/" + rest) == "*/" + rest && BlankedAll(c) + ("  " + Code(rest)) == "  " + Code(rest);
    } else {
      NoCloseInTail(c, rest);
      BlockRunsToClose(c[1..], rest);
      Peel(c, "*/" + rest, "  " + Code(rest));
      BlockCons(c[0], c[1..] + ("*/" + rest));
    }
  }

  lemma CodeOpensBlock(inside: string)
    ensures Code("/*" + inside) == "  " + Block(inside)
  {
    assert ("/*" + inside)[2..] == inside;
  }

  /** A block comment is blanked through its first closing mark, its newlines kept, and then it is code again. */
  lemma BlockCommentExtent(c: string, rest: string)
    requires NoCloseIn(c)
    ensures Code("/*" + (c + ("*/" + rest))) == "  " + (BlankedAll(c) + ("  " + Code(rest)))
  {
    BlockRunsToClose(c, rest);
    CodeOpensBlock(c + ("*/" + rest));
  }

  lemma {:induction false} BlockRunsToEnd(c: string)
    requires NoCloseIn(c)
    ensures Block(c) == BlankedAll(c)
  {
    if c != "" {
      NoCloseInTail(c, "");
      BlockRunsToEnd(c[1..]);
      Peel(c, "", "");
      BlockCons(c[0], c[1..]);
      assert c[1..] + "" == c[1..] && c + "" == c;
      assert BlankedAll(c) + "" == BlankedAll(c) && BlankedAll(c[1..]) + "" == BlankedAll(c[1..]);
    }
  }

  /** Without a closing mark it is blanked to the end. */
  lemma OpenBlockExtent(c: string)
    requires NoCloseIn(c)
    ensures Code("/*" + c) == "  " + BlankedAll(c)
  {
    BlockRunsToEnd(c);
    CodeOpensBlock(c);
  }

  /** Plain characters and escaped pairs: text that does not close a string opened with `quote`. */
  ghost predicate IsBody(b: string, quote: char)
    decreases |b|
  {
    b == ""
    || (b[0] == '\\' && |b| > 1 && IsBody(b[2..], quote))
    || (b[0] != '\\' && b[0] != quote && IsBody(b[1..], quote))
  }

  lemma StrCons(c: char, rest: string, quote: char)
    requires c != '\\' && c != quote
    ensures Str([c] + rest, quote) == [Blanked(c)] + Str(rest, quote)
  {
    assert ([c] + rest)[1..] == rest;
  }

  lemma StrEscapes(c: char, rest: string, quote: char)
    ensures Str(['\\'] + ([c] + rest), quote) == [' '] + ([Blanked(c)] + Str(rest, quote))
  {
    assert (['\\'] + ([c] + rest))[2..] == rest;
  }

  lemma {:induction false} BodyIsBlanked(b: string, quote: char, tail: string)
    requires IsBody(b, quote)
    ensures Str(b + tail, quote) == BlankedAll(b) + Str(tail, quote)
    decreases |b|
  {
    if b == "" {
      assert b + tail == tail && BlankedAll(b) + Str(tail, quote) == Str(tail, quote);
    } else {
      Peel(b, tail, Str(tail, quote));
      if b[0] == '\\' {
        BodyIsBlanked(b[2..], quote, tail);
        Peel(b[1..], tail, Str(tail, quote));
        assert b[1..][1..] == b[2..];
        StrEscapes(b[1], b[2..] + tail, quote);
      } else {
        BodyIsBlanked(b[1..], quote, tail);
        StrCons(b[0], b[1..] + tail, quote);
      }
    }
  }

  lemma CodeOpensString(quote: char, inside: string)
    requires quote == '\'' || quote == '"' || quote == '`'
    ensures Code([quote] + inside) == [quote] + Str(inside, quote)
  {
    assert ([quote] + inside)[1..] == inside;
  }

  lemma StrCloses(quote: char, rest: string)
    requires quote != '\\'
    ensures Str([quote] + rest, quote) == [quote] + Code(rest)
  {
    assert ([quote] + rest)[1..] == rest;
  }

  /** A string keeps its two quotes, is blanked through its first unescaped closing one, and then it is code again. */
  lemma StringExtent(b: string, quote: char, rest: string)
    requires (quote == '\'' || quote == '"' || quote == '`') && IsBody(b, quote)
    ensures Code([quote] + (b + ([quote] + rest))) == [quote] + (BlankedAll(b) + ([quote] + Code(rest)))
  {
    BodyIsBlanked(b, quote, [quote] + rest);
    StrCloses(quote, rest);
    CodeOpensString(quote, b + ([quote] + rest));
  }

  /** Without a closing quote it is blanked to the end, also when it ends in a lone backslash. */
  lemma OpenStringExtent(b: string, quote: char)
    requires (quote == '\'' || quote == '"' || quote == '`') && IsBody(b, quote)
    ensures Code([quote] + b) == [quote] + BlankedAll(b)
    ensures Code([quote] + (b + "\\")) == [quote] + (BlankedAll(b) + " ")
  {
    BodyIsBlanked(b, quote, "");
    CodeOpensString(quote, b);
    assert b + "" == b && BlankedAll(b) + Str("", quote) == BlankedAll(b);
    BodyIsBlanked(b, quote, "\\");
    CodeOpensString(quote, b + "\\");
  }

  // ------------------------------------------------------- one turn further

  /** The lexer stands at `i`: the rest is untouched, and blanking it as `tail` would give `want`. */
  ghost predicate At(s: string, out: string, i: nat, want: string, tail: string) {
    |out| == |s| && i <= |s| && out[i..] == s[i..] && want == out[..i] + tail
  }

  /** Writing `head` over the next characters moves the lexer past them. */
  lemma Advance(s: string, out: string, out': string, i: nat, head: string, tail: string, want: string)
    requires At(s, out, i, want, head + tail) && |out'| == |out| && i + |head| <= |s|
    requires forall k :: 0 <= k < |out| && !(i <= k < i + |head|) ==> out'[k] == out[k]
    requires forall k :: 0 <= k < |head| ==> out'[i + k] == head[k]
    ensures At(s, out', i + |head|, want, tail)
  {
    assert out'[..i + |head|] == out[..i] + head;
    assert out'[i + |head|..] == out[i + |head|..] == out[i..][|head|..];
    assert s[i + |head|..] == s[i..][|head|..];
  }

  lemma AtEnd(s: string, out: string, want: string)
    requires At(s, out, |s|, want, "")
    ensures out == want
  {
    assert out[..|s|] == out;
  }

  /** Blank the escape at `i`; the result is past the end when the text stops at the backslash. */
  method BlankEscape(source: string, out: array<char>, i: nat, quote: char, ghost want: string)
    requires i < |source| == out.Length && IsQuote(quote) && source[i] == '\\'
    requires At(source, out[..], i, want, Str(source[i..], quote))
    modifies out
    ensures i + 2 <= |source| ==> At(source, out[..], i + 2, want, Str(source[i + 2..], quote))
    ensures i + 1 == |source| ==> out[..] == want
  {
    ghost var before, rest := out[..], source[i..];
    out[i] := ' ';
    if i + 1 < |source| {
      assert before[i..][1] == rest[1];
      if source[i + 1] != '\n' {
        out[i + 1] := ' ';
      }
      assert rest[2..] == source[i + 2..];
      Advance(source, before, out[..], i, [' ', Blanked(rest[1])], Str(rest[2..], quote), want);
    } else {
      Advance(source, before, out[..], i, [' '], "", want);
      AtEnd(source, out[..], want);
    }
  }

  /** Blank one ordinary character of a string. */
  method BlankBodyChar(source: string, out: array<char>, i: nat, quote: char, ghost want: string)
    requires i < |source| == out.Length && source[i] != '\\' && source[i] != quote
    requires At(source, out[..], i, want, Str(source[i..], quote))
    modifies out
    ensures At(source, out[..], i + 1, want, Str(source[i + 1..], quote))
  {
    ghost var before, rest := out[..], source[i..];
    assert rest[1..] == source[i + 1..];
    out[i] := Blanked(source[i]);
    Advance(source, before, out[..], i, [Blanked(rest[0])], Str(rest[1..], quote), want);
  }

  /** Step over the closing quote, which stays. */
  lemma CloseQuote(source: string, out: string, i: nat, quote: char, want: string)
    requires i < |source| && source[i] == quote != '\\'
    requires At(source, out, i, want, Str(source[i..], quote))
    ensures At(source, out, i + 1, want, Code(source[i + 1..]))
  {
    var rest := source[i..];
    assert rest[1..] == source[i + 1..] && out[i..][0] == rest[0];
    Advance(source, out, out, i, [quote], Code(rest[1..]), want);
  }

  /** Standing inside a string at `i`; just past the end after an escape at the very end. */
  ghost predicate InString(source: string, out: string, i: nat, quote: char, want: string) {
    if i <= |source| then At(source, out, i, want, Str(source[i..], quote)) else out == want
  }

  ghost predicate InCode(source: string, out: string, i: nat, want: string) {
    if i <= |source| then At(source, out, i, want, Code(source[i..])) else out == want
  }

  /** One turn inside a string: an escape, the closing quote, or a body character. */
  method BlankStringTurn(source: string, out: array<char>, i: nat, quote: char, ghost want: string)
    returns (next: nat, closed: bool)
    requires i < |source| == out.Length && IsQuote(quote)
    requires InString(source, out[..], i, quote, want)
    modifies out
    ensures i < next <= |source| + 1
    ensures closed ==> InCode(source, out[..], next, want)
    ensures !closed ==> InString(source, out[..], next, quote, want)
  {
    if source[i] == '\\' {
      BlankEscape(source, out, i, quote, want);
      return i + 2, false;
    }
    if source[i] == quote {
      CloseQuote(source, out[..], i, quote, want);
      return i + 1, true;
    }
    BlankBodyChar(source, out, i, quote, want);
    return i + 1, false;
  }

  /** Blank the string literal opening at `start`; the index after it may be one past the end. */
  method BlankString(source: string, out: array<char>, start: nat, quote: char, ghost want: string) returns (next: nat)
    requires start < |source| == out.Length && IsQuote(quote)
    requires InString(source, out[..], start + 1, quote, want)
    modifies out
    ensures start < next <= |source| + 1
    ensures InCode(source, out[..], next, want)
  {
    next := start + 1;
    var closed := false;
    while next < |source| && !closed
      invariant start < next <= |source| + 1
      invariant if closed then InCode(source, out[..], next, want) else InString(source, out[..], next, quote, want)
      decreases |source| + 1 - next
    {
      next, closed := BlankStringTurn(source, out, next, quote, want);
    }
  }

  method BlankLine(source: string, out: array<char>, start: nat, ghost want: string) returns (next: nat)
    requires start < |source| == out.Length && StartsTwo(source[start..], '/', '/')
    requires At(source, out[..], start, want, Code(source[start..]))
    modifies out
    ensures start < next <= |source| && At(source, out[..], next, want, Code(source[next..]))
  {
    var i := start;
    while i < |source| && source[i] != '\n'
      invariant start <= i <= |source|
      invariant At(source, out[..], i, want, Line(source[i..]))
    {
      ghost var before, rest := out[..], source[i..];
      out[i] := ' ';
      assert rest[1..] == source[i + 1..];
      Advance(source, before, out[..], i, [' '], Line(rest[1..]), want);
      i := i + 1;
    }
    return i;
  }

  method BlankBlock(source: string, out: array<char>, start: nat, ghost want: string) returns (next: nat)
    requires start < |source| == out.Length && StartsTwo(source[start..], '/', '*')
    requires At(source, out[..], start, want, Code(source[start..]))
    modifies out
    ensures start < next <= |source| && At(source, out[..], next, want, Code(source[next..]))
  {
    var close := FindTwo(source, '*', '/', start + 2);
    var end := if close == -1 then |source| else close + 2;
    ghost var before := out[..];
    for j := start to end
      invariant forall k :: 0 <= k < out.Length && !(start <= k < j) ==> out[k] == before[k]
      invariant forall k :: start <= k < j ==> out[k] == Blanked(source[k])
    {
      out[j] := Blanked(source[j]);
    }
    CommentBlanked(source, before, out[..], start, want);
    return end;
  }

  function CommentEnd(source: string, start: nat): (end: nat)
    requires start + 2 <= |source|
    ensures start + 2 <= end <= |source|
  {
    BlockEnd(source, start + 2)
  }

  lemma CommentText(source: string, start: nat)
    requires start < |source| && StartsTwo(source[start..], '/', '*')
    ensures Code(source[start..])
      == [' ', ' '] + BlankedAll(source[start + 2..CommentEnd(source, start)])
        + Code(source[CommentEnd(source, start)..])
  {
    BlockThroughClose(source, start + 2);
    assert source[start..][2..] == source[start + 2..];
  }

  lemma CommentBlanked(source: string, before: string, after: string, start: nat, want: string)
    requires start < |source| && StartsTwo(source[start..], '/', '*')
    requires At(source, before, start, want, Code(source[start..]))
    requires |after| == |source|
    requires forall k :: 0 <= k < |after| && !(start <= k < CommentEnd(source, start)) ==> after[k] == before[k]
    requires forall k :: start <= k < CommentEnd(source, start) ==> after[k] == Blanked(source[k])
    ensures At(source, after, CommentEnd(source, start), want, Code(source[CommentEnd(source, start)..]))
  {
    var end := CommentEnd(source, start);
    CommentText(source, start);
    assert source[start] == source[start..][0] && source[start + 1] == source[start..][1];
    Advance(
      source, before, after, start, [' ', ' '] + BlankedAll(source[start + 2..end]), Code(source[end..]), want);
  }

  /** Comments and string bodies blanked, on a copy of the source. */
  method BlankNoise(source: string) returns (blanked: string)
    ensures blanked == Code(source)
    ensures OnlyBlanks(source, blanked) && Clean(blanked)
  {
    CodeOnlyBlanks(source);
    CodeIsClean(source);
    var n := |source|;
    var out := new char[n](i requires 0 <= i < n => source[i]);
    var i := 0;
    ghost var want := Code(source);
    assert out[..] == source;
    while i < n
      invariant i <= n + 1
      invariant InCode(source, out[..], i, want)
      decreases n + 1 - i
    {
      i := BlankOne(source, out, i, want);
    }
    blanked := out[..];
  }

  /** One turn of the lexer in code mode: a comment, a string, or one character kept. */
  method BlankOne(source: string, out: array<char>, i: nat, ghost want: string) returns (next: nat)
    requires i < |source| == out.Length
    requires At(source, out[..], i, want, Code(source[i..]))
    modifies out
    ensures i < next <= |source| + 1 && InCode(source, out[..], next, want)
  {
    ghost var before, rest := out[..], source[i..];
    assert rest[1..] == source[i + 1..] && before[i..][0] == rest[0];
    if StartsTwo(source[i..], '/', '/') {
      next := BlankLine(source, out, i, want);
    } else if StartsTwo(source[i..], '/', '*') {
      next := BlankBlock(source, out, i, want);
    } else if IsQuote(source[i]) {
      Advance(source, before, before, i, [rest[0]], Str(rest[1..], rest[0]), want);
      next := BlankString(source, out, i, source[i], want);
    } else {
      Advance(source, before, before, i, [rest[0]], Code(rest[1..]), want);
      next := i + 1;
    }
  }

  // -------------------------------------------------------------- call end

  /** Opening minus closing parentheses in `s[from..to]`. */
  function Depth(s: string, from: nat, to: nat): int
    requires from <= to <= |s|
  {
    if from == to then 0
    else Depth(s, from, to - 1) + if s[to - 1] == '(' then 1 else if s[to - 1] == ')' then -1 else 0
  }

  /** The depth counts the parentheses in between, each kind once. */
  lemma {:induction false} DepthCounts(s: string, from: nat, end: nat)
    requires from <= end <= |s|
    ensures Depth(s, from, end) + multiset(s[from..end])[')'] == multiset(s[from..end])['(']
  {
    if from < end {
      DepthCounts(s, from, end - 1);
      assert s[from..end] == s[from..end - 1] + [s[end - 1]];
    }
  }

  /** A closing parenthesis just before `end` balances everything since `openParen`. */
  ghost predicate Balances(s: string, openParen: nat, end: int) {
    openParen < end <= |s| && s[end - 1] == ')' && Depth(s, openParen, end) == 0
  }

  /** Index just past the first parenthesis that balances the call, or the length when none does. */
  method CallEnd(cleaned: string, openParen: nat) returns (end: nat)
    ensures Balances(cleaned, openParen, end)
      || (end == |cleaned| && forall k :: !Balances(cleaned, openParen, k))
    ensures forall k :: k < end ==> !Balances(cleaned, openParen, k)
  {
    if openParen >= |cleaned| {
      return |cleaned|;
    }
    var depth := 0;
    for i := openParen to |cleaned|
      invariant depth == Depth(cleaned, openParen, i)
      invariant forall k :: k <= i ==> !Balances(cleaned, openParen, k)
    {
      if cleaned[i] == '(' {
        depth := depth + 1;
      } else if cleaned[i] == ')' {
        depth := depth - 1;
        if depth == 0 {
          return i + 1;
        }
      }
    }
    return |cleaned|;
  }

  /** When the call really opens there, the depth is positive everywhere before its end. */
  lemma {:induction false} StillOpenBefore(s: string, openParen: nat, end: nat, k: nat)
    requires openParen < k < end <= |s| && s[openParen] == '('
    requires forall j :: j < end ==> !Balances(s, openParen, j)
    ensures Depth(s, openParen, k) > 0
  {
    assert !Balances(s, openParen, k);
    if k > openParen + 1 {
      StillOpenBefore(s, openParen, end, k - 1);
    } else {
      assert Depth(s, openParen, openParen) == 0;
    }
  }
}
