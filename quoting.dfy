/** What `extractArgs` (app/utils.ts:169-259) does with spaces, quotes and
    backslashes, proved about the functions of module Tokenizer.

    The general statements use a small grammar of the runs a token is built
    from. A run is bare text, a single-quoted or a double-quoted text, or one
    backslash-escaped character. Tokenizing runs joined by spaces gives back
    the words they stand for. */
module Quoting {
  import opened Wrappers
  import opened Strings
  import opened Tokenizer

  /** The characters that `removeQuotes` may delete. */
  predicate IsMarkup(c: char)
  {
    c == '\'' || c == '"' || c == '\\'
  }

  /** Text without quote or escape characters. */
  predicate Plain(s: string)
  {
    forall c :: c in s ==> !IsMarkup(c)
  }

  // ---------------------------------------------------------------------------
  // Text without quotes or backslashes

  /** The pieces of a plain text are plain. */
  lemma {:induction false} PiecesPlain(s: string, sep: char)
    requires Plain(s)
    ensures forall k :: 0 <= k < |SplitOn(s, sep)| ==> Plain(SplitOn(s, sep)[k])
    decreases |s|
  {
    if s != [] {
      assert forall c :: c in s[1..] ==> c in s;
      PiecesPlain(s[1..], sep);
      assert s[0] in s;
    }
  }

  /** On plain text the split phase cuts at every space and drops empty pieces. */
  lemma {:induction false} SplitPlain(t: string, pending: string)
    requires Plain(t)
    ensures var pieces := SplitOn(t, ' ');
      SplitFrom(t, SplitStart, pending) == DropEmpty([pending + pieces[0]] + pieces[1..])
    decreases |t|
  {
    var pieces := SplitOn(t, ' ');
    if t == [] {
      assert pending + [] == pending;
    } else {
      assert forall c :: c in t[1..] ==> c in t;
      assert t[0] in t;
      var more := SplitOn(t[1..], ' ');
      if t[0] == ' ' {
        SplitPlain(t[1..], []);
        assert [] + more[0] == more[0];
        assert [more[0]] + more[1..] == more;
        assert pieces == [[]] + more;
        assert pieces[1..] == more;
        assert pending + [] == pending;
      } else {
        SplitPlain(t[1..], pending + [t[0]]);
        assert pieces[0] == [t[0]] + more[0];
        assert pieces[1..] == more[1..];
        assert pending + [t[0]] + more[0] == pending + ([t[0]] + more[0]);
      }
    }
  }

  /** `removeQuotes` leaves plain text alone. */
  lemma {:induction false} UnquotePlain(t: string)
    requires Plain(t)
    ensures UnquoteFrom(t, Unquoted) == t
    decreases |t|
  {
    if t != [] {
      assert t[0] in t;
      assert forall c :: c in t[1..] ==> c in t;
      UnquotePlain(t[1..]);
      UnquoteUnfold(t, Unquoted);
      assert [t[0]] + t[1..] == t;
    }
  }

  /** Without quotes or backslashes, `extractArgs` is splitting on single
      spaces with the empty pieces dropped. */
  lemma PlainWords(s: string)
    requires Plain(s)
    ensures Tokenize(s) == Fields(s, ' ')
  {
    SplitPlain(s, []);
    var pieces := SplitOn(s, ' ');
    assert [] + pieces[0] == pieces[0];
    assert [pieces[0]] + pieces[1..] == pieces;
    PiecesPlain(s, ' ');
    var w := Fields(s, ' ');
    assert SplitPhase(s) == w;
    forall k | 0 <= k < |w| ensures RemoveQuotes(w[k]) == w[k] {
      assert w[k] in w;
      assert w[k] in pieces;
      UnquotePlain(w[k]);
    }
  }

  /** The empty line and a line of spaces have no arguments. */
  lemma NoArguments()
    ensures Tokenize("") == []
    ensures Tokenize("   ") == []
  {
    var spaces := [' ', ' ', ' '];
    assert "   " == spaces;
    assert Plain(spaces);
    PlainWords(spaces);
    assert SplitOn(spaces, ' ') == [[], [], [], []];
  }

  // ---------------------------------------------------------------------------
  // Runs of a token

  datatype Run = Bare(text: string) | SingleQuoted(text: string) | DoubleQuoted(text: string) | Escaped(ch: char)

  /** The runs the tokenizer reads back exactly: bare text has no space and no
      markup; single-quoted text has no single quote and no backslash (the
      split phase would take a backslash for an escape); double-quoted text
      has no double quote and no backslash. */
  predicate WellFormed(r: Run)
  {
    match r
    case Bare(t) => forall c :: c in t ==> !IsMarkup(c) && c != ' '
    case SingleQuoted(t) => forall c :: c in t ==> c != '\'' && c != '\\'
    case DoubleQuoted(t) => forall c :: c in t ==> c != '"' && c != '\\'
    case Escaped(_) => true
  }

  /** How a run is typed. */
  function Render(r: Run): string
  {
    match r
    case Bare(t) => t
    case SingleQuoted(t) => ['\''] + t + ['\'']
    case DoubleQuoted(t) => ['"'] + t + ['"']
    case Escaped(c) => ['\\', c]
  }

  /** The text a run stands for. */
  function Meaning(r: Run): string
  {
    match r
    case Bare(t) => t
    case SingleQuoted(t) => t
    case DoubleQuoted(t) => t
    case Escaped(c) => [c]
  }

  function RenderAll(rs: seq<Run>): string
    decreases |rs|
  {
    if rs == [] then [] else Render(rs[0]) + RenderAll(rs[1..])
  }

  function MeaningAll(rs: seq<Run>): string
    decreases |rs|
  {
    if rs == [] then [] else Meaning(rs[0]) + MeaningAll(rs[1..])
  }

  predicate AllWellFormed(rs: seq<Run>)
  {
    forall k :: 0 <= k < |rs| ==> WellFormed(rs[k])
  }

  /** Tokens, each a non-empty sequence of well-formed runs, typed with one
      space between them. */
  function Line(tokens: seq<seq<Run>>): string
    decreases |tokens|
  {
    if tokens == [] then []
    else if |tokens| == 1 then RenderAll(tokens[0])
    else RenderAll(tokens[0]) + [' '] + Line(tokens[1..])
  }

  /** The tokens as typed, one string each. */
  function Typed(tokens: seq<seq<Run>>): seq<string>
    decreases |tokens|
  {
    if tokens == [] then [] else [RenderAll(tokens[0])] + Typed(tokens[1..])
  }

  /** The texts the tokens stand for. */
  function Meanings(tokens: seq<seq<Run>>): seq<string>
    decreases |tokens|
  {
    if tokens == [] then [] else [MeaningAll(tokens[0])] + Meanings(tokens[1..])
  }

  predicate GoodTokens(tokens: seq<seq<Run>>)
  {
    forall k :: 0 <= k < |tokens| ==> AllWellFormed(tokens[k]) && RenderAll(tokens[k]) != []
  }

  // ---------------------------------------------------------------------------
  // The split phase over runs

  /** Characters that neither cut nor change the split flags pass into the pending piece. */
  lemma {:induction false} SplitInert(w: string, rest: string, f: SplitFlags, pending: string)
    requires forall c :: c in w ==> !Cuts(f, c) && SplitStep(f, c) == f
    ensures SplitFrom(w + rest, f, pending) == SplitFrom(rest, f, pending + w)
    decreases |w|
  {
    if w == [] {
      assert w + rest == rest;
      assert pending + w == pending;
    } else {
      assert w[0] in w;
      assert forall c :: c in w[1..] ==> c in w;
      assert w + rest == [w[0]] + (w[1..] + rest);
      SplitOne(w[0], w[1..] + rest, f, pending);
      SplitInert(w[1..], rest, f, pending + [w[0]]);
      assert pending + [w[0]] + w[1..] == pending + w;
    }
  }

  /** One character read with flags `f` that does not cut. */
  lemma SplitOne(c: char, rest: string, f: SplitFlags, pending: string)
    requires !Cuts(f, c)
    ensures SplitFrom([c] + rest, f, pending) == SplitFrom(rest, SplitStep(f, c), pending + [c])
  {
    assert ([c] + rest)[1..] == rest;
  }

  /** A quoted text: the opening quote enters the quote, the text passes,
      the closing quote leaves it. */
  lemma SplitQuoted(q: char, t: string, rest: string, pending: string)
    requires q == '\'' || q == '"'
    requires forall c :: c in t ==> c != q && c != '\\'
    ensures SplitFrom([q] + t + [q] + rest, SplitStart, pending) == SplitFrom(rest, SplitStart, pending + ([q] + t + [q]))
  {
    var inside := SplitStep(SplitStart, q);
    assert inside == if q == '\'' then SplitFlags(true, false, false) else SplitFlags(false, true, false);
    assert [q] + t + [q] + rest == [q] + (t + ([q] + rest));
    SplitOne(q, t + ([q] + rest), SplitStart, pending);
    SplitInert(t, [q] + rest, inside, pending + [q]);
    SplitOne(q, rest, inside, pending + [q] + t);
    assert pending + [q] + t + [q] == pending + ([q] + t + [q]);
  }

  /** A well-formed run never cuts and leaves the split flags as they were. */
  lemma SplitRun(r: Run, rest: string, pending: string)
    requires WellFormed(r)
    ensures SplitFrom(Render(r) + rest, SplitStart, pending) == SplitFrom(rest, SplitStart, pending + Render(r))
  {
    match r
    case Bare(t) =>
      SplitInert(t, rest, SplitStart, pending);
    case SingleQuoted(t) =>
      SplitQuoted('\'', t, rest, pending);
    case DoubleQuoted(t) =>
      SplitQuoted('"', t, rest, pending);
    case Escaped(c) =>
      assert Render(r) + rest == ['\\'] + ([c] + rest);
      SplitOne('\\', [c] + rest, SplitStart, pending);
      SplitOne(c, rest, SplitFlags(false, false, true), pending + ['\\']);
      assert pending + ['\\'] + [c] == pending + Render(r);
  }

  /** Adjacent runs stay in one piece. */
  lemma {:induction false} SplitRuns(rs: seq<Run>, rest: string, pending: string)
    requires AllWellFormed(rs)
    ensures SplitFrom(RenderAll(rs) + rest, SplitStart, pending) == SplitFrom(rest, SplitStart, pending + RenderAll(rs))
    decreases |rs|
  {
    if rs == [] {
      assert RenderAll(rs) + rest == rest;
      assert pending + RenderAll(rs) == pending;
    } else {
      assert RenderAll(rs) + rest == Render(rs[0]) + (RenderAll(rs[1..]) + rest);
      SplitRun(rs[0], RenderAll(rs[1..]) + rest, pending);
      SplitRuns(rs[1..], rest, pending + Render(rs[0]));
      assert pending + Render(rs[0]) + RenderAll(rs[1..]) == pending + RenderAll(rs);
    }
  }

  /** An unquoted space ends the pending piece. */
  lemma SpaceCuts(tail: string, pending: string)
    requires pending != []
    ensures SplitFrom([' '] + tail, SplitStart, pending) == [pending] + SplitFrom(tail, SplitStart, [])
  {
    assert ([' '] + tail)[1..] == tail;
  }

  /** A token of runs followed by a space is the first piece. */
  lemma SplitToken(rs: seq<Run>, tail: string)
    requires AllWellFormed(rs) && RenderAll(rs) != []
    ensures SplitPhase(RenderAll(rs) + [' '] + tail) == [RenderAll(rs)] + SplitPhase(tail)
  {
    var r := RenderAll(rs);
    assert r + [' '] + tail == r + ([' '] + tail);
    calc {
      SplitFrom(r + ([' '] + tail), SplitStart, []);
      { SplitRuns(rs, [' '] + tail, []); }
      SplitFrom([' '] + tail, SplitStart, [] + r);
      { assert [] + r == r; }
      SplitFrom([' '] + tail, SplitStart, r);
      { SpaceCuts(tail, r); }
      [r] + SplitFrom(tail, SplitStart, []);
    }
  }

  /** The first token of a line of two or more is its first piece. */
  lemma SplitLineCons(tokens: seq<seq<Run>>)
    requires |tokens| >= 2 && AllWellFormed(tokens[0]) && RenderAll(tokens[0]) != []
    ensures SplitPhase(Line(tokens)) == [RenderAll(tokens[0])] + SplitPhase(Line(tokens[1..]))
  {
    assert Line(tokens) == RenderAll(tokens[0]) + [' '] + Line(tokens[1..]);
    SplitToken(tokens[0], Line(tokens[1..]));
  }

  /** A line of one token is one piece. */
  lemma SplitLineOne(rs: seq<Run>)
    requires AllWellFormed(rs) && RenderAll(rs) != []
    ensures SplitPhase(RenderAll(rs)) == [RenderAll(rs)]
  {
    SplitRuns(rs, [], []);
    assert RenderAll(rs) + [] == RenderAll(rs);
    assert [] + RenderAll(rs) == RenderAll(rs);
  }

  /** The tokens after the first are good tokens too. */
  lemma GoodTail(tokens: seq<seq<Run>>)
    requires tokens != [] && GoodTokens(tokens)
    ensures GoodTokens(tokens[1..])
  {
    forall k | 0 <= k < |tokens| - 1 ensures AllWellFormed(tokens[1..][k]) && RenderAll(tokens[1..][k]) != [] {
      assert tokens[1..][k] == tokens[k + 1];
    }
  }

  /** The split phase cuts a line into exactly its tokens, still marked up. */
  lemma {:induction false} SplitLine(tokens: seq<seq<Run>>)
    requires GoodTokens(tokens)
    ensures SplitPhase(Line(tokens)) == Typed(tokens)
    decreases |tokens|
  {
    if tokens == [] {
    } else if |tokens| == 1 {
      SplitLineOne(tokens[0]);
      assert Typed(tokens) == [RenderAll(tokens[0])] + Typed([]);
    } else {
      SplitLineCons(tokens);
      GoodTail(tokens);
      SplitLine(tokens[1..]);
    }
  }

  // ---------------------------------------------------------------------------
  // removeQuotes over runs

  /** The character `c` is ordinary text in the quoting context `f`. */
  predicate Literal(f: QuoteFlags, c: char)
  {
    (f == Unquoted && !IsMarkup(c)) ||
    (f == InSingle && c != '\'') ||
    (f == InDouble && c != '"' && c != '\\')
  }

  /** An ordinary character is kept and changes no flag, whatever follows it. */
  lemma LiteralStep(f: QuoteFlags, c: char, next: Option<char>)
    requires Literal(f, c)
    ensures UnquoteStep(f, c, next) == (f, false)
  {
  }

  /** One character in front of the rest. */
  lemma UnquoteOne(c: char, rest: string, f: QuoteFlags)
    ensures var step := UnquoteStep(f, c, if rest == [] then None else Some(rest[0]));
      UnquoteFrom([c] + rest, f) == (if step.1 then [] else [c]) + UnquoteFrom(rest, step.0)
  {
    UnquoteUnfold([c] + rest, f);
    assert ([c] + rest)[1..] == rest;
  }

  /** Ordinary characters are kept and leave the quoting context unchanged. */
  lemma {:induction false} UnquoteLiteral(w: string, rest: string, f: QuoteFlags)
    requires forall c :: c in w ==> Literal(f, c)
    ensures UnquoteFrom(w + rest, f) == w + UnquoteFrom(rest, f)
    decreases |w|
  {
    if w != [] {
      assert w[0] in w;
      assert forall c :: c in w[1..] ==> c in w;
      assert w + rest == [w[0]] + (w[1..] + rest);
      UnquoteOne(w[0], w[1..] + rest, f);
      LiteralStep(f, w[0], if w[1..] + rest == [] then None else Some((w[1..] + rest)[0]));
      UnquoteLiteral(w[1..], rest, f);
      ConcatAssoc([w[0]], w[1..], UnquoteFrom(rest, f));
      assert [w[0]] + w[1..] == w;
    } else {
      assert w + rest == rest;
    }
  }

  /** `removeQuotes` turns a well-formed run into its text and is back outside quotes after it. */
  lemma UnquoteRun(r: Run, rest: string)
    requires WellFormed(r)
    ensures UnquoteFrom(Render(r) + rest, Unquoted) == Meaning(r) + UnquoteFrom(rest, Unquoted)
  {
    match r
    case Bare(t) =>
      UnquoteLiteral(t, rest, Unquoted);
    case SingleQuoted(t) =>
      assert Render(r) + rest == ['\''] + (t + (['\''] + rest));
      UnquoteOne('\'', t + (['\''] + rest), Unquoted);
      UnquoteLiteral(t, ['\''] + rest, InSingle);
      UnquoteOne('\'', rest, InSingle);
    case DoubleQuoted(t) =>
      assert Render(r) + rest == ['"'] + (t + (['"'] + rest));
      UnquoteOne('"', t + (['"'] + rest), Unquoted);
      UnquoteLiteral(t, ['"'] + rest, InDouble);
      UnquoteOne('"', rest, InDouble);
    case Escaped(c) =>
      BackslashOutsideQuotes(c, rest);
  }

  /** Outside quotes a backslash is deleted and the next character kept,
      whatever it is: `\\` gives `\`, `\'` gives `'`. */
  lemma BackslashOutsideQuotes(c: char, rest: string)
    ensures UnquoteFrom(['\\', c] + rest, Unquoted) == [c] + UnquoteFrom(rest, Unquoted)
  {
    assert ['\\', c] + rest == ['\\'] + ([c] + rest);
    UnquoteOne('\\', [c] + rest, Unquoted);
    UnquoteOne(c, rest, QuoteFlags(false, false, true));
  }

  /** Inside double quotes a backslash is deleted only before `"` or `\`. */
  lemma BackslashInDoubleQuotes(c: char, rest: string)
    ensures UnquoteFrom(['\\', c] + rest, InDouble)
         == (if c == '"' || c == '\\' then [c] else ['\\', c]) + UnquoteFrom(rest, InDouble)
  {
    assert ['\\', c] + rest == ['\\'] + ([c] + rest);
    if c == '"' || c == '\\' {
      EscapeInDoubleQuotes(c, rest);
    } else {
      BackslashKeptInDoubleQuotes(c, rest);
    }
  }

  /** A backslash before `"` or `\` inside double quotes escapes it. */
  lemma EscapeInDoubleQuotes(c: char, rest: string)
    requires c == '"' || c == '\\'
    ensures UnquoteFrom(['\\'] + ([c] + rest), InDouble) == [c] + UnquoteFrom(rest, InDouble)
  {
    var escaped := QuoteFlags(false, true, true);
    UnquoteOne('\\', [c] + rest, InDouble);
    assert UnquoteStep(InDouble, '\\', Some(c)) == (escaped, true);
    UnquoteOne(c, rest, escaped);
    assert UnquoteStep(escaped, c, if rest == [] then None else Some(rest[0])) == (InDouble, false);
  }

  /** A backslash before any other character inside double quotes is kept. */
  lemma BackslashKeptInDoubleQuotes(c: char, rest: string)
    requires c != '"' && c != '\\'
    ensures UnquoteFrom(['\\'] + ([c] + rest), InDouble) == ['\\', c] + UnquoteFrom(rest, InDouble)
  {
    UnquoteOne('\\', [c] + rest, InDouble);
    assert UnquoteStep(InDouble, '\\', Some(c)) == (InDouble, false);
    UnquoteOne(c, rest, InDouble);
    LiteralStep(InDouble, c, if rest == [] then None else Some(rest[0]));
    ConcatAssoc(['\\'], [c], UnquoteFrom(rest, InDouble));
  }

  /** Inside single quotes a backslash is kept. */
  lemma BackslashInSingleQuotes(rest: string)
    ensures UnquoteFrom(['\\'] + rest, InSingle) == ['\\'] + UnquoteFrom(rest, InSingle)
  {
    UnquoteOne('\\', rest, InSingle);
  }

  /** The split phase, unlike `removeQuotes`, takes a backslash inside
      single quotes as an escape: the character after it, even a single
      quote, neither cuts nor closes the quote. */
  lemma SplitBackslashInSingleQuotes(c: char, rest: string, pending: string)
    ensures SplitFrom(['\\', c] + rest, SplitFlags(true, false, false), pending)
         == SplitFrom(rest, SplitFlags(true, false, false), pending + ['\\', c])
  {
    var inSingle := SplitFlags(true, false, false);
    assert ['\\', c] + rest == ['\\'] + ([c] + rest);
    SplitOne('\\', [c] + rest, inSingle, pending);
    SplitOne(c, rest, SplitFlags(true, false, true), pending + ['\\']);
    assert pending + ['\\'] + [c] == pending + ['\\', c];
  }

  /** The text `'a\' b'`: one piece for the split phase, for which the
      middle quote is escaped. */
  lemma SplitEscapedQuoteInSingleQuotes(a: string, b: string)
    requires WellFormed(Bare(a)) && WellFormed(Bare(b))
    ensures SplitPhase("'" + a + "\\' " + b + "'") == ["'" + a + "\\' " + b + "'"]
  {
    var line := "'" + a + "\\' " + b + "'";
    var tail := [' '] + (b + ['\'']);
    var p1 := "'" + a + ['\\', '\''];
    assert line == ['\''] + (a + (['\\', '\''] + tail));
    SplitOpeningHead(a, tail);
    SplitClosingTail(b, p1);
    assert p1 + [' '] + b + ['\''] == line;
  }

  /** The head of that piece: the opening quote, `a`, and the escaped quote. */
  lemma SplitOpeningHead(a: string, tail: string)
    requires WellFormed(Bare(a))
    ensures SplitFrom(['\''] + (a + (['\\', '\''] + tail)), SplitStart, [])
         == SplitFrom(tail, SplitFlags(true, false, false), "'" + a + ['\\', '\''])
  {
    var s1 := SplitFlags(true, false, false);
    calc {
      SplitFrom(['\''] + (a + (['\\', '\''] + tail)), SplitStart, []);
      { SplitOne('\'', a + (['\\', '\''] + tail), SplitStart, []); assert [] + ['\''] == "'"; }
      SplitFrom(a + (['\\', '\''] + tail), s1, "'");
      { SplitInert(a, ['\\', '\''] + tail, s1, "'"); }
      SplitFrom(['\\', '\''] + tail, s1, "'" + a);
      { SplitBackslashInSingleQuotes('\'', tail, "'" + a); }
      SplitFrom(tail, s1, "'" + a + ['\\', '\'']);
    }
  }

  /** The rest of that piece: the space and `b` stay inside the single quote,
      and the final quote closes it at the end of the text. */
  lemma SplitClosingTail(b: string, pending: string)
    requires WellFormed(Bare(b)) && pending != []
    ensures SplitFrom([' '] + (b + ['\'']), SplitFlags(true, false, false), pending)
         == [pending + [' '] + b + ['\'']]
  {
    var s1 := SplitFlags(true, false, false);
    var p2 := pending + [' '];
    calc {
      SplitFrom([' '] + (b + ['\'']), s1, pending);
      { SplitOne(' ', b + ['\''], s1, pending); }
      SplitFrom(b + ['\''], s1, p2);
      { SplitInert(b, ['\''], s1, p2); }
      SplitFrom(['\''] + [], s1, p2 + b);
      { SplitOne('\'', [], s1, p2 + b); }
      SplitFrom([], SplitStart, p2 + b + ['\'']);
    }
  }

  /** The end of that piece: the quote after the backslash closes the
      single quote, and the final quote opens one with nothing in it. */
  lemma UnquoteClosingTail(b: string)
    requires WellFormed(Bare(b))
    ensures UnquoteFrom(['\''] + (([' '] + b) + ['\'']), InSingle) == [' '] + b
  {
    var tail := ([' '] + b) + ['\''];
    calc {
      UnquoteFrom(['\''] + tail, InSingle);
      { UnquoteOne('\'', tail, InSingle); }
      UnquoteFrom(tail, Unquoted);
      { UnquoteLiteral([' '] + b, ['\''], Unquoted); }
      ([' '] + b) + UnquoteFrom(['\''] + [], Unquoted);
      { UnquoteOne('\'', [], Unquoted); }
      ([' '] + b) + [];
    }
  }

  /** `removeQuotes` of that piece: the backslash is kept and the middle
      quote closes the quote. */
  lemma UnquoteEscapedQuoteInSingleQuotes(a: string, b: string)
    requires WellFormed(Bare(a)) && WellFormed(Bare(b))
    ensures RemoveQuotes("'" + a + "\\' " + b + "'") == a + "\\ " + b
  {
    var line := "'" + a + "\\' " + b + "'";
    var tail := ([' '] + b) + ['\''];
    assert line == ['\''] + (a + (['\\'] + (['\''] + tail)));
    calc {
      UnquoteFrom(line, Unquoted);
      { UnquoteOne('\'', a + (['\\'] + (['\''] + tail)), Unquoted); }
      UnquoteFrom(a + (['\\'] + (['\''] + tail)), InSingle);
      { UnquoteLiteral(a, ['\\'] + (['\''] + tail), InSingle); }
      a + UnquoteFrom(['\\'] + (['\''] + tail), InSingle);
      { BackslashInSingleQuotes(['\''] + tail); }
      a + (['\\'] + UnquoteFrom(['\''] + tail, InSingle));
      { UnquoteClosingTail(b); }
      a + (['\\'] + ([' '] + b));
    }
    assert a + (['\\'] + ([' '] + b)) == a + "\\ " + b;
  }

  /** Inside single quotes, the split phase and `removeQuotes` disagree about
      a backslash: `'a\' b'` is the one argument `a\ b`, where POSIX quoting
      would end the quote after the backslash. */
  lemma EscapedQuoteInSingleQuotes(a: string, b: string)
    requires WellFormed(Bare(a)) && WellFormed(Bare(b))
    ensures Tokenize("'" + a + "\\' " + b + "'") == [a + "\\ " + b]
  {
    SplitEscapedQuoteInSingleQuotes(a, b);
    UnquoteEscapedQuoteInSingleQuotes(a, b);
  }

  /** Adjacent runs give their texts, concatenated. */
  lemma {:induction false} UnquoteRuns(rs: seq<Run>, rest: string)
    requires AllWellFormed(rs)
    ensures UnquoteFrom(RenderAll(rs) + rest, Unquoted) == MeaningAll(rs) + UnquoteFrom(rest, Unquoted)
    decreases |rs|
  {
    if rs != [] {
      assert RenderAll(rs) + rest == Render(rs[0]) + (RenderAll(rs[1..]) + rest);
      UnquoteRun(rs[0], RenderAll(rs[1..]) + rest);
      UnquoteRuns(rs[1..], rest);
      ConcatAssoc(Meaning(rs[0]), MeaningAll(rs[1..]), UnquoteFrom(rest, Unquoted));
    } else {
      assert RenderAll(rs) + rest == rest;
    }
  }

  // ---------------------------------------------------------------------------
  // extractArgs over runs

  /** Quoted and unquoted runs with no space between them form one argument,
      spaces inside quotes do not cut it, a quote of the other kind inside a
      quoted run is kept, and the enclosing quotes and escaping backslashes
      are gone. A lone `''` is the empty argument. */
  lemma OneToken(rs: seq<Run>)
    requires AllWellFormed(rs) && RenderAll(rs) != []
    ensures Tokenize(RenderAll(rs)) == [MeaningAll(rs)]
  {
    SplitRuns(rs, [], []);
    assert RenderAll(rs) + [] == RenderAll(rs);
    assert [] + RenderAll(rs) == RenderAll(rs);
    UnquoteRuns(rs, []);
    assert MeaningAll(rs) + [] == MeaningAll(rs);
  }

  /** A line of tokens separated by single spaces is read back as the list of
      their texts. */
  lemma {:induction false} LineTokens(tokens: seq<seq<Run>>)
    requires GoodTokens(tokens)
    ensures Tokenize(Line(tokens)) == Meanings(tokens)
    decreases |tokens|
  {
    if tokens == [] {
    } else if |tokens| == 1 {
      OneToken(tokens[0]);
      assert Meanings(tokens) == [MeaningAll(tokens[0])] + Meanings([]);
    } else {
      SplitLineCons(tokens);
      TokenizeCons(Line(tokens), RenderAll(tokens[0]), Line(tokens[1..]));
      UnquoteRuns(tokens[0], []);
      assert RenderAll(tokens[0]) + [] == RenderAll(tokens[0]);
      assert MeaningAll(tokens[0]) + [] == MeaningAll(tokens[0]);
      GoodTail(tokens);
      LineTokens(tokens[1..]);
    }
  }

  /** `n` spaces. */
  function Spaces(n: nat): string
  {
    seq(n, _ => ' ')
  }

  /** Spaces before a token are skipped. */
  lemma {:induction false} LeadingSpaces(n: nat, rest: string)
    ensures SplitFrom(Spaces(n) + rest, SplitStart, []) == SplitFrom(rest, SplitStart, [])
    decreases n
  {
    if n > 0 {
      assert Spaces(n) + rest == [' '] + (Spaces(n - 1) + rest);
      assert ([' '] + (Spaces(n - 1) + rest))[1..] == Spaces(n - 1) + rest;
      LeadingSpaces(n - 1, rest);
    } else {
      assert Spaces(n) + rest == rest;
    }
  }

  /** When the split phase of `s` is piece `a` followed by the pieces of
      `rest`, so are the arguments. */
  lemma TokenizeCons(s: string, a: string, rest: string)
    requires SplitPhase(s) == [a] + SplitPhase(rest)
    ensures Tokenize(s) == [RemoveQuotes(a)] + Tokenize(rest)
  {
  }

  /** The split phase of a token followed by a run of spaces. */
  lemma SplitFirst(rs: seq<Run>, n: nat, rest: string)
    requires AllWellFormed(rs) && RenderAll(rs) != [] && n >= 1
    ensures SplitPhase(RenderAll(rs) + Spaces(n) + rest) == [RenderAll(rs)] + SplitPhase(rest)
  {
    var tail := Spaces(n - 1) + rest;
    assert RenderAll(rs) + Spaces(n) + rest == RenderAll(rs) + [' '] + tail by {
      assert Spaces(n) == [' '] + Spaces(n - 1);
    }
    SplitToken(rs, tail);
    LeadingSpaces(n - 1, rest);
  }

  /** A token followed by a run of spaces is the first argument; the rest of
      the line is read on its own. */
  lemma FirstToken(rs: seq<Run>, n: nat, rest: string)
    requires AllWellFormed(rs) && RenderAll(rs) != [] && n >= 1
    ensures Tokenize(RenderAll(rs) + Spaces(n) + rest) == [MeaningAll(rs)] + Tokenize(rest)
  {
    SplitFirst(rs, n, rest);
    TokenizeCons(RenderAll(rs) + Spaces(n) + rest, RenderAll(rs), rest);
    UnquoteRuns(rs, []);
    assert RenderAll(rs) + [] == RenderAll(rs);
    assert MeaningAll(rs) + [] == MeaningAll(rs);
  }

  /** One well-formed run alone. */
  lemma OneRun(g: Run)
    requires WellFormed(g) && Render(g) != []
    ensures Tokenize(Render(g)) == [Meaning(g)]
  {
    assert RenderAll([g]) == Render(g) by {
      assert RenderAll([g]) == Render(g) + RenderAll([]);
      assert Render(g) + [] == Render(g);
    }
    assert MeaningAll([g]) == Meaning(g) by {
      assert MeaningAll([g]) == Meaning(g) + MeaningAll([]);
      assert Meaning(g) + [] == Meaning(g);
    }
    OneToken([g]);
  }

  // ---------------------------------------------------------------------------
  // Cases from tests/utils.test.ts

  /** `w` is bare text: no space and no markup. */
  predicate BareText(w: string)
  {
    ' ' !in w && '\'' !in w && '"' !in w && '\\' !in w
  }

  /** A run in front of others, typed and read. */
  lemma RunsCons(r: Run, rs: seq<Run>)
    ensures RenderAll([r] + rs) == Render(r) + RenderAll(rs)
    ensures MeaningAll([r] + rs) == Meaning(r) + MeaningAll(rs)
  {
    assert ([r] + rs)[0] == r && ([r] + rs)[1..] == rs;
  }

  /** Two adjacent runs, typed and read. */
  lemma TwoRuns(r1: Run, r2: Run)
    ensures RenderAll([r1, r2]) == Render(r1) + Render(r2)
    ensures MeaningAll([r1, r2]) == Meaning(r1) + Meaning(r2)
  {
    RunsCons(r2, []);
    RunsCons(r1, [r2]);
    assert [r1] + [r2] == [r1, r2];
    assert Render(r2) + [] == Render(r2);
    assert Meaning(r2) + [] == Meaning(r2);
  }

  /** Three adjacent runs, typed and read. */
  lemma ThreeRuns(r1: Run, r2: Run, r3: Run)
    ensures RenderAll([r1, r2, r3]) == Render(r1) + Render(r2) + Render(r3)
    ensures MeaningAll([r1, r2, r3]) == Meaning(r1) + Meaning(r2) + Meaning(r3)
  {
    var rs := [r1, r2, r3];
    assert rs == [r1] + [r2, r3];
    TwoRuns(r2, r3);
    RunsCons(r1, [r2, r3]);
    ConcatAssoc(Render(r1), Render(r2), Render(r3));
    ConcatAssoc(Meaning(r1), Meaning(r2), Meaning(r3));
  }

  /** A quoted text with neither its own quote nor a backslash in it is one
      argument, the text. */
  lemma QuotedText(q: char, t: string)
    requires q == '\'' || q == '"'
    requires q !in t && '\\' !in t
    ensures Tokenize([q] + t + [q]) == [t]
  {
    var g := if q == '\'' then SingleQuoted(t) else DoubleQuoted(t);
    assert Render(g) == [q] + t + [q];
    OneRun(g);
  }

  /** A quoted text followed by a space is the first argument. */
  lemma QuotedThen(q: char, t: string, rest: string)
    requires q == '\'' || q == '"'
    requires q !in t && '\\' !in t
    ensures Tokenize([q] + t + [q] + [' '] + rest) == [t] + Tokenize(rest)
  {
    var g := if q == '\'' then SingleQuoted(t) else DoubleQuoted(t);
    assert RenderAll([g]) == [q] + t + [q] by {
      assert RenderAll([g]) == Render(g) + [];
    }
    assert MeaningAll([g]) == t by {
      assert MeaningAll([g]) == Meaning(g) + [];
    }
    assert Spaces(1) == [' '];
    FirstToken([g], 1, rest);
  }

  /** Bare text alone is one argument, itself. */
  lemma BareWord(w: string)
    requires w != [] && BareText(w)
    ensures Tokenize(w) == [w]
  {
    OneRun(Bare(w));
  }

  /** Bare text ending in an escaped character, then a gap of spaces: the
      escaped character ends the first argument. */
  lemma EscapedThenGap(w: string, c: char, n: nat, rest: string)
    requires BareText(w) && n >= 1
    ensures Tokenize(w + ['\\', c] + Spaces(n) + rest) == [w + [c]] + Tokenize(rest)
  {
    var rs := [Bare(w), Escaped(c)];
    TwoRuns(Bare(w), Escaped(c));
    FirstToken(rs, n, rest);
  }

  /** An escaped character between bare texts joins them into one argument. */
  lemma EscapedBetween(v: string, c: char, w: string)
    requires BareText(v) && BareText(w)
    ensures Tokenize(v + ['\\', c] + w) == [v + [c] + w]
  {
    var rs := [Bare(v), Escaped(c), Bare(w)];
    ThreeRuns(Bare(v), Escaped(c), Bare(w));
    OneToken(rs);
  }

  /** Bare text between two escaped characters is one argument. */
  lemma EscapedAround(c: char, w: string, d: char)
    requires BareText(w)
    ensures Tokenize(['\\', c] + w + ['\\', d]) == [[c] + w + [d]]
  {
    var rs := [Escaped(c), Bare(w), Escaped(d)];
    ThreeRuns(Escaped(c), Bare(w), Escaped(d));
    OneToken(rs);
  }

  /** Single-quoted, bare and single-quoted text written together is one
      argument. */
  lemma QuotedBareQuoted(x: string, w: string, y: string)
    requires '\'' !in x && '\\' !in x && '\'' !in y && '\\' !in y && BareText(w)
    ensures Tokenize(['\''] + x + ['\''] + w + ['\''] + y + ['\'']) == [x + w + y]
  {
    var rs := [SingleQuoted(x), Bare(w), SingleQuoted(y)];
    ThreeRuns(SingleQuoted(x), Bare(w), SingleQuoted(y));
    assert RenderAll(rs) == ['\''] + x + ['\''] + w + ['\''] + y + ['\''];
    OneToken(rs);
  }

  /** tests/utils.test.ts:12: a space inside single quotes stays. */
  lemma SingleQuotedSpace()
    ensures Tokenize("'hello world'") == ["hello world"]
  {
    assert "'hello world'" == ['\''] + "hello world" + ['\''];
    QuotedText('\'', "hello world");
  }

  /** tests/utils.test.ts:97: a run of spaces inside double quotes stays. */
  lemma DoubleQuotedSpaces()
    ensures Tokenize("\"hello    world\"") == ["hello    world"]
  {
    assert "\"hello    world\"" == ['"'] + "hello    world" + ['"'];
    QuotedText('"', "hello    world");
  }

  /** tests/utils.test.ts:115: a single quote inside double quotes is literal. */
  lemma SingleInsideDouble()
    ensures Tokenize("\"hello's world\"") == ["hello's world"]
  {
    assert "\"hello's world\"" == ['"'] + "hello's world" + ['"'];
    QuotedText('"', "hello's world");
  }

  /** The tail of the case below: an empty quoted argument, then a word. */
  lemma EmptyThenWord()
    ensures Tokenize("'' 'world'") == ["", "world"]
  {
    assert "'' 'world'" == ['\''] + "" + ['\''] + [' '] + "'world'";
    QuotedThen('\'', "", "'world'");
    assert "'world'" == ['\''] + "world" + ['\''];
    QuotedText('\'', "world");
  }

  /** tests/utils.test.ts:88: a standalone `''` is an empty argument. */
  lemma EmptyQuotes()
    ensures Tokenize("'hello' '' 'world'") == ["hello", "", "world"]
  {
    assert "'hello' '' 'world'" == ['\''] + "hello" + ['\''] + [' '] + "'' 'world'";
    QuotedThen('\'', "hello", "'' 'world'");
    EmptyThenWord();
    assert ["hello"] + ["", "world"] == ["hello", "", "world"];
  }

  /** tests/utils.test.ts:159: an escaped space stays in the first argument
      and the four spaces after it separate the second. */
  lemma EscapedSpaceThenGap()
    ensures Tokenize("before\\     after") == ["before ", "after"]
  {
    calc {
      Tokenize("before\\     after");
      { assert Spaces(4) == "    ";
        assert "before\\     after" == "before" + ['\\', ' '] + Spaces(4) + "after"; }
      Tokenize("before" + ['\\', ' '] + Spaces(4) + "after");
      { EscapedThenGap("before", ' ', 4, "after"); }
      ["before" + [' ']] + Tokenize("after");
      { BareWord("after"); assert "before" + [' '] == "before "; }
      ["before ", "after"];
    }
  }

  /** tests/utils.test.ts:171: a doubled backslash is one literal backslash. */
  lemma DoubledBackslash()
    ensures Tokenize("hello\\\\world") == ["hello\\world"]
  {
    assert "hello\\\\world" == "hello" + ['\\', '\\'] + "world";
    EscapedBetween("hello", '\\', "world");
    assert "hello" + ['\\'] + "world" == "hello\\world";
  }

  /** tests/utils.test.ts:177: escaped single quotes outside quotes are kept. */
  lemma EscapedQuotes()
    ensures Tokenize("\\'hello\\'") == ["'hello'"]
  {
    assert "\\'hello\\'" == ['\\', '\''] + "hello" + ['\\', '\''];
    EscapedAround('\'', "hello", '\'');
    assert ['\''] + "hello" + ['\''] == "'hello'";
  }

  /** tests/utils.test.ts:50: quoted and bare runs with no space between them
      are one argument. */
  lemma AdjacentRuns()
    ensures Tokenize("'hello'w'orld'") == ["helloworld"]
  {
    assert "'hello'w'orld'" == ['\''] + "hello" + ['\''] + "w" + ['\''] + "orld" + ['\''];
    QuotedBareQuoted("hello", "w", "orld");
    assert "hello" + "w" + "orld" == "helloworld";
  }

  // ---------------------------------------------------------------------------
  // removeQuotes only deletes markup

  /** The text with every quote and backslash taken out. */
  function StripMarkup(s: string): string
    decreases |s|
  {
    if s == [] then [] else (if IsMarkup(s[0]) then [] else [s[0]]) + StripMarkup(s[1..])
  }

  /** Every character `removeQuotes` deletes is a quote or a backslash, so
      the result is a subsequence of the argument that differs from it only
      in markup. */
  lemma {:induction false} OnlyMarkupDeleted(t: string, f: QuoteFlags)
    ensures IsSubsequence(UnquoteFrom(t, f), t)
    ensures StripMarkup(UnquoteFrom(t, f)) == StripMarkup(t)
    decreases |t|
  {
    if t != [] {
      var step := UnquoteStep(f, t[0], if |t| > 1 then Some(t[1]) else None);
      UnquoteUnfold(t, f);
      OnlyMarkupDeleted(t[1..], step.0);
      assert step.1 ==> IsMarkup(t[0]);
      if !step.1 {
        var rest := UnquoteFrom(t[1..], step.0);
        assert ([t[0]] + rest)[1..] == rest;
      }
    }
  }

  /** `removeQuotes` is a subsequence of its argument, equal to it on plain text. */
  lemma RemoveQuotesDeletes(arg: string)
    ensures IsSubsequence(RemoveQuotes(arg), arg)
    ensures StripMarkup(RemoveQuotes(arg)) == StripMarkup(arg)
    ensures Plain(arg) ==> RemoveQuotes(arg) == arg
  {
    OnlyMarkupDeleted(arg, Unquoted);
    if Plain(arg) { UnquotePlain(arg); }
  }
}
