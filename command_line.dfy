/** `parseInput` of app/utils.ts: the command is cut off the front of the
    line and the rest goes to `extractArgs`.

    When the line holds a quote character, the command runs up to the first
    space outside an enclosing quote, and only the enclosing quote characters
    are deleted from it. Backslashes mean nothing here. Otherwise the command
    is the text before the first space. */
module CommandLine {
  import opened Strings
  import opened Tokenizer

  // ---------------------------------------------------------------------------
  // The enclosing-quote scan (app/utils.ts:294-316)

  /** `c` is one of the two quote characters. */
  predicate IsQuote(c: char)
  {
    c == '\'' || c == '"'
  }

  /** The scan goes on at `c` while the last opened quote is `lastQuote`
      (`""` when none is open): it stops only at a space outside quotes. */
  predicate Continues(lastQuote: string, c: char)
  {
    lastQuote != "" || c != ' '
  }

  /** One step of the scan: whether `c` is an enclosing quote to delete, and
      the new `lastQuote`. A quote opens when none is open; only the same
      quote closes it. */
  function ScanStep(lastQuote: string, c: char): (r: (bool, string))
    ensures r.0 ==> IsQuote(c)
    ensures r.1 != lastQuote ==> r.0
    ensures r.1 == "" || r.1 == lastQuote || r.1 == [c]
    ensures lastQuote != "" && r.0 ==> lastQuote == [c] && r.1 == ""
  {
    if IsQuote(c) && lastQuote == "" then (true, [c])
    else if (c == '\'' && lastQuote == "'") || (c == '"' && lastQuote == "\"") then (true, "")
    else (false, lastQuote)
  }

  /** The scan over the rest `t` of the line with `lastQuote` open: the kept
      characters of the command and the number of characters scanned. */
  function ScanFrom(t: string, lastQuote: string): (r: (string, nat))
    ensures r.1 <= |t|
    ensures r.1 < |t| ==> t[r.1] == ' '
    ensures IsSubsequence(r.0, t[..r.1])
    decreases |t|
  {
    if t == [] || !Continues(lastQuote, t[0]) then ([], 0)
    else
      var step := ScanStep(lastQuote, t[0]);
      var rest := ScanFrom(t[1..], step.1);
      assert t[..rest.1 + 1] == [t[0]] + t[1..][..rest.1];
      assert ([t[0]] + t[1..][..rest.1])[1..] == t[1..][..rest.1];
      if step.0 then
        SubsequenceSkip(rest.0, t[1..][..rest.1], t[0]);
        (rest.0, rest.1 + 1)
      else
        SubsequenceKeep(rest.0, t[1..][..rest.1], t[0]);
        ([t[0]] + rest.0, rest.1 + 1)
  }

  /** The command and the raw argument text `parseInput` cuts from `line`.
      JavaScript's `substring(i + 1)` past the end is the empty string. */
  function SplitCommand(line: string): (parts: (string, string))
    ensures |parts.1| <= |line| && parts.1 == line[|line| - |parts.1|..]
    ensures '"' in line || '\'' in line ==> IsSubsequence(parts.0, line[..|line| - |parts.1|])
    ensures '"' !in line && '\'' !in line && ' ' in line ==> ' ' !in parts.0 && line == parts.0 + " " + parts.1
    ensures '"' !in line && '\'' !in line && ' ' !in line ==> parts == (line, [])
  {
    if '"' in line || '\'' in line then
      var scan := ScanFrom(line, "");
      if scan.1 + 1 <= |line| then
        assert line[..scan.1 + 1] == line[..scan.1] + [line[scan.1]];
        SubsequenceAppend(scan.0, line[..scan.1], line[scan.1], true);
        assert scan.0 + [] == scan.0;
        assert |line| - |line[scan.1 + 1..]| == scan.1 + 1;
        (scan.0, line[scan.1 + 1..])
      else
        assert line[..|line|] == line[..scan.1];
        (scan.0, [])
    else
      var firstSpace := IndexOf(line, ' ');
      if firstSpace == -1 then (line, []) else (line[..firstSpace], line[firstSpace + 1..])
  }

  /** `parseInput(line)`: the command and the arguments. */
  function ParseLine(line: string): (r: (string, seq<string>))
    ensures |r.1| <= |line|
    ensures '"' !in line && '\'' !in line && ' ' !in line ==> r == (line, [])
  {
    var parts := SplitCommand(line);
    (parts.0, Tokenize(parts.1))
  }

  /** One step of the scan. */
  lemma ScanUnfold(t: string, lastQuote: string)
    requires t != [] && Continues(lastQuote, t[0])
    ensures var step := ScanStep(lastQuote, t[0]);
      ScanFrom(t, lastQuote).0 == (if step.0 then [] else [t[0]]) + ScanFrom(t[1..], step.1).0
    ensures ScanFrom(t, lastQuote).1 == ScanFrom(t[1..], ScanStep(lastQuote, t[0]).1).1 + 1
  {
  }

  /** The invariant of the scan loop after `i` characters of `line`: the
      positions to delete lie before `i`, and the kept prefix and the scan of
      the rest make up the scan of the whole line. */
  predicate Scanning(line: string, i: nat, q: string, removed: set<nat>)
  {
    i <= |line| &&
    (forall j :: j in removed ==> j < i) &&
    Without(line[..i], removed) + ScanFrom(line[i..], q).0 == ScanFrom(line, "").0 &&
    i + ScanFrom(line[i..], q).1 == ScanFrom(line, "").1
  }

  /** One iteration of the scan loop keeps its invariant. */
  lemma ScanAdvance(line: string, i: nat, q: string, before: set<nat>, after: set<nat>, q': string)
    requires i < |line| && Continues(q, line[i])
    requires Scanning(line, i, q, before)
    requires q' == ScanStep(q, line[i]).1
    requires after == if ScanStep(q, line[i]).0 then before + {i} else before
    ensures Scanning(line, i + 1, q', after)
  {
    var step := ScanStep(q, line[i]);
    var t := line[i..];
    assert t[1..] == line[i + 1..];
    var kept := if step.0 then [] else [line[i]];
    ScanUnfold(t, q);
    assert i !in before;
    assert (i in after) == step.0;
    WithoutExtend(line, i, after);
    WithoutAgrees(line[..i], after, before);
    var w := Without(line[..i], before);
    assert Without(line[..i + 1], after) == w + kept;
    ConcatAssoc(w, kept, ScanFrom(line[i + 1..], q').0);
  }

  /** When the scan loop stops, the kept prefix is the command and `i` is
      where the scan ended. */
  lemma ScanFinish(line: string, i: nat, q: string, removed: set<nat>)
    requires Scanning(line, i, q, removed)
    requires !(i < |line| && Continues(q, line[i]))
    ensures Without(line[..i], removed) == ScanFrom(line, "").0
    ensures i == ScanFrom(line, "").1
  {
    assert ScanFrom(line[i..], q) == ([], 0);
    assert Without(line[..i], removed) + [] == Without(line[..i], removed);
  }

  /** `parseInput`: the scan loop collects the positions of the enclosing
      quotes, the command is the scanned text without them, and the rest
      after the stopping space goes to `extractArgs`. */
  method ParseInput(rawInp: string) returns (cmd: string, args: seq<string>)
    ensures (cmd, args) == ParseLine(rawInp)
  {
    var rawArgs: string;
    if '"' in rawInp || '\'' in rawInp {
      var lastQuote: string := "";
      var idxToRemove: set<nat> := {};
      var i: nat := 0;
      while i < |rawInp| && (lastQuote != "" || rawInp[i] != ' ')
        invariant Scanning(rawInp, i, lastQuote, idxToRemove)
      {
        ghost var q := lastQuote;
        ghost var before := idxToRemove;
        if (rawInp[i] == '\'' || rawInp[i] == '"') && lastQuote == "" {
          idxToRemove := idxToRemove + {i};
          lastQuote := [rawInp[i]];
        } else if (rawInp[i] == '\'' && lastQuote == "'") || (rawInp[i] == '"' && lastQuote == "\"") {
          idxToRemove := idxToRemove + {i};
          lastQuote := "";
        }
        ScanAdvance(rawInp, i, q, before, idxToRemove, lastQuote);
        i := i + 1;
      }
      ScanFinish(rawInp, i, lastQuote, idxToRemove);
      cmd := Without(rawInp[..i], idxToRemove);
      rawArgs := if i + 1 <= |rawInp| then rawInp[i + 1..] else "";
    } else {
      var firstSpace := IndexOf(rawInp, ' ');
      cmd := if firstSpace == -1 then rawInp else rawInp[..firstSpace];
      rawArgs := if firstSpace == -1 then "" else rawInp[firstSpace + 1..];
    }
    assert (cmd, rawArgs) == SplitCommand(rawInp);
    args := ExtractArgs(rawArgs);
  }

  // ---------------------------------------------------------------------------
  // Properties

  /** With no quote character, the command is the text before the first
      space, or the whole line when there is none, and the arguments are read
      from the text after that space. */
  lemma UnquotedCommand(line: string)
    requires '"' !in line && '\'' !in line
    ensures var (cmd, rawArgs) := SplitCommand(line);
      ' ' !in cmd &&
      ((' ' !in line && cmd == line && rawArgs == []) ||
       (' ' in line && line == cmd + [' '] + rawArgs))
  {
    var k := IndexOf(line, ' ');
    if k != -1 {
      assert line == line[..k] + [' '] + line[k + 1..];
    }
  }

  /** The quote characters of `s`, removed. */
  function DropQuotes(s: string): (r: string)
    ensures forall c :: c in r ==> !IsQuote(c)
    decreases |s|
  {
    if s == [] then []
    else (if IsQuote(s[0]) then [] else [s[0]]) + DropQuotes(s[1..])
  }

  /** Dropping quotes from a string with one more character in front. */
  lemma DropQuotesCons(c: char, s: string)
    ensures DropQuotes([c] + s) == (if IsQuote(c) then [] else [c]) + DropQuotes(s)
  {
    assert ([c] + s)[1..] == s;
  }

  /** The scan deletes only quote characters of the text it scans. */
  lemma {:induction false} ScanDeletesQuotes(t: string, lastQuote: string)
    ensures DropQuotes(ScanFrom(t, lastQuote).0) == DropQuotes(t[..ScanFrom(t, lastQuote).1])
    decreases |t|
  {
    var kept, n := ScanFrom(t, lastQuote).0, ScanFrom(t, lastQuote).1;
    if t != [] && Continues(lastQuote, t[0]) {
      var step := ScanStep(lastQuote, t[0]);
      ScanDeletesQuotes(t[1..], step.1);
      var k, m := ScanFrom(t[1..], step.1).0, ScanFrom(t[1..], step.1).1;
      ScanUnfold(t, lastQuote);
      assert t[..n] == [t[0]] + t[1..][..m];
      DropQuotesCons(t[0], t[1..][..m]);
      if step.0 {
        assert kept == [] + k;
      } else {
        DropQuotesCons(t[0], k);
      }
    } else {
      assert n == 0;
    }
  }

  /** With quotes on the line, the command is the scanned text without some of
      its quote characters, and the arguments are what follows the stopping space. */
  lemma QuotedCommand(line: string)
    requires '"' in line || '\'' in line
    ensures var (cmd, rawArgs) := SplitCommand(line);
      exists n :: 0 <= n <= |line| &&
        IsSubsequence(cmd, line[..n]) && DropQuotes(cmd) == DropQuotes(line[..n]) &&
        (n == |line| || (line[n] == ' ' && rawArgs == line[n + 1..])) &&
        (n == |line| ==> rawArgs == [])
  {
    var scan := ScanFrom(line, "");
    ScanDeletesQuotes(line, "");
    assert 0 <= scan.1 <= |line|;
  }

  // ---------------------------------------------------------------------------
  // A grammar of command words

  /** A part of a command as typed: a bare word, which may hold backslashes
      but no space and no quote, or a quoted run, which may hold spaces,
      backslashes and the other quote. */
  datatype CmdPart = Word(text: string) | Quoted(quote: char, text: string)

  predicate PartWellFormed(p: CmdPart)
  {
    match p
    case Word(t) => forall c :: c in t ==> c != ' ' && !IsQuote(c)
    case Quoted(q, t) => IsQuote(q) && q !in t
  }

  function RenderPart(p: CmdPart): string
  {
    match p
    case Word(t) => t
    case Quoted(q, t) => [q] + t + [q]
  }

  function MeaningPart(p: CmdPart): string
  {
    p.text
  }

  function RenderCmd(ps: seq<CmdPart>): string
    decreases |ps|
  {
    if ps == [] then [] else RenderPart(ps[0]) + RenderCmd(ps[1..])
  }

  function MeaningCmd(ps: seq<CmdPart>): string
    decreases |ps|
  {
    if ps == [] then [] else MeaningPart(ps[0]) + MeaningCmd(ps[1..])
  }

  predicate CmdWellFormed(ps: seq<CmdPart>)
  {
    forall k :: 0 <= k < |ps| ==> PartWellFormed(ps[k])
  }

  /** Characters that neither stop the scan nor change `lastQuote` are kept. */
  lemma {:induction false} ScanInert(w: string, rest: string, q: string)
    requires forall c :: c in w ==> Continues(q, c) && ScanStep(q, c) == (false, q)
    ensures ScanFrom(w + rest, q).0 == w + ScanFrom(rest, q).0
    ensures ScanFrom(w + rest, q).1 == |w| + ScanFrom(rest, q).1
    decreases |w|
  {
    if w == [] {
      assert w + rest == rest;
    } else {
      assert w[0] in w;
      assert (w + rest)[0] == w[0];
      assert (w + rest)[1..] == w[1..] + rest;
      assert forall c :: c in w[1..] ==> c in w;
      ScanInert(w[1..], rest, q);
      ScanUnfold(w + rest, q);
      ConcatAssoc([w[0]], w[1..], ScanFrom(rest, q).0);
      assert [w[0]] + w[1..] == w;
    }
  }

  /** A quote character opens or closes an enclosing quote. */
  lemma ScanQuote(c: char, rest: string, q: string, q': string)
    requires IsQuote(c)
    requires (q == "" && q' == [c]) || (q == [c] && q' == "")
    ensures ScanFrom([c] + rest, q).0 == ScanFrom(rest, q').0
    ensures ScanFrom([c] + rest, q).1 == ScanFrom(rest, q').1 + 1
  {
    assert ([c] + rest)[1..] == rest;
    ScanUnfold([c] + rest, q);
  }

  /** One part is scanned to its meaning, with `lastQuote` closed again after it. */
  lemma ScanPart(p: CmdPart, rest: string)
    requires PartWellFormed(p)
    ensures ScanFrom(RenderPart(p) + rest, "").0 == MeaningPart(p) + ScanFrom(rest, "").0
    ensures ScanFrom(RenderPart(p) + rest, "").1 == |RenderPart(p)| + ScanFrom(rest, "").1
  {
    match p
    case Word(t) =>
      ScanInert(t, rest, "");
    case Quoted(q, t) =>
      assert RenderPart(p) + rest == [q] + (t + ([q] + rest));
      ScanQuote(q, t + ([q] + rest), "", [q]);
      assert forall c :: c in t ==> Continues([q], c) && ScanStep([q], c) == (false, [q]);
      ScanInert(t, [q] + rest, [q]);
      ScanQuote(q, rest, [q], "");
  }

  /** A well-formed command is scanned to its meaning. */
  lemma {:induction false} ScanParts(ps: seq<CmdPart>, rest: string)
    requires CmdWellFormed(ps)
    ensures ScanFrom(RenderCmd(ps) + rest, "").0 == MeaningCmd(ps) + ScanFrom(rest, "").0
    ensures ScanFrom(RenderCmd(ps) + rest, "").1 == |RenderCmd(ps)| + ScanFrom(rest, "").1
    decreases |ps|
  {
    if ps == [] {
      assert RenderCmd(ps) + rest == rest;
    } else {
      var r0 := RenderPart(ps[0]);
      var tail := RenderCmd(ps[1..]) + rest;
      assert RenderCmd(ps) + rest == r0 + tail;
      ScanPart(ps[0], tail);
      ScanParts(ps[1..], rest);
      ConcatAssoc(MeaningPart(ps[0]), MeaningCmd(ps[1..]), ScanFrom(rest, "").0);
    }
  }

  /** A command with no quote character is made of bare words only, and
      means what it says. */
  lemma {:induction false} UnquotedParts(ps: seq<CmdPart>)
    requires CmdWellFormed(ps)
    requires '"' !in RenderCmd(ps) && '\'' !in RenderCmd(ps)
    ensures MeaningCmd(ps) == RenderCmd(ps)
    ensures ' ' !in RenderCmd(ps)
    decreases |ps|
  {
    if ps != [] {
      var r0 := RenderPart(ps[0]);
      assert RenderCmd(ps) == r0 + RenderCmd(ps[1..]);
      assert forall c :: c in r0 ==> c in RenderCmd(ps);
      assert forall c :: c in RenderCmd(ps[1..]) ==> c in RenderCmd(ps);
      UnquotedParts(ps[1..]);
    }
  }

  /** The scan stops at the space after a well-formed command. */
  lemma ScanCommandThenArgs(ps: seq<CmdPart>, rest: string)
    requires CmdWellFormed(ps)
    ensures ScanFrom(RenderCmd(ps) + [' '] + rest, "") == (MeaningCmd(ps), |RenderCmd(ps)|)
  {
    var r := RenderCmd(ps);
    assert r + [' '] + rest == r + ([' '] + rest);
    ScanParts(ps, [' '] + rest);
    assert ScanFrom([' '] + rest, "") == ([], 0);
    assert MeaningCmd(ps) + [] == MeaningCmd(ps);
  }

  /** Without quotes, the first space is the one after the command. */
  lemma FirstSpaceAfter(r: string, rest: string)
    requires ' ' !in r
    ensures IndexOf(r + [' '] + rest, ' ') == |r|
  {
    var line := r + [' '] + rest;
    var k := IndexOf(line, ' ');
    assert line[|r|] == ' ';
    assert line[..|r|] == r;
  }

  /** A command typed as bare words and quoted runs, followed by a space and
      the argument text, is cut back into the command it means and that text. */
  lemma CommandThenArgs(ps: seq<CmdPart>, rest: string)
    requires CmdWellFormed(ps)
    ensures SplitCommand(RenderCmd(ps) + [' '] + rest) == (MeaningCmd(ps), rest)
  {
    var r := RenderCmd(ps);
    var line := r + [' '] + rest;
    assert line[|r| + 1..] == rest;
    assert line[..|r|] == r;
    if '"' in line || '\'' in line {
      ScanCommandThenArgs(ps, rest);
    } else {
      assert forall c :: c in r ==> c in line;
      UnquotedParts(ps);
      FirstSpaceAfter(r, rest);
    }
  }

  /** A command with no argument text is the whole line. */
  lemma CommandAlone(ps: seq<CmdPart>)
    requires CmdWellFormed(ps)
    ensures SplitCommand(RenderCmd(ps)) == (MeaningCmd(ps), [])
  {
    var r := RenderCmd(ps);
    assert r + [] == r;
    ScanParts(ps, []);
    assert MeaningCmd(ps) + [] == MeaningCmd(ps);
    if !('"' in r || '\'' in r) {
      UnquotedParts(ps);
    }
  }
}
