/** The argument tokenizer `extractArgs` of app/utils.ts. It works in two
    phases. The split phase scans the raw text with a single-quote, a
    double-quote and an escape flag and cuts it at unquoted spaces. Then each
    piece goes through `removeQuotes`, which deletes quote and escape markup.

    Each phase is a pure function, defined one character at a time from a
    record of flags, and a method with the source's loop proved equal to it. */
module Tokenizer {
  import opened Wrappers
  import opened Strings

  // ---------------------------------------------------------------------------
  // Split phase (app/utils.ts:174-202)

  /** The flags of the split loop: `insideSingleQuote`, `insideDoubleQuote`, `isEscaped`. */
  datatype SplitFlags = SplitFlags(single: bool, double: bool, escaped: bool)

  const SplitStart := SplitFlags(false, false, false)

  /** The character `c`, read with flags `f`, is an unquoted, unescaped space:
      it ends the current piece. */
  predicate Cuts(f: SplitFlags, c: char)
  {
    !f.escaped && c == ' ' && !f.single && !f.double
  }

  /** The flags after reading `c`. An escape flag is always consumed by the
      next character; a backslash sets it even inside single quotes. */
  function SplitStep(f: SplitFlags, c: char): (g: SplitFlags)
    ensures f.escaped ==> g == f.(escaped := false)
    ensures !f.escaped ==> (g.escaped <==> c == '\\')
    ensures g.single != f.single ==> !f.escaped && c == '\'' && !f.double
    ensures g.double != f.double ==> !f.escaped && c == '"' && !f.single
    ensures !(f.single && f.double) ==> !(g.single && g.double)
  {
    if f.escaped then f.(escaped := false)
    else if c == '\\' then f.(escaped := true)
    else if c == '\'' && !f.double then f.(single := !f.single)
    else if c == '"' && !f.single then f.(double := !f.double)
    else f
  }

  /** The pieces cut from the rest `t` of the text, read with flags `f`,
      when `pending` holds the characters since the last cut. Empty pieces
      are never emitted. */
  function SplitFrom(t: string, f: SplitFlags, pending: string): (pieces: seq<string>)
    ensures forall k :: 0 <= k < |pieces| ==> pieces[k] != []
    decreases |t|
  {
    var flushed := if pending == [] then [] else [pending];
    if t == [] then flushed
    else if Cuts(f, t[0]) then flushed + SplitFrom(t[1..], f, [])
    else SplitFrom(t[1..], SplitStep(f, t[0]), pending + [t[0]])
  }

  /** The pieces of the split phase. */
  function SplitPhase(s: string): (pieces: seq<string>)
    ensures forall k :: 0 <= k < |pieces| ==> pieces[k] != []
    ensures |pieces| <= |s|
  {
    SplitFromBound(s, SplitStart, []);
    SplitFrom(s, SplitStart, [])
  }

  /** Each piece holds at least one character of the pending text or of the
      rest, so there are no more pieces than characters. */
  lemma {:induction false} SplitFromBound(t: string, f: SplitFlags, pending: string)
    ensures |SplitFrom(t, f, pending)| <= |pending| + |t|
    decreases |t|
  {
    if t != [] {
      if Cuts(f, t[0]) {
        SplitFromBound(t[1..], f, []);
      } else {
        SplitFromBound(t[1..], SplitStep(f, t[0]), pending + [t[0]]);
      }
    }
  }

  // ---------------------------------------------------------------------------
  // removeQuotes (app/utils.ts:213-259)

  /** The flags of the `removeQuotes` loop. */
  datatype QuoteFlags = QuoteFlags(single: bool, double: bool, escaped: bool)

  const Unquoted := QuoteFlags(false, false, false)
  const InSingle := QuoteFlags(true, false, false)
  const InDouble := QuoteFlags(false, true, false)

  /** One iteration of the `removeQuotes` loop on character `c`, with `next`
      the character after it (`None` past the end, where JavaScript reads
      `undefined`): the new flags, and whether `c` is deleted. */
  function UnquoteStep(f: QuoteFlags, c: char, next: Option<char>): (r: (QuoteFlags, bool))
    ensures r.1 ==> c == '\'' || c == '"' || c == '\\'
    ensures r.0.escaped ==> c == '\\' && r.1
    ensures f.escaped ==> !r.1 && !r.0.escaped
    ensures !(f.single && f.double) ==> !(r.0.single && r.0.double)
  {
    var single := if c == '\'' && !f.double && !f.escaped then !f.single else f.single;
    var double := if c == '"' && !single && !f.escaped then !f.double else f.double;
    if c == '\\' && !single then
      if double then
        if !f.escaped && (next == Some('"') || next == Some('\\')) then (QuoteFlags(single, double, true), true)
        else (QuoteFlags(single, double, false), false)
      else if !f.escaped then (QuoteFlags(single, double, true), true)
      else (QuoteFlags(single, double, false), false)
    else
      var drop := !f.escaped && (
        (c == '\'' && single && !double) ||
        (c == '"' && double && !single) ||
        (!single && !double && (c == '"' || c == '\'')));
      (QuoteFlags(single, double, false), drop)
  }

  /** The characters `removeQuotes` keeps of the rest `t` of its argument,
      read with flags `f`. */
  function UnquoteFrom(t: string, f: QuoteFlags): (kept: string)
    ensures IsSubsequence(kept, t)
    decreases |t|
  {
    if t == [] then []
    else
      var step := UnquoteStep(f, t[0], if |t| > 1 then Some(t[1]) else None);
      var rest := UnquoteFrom(t[1..], step.0);
      assert [t[0]] + t[1..] == t;
      if step.1 then SubsequenceSkip(rest, t[1..], t[0]); rest
      else SubsequenceKeep(rest, t[1..], t[0]); [t[0]] + rest
  }

  /** `removeQuotes(arg)`. */
  function RemoveQuotes(arg: string): (r: string)
    ensures IsSubsequence(r, arg)
  {
    UnquoteFrom(arg, Unquoted)
  }

  /** What `extractArgs` returns: `removeQuotes` of each piece of the split phase. */
  function Tokenize(s: string): (args: seq<string>)
    ensures |args| == |SplitPhase(s)| <= |s|
    ensures forall k :: 0 <= k < |args| ==> IsSubsequence(args[k], SplitPhase(s)[k])
  {
    var pieces := SplitPhase(s);
    seq(|pieces|, k requires 0 <= k < |pieces| => RemoveQuotes(pieces[k]))
  }

  /** One step of `UnquoteFrom`. */
  lemma UnquoteUnfold(t: string, f: QuoteFlags)
    requires t != []
    ensures var step := UnquoteStep(f, t[0], if |t| > 1 then Some(t[1]) else None);
      UnquoteFrom(t, f) == (if step.1 then [] else [t[0]]) + UnquoteFrom(t[1..], step.0)
  {
  }

  /** The character after position `i`, as `arg[i + 1]` reads it. */
  function Next(arg: string, i: nat): Option<char>
  {
    if i + 1 < |arg| then Some(arg[i + 1]) else None
  }

  /** The invariant of the `removeQuotes` loop after `i` characters: the
      positions to delete lie before `i`, and the kept prefix and the kept
      rest make up the whole result. */
  predicate Unquoting(arg: string, i: nat, f: QuoteFlags, removed: set<nat>)
  {
    i <= |arg| &&
    (forall j :: j in removed ==> j < i) &&
    Without(arg[..i], removed) + UnquoteFrom(arg[i..], f) == RemoveQuotes(arg)
  }

  /** One iteration of the `removeQuotes` loop keeps its invariant. */
  lemma UnquoteAdvance(arg: string, i: nat, f: QuoteFlags, before: set<nat>, after: set<nat>, g: QuoteFlags)
    requires i < |arg| && Unquoting(arg, i, f, before)
    requires g == UnquoteStep(f, arg[i], Next(arg, i)).0
    requires after == if UnquoteStep(f, arg[i], Next(arg, i)).1 then before + {i} else before
    ensures Unquoting(arg, i + 1, g, after)
  {
    var step := UnquoteStep(f, arg[i], Next(arg, i));
    var t := arg[i..];
    assert t[1..] == arg[i + 1..];
    assert Next(arg, i) == if |t| > 1 then Some(t[1]) else None;
    var kept := if step.1 then [] else [arg[i]];
    UnquoteUnfold(t, f);
    assert UnquoteFrom(t, f) == kept + UnquoteFrom(arg[i + 1..], g);
    assert i !in before;
    assert (i in after) == step.1;
    WithoutExtend(arg, i, after);
    WithoutAgrees(arg[..i], after, before);
    var w := Without(arg[..i], before);
    assert Without(arg[..i + 1], after) == w + kept;
    ConcatAssoc(w, kept, UnquoteFrom(arg[i + 1..], g));
  }

  /** When the `removeQuotes` loop ends, the kept characters are the result. */
  lemma UnquoteFinish(arg: string, f: QuoteFlags, removed: set<nat>)
    requires Unquoting(arg, |arg|, f, removed)
    ensures Without(arg, removed) == RemoveQuotes(arg)
  {
    assert arg[..|arg|] == arg;
    assert arg[|arg|..] == [];
    assert Without(arg, removed) + [] == Without(arg, removed);
  }

  // ---------------------------------------------------------------------------
  // The source's loops

  /** `removeQuotes`: the loop collects the positions to delete in
      `idxToRemove`; the characters at the other positions are kept. */
  method RemoveQuotesLoop(arg: string) returns (r: string)
    ensures r == RemoveQuotes(arg)
    ensures IsSubsequence(r, arg)
  {
    var insideSingleQuote := false;
    var insideDoubleQuote := false;
    var idxToRemove: set<nat> := {};
    var isEscaped := false;
    for i := 0 to |arg|
      invariant Unquoting(arg, i, QuoteFlags(insideSingleQuote, insideDoubleQuote, isEscaped), idxToRemove)
    {
      ghost var f := QuoteFlags(insideSingleQuote, insideDoubleQuote, isEscaped);
      ghost var before := idxToRemove;

      if arg[i] == '\'' && !insideDoubleQuote && !isEscaped { insideSingleQuote := !insideSingleQuote; }
      if arg[i] == '"' && !insideSingleQuote && !isEscaped { insideDoubleQuote := !insideDoubleQuote; }

      if arg[i] == '\\' && !insideSingleQuote {
        if insideDoubleQuote {
          if !isEscaped && i + 1 < |arg| && (arg[i + 1] == '"' || arg[i + 1] == '\\') {
            isEscaped := true;
            idxToRemove := idxToRemove + {i};
          } else {
            isEscaped := false;
          }
          UnquoteAdvance(arg, i, f, before, idxToRemove, QuoteFlags(insideSingleQuote, insideDoubleQuote, isEscaped));
          continue;
        }
        if !isEscaped {
          idxToRemove := idxToRemove + {i};
          isEscaped := true;
        } else {
          isEscaped := false;
        }
        UnquoteAdvance(arg, i, f, before, idxToRemove, QuoteFlags(insideSingleQuote, insideDoubleQuote, isEscaped));
        continue;
      }

      var shouldRemove := !isEscaped && (
        (arg[i] == '\'' && insideSingleQuote && !insideDoubleQuote) ||
        (arg[i] == '"' && insideDoubleQuote && !insideSingleQuote) ||
        (!insideSingleQuote && !insideDoubleQuote && (arg[i] == '"' || arg[i] == '\'')));
      isEscaped := false;
      if shouldRemove { idxToRemove := idxToRemove + {i}; }
      UnquoteAdvance(arg, i, f, before, idxToRemove, QuoteFlags(insideSingleQuote, insideDoubleQuote, isEscaped));
    }
    UnquoteFinish(arg, QuoteFlags(insideSingleQuote, insideDoubleQuote, isEscaped), idxToRemove);
    r := Without(arg, idxToRemove);
  }

  /** One iteration of the split loop keeps its invariant: at a cut the
      pending text is pushed unless empty and a new piece starts after the
      space; otherwise the character joins the pending text. */
  lemma SplitAdvance(s: string, l: nat, r: nat, f: SplitFlags, pieces: seq<string>)
    requires l <= r < |s|
    requires pieces + SplitFrom(s[r..], f, s[l..r]) == SplitPhase(s)
    ensures Cuts(f, s[r]) ==>
      (pieces + (if l != r then [s[l..r]] else [])) + SplitFrom(s[r + 1..], f, s[r + 1..r + 1]) == SplitPhase(s)
    ensures !Cuts(f, s[r]) ==>
      pieces + SplitFrom(s[r + 1..], SplitStep(f, s[r]), s[l..r + 1]) == SplitPhase(s)
  {
    assert s[r..][0] == s[r];
    assert s[r..][1..] == s[r + 1..];
    assert s[l..r] + [s[r]] == s[l..r + 1];
    assert s[r + 1..r + 1] == [];
    assert (s[l..r] == []) == (l == r);
    if Cuts(f, s[r]) {
      var flushed := if l != r then [s[l..r]] else [];
      assert (pieces + flushed) + SplitFrom(s[r + 1..], f, []) == pieces + (flushed + SplitFrom(s[r + 1..], f, []));
    }
  }

  /** When the split loop ends, the pending text is pushed unless empty. */
  lemma SplitFinish(s: string, l: nat, r: nat, f: SplitFlags, pieces: seq<string>)
    requires l <= r == |s|
    requires pieces + SplitFrom(s[r..], f, s[l..r]) == SplitPhase(s)
    ensures pieces + (if l != r then [s[l..r]] else []) == SplitPhase(s)
  {
    assert s[r..] == [];
    assert (s[l..r] == []) == (l == r);
  }

  /** The split loop of `extractArgs`: it advances `r`, toggles the flags
      and pushes `argsRaw[l..r]` at each unquoted space. */
  method SplitLoop(argsRaw: string) returns (pieces: seq<string>)
    ensures pieces == SplitPhase(argsRaw)
  {
    var l: nat, r: nat := 0, 0;
    pieces := [];
    var insideSingleQuote := false;
    var insideDoubleQuote := false;
    var isEscaped := false;
    while r < |argsRaw|
      invariant l <= r <= |argsRaw|
      invariant pieces + SplitFrom(argsRaw[r..], SplitFlags(insideSingleQuote, insideDoubleQuote, isEscaped), argsRaw[l..r])
                == SplitPhase(argsRaw)
    {
      ghost var f := SplitFlags(insideSingleQuote, insideDoubleQuote, isEscaped);
      SplitAdvance(argsRaw, l, r, f, pieces);
      if isEscaped {
        isEscaped := false;
      } else if argsRaw[r] == '\\' {
        isEscaped := true;
      } else if argsRaw[r] == '\'' && !insideDoubleQuote {
        insideSingleQuote := !insideSingleQuote;
      } else if argsRaw[r] == '"' && !insideSingleQuote {
        insideDoubleQuote := !insideDoubleQuote;
      } else if argsRaw[r] == ' ' && !insideSingleQuote && !insideDoubleQuote {
        if l != r { pieces := pieces + [argsRaw[l..r]]; }
        l := r + 1;
      }
      r := r + 1;
    }
    SplitFinish(argsRaw, l, r, SplitFlags(insideSingleQuote, insideDoubleQuote, isEscaped), pieces);
    if l != r { pieces := pieces + [argsRaw[l..r]]; }
  }

  /** `extractArgs`: the split loop, then `removeQuotes` of every piece. */
  method ExtractArgs(argsRaw: string) returns (args: seq<string>)
    ensures args == Tokenize(argsRaw)
  {
    var pieces := SplitLoop(argsRaw);
    args := [];
    for k := 0 to |pieces|
      invariant |args| == k
      invariant forall j :: 0 <= j < k ==> args[j] == RemoveQuotes(pieces[j])
    {
      var unquoted := RemoveQuotesLoop(pieces[k]);
      args := args + [unquoted];
    }
  }
}
