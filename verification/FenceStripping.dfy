/** Taking the code fences off the model's answer before it is decoded. */
module FenceStripping {
  import opened Text

  const FENCE := "```"

  predicate IsFence(line: string) {
    FENCE <= TrimSpace(line)
  }

  predicate NoFences(lines: seq<string>) {
    NoneIn(IsFence, lines)
  }

  predicate AllBlank(lines: seq<string>) {
    forall l :: l in lines ==> Blank(l)
  }

  predicate AreLines(lines: seq<string>) {
    forall l :: l in lines ==> '\n' !in l
  }

  /** strings.Split(s, "\n") */
  function Lines(s: string): seq<string> {
    Split(s, '\n')
  }

  // ---------------------------------------------------------------- lines inside a block

  /** The lines, not fences themselves, that have an odd number of fences above them; below an odd
      number already if inBlock. */
  function Kept<T>(lines: seq<T>, inBlock: bool, isFence: T -> bool): seq<T> {
    if lines == [] then []
    else if isFence(lines[0]) then Kept(lines[1..], !inBlock, isFence)
    else (if inBlock then [lines[0]] else []) + Kept(lines[1..], inBlock, isFence)
  }

  predicate NoneIn<T(==)>(isFence: T -> bool, lines: seq<T>) {
    forall l :: l in lines ==> !isFence(l)
  }

  function Stripped(response: string): string {
    if FENCE <= TrimSpace(response) then Join(Kept(Lines(response), false, IsFence), "\n") else response
  }

  lemma KeptStep<T>(lines: seq<T>, i: nat, inBlock: bool, isFence: T -> bool)
    requires i < |lines|
    ensures Kept(lines[i..], inBlock, isFence) ==
            if isFence(lines[i]) then Kept(lines[i + 1..], !inBlock, isFence)
            else (if inBlock then [lines[i]] else []) + Kept(lines[i + 1..], inBlock, isFence)
  {
    assert lines[i..][1..] == lines[i + 1..];
  }

  method LinesInBlocks<T>(lines: seq<T>, isFence: T -> bool) returns (kept: seq<T>)
    ensures kept == Kept(lines, false, isFence)
  {
    hide Kept;
    assert lines[0..] == lines;
    kept := [];
    var inBlock := false;
    for i := 0 to |lines|
      invariant kept + Kept(lines[i..], inBlock, isFence) == Kept(lines, false, isFence)
    {
      var line := lines[i];
      KeptStep(lines, i, inBlock, isFence);
      if isFence(line) {
        inBlock := !inBlock;
      } else if inBlock {
        kept := kept + [line];
      }
    }
    assert lines[|lines|..] == [];
    NothingKept(inBlock, isFence);
  }

  lemma NothingKept<T>(inBlock: bool, isFence: T -> bool)
    ensures Kept([], inBlock, isFence) == []
  {
  }

  method StripFences(response: string) returns (cleaned: string)
    ensures cleaned == Stripped(response)
  {
    cleaned := response;
    if FENCE <= TrimSpace(response) {
      var jsonLines := LinesInBlocks(Lines(response), IsFence);
      cleaned := Join(jsonLines, "\n");
    }
  }

  /** Down to the next fence either every line is kept or none. */
  lemma {:induction false} KeptPlain<T>(plain: seq<T>, below: seq<T>, inBlock: bool, isFence: T -> bool)
    requires NoneIn(isFence, plain)
    ensures Kept(plain + below, inBlock, isFence) == (if inBlock then plain else []) + Kept(below, inBlock, isFence)
  {
    if plain == [] {
      assert plain + below == below;
    } else {
      assert plain == [plain[0]] + plain[1..] && plain[0] in plain;
      assert (plain + below)[1..] == plain[1..] + below;
      KeptPlain(plain[1..], below, inBlock, isFence);
    }
  }

  function CountFences<T>(lines: seq<T>, isFence: T -> bool): nat {
    if lines == [] then 0 else CountFences(lines[1..], isFence) + if isFence(lines[0]) then 1 else 0
  }

  /** Whether a line is kept depends on the line and on how many fences stand above it. */
  lemma {:induction false} KeptBelowOddFences<T>(above: seq<T>, line: T, inBlock: bool, isFence: T -> bool)
    ensures var odd := CountFences(above, isFence) % 2 == 1;
            Kept(above + [line], inBlock, isFence) ==
            Kept(above, inBlock, isFence) + if !isFence(line) && odd != inBlock then [line] else []
  {
    if above == [] {
      assert (above + [line])[1..] == [];
    } else {
      assert (above + [line])[1..] == above[1..] + [line];
      KeptBelowOddFences(above[1..], line, if isFence(above[0]) then !inBlock else inBlock, isFence);
    }
  }

  lemma KeptOfBlock<T>(above: seq<T>, open: T, body: seq<T>, close: T, below: seq<T>, isFence: T -> bool)
    requires NoneIn(isFence, above) && NoneIn(isFence, body) && NoneIn(isFence, below)
    requires isFence(open) && isFence(close)
    ensures Kept(above + ([open] + (body + ([close] + below))), false, isFence) == body
  {
    KeptPlain(above, [open] + (body + ([close] + below)), false, isFence);
    assert ([open] + (body + ([close] + below)))[1..] == body + ([close] + below);
    KeptPlain(body, [close] + below, true, isFence);
    assert ([close] + below)[1..] == below;
    KeptPlain(below, [], false, isFence);
    assert below + [] == below;
  }

  lemma {:induction false} KeptAreNotFences<T>(lines: seq<T>, inBlock: bool, isFence: T -> bool)
    ensures NoneIn(isFence, Kept(lines, inBlock, isFence))
  {
    if lines != [] {
      KeptAreNotFences(lines[1..], if isFence(lines[0]) then !inBlock else inBlock, isFence);
    }
  }

  // ---------------------------------------------------------------- how the response begins

  lemma {:induction false} FenceSurvivesTrimRight(s: string)
    ensures FENCE <= TrimRight(s) <==> FENCE <= s
  {
    if s != "" && IsSpace(s[|s| - 1]) {
      FenceSurvivesTrimRight(s[..|s| - 1]);
      if FENCE <= s {
        assert s[0] == s[1] == s[2] == '`';
      }
    }
  }

  lemma {:induction false} TrimLeftOfBlank(b: string, s: string)
    requires Blank(b)
    ensures TrimLeft(b + s) == TrimLeft(s)
  {
    if b == "" {
      assert b + s == s;
    } else {
      assert b[0] in b && (b + s)[1..] == b[1..] + s;
      TrimLeftOfBlank(b[1..], s);
    }
  }

  lemma {:induction false} TrimLeftOfText(t: string, s: string)
    requires !Blank(t)
    ensures TrimLeft(t) != "" && TrimLeft(t + s) == TrimLeft(t) + s
  {
    assert t == [t[0]] + t[1..];
    if IsSpace(t[0]) {
      assert (t + s)[1..] == t[1..] + s;
      TrimLeftOfText(t[1..], s);
    }
  }

  lemma FencesAreNotBlank(line: string)
    ensures IsFence(line) ==> !Blank(line)
  {
    if Blank(line) {
      TrimLeftOfBlank(line, "");
      assert line + "" == line;
    }
  }

  /** A line is a fence or not whatever the lines under it are. */
  lemma FirstLineDecides(line: string, below: string)
    requires !Blank(line)
    ensures FENCE <= TrimSpace(line + ("\n" + below)) <==> IsFence(line)
  {
    var t, s := TrimLeft(line), "\n" + below;
    TrimLeftOfText(line, s);
    FenceSurvivesTrimRight(t);
    FenceSurvivesTrimRight(t + s);
    if |t| < |FENCE| {
      assert (t + s)[|t|] == '\n' && FENCE[|t|] == '`';
    }
  }

  lemma BlankLinesAreSkipped(line: string, below: string)
    requires Blank(line)
    ensures TrimSpace(line + ("\n" + below)) == TrimSpace(below)
  {
    TrimLeftOfBlank(line + "\n", below);
    assert line + "\n" + below == line + ("\n" + below);
  }

  /** With no fence among its lines a text does not begin with one. */
  lemma {:induction false} PlainTextIsNotFenced(lines: seq<string>)
    requires NoFences(lines)
    ensures !(FENCE <= TrimSpace(Join(lines, "\n")))
  {
    if |lines| == 1 {
      assert lines[0] in lines;
    } else if |lines| > 1 {
      var line, more := lines[0], lines[1..];
      assert lines == [line] + more && line in lines;
      PlainTextIsNotFenced(more);
      JoinCons(line, more, "\n");
      if Blank(line) {
        BlankLinesAreSkipped(line, Join(more, "\n"));
      } else {
        FirstLineDecides(line, Join(more, "\n"));
      }
    }
  }

  /** A text begins with a fence when nothing but blank lines stands above its first one. */
  lemma {:induction false} FencedIffBlankAbove(above: seq<string>, open: string, below: seq<string>)
    requires NoFences(above) && IsFence(open)
    ensures FENCE <= TrimSpace(Join(above + [open] + below, "\n")) <==> AllBlank(above)
  {
    if above == [] {
      assert above + [open] + below == [open] + below;
      FencesAreNotBlank(open);
      if below == [] {
        assert [open] + below == [open];
      } else {
        JoinCons(open, below, "\n");
        FirstLineDecides(open, Join(below, "\n"));
      }
    } else {
      var line, more := above[0], above[1..];
      assert above == [line] + more && line in above;
      assert above + [open] + below == [line] + (more + [open] + below);
      FencedIffBlankAbove(more, open, below);
      JoinCons(line, more + [open] + below, "\n");
      if Blank(line) {
        BlankLinesAreSkipped(line, Join(more + [open] + below, "\n"));
      } else {
        FirstLineDecides(line, Join(more + [open] + below, "\n"));
      }
    }
  }

  // ---------------------------------------------------------------- what stripping achieves

  /** Of a response with one fenced block exactly the block is left, if and only if nothing but blank
      lines stands above it; otherwise the response is left as it is, fences included. */
  lemma BlockIsRecoveredIff(above: seq<string>, open: string, body: seq<string>, close: string, below: seq<string>)
    requires NoFences(above) && NoFences(body) && NoFences(below) && IsFence(open) && IsFence(close)
    requires AreLines(above + [open] + body + [close] + below)
    ensures Stripped(Join(above + [open] + body + [close] + below, "\n")) == Join(body, "\n") <==> AllBlank(above)
    ensures !AllBlank(above) ==> var response := Join(above + [open] + body + [close] + below, "\n");
                                 Stripped(response) == response
  {
    var lines, below' := above + [open] + body + [close] + below, body + ([close] + below);
    assert lines == above + ([open] + below') == above + [open] + below';
    FencedIffBlankAbove(above, open, below');
    SplitOfJoin(lines, '\n');
    KeptOfBlock(above, open, body, close, below, IsFence);
    assert open in lines && forall l :: l in body ==> l in lines;
    PlainBodyIsAnotherText(lines, open, body);
  }

  lemma PlainBodyIsAnotherText(lines: seq<string>, fence: string, body: seq<string>)
    requires AreLines(lines) && fence in lines && IsFence(fence) && NoFences(body)
    requires forall l :: l in body ==> l in lines
    ensures Join(lines, "\n") != Join(body, "\n")
  {
    var plain := if body == [] then [""] else body;
    SplitOfJoin(lines, '\n');
    SplitOfJoin(plain, '\n');
    FencesAreNotBlank("");
    assert fence !in plain;
  }

  /** Stripping twice is stripping once. */
  lemma StrippedIsIdempotent(response: string)
    ensures Stripped(Stripped(response)) == Stripped(response)
  {
    KeptAreNotFences(Lines(response), false, IsFence);
    PlainTextIsNotFenced(Kept(Lines(response), false, IsFence));
  }
}
