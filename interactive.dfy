/** The line decoder and read loop of the interactive mode (`interactive_mode`). */
module Interactive {
  import opened Options
  import opened Text

  /** The ten operations the interactive mode can invoke. */
  datatype Command =
    | List | Delete | Rename | Move | Copy | Mkdir
    | OrganizeByType | OrganizeByDate | Find | Stats

  /** What one input line makes the loop do. */
  datatype Decision =
    | Exit                                      // leave the loop
    | Run(cmd: Command, args: seq<string>)      // invoke the operation with these arguments
    | Usage(cmd: Command)                       // print the command's usage line
    | Unknown(token: string)                    // print "Unknown command: <token>"
    | Panic                                     // `parts[0]` on an empty token list
  {
    /** The loop goes on to the next line after this decision. */
    predicate Continues() {
      Run? || Usage? || Unknown?
    }
  }

  /** The first token that selects each command. */
  function Keyword(cmd: Command): string {
    match cmd
    case List => "list"
    case Delete => "delete"
    case Rename => "rename"
    case Move => "move"
    case Copy => "copy"
    case Mkdir => "mkdir"
    case OrganizeByType => "organize-by-type"
    case OrganizeByDate => "organize-by-date"
    case Find => "find"
    case Stats => "stats"
  }

  /** How many tokens after the keyword the command needs. */
  function Arity(cmd: Command): nat {
    if cmd == Rename || cmd == Move || cmd == Copy then 2 else 1
  }

  /** The commands in the order the dispatch `match` lists them. */
  const Commands: seq<Command> :=
    [List, Delete, Rename, Move, Copy, Mkdir, OrganizeByType, OrganizeByDate, Find, Stats]

  lemma CommandsComplete(cmd: Command)
    ensures cmd in Commands
  {
  }

  /** The first of `cmds` whose keyword is `token`, if any. */
  function Lookup(token: string, cmds: seq<Command>): (r: Option<Command>)
    ensures r.Some? ==> r.value in cmds && Keyword(r.value) == token
    ensures r.None? ==> forall cmd :: cmd in cmds ==> Keyword(cmd) != token
  {
    if cmds == [] then None
    else if Keyword(cmds[0]) == token then Some(cmds[0])
    else Lookup(token, cmds[1..])
  }

  /** The command a first token selects, if any. */
  function CommandNamed(token: string): (r: Option<Command>)
    ensures r.Some? ==> Keyword(r.value) == token
    ensures r.None? ==> forall cmd :: Keyword(cmd) != token
  {
    var r := Lookup(token, Commands);
    assert r.None? ==> forall cmd :: Keyword(cmd) != token by {
      forall cmd ensures cmd in Commands { CommandsComplete(cmd); }
    }
    r
  }

  /** Every keyword selects its own command. */
  lemma KeywordSelects(cmd: Command)
    ensures CommandNamed(Keyword(cmd)) == Some(cmd)
  {
  }

  /** The `match parts.get(0)` dispatch on the whitespace-separated tokens of a line. */
  function Dispatch(tokens: seq<string>): Decision {
    if tokens == [] then Panic
    else match CommandNamed(tokens[0])
      case None => Unknown(tokens[0])
      case Some(cmd) =>
        if |tokens| > Arity(cmd) then Run(cmd, tokens[1..1 + Arity(cmd)]) else Usage(cmd)
  }

  /** No tokens panics; a first token that names no command is reported back; a command
      runs with exactly its arity's worth of following tokens when there are that many, and
      prints its usage otherwise. The dispatch never leaves the loop. */
  lemma DispatchCases(tokens: seq<string>)
    ensures !Dispatch(tokens).Exit?
    ensures Dispatch(tokens).Panic? <==> tokens == []
    ensures Dispatch(tokens).Unknown? <==> tokens != [] && CommandNamed(tokens[0]).None?
    ensures Dispatch(tokens).Unknown? ==> Dispatch(tokens).token == tokens[0]
    ensures Dispatch(tokens).Run? ==>
              var cmd := Dispatch(tokens).cmd;
              tokens[0] == Keyword(cmd) && |tokens| > Arity(cmd)
              && Dispatch(tokens).args == tokens[1..1 + Arity(cmd)]
    ensures Dispatch(tokens).Usage? ==>
              tokens[0] == Keyword(Dispatch(tokens).cmd) && |tokens| <= Arity(Dispatch(tokens).cmd)
  {
    if tokens != [] {
      var named := CommandNamed(tokens[0]);
      if named.None? {
        assert Dispatch(tokens) == Unknown(tokens[0]);
      } else {
        var cmd := named.value;
        assert Dispatch(tokens) == if |tokens| > Arity(cmd) then Run(cmd, tokens[1..1 + Arity(cmd)]) else Usage(cmd);
      }
    }
  }

  /** The decision for one line read from standard input. */
  function Decode(line: string): Decision {
    DecodeTrimmed(Trim(line))
  }

  /** The decision for a line once its surrounding whitespace is removed. */
  function DecodeTrimmed(input: string): Decision {
    if IsExitWord(input) then Exit else Dispatch(Words(input))
  }

  /** `s` is the text `exit`, compared character by character. */
  predicate IsExitWord(s: string) {
    |s| == 4 && s[0] == 'e' && s[1] == 'x' && s[2] == 'i' && s[3] == 't'
  }

  lemma ExitWordIsExit(s: string)
    ensures IsExitWord(s) <==> s == "exit"
  {
    if IsExitWord(s) {
      assert s == "exit";
    }
  }

  /** Only a line whose trimmed text is exactly `exit` ends the loop. */
  lemma DecodeExit(line: string)
    ensures Decode(line) == Exit <==> Trim(line) == "exit"
  {
    ExitWordIsExit(Trim(line));
  }

  /** A blank or whitespace-only line has no first token: indexing it panics. */
  lemma DecodePanic(line: string)
    ensures Decode(line) == Panic <==> AllWhitespace(line)
  {
    var t := Trim(line);
    TrimEmpty(line);
    WordsEmpty(t);
    DispatchCases(Words(t));
    if Decode(line) == Panic {
      assert Words(t) == [];
      assert t == [];
    } else {
      assert t != [];
    }
  }

  /** The empty line that `read_line` leaves at the end of the input panics. */
  lemma DecodeBlank()
    ensures Decode("") == Panic
  {
    DecodePanic("");
  }

  /** `exit` is one word: none of its letters is whitespace. */
  lemma ExitIsWord()
    ensures "exit" != [] && NoWhitespace("exit")
  {
    var e := "exit";
    assert e[0] == 'e' && e[1] == 'x' && e[2] == 'i' && e[3] == 't';
  }

  /** A line whose single word is `exit` decodes to the exit, whatever whitespace
      surrounds the word. */
  lemma DecodeExitWord(seps: seq<string>)
    requires Separators(seps, 1)
    ensures Decode(Interleave(seps, ["exit"])) == Exit
  {
    ExitIsWord();
    assert Interleave(seps, ["exit"]) == seps[0] + "exit" + seps[1];
    TrimAround(seps[0], "exit", seps[1]);
    ExitWordIsExit("exit");
  }

  /** A line made of words and whitespace separators decodes to the dispatch of those
      words, unless the single word is `exit`. Every line has this form (`SeparatorsOf`). */
  lemma DecodeWords(seps: seq<string>, ws: seq<string>)
    requires Separators(seps, |ws|) && IsWordList(ws)
    ensures Decode(Interleave(seps, ws)) == if ws == ["exit"] then Exit else Dispatch(ws)
  {
    if ws == ["exit"] {
      DecodeExitWord(seps);
    } else {
      var line := Interleave(seps, ws);
      WordsOfInterleave(seps, ws);
      WordsOfTrim(line);
      ExitWordIsExit(Trim(line));
      ExitIsWord();
      WordsOfWord("exit");
    }
  }

  /** Tokens beyond a command's arity are ignored. */
  lemma ExtraTokensIgnored(tokens: seq<string>, extra: seq<string>)
    requires Dispatch(tokens).Run?
    ensures Dispatch(tokens + extra) == Dispatch(tokens)
  {
    DispatchCases(tokens);
    var t, cmd := tokens + extra, Dispatch(tokens).cmd;
    assert t[0] == tokens[0];
    assert t[1..1 + Arity(cmd)] == tokens[1..1 + Arity(cmd)];
  }

  /** With all its arguments present a command runs with exactly those arguments; with
      fewer it prints its usage line. */
  lemma ArityDecides(cmd: Command, args: seq<string>)
    ensures Dispatch([Keyword(cmd)] + args)
            == if |args| >= Arity(cmd) then Run(cmd, args[..Arity(cmd)]) else Usage(cmd)
  {
    var t := [Keyword(cmd)] + args;
    DispatchOfKeyword(cmd, t);
    if |args| >= Arity(cmd) {
      AfterHead(Keyword(cmd), args, Arity(cmd));
      assert Dispatch(t) == Run(cmd, args[..Arity(cmd)]);
    } else {
      assert Dispatch(t) == Usage(cmd);
    }
  }

  lemma AfterHead<T>(x: T, rest: seq<T>, n: nat)
    requires n <= |rest|
    ensures ([x] + rest)[1..1 + n] == rest[..n]
  {
  }

  lemma DispatchOfKeyword(cmd: Command, tokens: seq<string>)
    requires tokens != [] && tokens[0] == Keyword(cmd)
    ensures Dispatch(tokens)
            == if |tokens| > Arity(cmd) then Run(cmd, tokens[1..1 + Arity(cmd)]) else Usage(cmd)
  {
    KeywordSelects(cmd);
  }

  /** `rename` and one argument, separated by a single space. */
  lemma RenameLine(arg: string)
    requires arg != [] && NoWhitespace(arg)
    ensures var seps, ws := ["", " ", ""], ["rename", arg];
            Separators(seps, |ws|) && IsWordList(ws) && Interleave(seps, ws) == "rename " + arg
  {
    var seps, ws := ["", " ", ""], ["rename", arg];
    var r := "rename";
    assert r[0] == 'r' && r[1] == 'e' && r[2] == 'n' && r[3] == 'a' && r[4] == 'm' && r[5] == 'e';
    assert Interleave(seps[2..], ws[2..]) == "";
    assert Interleave(seps[1..], ws[1..]) == " " + arg;
  }

  /** `rename` followed by a single word prints the usage line instead of renaming. */
  lemma RenameWithOneArgument(arg: string)
    requires arg != [] && NoWhitespace(arg)
    ensures Decode("rename " + arg) == Usage(Rename)
  {
    var seps, ws := ["", " ", ""], ["rename", arg];
    RenameLine(arg);
    DecodeWords(seps, ws);
    ArityDecides(Rename, [arg]);
    assert ws == [Keyword(Rename)] + [arg];
  }

  /** No command is named `exit`: no keyword starts with `e`. */
  lemma KeywordIsNotExit(cmd: Command)
    ensures Keyword(cmd) != "exit"
  {
    assert Keyword(cmd)[0] != 'e';
  }

  /** `exit` followed by more words is not an exit: `exit` is reported as an unknown
      command. */
  lemma ExitWithMoreWords(seps: seq<string>, rest: seq<string>)
    requires rest != [] && Separators(seps, 1 + |rest|) && IsWordList(["exit"] + rest)
    ensures Decode(Interleave(seps, ["exit"] + rest)) == Unknown("exit")
  {
    var ws := ["exit"] + rest;
    DecodeWords(seps, ws);
    assert ws != ["exit"];
    assert ws[0] == "exit";
    forall cmd ensures Keyword(cmd) != "exit" {
      KeywordIsNotExit(cmd);
    }
    DispatchCases(ws);
  }

  /** How the read loop ended, and at which line (counting from 0). */
  datatype SessionEnd = ExitedAt(line: nat) | PanickedAt(line: nat)

  /** The line the loop reads at position `i`: past the end of the input `read_line`
      leaves the buffer empty. */
  function LineAt(input: seq<string>, i: nat): string {
    if i < |input| then input[i] else ""
  }

  /** The decision for each of `lines`, in order. */
  function Decisions(lines: seq<string>): (ds: seq<Decision>)
    ensures |ds| == |lines|
  {
    if lines == [] then [] else Decisions(lines[..|lines| - 1]) + [Decode(lines[|lines| - 1])]
  }

  lemma DecisionsSnoc(input: seq<string>, i: nat)
    requires i < |input|
    ensures Decisions(input[..i + 1]) == Decisions(input[..i]) + [Decode(input[i])]
  {
    assert input[..i + 1][..i] == input[..i];
  }

  /** The decision at position `j` is that of line `j`. */
  lemma {:induction false} DecisionsIndex(lines: seq<string>, j: nat)
    requires j < |lines|
    ensures Decisions(lines)[j] == Decode(lines[j])
    decreases |lines|
  {
    if j < |lines| - 1 {
      DecisionsIndex(lines[..|lines| - 1], j);
    }
  }

  /** What the read loop promises: it dispatched the decisions of the lines before the one
      it stopped at, each of which let it go on, and it stopped at an `exit` line or at a
      line with no token (a blank line, or the end of the input). */
  predicate SessionOutcome(input: seq<string>, dispatched: seq<Decision>, end: SessionEnd) {
    && end.line <= |input| && |dispatched| == end.line
    && dispatched == Decisions(input[..end.line])
    && (forall j :: 0 <= j < end.line ==> dispatched[j].Continues())
    && (end.ExitedAt? ==> end.line < |input| && Decode(input[end.line]) == Exit)
    && (end.PanickedAt? ==> Decode(LineAt(input, end.line)) == Panic)
  }

  /** The interactive loop over the lines of standard input. It returns the decisions it
      dispatched, in order, and how it ended: at the first `exit` line, or at the first line
      with no token, where `parts[0]` panics. */
  method Session(input: seq<string>) returns (dispatched: seq<Decision>, end: SessionEnd)
    ensures SessionOutcome(input, dispatched, end)
  {
    DecodeBlank();
    dispatched := [];
    var i := 0;
    while true
      invariant 0 <= i <= |input| && dispatched == Decisions(input[..i])
      invariant forall j :: 0 <= j < i ==> dispatched[j].Continues()
      decreases |input| - i
    {
      var line := LineAt(input, i);
      var d := Decode(line);
      if d.Exit? {
        return dispatched, ExitedAt(i);
      }
      if d.Panic? {
        return dispatched, PanickedAt(i);
      }
      assert i < |input|;
      assert line == input[i] && d.Continues();
      DecisionsSnoc(input, i);
      dispatched := dispatched + [d];
      i := i + 1;
    }
  }

  /** The loop does not read past an `exit` line. */
  lemma StopsNoLaterThan(input: seq<string>, k: nat, dispatched: seq<Decision>, end: SessionEnd)
    requires k < |input| && Decode(input[k]) == Exit
    requires SessionOutcome(input, dispatched, end)
    ensures end.line <= k
  {
    if end.line > k {
      DecisionsIndex(input[..end.line], k);
    }
  }

  /** The line the loop stops at does not let it go on. */
  lemma StopLineEnds(input: seq<string>, dispatched: seq<Decision>, end: SessionEnd)
    requires SessionOutcome(input, dispatched, end)
    ensures end.line < |input| ==> !Decode(input[end.line]).Continues()
  {
    if end.line < |input| {
      assert LineAt(input, end.line) == input[end.line];
    }
  }

  /** The loop does not stop at a line that lets it go on. */
  lemma StopsNoEarlierThan(input: seq<string>, k: nat, dispatched: seq<Decision>, end: SessionEnd)
    requires k <= |input|
    requires forall j :: 0 <= j < k ==> Decode(input[j]).Continues()
    requires SessionOutcome(input, dispatched, end)
    ensures end.line >= k
  {
    StopLineEnds(input, dispatched, end);
  }

  /** The loop's outcome is determined by its input: when line `k` is the first `exit` and
      every line before it goes on, the loop exits at line `k` having dispatched exactly the
      decisions of the lines before it, and no later line is ever decoded. */
  lemma ExitStopsSession(input: seq<string>, k: nat, dispatched: seq<Decision>, end: SessionEnd)
    requires k < |input| && Trim(input[k]) == "exit"
    requires forall j :: 0 <= j < k ==> Decode(input[j]).Continues()
    requires SessionOutcome(input, dispatched, end)
    ensures end == ExitedAt(k) && dispatched == Decisions(input[..k])
  {
    DecodeExit(input[k]);
    StopsNoLaterThan(input, k, dispatched, end);
    StopsNoEarlierThan(input, k, dispatched, end);
    assert LineAt(input, k) == input[k];
  }
}
