/**
 * The command registry `COMMANDS` (Cookbook.py:271-278) and the
 * read-eval-print loop of `main` (Cookbook.py:338-348).
 *
 * Each line is tokenized, token 0 is lower-cased, and every registry entry
 * whose name equals it has its handler called with the whole token list.
 * A blank line follows unless token 0 is empty. An empty token list makes
 * `uIn[0]` raise `IndexError`, which ends the program; the `exit` handler
 * ends it as well. Handlers are opaque here: the model records which one is
 * called, with which arguments, and in what order.
 */
module Commands {
  import opened Wrappers
  import opened Strings
  import opened Tokenizer

  /** The handler functions the registry refers to. */
  datatype Handler = Help | Exit | AppInfo | NewRecipe | Recipes | NewStock

  /** One registry entry: the command name, its help text and its handler. */
  datatype Command = Command(name: string, help: string, handler: Handler)

  /** `COMMANDS`, in its declaration order. */
  const Registry: seq<Command> := [
    Command("help", "Prints help for UI commands.", Help),
    Command("exit", "Exits the program.", Exit),
    Command("appinfo", "Displays information about the program.", AppInfo),
    Command("newrecipe", "Builds a new recipe.", NewRecipe),
    Command("recipes", "Prints the names of all loaded recipes.", Recipes),
    Command("newstock", "Adds to the existing stock of an ingredient. If not posessed, creates that ingredient.", NewStock)
  ]

  /** Dictionary keys: no name occurs twice. */
  predicate DistinctNames(registry: seq<Command>)
  {
    forall i, j :: 0 <= i < j < |registry| ==> registry[i].name != registry[j].name
  }

  predicate LowerCaseNames(registry: seq<Command>)
  {
    forall k :: 0 <= k < |registry| ==> Lower(registry[k].name) == registry[k].name
  }

  /** `COMMANDS` is a dictionary of lower-case names. */
  lemma RegistryWellFormed()
    ensures |Registry| == 6
    ensures DistinctNames(Registry) && LowerCaseNames(Registry)
  {
    forall k | 0 <= k < |Registry|
      ensures Lower(Registry[k].name) == Registry[k].name
    {
      LowerOfLower(Registry[k].name);
    }
  }

  /** A handler call: which handler, and the token list it is given. */
  datatype Invocation = Invocation(handler: Handler, args: seq<string>)

  /** The calls the loop over the registry makes for the command `toRun`, in registry order. */
  function Matches(registry: seq<Command>, toRun: string, tokens: seq<string>): (r: seq<Invocation>)
    ensures |r| <= |registry|
    ensures forall k :: 0 <= k < |r| ==> r[k].args == tokens
  {
    if registry == [] then []
    else
      var last := registry[|registry| - 1];
      Matches(registry[..|registry| - 1], toRun, tokens)
        + (if last.name == toRun then [Invocation(last.handler, tokens)] else [])
  }

  /** The calls for two parts of a registry are the calls for the first part, then those for the second. */
  lemma {:induction false} MatchesAppend(a: seq<Command>, b: seq<Command>, toRun: string, tokens: seq<string>)
    ensures Matches(a + b, toRun, tokens) == Matches(a, toRun, tokens) + Matches(b, toRun, tokens)
  {
    if b != [] {
      var ab := a + b;
      assert ab[..|ab| - 1] == a + b[..|b| - 1];
      MatchesAppend(a, b[..|b| - 1], toRun, tokens);
    } else {
      assert a + b == a;
    }
  }

  /** No entry has the name: nothing is called. */
  lemma {:induction false} MatchesNone(registry: seq<Command>, toRun: string, tokens: seq<string>)
    requires forall k :: 0 <= k < |registry| ==> registry[k].name != toRun
    ensures Matches(registry, toRun, tokens) == []
  {
    if registry != [] {
      MatchesNone(registry[..|registry| - 1], toRun, tokens);
    }
  }

  /** Something is called only for a name the registry holds. */
  lemma {:induction false} MatchesSome(registry: seq<Command>, toRun: string, tokens: seq<string>)
    requires Matches(registry, toRun, tokens) != []
    ensures exists k :: 0 <= k < |registry| && registry[k].name == toRun
  {
    var n := |registry|;
    if registry[n - 1].name != toRun {
      MatchesSome(registry[..n - 1], toRun, tokens);
      var k :| 0 <= k < n - 1 && registry[..n - 1][k].name == toRun;
      assert registry[k].name == toRun;
    }
  }

  /** With distinct names, the entry named `toRun` is called exactly once and nothing else is. */
  lemma MatchesUnique(registry: seq<Command>, toRun: string, tokens: seq<string>, k: nat)
    requires DistinctNames(registry)
    requires k < |registry| && registry[k].name == toRun
    ensures Matches(registry, toRun, tokens) == [Invocation(registry[k].handler, tokens)]
  {
    var before := registry[..k];
    var after := registry[k + 1..];
    assert registry == before + [registry[k]] + after;
    MatchesNone(before, toRun, tokens);
    MatchesNone(after, toRun, tokens);
    MatchesAppend(before, [registry[k]], toRun, tokens);
    MatchesAppend(before + [registry[k]], after, toRun, tokens);
    assert [registry[k]][..0] == [];
  }

  /** What one line does: the handler calls, and whether a blank line is printed after them. */
  datatype Step = Step(invoked: seq<Invocation>, separator: bool)

  /** `uIn[0]` on an empty token list. */
  datatype Crash = IndexError

  /** One turn of the loop, on the tokens of a line. */
  function Dispatch(tokens: seq<string>, registry: seq<Command>): (r: Result<Step, Crash>)
    ensures r.Failure? <==> tokens == []
    ensures r.Success? ==> (r.value.separator <==> tokens[0] != "")
  {
    if tokens == [] then Failure(IndexError)
    else
      var toRun := Lower(tokens[0]);
      Success(Step(Matches(registry, toRun, tokens), toRun != ""))
  }

  /** The entry whose name is token 0 lower-cased fires, once, with the whole token list. */
  lemma DispatchFires(tokens: seq<string>, registry: seq<Command>, k: nat)
    requires DistinctNames(registry) && tokens != []
    requires k < |registry| && registry[k].name == Lower(tokens[0])
    ensures Dispatch(tokens, registry) == Success(Step([Invocation(registry[k].handler, tokens)], tokens[0] != ""))
  {
    MatchesUnique(registry, Lower(tokens[0]), tokens, k);
  }

  /** When no entry has token 0's lower case as its name, no handler is called. */
  lemma DispatchNothing(tokens: seq<string>, registry: seq<Command>)
    requires tokens != []
    ensures (Dispatch(tokens, registry).value.invoked == [])
        <==> (forall k :: 0 <= k < |registry| ==> registry[k].name != Lower(tokens[0]))
  {
    if Dispatch(tokens, registry).value.invoked == [] {
      forall k | 0 <= k < |registry|
        ensures registry[k].name != Lower(tokens[0])
      {
        if registry[k].name == Lower(tokens[0]) {
          MatchesFinds(registry, Lower(tokens[0]), tokens, k);
        }
      }
    } else {
      MatchesSome(registry, Lower(tokens[0]), tokens);
    }
  }

  /** An entry with the name is always among the calls, whether or not names repeat. */
  lemma {:induction false} MatchesFinds(registry: seq<Command>, toRun: string, tokens: seq<string>, k: nat)
    requires k < |registry| && registry[k].name == toRun
    ensures Invocation(registry[k].handler, tokens) in Matches(registry, toRun, tokens)
  {
    var n := |registry|;
    if k < n - 1 {
      MatchesFinds(registry[..n - 1], toRun, tokens, k);
    }
  }

  /** The command name is not case-sensitive: `EXIT` runs `exit`. */
  lemma DispatchUpperCase()
    ensures Dispatch(["EXIT"], Registry) == Success(Step([Invocation(Exit, ["EXIT"])], true))
    ensures Dispatch(["NewStock", "flour"], Registry)
         == Success(Step([Invocation(NewStock, ["NewStock", "flour"])], true))
  {
    RegistryWellFormed();
    assert Lower("EXIT") == "exit";
    DispatchFires(["EXIT"], Registry, 1);
    assert Lower("NewStock") == "newstock";
    DispatchFires(["NewStock", "flour"], Registry, 5);
  }

  /** `lower()` turns the Kelvin sign into `k`, so `newstoc` followed by U+212A runs `newstock`. */
  lemma DispatchKelvinSign()
    ensures Dispatch(["newstoc\U{212A}"], Registry)
         == Success(Step([Invocation(NewStock, ["newstoc\U{212A}"])], true))
  {
    RegistryWellFormed();
    assert Lower("newstoc\U{212A}") == "newstock";
    DispatchFires(["newstoc\U{212A}"], Registry, 5);
  }

  /** Every registry name is spelled in small ASCII letters only. */
  lemma RegistryLetters(k: nat)
    requires k < |Registry|
    ensures Registry[k].name != ""
    ensures forall i :: 0 <= i < |Registry[k].name| ==> 'a' <= Registry[k].name[i] <= 'z'
  {
  }

  /**
   * A command name typed in any mix of cases, with the Kelvin sign standing
   * for `k`, runs the handler registered under that name with every token,
   * and the blank line follows.
   */
  lemma DispatchAnyCase(tokens: seq<string>, k: nat)
    requires tokens != [] && k < |Registry|
    requires |tokens[0]| == |Registry[k].name|
    requires forall i :: 0 <= i < |tokens[0]| ==>
      || tokens[0][i] == Registry[k].name[i]
      || tokens[0][i] as int == Registry[k].name[i] as int - 32
      || (Registry[k].name[i] == 'k' && tokens[0][i] == '\U{212A}')
    ensures Dispatch(tokens, Registry) == Success(Step([Invocation(Registry[k].handler, tokens)], true))
  {
    RegistryWellFormed();
    RegistryLetters(k);
    LowerMatches(tokens[0], Registry[k].name);
    DispatchFires(tokens, Registry, k);
  }

  /** An unknown command calls nothing but still prints the blank line; an empty one prints nothing. */
  lemma DispatchUnknown()
    ensures Dispatch(["quit"], Registry) == Success(Step([], true))
    ensures Dispatch([""], Registry) == Success(Step([], false))
  {
    assert Lower("quit") == "quit";
    MatchesNone(Registry, "quit", ["quit"]);
    assert Lower("") == "";
    MatchesNone(Registry, "", [""]);
  }

  /**
   * A line makes the loop raise `IndexError` exactly when its first fragment
   * opens a quoted span that is never closed.
   */
  lemma LineCrashes(line: string)
    ensures var frags := Split(line, ' ');
      (Dispatch(Tokenize(line), Registry).Failure? <==>
       Opens(frags[0], false) && FindClose(frags, 1).None?)
  {
    var frags := Split(line, ' ');
    if Opens(frags[0], false) {
      match FindClose(frags, 1)
      case None =>
        TokUnclosed(frags, false);
      case Some(j) =>
        TokSpan(frags, false, j);
    } else {
      TokSingle(frags, false);
    }
  }

  /** What the session shows: a handler call, or the blank line printed after a command. */
  datatype Event = Invoked(call: Invocation) | BlankLine

  /** Why the session ended: input ran out, `exit` was called, or `uIn[0]` failed. */
  datatype Stop = EndOfInput | Exited | IndexErrorRaised

  datatype Outcome = Outcome(events: seq<Event>, stop: Stop)

  function Events(calls: seq<Invocation>): (r: seq<Event>)
  {
    seq(|calls|, k requires 0 <= k < |calls| => Invoked(calls[k]))
  }

  predicate NoExit(calls: seq<Invocation>)
  {
    forall k :: 0 <= k < |calls| ==> calls[k].handler != Exit
  }

  /** The calls of one line up to and including the first `exit`, and whether there was one. */
  function UpToExit(calls: seq<Invocation>): (r: (seq<Event>, bool))
    ensures r.1 <==> !NoExit(calls)
    ensures !r.1 ==> r.0 == Events(calls)
    ensures r.1 ==> r.0 != [] && r.0[|r.0| - 1].Invoked? && r.0[|r.0| - 1].call.handler == Exit
  {
    if calls == [] then ([], false)
    else if calls[0].handler == Exit then ([Invoked(calls[0])], true)
    else
      var rest := UpToExit(calls[1..]);
      assert NoExit(calls) <==> NoExit(calls[1..]);
      ([Invoked(calls[0])] + rest.0, rest.1)
  }

  /** Every event of a line is one of its calls. */
  lemma {:induction false} UpToExitCalls(calls: seq<Invocation>)
    ensures forall e :: e in UpToExit(calls).0 ==> e.Invoked? && e.call in calls
  {
    if calls != [] && calls[0].handler != Exit {
      UpToExitCalls(calls[1..]);
      assert forall c :: c in calls[1..] ==> c in calls;
    }
  }

  /** An `exit` after calls that are not `exit` ends the line's calls there. */
  lemma {:induction false} UpToExitAt(before: seq<Invocation>, exit: Invocation, after: seq<Invocation>)
    requires NoExit(before) && exit.handler == Exit
    ensures UpToExit(before + [exit] + after) == (Events(before) + [Invoked(exit)], true)
  {
    var calls := before + [exit] + after;
    if before != [] {
      assert calls[0] == before[0] && calls[0].handler != Exit;
      assert calls[1..] == before[1..] + [exit] + after;
      assert NoExit(before[1..]) by {
        forall k | 0 <= k < |before[1..]| ensures before[1..][k].handler != Exit {
          assert before[1..][k] == before[k + 1];
        }
      }
      UpToExitAt(before[1..], exit, after);
      var rest := UpToExit(calls[1..]);
      assert UpToExit(calls) == ([Invoked(calls[0])] + rest.0, rest.1);
      assert rest == (Events(before[1..]) + [Invoked(exit)], true);
      assert Events(before) == [Invoked(before[0])] + Events(before[1..]);
      assert [Invoked(calls[0])] + rest.0 == Events(before) + [Invoked(exit)];
    } else {
      assert calls[0] == exit;
      assert Events(before) + [Invoked(exit)] == [Invoked(exit)];
      assert UpToExit(calls) == ([Invoked(exit)], true);
    }
  }

  /** `pre` followed by a session. */
  function Then(pre: seq<Event>, o: Outcome): Outcome
  {
    Outcome(pre + o.events, o.stop)
  }

  /**
   * The session on the token lists of the input lines, as `main` runs it once
   * the banner is shown: for each line, its calls up to the first `exit`, then
   * the blank line when token 0 is not empty; an empty token list ends the
   * session with `IndexError`. Every call receives one of the token lists.
   */
  function Session(inputs: seq<seq<string>>, registry: seq<Command>): (o: Outcome)
    ensures forall e :: e in o.events && e.Invoked? ==> e.call.args in inputs
  {
    if inputs == [] then Outcome([], EndOfInput)
    else match Dispatch(inputs[0], registry)
      case Failure(_) => Outcome([], IndexErrorRaised)
      case Success(step) =>
        var calls := UpToExit(step.invoked);
        UpToExitCalls(step.invoked);
        assert forall t :: t in inputs[1..] ==> t in inputs;
        if calls.1 then Outcome(calls.0, Exited)
        else Then(calls.0 + (if step.separator then [BlankLine] else []), Session(inputs[1..], registry))
  }

  /** The `IndexError` comes from an empty token list, and the input runs out only when none is empty. */
  lemma {:induction false} SessionStops(inputs: seq<seq<string>>, registry: seq<Command>)
    ensures Session(inputs, registry).stop == IndexErrorRaised ==> [] in inputs
    ensures Session(inputs, registry).stop == EndOfInput ==> [] !in inputs
  {
    if inputs != [] {
      match Dispatch(inputs[0], registry)
      case Failure(_) =>
        assert inputs[0] in inputs;
      case Success(step) =>
        SessionStops(inputs[1..], registry);
        assert inputs == [inputs[0]] + inputs[1..];
    }
  }

  /** The token lists `splitUserInput` makes of the input lines. */
  function TokenLists(lines: seq<string>): seq<seq<string>>
  {
    seq(|lines|, k requires 0 <= k < |lines| => Tokenize(lines[k]))
  }

  /**
   * The whole session on the given input lines. Every call receives the
   * tokens of one of the lines, the `IndexError` comes from a line without
   * tokens, and the input runs out only when every line has tokens.
   */
  function Run(lines: seq<string>, registry: seq<Command>): (o: Outcome)
    ensures o.stop == IndexErrorRaised ==> exists k :: 0 <= k < |lines| && Tokenize(lines[k]) == []
    ensures o.stop == EndOfInput ==> forall k :: 0 <= k < |lines| ==> Tokenize(lines[k]) != []
    ensures forall e :: e in o.events && e.Invoked? ==>
      exists k :: 0 <= k < |lines| && e.call.args == Tokenize(lines[k])
  {
    TokenListsFrom(lines);
    SessionStops(TokenLists(lines), registry);
    Session(TokenLists(lines), registry)
  }

  /** The token lists are exactly those of the lines. */
  lemma TokenListsFrom(lines: seq<string>)
    ensures forall t :: t in TokenLists(lines) ==> exists k :: 0 <= k < |lines| && t == Tokenize(lines[k])
    ensures forall k :: 0 <= k < |lines| ==> Tokenize(lines[k]) in TokenLists(lines)
  {
    forall k | 0 <= k < |lines| ensures Tokenize(lines[k]) in TokenLists(lines) {
      assert TokenLists(lines)[k] == Tokenize(lines[k]);
    }
    forall t | t in TokenLists(lines) ensures exists k :: 0 <= k < |lines| && t == Tokenize(lines[k]) {
      var k :| 0 <= k < |lines| && TokenLists(lines)[k] == t;
    }
  }

  lemma TokenListsCons(line: string, rest: seq<string>)
    ensures TokenLists([line] + rest) == [Tokenize(line)] + TokenLists(rest)
  {
  }

  /** The loop of `main`, with `splitUserInput` and the loop over `COMMANDS` as the program writes them. */
  method Repl(lines: seq<string>, registry: seq<Command>) returns (events: seq<Event>, stop: Stop)
    ensures Outcome(events, stop) == Run(lines, registry)
  {
    ghost var inputs := TokenLists(lines);
    events := [];
    var i := 0;
    while i < |lines|
      invariant 0 <= i <= |lines|
      invariant Then(events, Session(inputs[i..], registry)) == Run(lines, registry)
    {
      var tokens := SplitUserInput(lines[i]);
      assert tokens == inputs[i];
      if tokens == [] {
        LineCrash(inputs, i, registry);
        return events, IndexErrorRaised;
      }
      var toRun := Lower(tokens[0]);
      var calls, exited := CallHandlers(registry, toRun, tokens);
      LineOutcome(inputs, i, registry);
      if exited {
        return events + calls, Exited;
      }
      var more := calls + (if toRun != "" then [BlankLine] else []);
      ThenThen(events, more, Session(inputs[i + 1..], registry));
      events := events + more;
      i := i + 1;
    }
    assert inputs[i..] == [];
    return events, EndOfInput;
  }

  /**
   * The loop over `COMMANDS` for one line: every entry named `toRun` has its
   * handler called with `tokens`, until one of them is `exit`.
   */
  method CallHandlers(registry: seq<Command>, toRun: string, tokens: seq<string>)
    returns (calls: seq<Event>, exited: bool)
    ensures (calls, exited) == UpToExit(Matches(registry, toRun, tokens))
  {
    calls := [];
    for j := 0 to |registry|
      invariant calls == Events(Matches(registry[..j], toRun, tokens))
      invariant NoExit(Matches(registry[..j], toRun, tokens))
    {
      MatchesStep(registry, j, toRun, tokens);
      if registry[j].name == toRun {
        var call := Invocation(registry[j].handler, tokens);
        EventsSnoc(Matches(registry[..j], toRun, tokens), call);
        calls := calls + [Invoked(call)];
        if registry[j].handler == Exit {
          ExitCall(registry, j, toRun, tokens);
          return calls, true;
        }
      }
    }
    assert registry[..|registry|] == registry;
    return calls, false;
  }

  lemma ThenThen(pre: seq<Event>, more: seq<Event>, o: Outcome)
    ensures Then(pre, Then(more, o)) == Then(pre + more, o)
  {
  }

  /** The loop over the registry, one entry further. */
  lemma MatchesStep(registry: seq<Command>, j: nat, toRun: string, tokens: seq<string>)
    requires j < |registry|
    ensures Matches(registry[..j + 1], toRun, tokens)
         == Matches(registry[..j], toRun, tokens)
            + (if registry[j].name == toRun then [Invocation(registry[j].handler, tokens)] else [])
  {
    assert registry[..j + 1][..j] == registry[..j];
  }

  lemma EventsSnoc(calls: seq<Invocation>, call: Invocation)
    ensures Events(calls + [call]) == Events(calls) + [Invoked(call)]
  {
  }

  /** A line with no tokens ends the session at once. */
  lemma LineCrash(inputs: seq<seq<string>>, i: nat, registry: seq<Command>)
    requires i < |inputs| && inputs[i] == []
    ensures Session(inputs[i..], registry) == Outcome([], IndexErrorRaised)
  {
    assert inputs[i..][0] == inputs[i];
  }

  /** The calls of a line stop at the first `exit` entry named `toRun`. */
  lemma ExitCall(registry: seq<Command>, j: nat, toRun: string, tokens: seq<string>)
    requires j < |registry| && registry[j].name == toRun && registry[j].handler == Exit
    requires NoExit(Matches(registry[..j], toRun, tokens))
    ensures UpToExit(Matches(registry, toRun, tokens))
         == (Events(Matches(registry[..j], toRun, tokens)) + [Invoked(Invocation(Exit, tokens))], true)
  {
    assert registry == registry[..j] + [registry[j]] + registry[j + 1..];
    MatchesAppend(registry[..j] + [registry[j]], registry[j + 1..], toRun, tokens);
    MatchesAppend(registry[..j], [registry[j]], toRun, tokens);
    assert [registry[j]][..0] == [];
    UpToExitAt(Matches(registry[..j], toRun, tokens), Invocation(Exit, tokens), Matches(registry[j + 1..], toRun, tokens));
  }

  /** The session from line `i` on: the calls of line `i`, then either the end or the rest of the session. */
  lemma LineOutcome(inputs: seq<seq<string>>, i: nat, registry: seq<Command>)
    requires i < |inputs| && inputs[i] != []
    ensures var tokens := inputs[i];
      var calls := UpToExit(Matches(registry, Lower(tokens[0]), tokens));
      Session(inputs[i..], registry)
        == if calls.1 then Outcome(calls.0, Exited)
           else Then(calls.0 + (if Lower(tokens[0]) != "" then [BlankLine] else []),
                     Session(inputs[i + 1..], registry))
  {
    assert inputs[i..][0] == inputs[i];
    assert inputs[i..][1..] == inputs[i + 1..];
  }

  /** `exit` on the first line ends the session after that one call, whatever follows. */
  lemma RunExit(line: string, rest: seq<string>)
    requires Tokenize(line) != [] && Lower(Tokenize(line)[0]) == "exit"
    ensures Run([line] + rest, Registry) == Outcome([Invoked(Invocation(Exit, Tokenize(line)))], Exited)
  {
    TokenListsCons(line, rest);
    SessionExit(Tokenize(line), TokenLists(rest));
  }

  lemma SessionExit(tokens: seq<string>, rest: seq<seq<string>>)
    requires tokens != [] && Lower(tokens[0]) == "exit"
    ensures Session([tokens] + rest, Registry) == Outcome([Invoked(Invocation(Exit, tokens))], Exited)
  {
    RegistryWellFormed();
    DispatchFires(tokens, Registry, 1);
    assert ([tokens] + rest)[0] == tokens;
  }

  /** A line whose command is unknown only adds a blank line before the rest of the session. */
  lemma SessionUnknown(tokens: seq<string>, rest: seq<seq<string>>, registry: seq<Command>)
    requires tokens != [] && tokens[0] != ""
    requires forall k :: 0 <= k < |registry| ==> registry[k].name != Lower(tokens[0])
    ensures Session([tokens] + rest, registry) == Then([BlankLine], Session(rest, registry))
  {
    var inputs := [tokens] + rest;
    assert inputs[0] == tokens && inputs[1..] == rest;
    assert Dispatch(tokens, registry) == Success(Step([], true)) by {
      MatchesNone(registry, Lower(tokens[0]), tokens);
    }
    SessionStep(inputs, registry, Step([], true));
    assert [] + [BlankLine] == [BlankLine];
  }

  /** One line that neither fails nor calls `exit`: its events, then the rest of the session. */
  lemma SessionStep(inputs: seq<seq<string>>, registry: seq<Command>, step: Step)
    requires inputs != [] && Dispatch(inputs[0], registry) == Success(step)
    requires !UpToExit(step.invoked).1
    ensures Session(inputs, registry)
         == Then(Events(step.invoked) + (if step.separator then [BlankLine] else []), Session(inputs[1..], registry))
  {
  }

  /** Empty lines call nothing and print nothing; the session ends only when the input does. */
  lemma RunEmptyLines(lines: seq<string>)
    requires forall k :: 0 <= k < |lines| ==> lines[k] == ""
    ensures Run(lines, Registry) == Outcome([], EndOfInput)
  {
    ExamplePlain();
    SessionBlank(TokenLists(lines));
  }

  lemma {:induction false} SessionBlank(inputs: seq<seq<string>>)
    requires forall k :: 0 <= k < |inputs| ==> inputs[k] == [""]
    ensures Session(inputs, Registry) == Outcome([], EndOfInput)
  {
    if inputs != [] {
      assert Lower("") == "";
      MatchesNone(Registry, "", [""]);
      assert UpToExit([]) == ([], false);
      SessionBlank(inputs[1..]);
    }
  }

  /** A session that ends by `exit` ends on the call of the `exit` handler. */
  lemma {:induction false} SessionExitIsLast(inputs: seq<seq<string>>, registry: seq<Command>)
    requires Session(inputs, registry).stop == Exited
    ensures var e := Session(inputs, registry).events;
      e != [] && e[|e| - 1].Invoked? && e[|e| - 1].call.handler == Exit
  {
    var step := Dispatch(inputs[0], registry).value;
    if !UpToExit(step.invoked).1 {
      SessionExitIsLast(inputs[1..], registry);
    }
  }

  /** A line whose first fragment opens a span that is never closed ends the session with `IndexError`. */
  lemma RunCrash(m: string, rest: seq<string>, registry: seq<Command>)
    requires '"' !in m && m != [] && m[0] != ' '
    ensures Run(["\"" + m] + rest, registry) == Outcome([], IndexErrorRaised)
  {
    UnterminatedQuote("", m);
    TokenListsCons("\"" + m, rest);
  }
}
