# Cookbook.py in Dafny

Cookbook.py is an interactive command-line program that keeps recipes and a
stock of ingredients. A read-eval-print loop reads one line, splits it into
arguments with `splitUserInput`, lower-cases argument 0, and calls the
handler registered under that name in `COMMANDS`. The handlers prompt for
whatever else they need and update the user data.

This project models the parts of the program that are logic rather than
console I/O:

- `strings.dfy` (`Strings`): the Python string built-ins the program relies on.
  These are `split(" ")`, `" ".join`, `lower()`, `strip()` and the decimal
  rendering of an `int` in an f-string.
- `tokenizer.dfy` (`Tokenizer`): `splitUserInput`. `Tok` is a recursive
  reference definition. `SplitUserInput` is the program's own loop, with
  `openQuoteLoc`, proved to compute it.
- `commands.dfy` (`Commands`): the `COMMANDS` registry and one turn of `main`.
  It models the lower-casing, the loop over the registry that calls every
  entry with the matching name, the blank line printed after a non-empty
  command, and the `IndexError` raised on an empty token list. It also
  models the whole session over a sequence of input lines: `Session` is the
  specification, and `Repl` is the loop as written.
- `cookbook.dfy` (`Cookbook`): the `Ingredient` class and the `Recipe` record.
  It also covers `Recipe.numberedSteps`, the `isEmpty` helper, the choice
  between argument 1 and a prompted name, and the user data with the
  find-or-create-and-add step of `newStockCommand`. `UserData` is a class
  whose `stock` holds `Ingredient` objects; the `amount` of an ingredient is
  updated in place, as in the program.

Values the program reads with `input()` are parameters. The name prompt of
`newRecipeCommand` and `newStockCommand` asks again after every blank
answer, so its answers are a sequence: the first non-blank one is the name.
If the answers run out first, `input()` raises `EOFError` and the program
ends. The model's `NewRecipe` and `NewStockCommand` return `false` and `None`
in that case and change nothing. The session model does not follow that
exception (see `Commands.Session` under "## Left out").

Some behaviours of the program are easy to misread; the model follows the
code:

- A fragment that is a lone `"` both starts and ends with a quote, so
  `splitUserInput` turns it into the empty argument. It does not open a
  quoted span.
- The fragments of a quoted span are re-joined with one space each, and the
  empty fragments produced by runs of spaces are joined too. So the spacing
  inside quotes is reproduced exactly as typed; it is not collapsed.
- A span that is still open at the end of the line yields nothing. For
  example, `"unterminated value` gives no arguments at all, not
  `["unterminated"]`.
- An empty argument list makes `uIn[0]` raise `IndexError`. This ends the
  session, and it is modelled as the stop reason `IndexErrorRaised`.

## Model

| member | source | states |
|---|---|---|
| Strings.Split | Cookbook.py:298 | `split(" ")` yields one fragment more than the text has separators, and no fragment holds a separator |
| Strings.JoinSplit | Cookbook.py:298 | joining the fragments of a split with the separator gives the text back |
| Strings.SplitJoin | Cookbook.py:323 | fragments without separators split back to themselves after being joined |
| Strings.SplitConcat | Cookbook.py:298 | splitting `a + sep + b` gives the fragments of `a` followed by those of `b` |
| Strings.Strip | Cookbook.py:62 | `strip()` gives `""` exactly when every character is whitespace, and otherwise a text that starts and ends with a non-whitespace character |
| Strings.Join | Cookbook.py:323 | `" ".join` is as long as its parts together plus one separator between each pair of neighbours |
| Strings.JoinCount | Cookbook.py:323 | parts without separators give exactly one separator fewer than there are parts |
| Strings.Lower | Cookbook.py:341 | the model's `lower()` keeps the length, turns each ASCII capital into its small letter and the Kelvin sign into `k`, leaves none of those capitals, and keeps every other character |
| Strings.LowerMatches | Cookbook.py:341-344 | for a name in small ASCII letters, the lower case of a text is that name exactly when the text has its length and each character is the letter, its capital, or (for `k`) the Kelvin sign |
| Strings.LowerIsLower | Cookbook.py:341 | `lower()` leaves no character whose lower case is an ASCII letter other than itself (the ASCII capitals and the Kelvin sign), and is idempotent |
| Strings.Decimal | Cookbook.py:33 | `f"{n}"` is a non-empty string of digits with no leading zero unless `n == 0` |
| Strings.DecimalRoundTrip | Cookbook.py:33 | reading the rendered digits back gives the number |
| Tokenizer.Unquote | Cookbook.py:313 | `x[1:len(x) - 1]` is `x` without its first and last characters, and empty when `x` is shorter than 2 |
| Tokenizer.FindClose | Cookbook.py:321-327 | finds the first fragment after the opener that ends with `"`, or reports that none does |
| Tokenizer.Tok | Cookbook.py:304-329 | the loop's rule on a fragment list gives at most one argument per fragment |
| Tokenizer.Tokenize | Cookbook.py:284-329 | a line never gives more arguments than it has fragments, i.e. spaces + 1 |
| Tokenizer.SplitUserInput | Cookbook.py:304-329 | the loop with `openQuoteLoc` returns exactly `Tokenize(line)` |
| Tokenizer.TokSingle | Cookbook.py:309-319 | outside a span, a fragment that opens none is one argument: as it stands, or without its outer characters when it starts and ends with `"` |
| Tokenizer.TokSpan | Cookbook.py:321-327 | a span closed by fragment `j` is one argument: fragments `0..j` joined by spaces, without the outer quotes, followed by the arguments of the rest |
| Tokenizer.TokUnclosed | Cookbook.py:316-329 | a span that is never closed yields no argument |
| Tokenizer.PlainPrefix | Cookbook.py:317-319 | fragments that do not start with `"` pass through unchanged, in order |
| Tokenizer.TokenizeWithoutQuotes | Cookbook.py:298-319 | a line without `"` gives exactly its split on single spaces |
| Tokenizer.SelfClosingFragment | Cookbook.py:310-313 | a fragment that starts and ends with `"` gives its text without the outer characters; a lone `"` gives `""` |
| Tokenizer.LoneQuote | Cookbook.py:310-313 | `a " b` gives the words of `a`, then `""`, then the arguments of `b` |
| Tokenizer.QuotedSpan | Cookbook.py:316-327 | the fragments of `"m"` give the single argument `m`, space runs included, whenever `m` has no `"` and does not start with a space |
| Tokenizer.QuotedArgument | Cookbook.py:298-327 | `a "m" b` gives the words of `a`, then `m`, then the arguments of `b` |
| Tokenizer.QuotedAtEnd | Cookbook.py:298-327 | `a "m"` at the end of a line gives the words of `a`, then `m` |
| Tokenizer.QuotedAfterWord | Cookbook.py:298-327 | a single word `a` followed by `"m"` gives exactly `[a, m]` |
| Tokenizer.QuotedLine | Cookbook.py:316-327 | a whole line `"m"` is the one argument `m` |
| Tokenizer.QuotedBetweenWords | Cookbook.py:298-327 | `a "m" d` with single words `a` and `d` gives exactly `[a, m, d]` |
| Tokenizer.OpenSpanDropped | Cookbook.py:316-329 | the fragments of `"m` never closed give `[]`, for a quote-free non-empty `m` that does not start with a space (`Commands.LineCrashes` covers every line) |
| Tokenizer.UnterminatedQuote | Cookbook.py:316-329 | `a "m...` with no closing quote gives only the words of `a`, and `"m...` alone gives `[]` |
| Tokenizer.TokensInOrder | Cookbook.py:304-329 | every argument is a piece of the line, and the arguments occur left to right without overlapping |
| Tokenizer.IntendedAgrees | Cookbook.py:309-316 | the corrected tokenizer differs from the program only on fragments that are a lone `"` |
| Tokenizer.IntendedQuotedLine | Cookbook.py:310-316 | in the corrected tokenizer, `"m"` is the one argument `m` for every quote-free `m`, leading spaces included |
| Tokenizer.LeadingSpaceInQuotes | Cookbook.py:310-313 | the program turns `" x"` into `["", "x\""]`, while the corrected tokenizer gives `[" x"]` |
| Tokenizer.ExamplePlain | Cookbook.py:298 | `""` gives `[""]` and `help` gives `["help"]` |
| Tokenizer.ExampleSpaceRun | Cookbook.py:298 | `a  b` gives `["a", "", "b"]` |
| Tokenizer.ExampleQuotedMiddle | Cookbook.py:316-327 | `a "b c" d` gives `["a", "b c", "d"]` |
| Tokenizer.ExampleQuotedLast | Cookbook.py:316-327 | `newrecipe "Banana Bread"` gives `["newrecipe", "Banana Bread"]` |
| Tokenizer.ExampleUnterminated | Cookbook.py:316-329 | `"a b` gives `[]` |
| Commands.RegistryWellFormed | Cookbook.py:271-278 | the registry has six entries with distinct, lower-case names |
| Commands.Matches | Cookbook.py:343-345 | every call made for a line receives the whole token list, and there are at most as many calls as entries |
| Commands.MatchesAppend | Cookbook.py:343-345 | the calls for two parts of the registry are those of the first part followed by those of the second |
| Commands.MatchesNone | Cookbook.py:343-345 | when no entry has the name, nothing is called |
| Commands.MatchesSome | Cookbook.py:343-345 | a call happens only for a name the registry holds |
| Commands.MatchesFinds | Cookbook.py:343-345 | an entry with the name is always called |
| Commands.MatchesUnique | Cookbook.py:343-345 | with distinct names, the matching entry is called exactly once and nothing else is |
| Commands.Dispatch | Cookbook.py:341-348 | a turn fails exactly when the token list is empty, and prints the blank line exactly when token 0 is not `""` |
| Commands.DispatchFires | Cookbook.py:341-348 | the entry named `lower(tokens[0])` fires once, with the whole token list |
| Commands.DispatchNothing | Cookbook.py:341-345 | nothing is called if and only if no entry is named `lower(tokens[0])` |
| Commands.DispatchUpperCase | Cookbook.py:341-345 | `EXIT` runs `exit` and `NewStock flour` runs `newstock` with both tokens |
| Commands.DispatchKelvinSign | Cookbook.py:341-345 | `newstoc` followed by the Kelvin sign U+212A runs `newstock`, since `lower()` turns that sign into `k` |
| Commands.RegistryLetters | Cookbook.py:271-278 | every `COMMANDS` key is non-empty and spelled in small ASCII letters |
| Commands.DispatchAnyCase | Cookbook.py:341-345 | a registered command typed in any mix of cases, with the Kelvin sign for `k`, runs that command's handler once with every token, and the blank line follows |
| Commands.DispatchUnknown | Cookbook.py:341-348 | `quit` calls nothing but prints the blank line, and `""` calls nothing and prints nothing |
| Commands.LineCrashes | Cookbook.py:339-341 | a line makes `uIn[0]` fail exactly when its first fragment opens a span that is never closed |
| Commands.UpToExit | Cookbook.py:82-83 | the calls of a line stop after the first `exit`; when there is none, all of them happen |
| Commands.UpToExitAt | Cookbook.py:82-83 | an `exit` after calls that are not `exit` is the last call of the line |
| Commands.CallHandlers | Cookbook.py:343-345 | the loop over `COMMANDS` makes the calls `UpToExit` describes |
| Commands.Session | Cookbook.py:338-348 | for each line, its calls up to the first `exit`, then the blank line when token 0 is not empty; `IndexErrorRaised` on an empty token list. Every call gets one of the token lists |
| Commands.SessionStops | Cookbook.py:339-341 | the session stops with `IndexErrorRaised` only if some token list is empty, and runs to the end of input only if none is |
| Commands.Run | Cookbook.py:338-348 | on input lines: every call gets the tokens of one line, `IndexErrorRaised` needs a line without tokens, and the input runs out only when every line has tokens |
| Commands.Repl | Cookbook.py:338-348 | the loop of `main` produces exactly the events and stop reason of `Run` |
| Commands.RunExit | Cookbook.py:82-83 | `exit` on the first line ends the session after that one call, whatever input follows |
| Commands.SessionExit | Cookbook.py:341-345 | a token list whose command is `exit` ends the session with the call of the `exit` handler |
| Commands.SessionUnknown | Cookbook.py:341-348 | an unknown non-empty command adds only the blank line before the rest of the session |
| Commands.RunEmptyLines | Cookbook.py:339-348 | empty lines call nothing and print nothing, and the session ends only when the input does |
| Commands.SessionBlank | Cookbook.py:341-348 | token lists `[""]` call nothing and print nothing |
| Commands.SessionExitIsLast | Cookbook.py:82-83 | a session that ends by `exit` ends with the call of the `exit` handler |
| Commands.RunCrash | Cookbook.py:339-341 | a line `"m...` with no closing quote ends the session with `IndexError` |
| Cookbook.IsEmpty | Cookbook.py:61-62 | `isEmpty` holds exactly when every character is whitespace |
| Cookbook.Ingredient.constructor | Cookbook.py:11-14 | a new ingredient holds the given name, unit and amount |
| Cookbook.Recipe.NumberedSteps | Cookbook.py:27-35 | the loop returns `StepList(steps)`: one line per step, numbered from 1 |
| Cookbook.StepList | Cookbook.py:30-35 | the text of `numberedSteps` is empty exactly when there are no steps, and otherwise ends with a newline; steps without newlines give exactly one newline each |
| Cookbook.StepListJoin | Cookbook.py:27-35 | for a non-empty recipe, the text is the numbered lines joined by newlines, plus a final newline |
| Cookbook.StepListLines | Cookbook.py:27-35 | when no step holds a newline, splitting the text on newlines gives `"{k + 1}. {steps[k]}"` for each step, then `""` |
| Cookbook.FirstNonBlank | Cookbook.py:111-118 | finds the first non-blank answer; every answer before it is blank, and none is found only when every answer is blank |
| Cookbook.ChosenName | Cookbook.py:109-134 | the name is argument 1 when there is one that is not blank, otherwise the first non-blank answer to the prompt; it is never blank, and there is none only when every answer is blank |
| Cookbook.AskName | Cookbook.py:109-134 | the prompt loop, asked again after each blank answer, returns `ChosenName` |
| Cookbook.FirstNamed | Cookbook.py:234-237 | the index found is that of the first ingredient with the name, or none has the name |
| Cookbook.UserData.constructor | Cookbook.py:52-55 | the user data starts with no recipes and no stock |
| Cookbook.UserData.Find | Cookbook.py:234-237 | the search loop returns `FirstNamed` of the stock |
| Cookbook.UserData.Append | Cookbook.py:248-249 | appending a new ingredient adds its value at the end and changes nothing else |
| Cookbook.UserData.Increase | Cookbook.py:267 | `ingredient.amount += amount` changes only that ingredient's amount |
| Cookbook.UserData.AddStock | Cookbook.py:234-267 | the stock becomes `AddToStock` of the old stock, the recipes stay, and the ingredient returned is in the stock under that name |
| Cookbook.UserData.NewStockCommand | Cookbook.py:207-267 | `newStockCommand` adds to the stock under the chosen name and keeps the recipes; when the input ends before a name, nothing changes |
| Cookbook.UserData.NewRecipe | Cookbook.py:106-178 | the recipe under the chosen name goes at the end, so it is listed last, and the stock is unchanged; when the input ends before a name, nothing is created |
| Cookbook.AddToStock | Cookbook.py:234-267 | for a known name, only the first ingredient with that name changes, by `amount`, and the stock keeps its length; for a new name, `(name, unit, amount)` is appended once |
| Cookbook.AddToStockTotal | Cookbook.py:234-267 | the total of the added ingredient rises by `amount`; every other ingredient's total is unchanged |
| Cookbook.AddToStockFinds | Cookbook.py:234-249 | afterwards the name is found: at its old index, or at the end when it was new |
| Cookbook.AddToStockTwice | Cookbook.py:234-267 | adding `a` and then `b` to one ingredient equals adding `a + b` once |
| Cookbook.TotalUpdate | Cookbook.py:267 | changing one entry's amount changes the total for its name by the difference and leaves other totals unchanged |

## Left out

- Console I/O: every `input()` and `print()` call. Answers to prompts are
  parameters. What `main` prints is recorded only as the calls it makes and
  the blank line it prints after a command.
- The start-up banner of `main` (`commandAppInfo("")`) and the text
  `commandAppInfo` prints. They are presentation only.
- `commandHelp`'s column padding `{cmdName:<100}`. The help texts are kept
  in `Registry`, but the formatting is not modelled.
- `exit()` terminates the process. It is modelled as the stop reason
  `Exited`, and as the last event of the session.
- Handlers are opaque inside the session model: `Session` records which
  handler is called with which tokens. It does not model the input lines a
  handler reads with its own prompts, nor what it changes. The data side of
  `newRecipeCommand`, `recipesCommand` and `newStockCommand` is modelled
  separately in `Cookbook.UserData`.
- The end of input: `input()` raising `EOFError` at the end of standard
  input is modelled as the stop reason `EndOfInput`.
- Commands.Session: every handler other than `exit` is assumed to return. A
  handler that raises (for example `EOFError` when the input ends inside one
  of its prompts) ends the program at once, without the blank line. The
  session model records that call, then the blank line, and goes on with
  the next line.
- `canFloat` and `float()` parsing. Both rest on floating-point parsing
  inside the Python library, so amounts arrive as parameters.
- The ingredient prompt loop of `newRecipeCommand` (Cookbook.py:139-164). Its
  "amount unit" parsing rests on `canFloat`, so the finished ingredient list
  is a parameter. The steps prompt loop (Cookbook.py:168-176) is likewise
  represented by its finished list.
- Cookbook.UserData.AddStock: amounts are mathematical reals, not IEEE
  doubles, so float rounding in `ingredient.amount += amount` is not modelled.
- Strings.Lower: `lower()` is modelled only on the characters whose lower
  case is an ASCII letter: the ASCII capitals and the Kelvin sign U+212A.
  Python lower-cases other letters too, but their lower case is not ASCII,
  and for U+0130 it is two characters long, so Python's `lower()` does not
  always keep the length. The registry names are ASCII, so a lower-cased
  command matches a registry name in the model exactly when it does in the
  program.
- Strings.LowerIsLower: "no capital is left" and idempotence are stated for
  the same covered characters only, for the reason given for `Strings.Lower`.
- `Ingredient.__str__` returns a dict rather than a string. Python would
  reject it if it were ever called, and nothing calls it.
- The module-level globals `UserData` and `APP_DATA`. The user data is an
  object passed explicitly, and `APP_DATA` only feeds the banner.
- The unused imports at Cookbook.py:1-2.
- The unit prompt of `newStockCommand` re-asks until the unit is not blank.
  The model takes the accepted unit as a parameter and does not require it
  to be non-blank.

## Findings

| source | as written | input that shows it | evidently intended | confidence | as-written member | corrected member |
|---|---|---|---|---|---|---|
| Cookbook.py:310-313 | a fragment that is a lone `"` counts as both opening and closing a quote, so it becomes an empty argument and never opens a span | the line `" x"` (a quoted text that begins with a space) gives `["", "x\""]` | a quoted argument whose text begins with a space is one argument: `[" x"]`; a self-closing fragment needs length 2 or more | medium, not executed | Tokenizer.LeadingSpaceInQuotes | Tokenizer.IntendedQuotedLine |

`TokenizeIntended` is the corrected tokenizer, and `IntendedAgrees` shows
that it differs from the program only on fragments that are a lone `"`. The
session model (`SplitUserInput`, `Repl`, `Run`) keeps the program's
behaviour, because that is what the program does on every line.
