/**
 * The command-line tokenizer `splitUserInput` (Cookbook.py:284-329).
 *
 * A line is split on single spaces; the fragments are then scanned left to
 * right. Outside a quoted span a fragment that starts and ends with `"` is
 * one argument without its outer characters, a fragment that only starts
 * with `"` opens a span, and every other fragment is an argument as it
 * stands. Inside a span fragments are held back until one ends with `"`;
 * the fragments of the span are then joined with single spaces and the
 * outer characters of the joined text are dropped. A span still open at
 * the end of the line yields nothing.
 *
 * `Tok` is the reference definition, recursive over the fragments;
 * `SplitUserInput` is the program's loop, proved to compute it.
 */
module Tokenizer {
  import opened Wrappers
  import opened Strings

  predicate StartsQuote(x: string)
  {
    |x| > 0 && x[0] == '"'
  }

  predicate EndsQuote(x: string)
  {
    |x| > 0 && x[|x| - 1] == '"'
  }

  /** Python's `s[1:len(s) - 1]`: the text without its first and last characters. */
  function Unquote(s: string): (r: string)
    ensures |s| >= 2 ==> s == [s[0]] + r + [s[|s| - 1]]
    ensures |s| < 2 ==> r == []
  {
    if |s| < 2 then [] else s[1..|s| - 1]
  }

  /**
   * Whether a fragment met outside a span opens one. The program treats a
   * lone `"` as starting and ending with a quote, so it never opens a span
   * (`loneQuoteOpens == false`); the corrected tokenizer lets it open one.
   */
  predicate Opens(x: string, loneQuoteOpens: bool)
  {
    StartsQuote(x) && (!EndsQuote(x) || (loneQuoteOpens && |x| == 1))
  }

  /** The first fragment at or after `from` that ends with a quote: the one that closes a span. */
  function FindClose(frags: seq<string>, from: nat): (r: Option<nat>)
    decreases |frags| - from
    ensures r.Some? ==> from <= r.value < |frags| && EndsQuote(frags[r.value])
    ensures r.Some? ==> forall j :: from <= j < r.value ==> !EndsQuote(frags[j])
    ensures r.None? ==> forall j :: from <= j < |frags| ==> !EndsQuote(frags[j])
  {
    if from >= |frags| then None
    else if EndsQuote(frags[from]) then Some(from)
    else FindClose(frags, from + 1)
  }

  lemma FindCloseAt(frags: seq<string>, from: nat, j: nat)
    requires from <= j < |frags| && EndsQuote(frags[j])
    requires forall m :: from <= m < j ==> !EndsQuote(frags[m])
    ensures FindClose(frags, from) == Some(j)
  {
  }

  /** The tokens of a list of fragments. */
  function Tok(frags: seq<string>, loneQuoteOpens: bool): (r: seq<string>)
    decreases |frags|
    ensures |r| <= |frags|
  {
    if frags == [] then []
    else if !StartsQuote(frags[0]) then [frags[0]] + Tok(frags[1..], loneQuoteOpens)
    else if !Opens(frags[0], loneQuoteOpens) then [Unquote(frags[0])] + Tok(frags[1..], loneQuoteOpens)
    else match FindClose(frags, 1)
      case None => []
      case Some(j) => [Unquote(Join(frags[..j + 1], ' '))] + Tok(frags[j + 1..], loneQuoteOpens)
  }

  /** What `splitUserInput` returns for a line; never more tokens than the line has fragments. */
  function Tokenize(line: string): (r: seq<string>)
    ensures |r| <= Count(line, ' ') + 1
  {
    Tok(Split(line, ' '), false)
  }

  /** The corrected tokenizer, in which a lone `"` opens a span. */
  function TokenizeIntended(line: string): (r: seq<string>)
    ensures |r| <= Count(line, ' ') + 1
  {
    Tok(Split(line, ' '), true)
  }

  /** Outside a span, a fragment that opens none is a token of its own. */
  lemma TokSingle(frags: seq<string>, loneQuoteOpens: bool)
    requires frags != [] && !Opens(frags[0], loneQuoteOpens)
    ensures Tok(frags, loneQuoteOpens) ==
      [if StartsQuote(frags[0]) then Unquote(frags[0]) else frags[0]] + Tok(frags[1..], loneQuoteOpens)
  {
  }

  /** A span opened by the first fragment and closed by fragment `j` is one token. */
  lemma TokSpan(frags: seq<string>, loneQuoteOpens: bool, j: nat)
    requires 1 <= j < |frags| && Opens(frags[0], loneQuoteOpens) && EndsQuote(frags[j])
    requires forall m :: 1 <= m < j ==> !EndsQuote(frags[m])
    ensures Tok(frags, loneQuoteOpens) == [Unquote(Join(frags[..j + 1], ' '))] + Tok(frags[j + 1..], loneQuoteOpens)
  {
    FindCloseAt(frags, 1, j);
  }

  /** A span opened by the first fragment and never closed yields nothing. */
  lemma TokUnclosed(frags: seq<string>, loneQuoteOpens: bool)
    requires frags != [] && Opens(frags[0], loneQuoteOpens)
    requires forall m :: 1 <= m < |frags| ==> !EndsQuote(frags[m])
    ensures Tok(frags, loneQuoteOpens) == []
  {
  }

  /** The token a fragment that opens no span stands for. */
  function Single(x: string): string
  {
    if StartsQuote(x) then Unquote(x) else x
  }

  /** Loop step: outside a span, fragment `i` becomes a token of its own. */
  lemma OutsideStep(frags: seq<string>, i: nat, acc: seq<string>, loneQuoteOpens: bool)
    requires i < |frags| && !Opens(frags[i], loneQuoteOpens)
    ensures acc + Tok(frags[i..], loneQuoteOpens) == (acc + [Single(frags[i])]) + Tok(frags[i + 1..], loneQuoteOpens)
  {
    assert frags[i..][1..] == frags[i + 1..];
    TokSingle(frags[i..], loneQuoteOpens);
  }

  /** Loop step: fragment `i` closes the span opened at fragment `k`. */
  lemma CloseStep(frags: seq<string>, k: nat, i: nat, acc: seq<string>, loneQuoteOpens: bool)
    requires k < i < |frags| && Opens(frags[k], loneQuoteOpens) && EndsQuote(frags[i])
    requires forall j :: k < j < i ==> !EndsQuote(frags[j])
    ensures acc + Tok(frags[k..], loneQuoteOpens)
         == (acc + [Unquote(Join(frags[k..i + 1], ' '))]) + Tok(frags[i + 1..], loneQuoteOpens)
  {
    SpanCloses(frags, k, i, loneQuoteOpens);
  }

  lemma SpanCloses(frags: seq<string>, k: nat, i: nat, loneQuoteOpens: bool)
    requires k < i < |frags| && Opens(frags[k], loneQuoteOpens) && EndsQuote(frags[i])
    requires forall j :: k < j < i ==> !EndsQuote(frags[j])
    ensures Tok(frags[k..], loneQuoteOpens)
         == [Unquote(Join(frags[k..i + 1], ' '))] + Tok(frags[i + 1..], loneQuoteOpens)
  {
    var span := frags[k..];
    forall m | 1 <= m < i - k ensures !EndsQuote(span[m]) {
      assert span[m] == frags[k + m];
    }
    TokSpan(span, loneQuoteOpens, i - k);
    assert span[..i - k + 1] == frags[k..i + 1];
    assert span[i - k + 1..] == frags[i + 1..];
  }

  /** Loop exit: a span opened at fragment `k` and never closed yields nothing. */
  lemma UnclosedAtEnd(frags: seq<string>, k: nat, loneQuoteOpens: bool)
    requires k < |frags| && Opens(frags[k], loneQuoteOpens)
    requires forall j :: k < j < |frags| ==> !EndsQuote(frags[j])
    ensures Tok(frags[k..], loneQuoteOpens) == []
  {
    var span := frags[k..];
    forall m | 1 <= m < |span| ensures !EndsQuote(span[m]) {
      assert span[m] == frags[k + m];
    }
    TokUnclosed(span, loneQuoteOpens);
  }

  /** The loop of `splitUserInput`, with `openQuoteLoc == -1` meaning "outside a span". */
  method SplitUserInput(line: string) returns (result: seq<string>)
    ensures result == Tokenize(line)
  {
    var fragments := Split(line, ' ');
    ghost var tokens := Tok(fragments, false);
    result := [];
    var openQuoteLoc := -1;
    for i := 0 to |fragments|
      invariant -1 <= openQuoteLoc < i
      invariant openQuoteLoc == -1 ==> result + Tok(fragments[i..], false) == tokens
      invariant openQuoteLoc != -1 ==>
        && Opens(fragments[openQuoteLoc], false)
        && (forall j :: openQuoteLoc < j < i ==> !EndsQuote(fragments[j]))
        && result + Tok(fragments[openQuoteLoc..], false) == tokens
    {
      var x := fragments[i];
      if openQuoteLoc == -1 {
        if StartsQuote(x) {
          if EndsQuote(x) {
            OutsideStep(fragments, i, result, false);
            result := result + [Unquote(x)];
          } else {
            openQuoteLoc := i;
          }
        } else {
          OutsideStep(fragments, i, result, false);
          result := result + [x];
        }
      } else if EndsQuote(x) {
        CloseStep(fragments, openQuoteLoc, i, result, false);
        var arg := Join(fragments[openQuoteLoc..i + 1], ' ');
        arg := Unquote(arg);
        openQuoteLoc := -1;
        result := result + [arg];
      }
    }
    if openQuoteLoc != -1 {
      UnclosedAtEnd(fragments, openQuoteLoc, false);
    }
    assert fragments[|fragments|..] == [];
  }

  /** Fragments that do not start with a quote pass through as tokens. */
  lemma {:induction false} PlainPrefix(pre: seq<string>, rest: seq<string>, loneQuoteOpens: bool)
    requires forall k :: 0 <= k < |pre| ==> !StartsQuote(pre[k])
    ensures Tok(pre + rest, loneQuoteOpens) == pre + Tok(rest, loneQuoteOpens)
  {
    if pre != [] {
      var all := pre + rest;
      assert all[0] == pre[0];
      assert all[1..] == pre[1..] + rest;
      TokSingle(all, loneQuoteOpens);
      assert Tok(all, loneQuoteOpens) == [pre[0]] + Tok(pre[1..] + rest, loneQuoteOpens);
      PlainPrefix(pre[1..], rest, loneQuoteOpens);
      assert pre + Tok(rest, loneQuoteOpens) == [pre[0]] + (pre[1..] + Tok(rest, loneQuoteOpens));
    } else {
      assert pre + rest == rest;
    }
  }

  /** A line without a quote character tokenizes to its split on single spaces. */
  lemma TokenizeWithoutQuotes(line: string)
    requires '"' !in line
    ensures Tokenize(line) == Split(line, ' ')
  {
    var frags := Split(line, ' ');
    SplitKeepsOut(line, '"', ' ');
    PlainPrefix(frags, [], false);
    assert frags + [] == frags;
  }

  /**
   * Outside a span, a fragment that starts and ends with a quote is one
   * token without its outer characters; a lone `"` is the empty token.
   */
  lemma SelfClosingFragment(x: string, rest: seq<string>)
    requires StartsQuote(x) && EndsQuote(x)
    ensures Tok([x] + rest, false) == [Unquote(x)] + Tok(rest, false)
    ensures x == "\"" ==> Tok([x] + rest, false) == [""] + Tok(rest, false)
  {
    assert ([x] + rest)[1..] == rest;
    TokSingle([x] + rest, false);
  }

  /** The fragments of `"m"` are those of `m`, with the quotes stuck to the first and the last. */
  lemma SplitQuoted(m: string)
    ensures var f := Split(m, ' ');
            var g := Split(['"'] + m + ['"'], ' ');
            && (|f| == 1 ==> g == [['"'] + f[0] + ['"']])
            && (|f| > 1 ==> g == [['"'] + f[0]] + f[1..|f| - 1] + [f[|f| - 1] + ['"']])
  {
    var f := Split(m, ' ');
    var fx := Split(m + ['"'], ' ');
    SplitSnoc(m, '"', ' ');
    QuoteHead(m + ['"']);
    assert ['"'] + (m + ['"']) == ['"'] + m + ['"'];
    QuotedFragments(f, fx);
  }

  lemma QuotedFragments(f: seq<string>, fx: seq<string>)
    requires f != [] && fx == f[..|f| - 1] + [f[|f| - 1] + ['"']]
    ensures var g := [['"'] + fx[0]] + fx[1..];
            && (|f| == 1 ==> g == [['"'] + f[0] + ['"']])
            && (|f| > 1 ==> g == [['"'] + f[0]] + f[1..|f| - 1] + [f[|f| - 1] + ['"']])
  {
    if |f| == 1 {
      assert fx == [f[0] + ['"']];
      assert ['"'] + (f[0] + ['"']) == ['"'] + f[0] + ['"'];
    } else {
      assert fx[0] == f[0];
      assert fx[1..] == f[1..|f| - 1] + [f[|f| - 1] + ['"']];
    }
  }

  /** A leading quote sticks to the first fragment. */
  lemma QuoteHead(x: string)
    ensures Split(['"'] + x, ' ') == [['"'] + Split(x, ' ')[0]] + Split(x, ' ')[1..]
  {
    assert (['"'] + x)[1..] == x;
  }

  /** No fragment of quote-free text starts or ends with a quote. */
  lemma QuoteFreeFragments(m: string)
    requires '"' !in m
    ensures forall k :: 0 <= k < |Split(m, ' ')| ==>
      !StartsQuote(Split(m, ' ')[k]) && !EndsQuote(Split(m, ' ')[k])
  {
    SplitKeepsOut(m, '"', ' ');
    forall k | 0 <= k < |Split(m, ' ')|
      ensures !StartsQuote(Split(m, ' ')[k]) && !EndsQuote(Split(m, ' ')[k])
    {
      var f := Split(m, ' ')[k];
      if f != [] {
        assert f[0] in f && f[|f| - 1] in f;
      }
    }
  }

  /**
   * The fragments of `"m"`, for a quote-free `m`, make one token whose text
   * is exactly `m`, space runs included. In the program this needs `m` not
   * to begin with a space; in the corrected tokenizer it holds for every `m`.
   */
  lemma QuotedSpan(m: string, rest: seq<string>, loneQuoteOpens: bool)
    requires '"' !in m
    requires loneQuoteOpens || m == [] || m[0] != ' '
    ensures Tok(Split(['"'] + m + ['"'], ' ') + rest, loneQuoteOpens) == [m] + Tok(rest, loneQuoteOpens)
  {
    var q := ['"'] + m + ['"'];
    var f := Split(m, ' ');
    var n := |f|;
    var g := Split(q, ' ');
    SplitQuoted(m);
    QuoteFreeFragments(m);
    JoinSplit(q, ' ');
    var all := g + rest;
    assert |g| == n;
    assert all[..n] == g && all[n..] == rest;
    assert Unquote(q) == m;
    if n == 1 {
      JoinSplit(m, ' ');
      assert g == [q];
      assert all[1..] == rest;
      TokSingle(all, loneQuoteOpens);
    } else {
      assert all[0] == ['"'] + f[0];
      if f[0] == [] {
        SplitFirstEmpty(m, ' ');
      }
      assert Opens(all[0], loneQuoteOpens);
      var middle := f[1..n - 1];
      assert g == [['"'] + f[0]] + middle + [f[n - 1] + ['"']];
      forall k | 1 <= k < n - 1 ensures !EndsQuote(all[k]) {
        calc {
          all[k];
          g[k];
          middle[k - 1];
          f[k];
        }
      }
      assert all[n - 1] == f[n - 1] + ['"'];
      TokSpan(all, loneQuoteOpens, n - 1);
    }
  }

  /** A lone quote among quote-free words becomes an empty argument. */
  lemma LoneQuote(a: string, b: string)
    requires '"' !in a
    ensures Tokenize(a + " \" " + b) == Split(a, ' ') + [""] + Tokenize(b)
  {
    var fa := Split(a, ' ');
    var fb := Split(b, ' ');
    LoneQuoteFragments(a, b);
    QuoteFreeFragments(a);
    PlainPrefix(fa, ["\""] + fb, false);
    SelfClosingFragment("\"", fb);
  }

  lemma LoneQuoteFragments(a: string, b: string)
    ensures Split(a + " \" " + b, ' ') == Split(a, ' ') + (["\""] + Split(b, ' '))
  {
    assert a + " \" " + b == a + [' '] + "\"" + [' '] + b;
    SplitAround(a, "\"", b);
    SplitWithoutSeparator("\"", ' ');
  }

  lemma SplitAround(a: string, q: string, b: string)
    ensures Split(a + [' '] + q + [' '] + b, ' ') == Split(a, ' ') + Split(q, ' ') + Split(b, ' ')
  {
    assert a + [' '] + q + [' '] + b == a + [' '] + (q + [' '] + b);
    SplitConcat(a, q + [' '] + b, ' ');
    SplitConcat(q, b, ' ');
  }

  lemma LineShape(a: string, m: string, b: string)
    ensures a + " \"" + m + "\" " + b == a + [' '] + (['"'] + m + ['"']) + [' '] + b
  {
  }

  /** `a "m" b` gives the words of `a`, then `m` as one argument, then the tokens of `b`. */
  lemma QuotedArgument(a: string, m: string, b: string)
    requires '"' !in a && '"' !in m
    requires m == [] || m[0] != ' '
    ensures Tokenize(a + " \"" + m + "\" " + b) == Split(a, ' ') + [m] + Tokenize(b)
  {
    var q := ['"'] + m + ['"'];
    LineShape(a, m, b);
    SplitAround(a, q, b);
    QuoteFreeFragments(a);
    QuotedAfterPlain(Split(a, ' '), m, Split(b, ' '));
  }

  lemma QuotedAfterPlain(fa: seq<string>, m: string, fb: seq<string>)
    requires forall k :: 0 <= k < |fa| ==> !StartsQuote(fa[k])
    requires '"' !in m
    requires m == [] || m[0] != ' '
    ensures Tok(fa + Split(['"'] + m + ['"'], ' ') + fb, false) == fa + [m] + Tok(fb, false)
  {
    var fq := Split(['"'] + m + ['"'], ' ');
    assert fa + fq + fb == fa + (fq + fb);
    PlainPrefix(fa, fq + fb, false);
    QuotedSpan(m, fb, false);
  }

  /** `a "m"` at the end of a line gives the words of `a`, then `m` as one argument. */
  lemma QuotedAtEnd(a: string, m: string)
    requires '"' !in a && '"' !in m
    requires m == [] || m[0] != ' '
    ensures Tokenize(a + " \"" + m + "\"") == Split(a, ' ') + [m]
  {
    var q := ['"'] + m + ['"'];
    assert a + " \"" + m + "\"" == a + [' '] + q;
    SplitConcat(a, q, ' ');
    QuoteFreeFragments(a);
    QuotedAfterPlain(Split(a, ' '), m, []);
    assert Split(a, ' ') + Split(q, ' ') + [] == Split(a, ' ') + Split(q, ' ');
  }

  /** A whole line `"m"` is the single argument `m`. */
  lemma QuotedLine(m: string)
    requires '"' !in m
    requires m == [] || m[0] != ' '
    ensures Tokenize("\"" + m + "\"") == [m]
  {
    QuotedSpan(m, [], false);
    assert Split("\"" + m + "\"", ' ') + [] == Split("\"" + m + "\"", ' ');
  }

  /** A quote that is never closed drops the rest of the line. */
  lemma OpenSpanDropped(m: string, loneQuoteOpens: bool)
    requires '"' !in m && m != []
    requires loneQuoteOpens || m[0] != ' '
    ensures Tok(Split(['"'] + m, ' '), loneQuoteOpens) == []
  {
    var f := Split(m, ' ');
    QuoteFreeFragments(m);
    assert (['"'] + m)[1..] == m;
    var g := Split(['"'] + m, ' ');
    assert g == [['"'] + f[0]] + f[1..];
    if f[0] == [] {
      SplitFirstEmpty(m, ' ');
    }
    assert Opens(g[0], loneQuoteOpens);
    forall k | 1 <= k < |g| ensures !EndsQuote(g[k]) {
      assert g[k] == f[k];
    }
    TokUnclosed(g, loneQuoteOpens);
  }

  /** `a "m...` with the quote never closed gives only the words of `a`. */
  lemma UnterminatedQuote(a: string, m: string)
    requires '"' !in a && '"' !in m && m != [] && m[0] != ' '
    ensures Tokenize(a + " \"" + m) == Split(a, ' ')
    ensures Tokenize("\"" + m) == []
  {
    OpenSpanDropped(m, false);
    assert a + " \"" + m == a + [' '] + (['"'] + m);
    SplitConcat(a, ['"'] + m, ' ');
    QuoteFreeFragments(a);
    PlainPrefix(Split(a, ' '), Split(['"'] + m, ' '), false);
    assert Split(a, ' ') + [] == Split(a, ' ');
  }

  /** The tokens occur in `s` one after another, left to right, without overlapping. */
  ghost predicate InOrder(tokens: seq<string>, s: string)
    decreases |tokens|, 1
  {
    tokens == [] || exists i :: OccursAt(tokens, s, i)
  }

  /** The first token occurs in `s` at offset `i`, and the others after it. */
  ghost predicate OccursAt(tokens: seq<string>, s: string, i: int)
    requires tokens != []
    decreases |tokens|, 0
  {
    && 0 <= i <= |s| - |tokens[0]|
    && s[i..i + |tokens[0]|] == tokens[0]
    && InOrder(tokens[1..], s[i + |tokens[0]|..])
  }

  lemma ConsInOrder(t: string, ts: seq<string>, s: string, i: int)
    requires 0 <= i <= |s| - |t| && s[i..i + |t|] == t && InOrder(ts, s[i + |t|..])
    ensures InOrder([t] + ts, s)
  {
    var tokens := [t] + ts;
    assert tokens[0] == t && tokens[1..] == ts;
    assert OccursAt(tokens, s, i);
  }

  lemma InOrderPrefix(tokens: seq<string>, p: string, s: string)
    requires InOrder(tokens, s)
    ensures InOrder(tokens, p + s)
  {
    if tokens != [] {
      var t := tokens[0];
      var i :| OccursAt(tokens, s, i);
      var ps := p + s;
      assert ps[i + |p|..i + |p| + |t|] == t;
      assert ps[i + |p| + |t|..] == s[i + |t|..];
      assert OccursAt(tokens, ps, i + |p|);
    }
  }

  /** The tokens of the fragments that follow a first fragment `x` occur after `x`. */
  lemma RestInOrder(frags: seq<string>, loneQuoteOpens: bool)
    requires frags != []
    requires frags[1..] != [] ==> InOrder(Tok(frags[1..], loneQuoteOpens), Join(frags[1..], ' '))
    ensures |frags[0]| <= |Join(frags, ' ')|
    ensures InOrder(Tok(frags[1..], loneQuoteOpens), Join(frags, ' ')[|frags[0]|..])
  {
    var rest := frags[1..];
    if rest != [] {
      InOrderPrefix(Tok(rest, loneQuoteOpens), [' '], Join(rest, ' '));
      assert Join(frags, ' ')[|frags[0]|..] == [' '] + Join(rest, ' ');
    }
  }

  /** Every token is text of the joined fragments, in the order of the fragments. */
  lemma {:induction false} TokInOrder(frags: seq<string>, loneQuoteOpens: bool)
    decreases |frags|
    ensures InOrder(Tok(frags, loneQuoteOpens), Join(frags, ' '))
  {
    if frags != [] {
      if !Opens(frags[0], loneQuoteOpens) {
        if frags[1..] != [] {
          TokInOrder(frags[1..], loneQuoteOpens);
        }
        RestInOrder(frags, loneQuoteOpens);
        var whole := Join(frags, ' ');
        assert whole == frags[0] + whole[|frags[0]|..];
        TokSingle(frags, loneQuoteOpens);
        SingleText(frags[0], whole[|frags[0]|..], Tok(frags[1..], loneQuoteOpens));
      } else {
        match FindClose(frags, 1)
        case None =>
          assert Tok(frags, loneQuoteOpens) == [];
        case Some(j) =>
          SpanInOrder(frags, loneQuoteOpens, j);
      }
    }
  }

  /** The token of a fragment that opens no span occurs in it, and the later tokens after it. */
  lemma SingleText(x: string, tail: string, later: seq<string>)
    requires InOrder(later, tail)
    ensures InOrder([Single(x)] + later, x + tail)
  {
    if !StartsQuote(x) {
      PlainText(x, tail, later);
    } else if |x| >= 2 {
      SpanText(x, tail, later);
    } else {
      LoneText(x, tail, later);
    }
  }

  lemma PlainText(x: string, tail: string, later: seq<string>)
    requires InOrder(later, tail)
    ensures InOrder([x] + later, x + tail)
  {
    var whole := x + tail;
    assert whole[..|x|] == x && whole[|x|..] == tail;
    ConsInOrder(x, later, whole, 0);
  }

  lemma LoneText(x: string, tail: string, later: seq<string>)
    requires |x| < 2 && InOrder(later, tail)
    ensures InOrder([Unquote(x)] + later, x + tail)
  {
    var whole := x + tail;
    InOrderPrefix(later, x, tail);
    assert whole[0..0] == [] && whole[0..] == whole;
    ConsInOrder([], later, whole, 0);
  }

  /** The token of a span occurs between its quotes, and the later tokens after it. */
  lemma {:induction false} SpanInOrder(frags: seq<string>, loneQuoteOpens: bool, j: nat)
    requires 1 <= j < |frags| && Opens(frags[0], loneQuoteOpens) && FindClose(frags, 1) == Some(j)
    decreases |frags|, 0
    ensures InOrder(Tok(frags, loneQuoteOpens), Join(frags, ' '))
  {
    var a := frags[..j + 1];
    var b := frags[j + 1..];
    var ja := Join(a, ' ');
    var later := Tok(b, loneQuoteOpens);
    assert Tok(frags, loneQuoteOpens) == [Unquote(ja)] + later by {
      TokSpan(frags, loneQuoteOpens, j);
    }
    assert |ja| >= 2 by {
      assert a[0] == frags[0] && a[1..] != [];
      assert ja == a[0] + [' '] + Join(a[1..], ' ');
    }
    if b == [] {
      assert frags == a;
      assert later == [];
      SpanText(ja, [], later);
      assert ja + [] == ja;
    } else {
      var tail := [' '] + Join(b, ' ');
      assert InOrder(later, tail) by {
        TokInOrder(b, loneQuoteOpens);
        InOrderPrefix(later, [' '], Join(b, ' '));
      }
      assert Join(frags, ' ') == ja + tail by {
        assert frags == a + b;
        JoinAppend(a, b, ' ');
      }
      SpanText(ja, tail, later);
    }
  }

  /** The text between the outer characters of `ja` is a token followed by those of the text after `ja`. */
  lemma SpanText(ja: string, tail: string, later: seq<string>)
    requires |ja| >= 2 && InOrder(later, tail)
    ensures InOrder([Unquote(ja)] + later, ja + tail)
  {
    var whole := ja + tail;
    var t := Unquote(ja);
    assert whole[1..1 + |t|] == t;
    assert whole[1 + |t|..] == [ja[|ja| - 1]] + tail;
    InOrderPrefix(later, [ja[|ja| - 1]], tail);
    ConsInOrder(t, later, whole, 1);
  }

  /** The tokens of a line occur in the line, left to right, without overlapping. */
  lemma TokensInOrder(line: string)
    ensures InOrder(Tokenize(line), line)
    ensures InOrder(TokenizeIntended(line), line)
  {
    JoinSplit(line, ' ');
    TokInOrder(Split(line, ' '), false);
    TokInOrder(Split(line, ' '), true);
  }

  /** The two tokenizers differ only on lines holding a lone `"` fragment. */
  lemma {:induction false} IntendedAgrees(frags: seq<string>)
    requires forall k :: 0 <= k < |frags| ==> frags[k] != "\""
    decreases |frags|
    ensures Tok(frags, true) == Tok(frags, false)
  {
    if frags != [] {
      var x := frags[0];
      assert |x| == 1 ==> x == [x[0]];
      assert Opens(x, true) == Opens(x, false);
      if !Opens(x, false) {
        IntendedAgrees(frags[1..]);
      } else {
        match FindClose(frags, 1)
        case None =>
        case Some(j) =>
          IntendedAgrees(frags[j + 1..]);
      }
    }
  }

  /** In the corrected tokenizer, `"m"` is the single argument `m` for every quote-free `m`. */
  lemma IntendedQuotedLine(m: string)
    requires '"' !in m
    ensures TokenizeIntended("\"" + m + "\"") == [m]
  {
    QuotedSpan(m, [], true);
    assert Split("\"" + m + "\"", ' ') + [] == Split("\"" + m + "\"", ' ');
  }

  /** The program splits `" x"` into an empty argument and `x"`; the corrected tokenizer keeps `" x"`. */
  lemma LeadingSpaceInQuotes()
    ensures Tokenize("\" x\"") == ["", "x\""]
    ensures TokenizeIntended("\" x\"") == [" x"]
  {
    IntendedQuotedLine(" x");
    assert "\"" + " x" + "\"" == "\" x\"";
    assert "\" x\"" == "\"" + [' '] + "x\"";
    SplitConcat("\"", "x\"", ' ');
    SplitWithoutSeparator("\"", ' ');
    SplitWithoutSeparator("x\"", ' ');
    SelfClosingFragment("\"", ["x\""]);
    PlainPrefix(["x\""], [], false);
    assert ["x\""] + [] == ["x\""];
  }

  /** A blank line is one empty token; a single word is itself. */
  lemma ExamplePlain()
    ensures Tokenize("") == [""]
    ensures Tokenize("help") == ["help"]
  {
    TokenizeWithoutQuotes("");
    TokenizeWithoutQuotes("help");
    SplitWithoutSeparator("help", ' ');
  }

  /** Two spaces in a row leave an empty token between the words. */
  lemma ExampleSpaceRun()
    ensures Tokenize("a  b") == ["a", "", "b"]
  {
    TokenizeWithoutQuotes("a  b");
    assert "a  b" == "a" + [' '] + ("" + [' '] + "b");
    SplitConcat("a", "" + [' '] + "b", ' ');
    SplitConcat("", "b", ' ');
    SplitWithoutSeparator("a", ' ');
    SplitWithoutSeparator("b", ' ');
  }

  /** A quoted argument between two words. */
  lemma ExampleQuotedMiddle()
    ensures Tokenize("a \"b c\" d") == ["a", "b c", "d"]
  {
    assert "a" + " \"" + "b c" + "\" " + "d" == "a \"b c\" d";
    QuotedBetweenWords("a", "b c", "d");
  }

  /** `a "m" d` with single words `a` and `d` is the three arguments `a`, `m` and `d`. */
  lemma QuotedBetweenWords(a: string, m: string, d: string)
    requires ' ' !in a && '"' !in a && ' ' !in d && '"' !in d
    requires '"' !in m && (m == [] || m[0] != ' ')
    ensures Tokenize(a + " \"" + m + "\" " + d) == [a, m, d]
  {
    QuotedArgument(a, m, d);
    SplitWithoutSeparator(a, ' ');
    TokenizeWithoutQuotes(d);
    SplitWithoutSeparator(d, ' ');
  }

  /** A command followed by a quoted name with a space in it. */
  lemma ExampleQuotedLast()
    ensures Tokenize("newrecipe \"Banana Bread\"") == ["newrecipe", "Banana Bread"]
  {
    assert "newrecipe" + " \"" + "Banana Bread" + "\"" == "newrecipe \"Banana Bread\"";
    QuotedAfterWord("newrecipe", "Banana Bread");
  }

  /** A single word followed by `"m"` is the two arguments `a` and `m`. */
  lemma QuotedAfterWord(a: string, m: string)
    requires ' ' !in a && '"' !in a
    requires '"' !in m && (m == [] || m[0] != ' ')
    ensures Tokenize(a + " \"" + m + "\"") == [a, m]
  {
    QuotedAtEnd(a, m);
    SplitWithoutSeparator(a, ' ');
  }

  /** A line that opens a quote in its first fragment and never closes it has no tokens. */
  lemma ExampleUnterminated()
    ensures Tokenize("\"a b") == []
  {
    UnterminatedQuote("", "a b");
    assert "\"" + "a b" == "\"a b";
  }
}
