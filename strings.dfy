/**
 * The few Python string built-ins the program relies on, written out on
 * `seq<char>`: `str.split` and `str.join` with a one-character separator,
 * `str.lower`, `str.strip` and the decimal rendering of a natural number
 * that an f-string performs.
 */
module Strings {

  /** Number of occurrences of `c` in `s`. */
  function Count(s: string, c: char): nat
  {
    if s == [] then 0 else (if s[0] == c then 1 else 0) + Count(s[1..], c)
  }

  /** A character occurs nowhere exactly when it is counted zero times. */
  lemma {:induction false} CountAbsent(s: string, c: char)
    ensures Count(s, c) == 0 <==> c !in s
  {
    if s != [] {
      assert s == [s[0]] + s[1..];
      CountAbsent(s[1..], c);
    }
  }

  lemma {:induction false} CountConcat(a: string, b: string, c: char)
    ensures Count(a + b, c) == Count(a, c) + Count(b, c)
  {
    if a == [] {
      assert a + b == b;
    } else {
      assert (a + b)[0] == a[0] && (a + b)[1..] == a[1..] + b;
      CountConcat(a[1..], b, c);
    }
  }

  /**
   * `s.split(sep)`: every separator ends one fragment, so a run of separators
   * yields empty fragments and the result always has one fragment more than
   * `s` has separators.
   */
  function Split(s: string, sep: char): (r: seq<string>)
    ensures |r| == Count(s, sep) + 1
    ensures forall k :: 0 <= k < |r| ==> sep !in r[k]
  {
    if s == [] then [""]
    else
      var rest := Split(s[1..], sep);
      if s[0] == sep then [""] + rest
      else [[s[0]] + rest[0]] + rest[1..]
  }

  /** Total length of the parts. */
  function Width(parts: seq<string>): nat
  {
    if parts == [] then 0 else |parts[0]| + Width(parts[1..])
  }

  /**
   * `sep.join(parts)`: the parts with one separator between neighbours, so
   * the result is as long as the parts together plus one fewer than their
   * number.
   */
  function Join(parts: seq<string>, sep: char): (r: string)
    ensures parts != [] ==> |r| == Width(parts) + |parts| - 1
  {
    if parts == [] then ""
    else if |parts| == 1 then parts[0]
    else parts[0] + [sep] + Join(parts[1..], sep)
  }

  /** Parts without separators give exactly one separator fewer than there are parts. */
  lemma {:induction false} JoinCount(parts: seq<string>, sep: char)
    requires parts != []
    requires forall k :: 0 <= k < |parts| ==> sep !in parts[k]
    ensures Count(Join(parts, sep), sep) == |parts| - 1
  {
    CountAbsent(parts[0], sep);
    if |parts| > 1 {
      JoinCount(parts[1..], sep);
      CountConcat(parts[0] + [sep], Join(parts[1..], sep), sep);
      CountConcat(parts[0], [sep], sep);
    }
  }

  /** Joining the fragments of a split gives the original text back. */
  lemma {:induction false} JoinSplit(s: string, sep: char)
    ensures Join(Split(s, sep), sep) == s
  {
    if s != [] {
      var rest := Split(s[1..], sep);
      JoinSplit(s[1..], sep);
      if s[0] == sep {
        assert Split(s, sep) == [""] + rest;
        assert ([""] + rest)[1..] == rest;
      } else {
        var parts := Split(s, sep);
        assert parts == [[s[0]] + rest[0]] + rest[1..];
        if |rest| > 1 {
          assert parts[1..] == rest[1..];
          assert Join(rest, sep) == rest[0] + [sep] + Join(rest[1..], sep);
        }
      }
    }
  }

  /** Text without a separator is a single fragment. */
  lemma {:induction false} SplitWithoutSeparator(s: string, sep: char)
    requires sep !in s
    ensures Split(s, sep) == [s]
  {
    if s != [] {
      assert s == [s[0]] + s[1..];
      SplitWithoutSeparator(s[1..], sep);
      assert [[s[0]] + s[1..]] == [s];
    }
  }

  /** Splitting distributes over a separator. */
  lemma {:induction false} SplitConcat(a: string, b: string, sep: char)
    ensures Split(a + [sep] + b, sep) == Split(a, sep) + Split(b, sep)
  {
    var s := a + [sep] + b;
    if a == [] {
      assert s[0] == sep && s[1..] == b;
    } else {
      assert s[0] == a[0] && s[1..] == a[1..] + [sep] + b;
      SplitConcat(a[1..], b, sep);
      if a[0] != sep {
        GlueFirst(a[0], Split(a[1..], sep), Split(b, sep));
      }
    }
  }

  /** Gluing a character to the first fragment commutes with appending fragments. */
  lemma GlueFirst(h: char, ra: seq<string>, rb: seq<string>)
    requires ra != []
    ensures [[h] + (ra + rb)[0]] + (ra + rb)[1..] == ([[h] + ra[0]] + ra[1..]) + rb
  {
    assert (ra + rb)[0] == ra[0];
    assert (ra + rb)[1..] == ra[1..] + rb;
  }

  /** Joining two non-empty lists puts one separator between their joins. */
  lemma {:induction false} JoinAppend(a: seq<string>, b: seq<string>, sep: char)
    requires a != [] && b != []
    ensures Join(a + b, sep) == Join(a, sep) + [sep] + Join(b, sep)
  {
    if |a| == 1 {
      assert (a + b)[1..] == b;
    } else {
      assert (a + b)[1..] == a[1..] + b;
      JoinAppend(a[1..], b, sep);
    }
  }

  /** Fragments that hold no separator join and split back to themselves. */
  lemma {:induction false} SplitJoin(parts: seq<string>, sep: char)
    requires parts != []
    requires forall k :: 0 <= k < |parts| ==> sep !in parts[k]
    ensures Split(Join(parts, sep), sep) == parts
  {
    SplitWithoutSeparator(parts[0], sep);
    if |parts| > 1 {
      SplitJoin(parts[1..], sep);
      SplitConcat(parts[0], Join(parts[1..], sep), sep);
    }
  }

  /** Appending a non-separator extends the last fragment. */
  lemma {:induction false} SplitSnoc(s: string, c: char, sep: char)
    requires c != sep
    ensures var p := Split(s, sep);
            Split(s + [c], sep) == p[..|p| - 1] + [p[|p| - 1] + [c]]
  {
    var p := Split(s, sep);
    if s == [] {
      assert s + [c] == [c];
      assert [c][1..] == [];
      assert Split([c][1..], sep) == [""];
      assert [c] + "" == [c];
      assert Split([c], sep) == [[c]];
    } else {
      assert (s + [c])[1..] == s[1..] + [c];
      SplitSnoc(s[1..], c, sep);
      var q := Split(s[1..], sep);
      if s[0] == sep {
        assert p == [""] + q;
        assert p[..|p| - 1] == [""] + q[..|q| - 1];
      } else {
        ExtendLast(s[0], q, c);
      }
    }
  }

  /** Extending the last fragment commutes with gluing a character to the first. */
  lemma ExtendLast(h: char, q: seq<string>, c: char)
    requires q != []
    ensures var p := [[h] + q[0]] + q[1..];
            var q' := q[..|q| - 1] + [q[|q| - 1] + [c]];
            [[h] + q'[0]] + q'[1..] == p[..|p| - 1] + [p[|p| - 1] + [c]]
  {
    var q' := q[..|q| - 1] + [q[|q| - 1] + [c]];
    if |q| == 1 {
      assert q' == [q[0] + [c]];
      assert [h] + (q[0] + [c]) == ([h] + q[0]) + [c];
    } else {
      assert q'[0] == q[0];
      assert q'[1..] == q[1..|q| - 1] + [q[|q| - 1] + [c]];
    }
  }

  /** The first fragment is empty only when the text is empty or starts with the separator. */
  lemma SplitFirstEmpty(s: string, sep: char)
    requires Split(s, sep)[0] == []
    ensures s == [] || s[0] == sep
  {
  }

  /** A character that does not occur in the text occurs in none of its fragments. */
  lemma {:induction false} SplitKeepsOut(s: string, c: char, sep: char)
    requires c !in s
    ensures forall k :: 0 <= k < |Split(s, sep)| ==> c !in Split(s, sep)[k]
  {
    if s != [] {
      assert s == [s[0]] + s[1..];
      SplitKeepsOut(s[1..], c, sep);
    }
  }

  /**
   * `c.lower()` for the characters whose lower case is an ASCII letter: the
   * ASCII capitals and the Kelvin sign U+212A, which Python lower-cases to `k`.
   * Every other character is left as it is.
   */
  function LowerChar(c: char): char
  {
    if 'A' <= c <= 'Z' then (c as int + 32) as char
    else if c == '\U{212A}' then 'k'
    else c
  }

  /**
   * `s.lower()` on the characters `LowerChar` covers: the length is kept, an
   * ASCII capital becomes its small letter, the Kelvin sign becomes `k`, no
   * such capital is left, and every other character stays as it is.
   */
  function Lower(s: string): (r: string)
    ensures |r| == |s|
    ensures forall i :: 0 <= i < |s| && 'A' <= s[i] <= 'Z' ==> r[i] as int == s[i] as int + 32
    ensures forall i :: 0 <= i < |s| && s[i] == '\U{212A}' ==> r[i] == 'k'
    ensures forall i :: 0 <= i < |s| ==> !IsUpper(r[i])
    ensures forall i :: 0 <= i < |s| && !IsUpper(s[i]) ==> r[i] == s[i]
  {
    seq(|s|, i requires 0 <= i < |s| => LowerChar(s[i]))
  }

  /** The characters whose lower case is an ASCII letter other than themselves. */
  predicate IsUpper(c: char)
  {
    'A' <= c <= 'Z' || c == '\U{212A}'
  }

  /** Lower-casing is idempotent and leaves no upper-case letter behind. */
  lemma LowerIsLower(s: string)
    ensures forall i :: 0 <= i < |Lower(s)| ==> !IsUpper(Lower(s)[i])
    ensures Lower(Lower(s)) == Lower(s)
  {
  }

  /**
   * The case-insensitive match of a command name: the lower case of `t` is
   * the small-letter name `n` exactly when `t` has the length of `n` and each
   * character of `t` is the letter of `n`, its ASCII capital, or (for `k`)
   * the Kelvin sign.
   */
  lemma LowerMatches(t: string, n: string)
    requires forall i :: 0 <= i < |n| ==> 'a' <= n[i] <= 'z'
    ensures Lower(t) == n <==>
      |t| == |n| &&
      forall i :: 0 <= i < |n| ==>
        t[i] == n[i] || t[i] as int == n[i] as int - 32 || (n[i] == 'k' && t[i] == '\U{212A}')
  {
  }

  /** Text without upper-case letters is its own lower case. */
  lemma LowerOfLower(s: string)
    requires forall i :: 0 <= i < |s| ==> !IsUpper(s[i])
    ensures Lower(s) == s
  {
  }

  /** `c.isspace()` for one character. */
  predicate IsSpace(c: char)
  {
    || c == ' '
    || '\t' <= c <= '\r'
    || '\U{1C}' <= c <= '\U{1F}'
    || c == '\U{85}'
    || c == '\U{A0}'
    || c == '\U{1680}'
    || '\U{2000}' <= c <= '\U{200A}'
    || c == '\U{2028}'
    || c == '\U{2029}'
    || c == '\U{202F}'
    || c == '\U{205F}'
    || c == '\U{3000}'
  }

  function TrimStart(s: string): (r: string)
    ensures |r| <= |s|
  {
    if s != [] && IsSpace(s[0]) then TrimStart(s[1..]) else s
  }

  function TrimEnd(s: string): (r: string)
    ensures |r| <= |s| && r == s[..|r|]
    ensures r != [] ==> !IsSpace(r[|r| - 1])
  {
    if s != [] && IsSpace(s[|s| - 1]) then TrimEnd(s[..|s| - 1]) else s
  }

  /**
   * `s.strip()`: whitespace removed from both ends. Nothing is left exactly
   * when every character is whitespace; otherwise the result starts and ends
   * with a character that is not.
   */
  function Strip(s: string): (r: string)
    ensures |r| <= |s|
    ensures r == [] <==> AllSpace(s)
    ensures r != [] ==> !IsSpace(r[0]) && !IsSpace(r[|r| - 1])
  {
    var t := TrimStart(s);
    TrimStartEmpty(s);
    if t != [] then TrimEndKeepsHead(t); TrimEnd(t) else TrimEnd(t)
  }

  predicate AllSpace(s: string)
  {
    forall i :: 0 <= i < |s| ==> IsSpace(s[i])
  }

  lemma {:induction false} TrimStartEmpty(s: string)
    ensures TrimStart(s) == [] <==> AllSpace(s)
    ensures TrimStart(s) != [] ==> !IsSpace(TrimStart(s)[0])
  {
    if s != [] && IsSpace(s[0]) {
      TrimStartEmpty(s[1..]);
      assert AllSpace(s) <==> AllSpace(s[1..]);
    }
  }

  lemma {:induction false} TrimEndKeepsHead(s: string)
    requires s != [] && !IsSpace(s[0])
    ensures TrimEnd(s) != []
  {
    if IsSpace(s[|s| - 1]) {
      TrimEndKeepsHead(s[..|s| - 1]);
    }
  }

  function DigitChar(d: nat): (c: char)
    requires d < 10
    ensures '0' <= c <= '9'
  {
    ('0' as int + d) as char
  }

  predicate AllDigits(s: string)
  {
    forall i :: 0 <= i < |s| ==> '0' <= s[i] <= '9'
  }

  /** `f"{n}"` for a natural number: its decimal digits, without leading zeros. */
  function Decimal(n: nat): (r: string)
    ensures r != [] && AllDigits(r)
    ensures r[0] == '0' ==> n == 0
  {
    if n < 10 then [DigitChar(n)] else Decimal(n / 10) + [DigitChar(n % 10)]
  }

  /** The number a string of decimal digits denotes. */
  function DecimalValue(s: string): nat
    requires AllDigits(s)
  {
    if s == [] then 0 else DecimalValue(s[..|s| - 1]) * 10 + (s[|s| - 1] as int - '0' as int)
  }

  /** Reading the rendered digits back gives the number. */
  lemma {:induction false} DecimalRoundTrip(n: nat)
    ensures DecimalValue(Decimal(n)) == n
  {
    if n >= 10 {
      DecimalRoundTrip(n / 10);
      var d := Decimal(n);
      assert d[..|d| - 1] == Decimal(n / 10);
    }
  }
}
