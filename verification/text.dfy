/** The pieces of Rust's `str` library the `.cube` parser relies on:
    `char::is_whitespace`, `split_whitespace`, `starts_with`,
    `trim_start_matches`, `trim_end_matches` and `str::parse::<usize>`. */
module Text {
  import opened Results

  /** `usize::MAX` on a 64-bit host. */
  const USIZE_MAX: nat := 0xFFFF_FFFF_FFFF_FFFF

  /** `char::is_whitespace`: the Unicode White_Space property. */
  predicate IsWhitespace(c: char)
  {
    var n := c as int;
    (0x09 <= n <= 0x0D) || n == 0x20 || n == 0x85 || n == 0xA0 || n == 0x1680
    || (0x2000 <= n <= 0x200A) || n == 0x2028 || n == 0x2029 || n == 0x202F
    || n == 0x205F || n == 0x3000
  }

  predicate StartsWith(s: string, prefix: string)
  {
    |prefix| <= |s| && s[..|prefix|] == prefix
  }

  /** The number of whitespace characters `s` starts with. */
  function LeadingWhitespace(s: string): (n: nat)
    ensures n <= |s|
    ensures forall i | 0 <= i < n :: IsWhitespace(s[i])
    ensures n == |s| || !IsWhitespace(s[n])
    decreases |s|
  {
    if |s| > 0 && IsWhitespace(s[0]) then 1 + LeadingWhitespace(s[1..]) else 0
  }

  /** The number of non-whitespace characters `s` starts with. */
  function LeadingWord(s: string): (n: nat)
    ensures n <= |s|
    ensures forall i | 0 <= i < n :: !IsWhitespace(s[i])
    ensures n == |s| || IsWhitespace(s[n])
    decreases |s|
  {
    if |s| > 0 && !IsWhitespace(s[0]) then 1 + LeadingWord(s[1..]) else 0
  }

  /** `s.trim_start_matches(char::is_whitespace)`. */
  function TrimStartWhitespace(s: string): (t: string)
    ensures |t| <= |s|
  {
    s[LeadingWhitespace(s)..]
  }

  /** What `TrimStartWhitespace` keeps: the suffix after the leading
      whitespace, starting with a non-whitespace character. */
  lemma TrimStartWhitespaceSpec(s: string)
    ensures var t := TrimStartWhitespace(s);
      && t == s[|s| - |t|..]
      && (t == [] || !IsWhitespace(t[0]))
      && forall i | 0 <= i < |s| - |t| :: IsWhitespace(s[i])
  {
  }

  /** `s.split_whitespace()`: the maximal runs of non-whitespace characters,
      in order; every token is non-empty and holds no whitespace. */
  function SplitWhitespace(s: string): (tokens: seq<string>)
    ensures Words(tokens)
    decreases |s|
  {
    var i := LeadingWhitespace(s);
    if i == |s| then []
    else
      var w := LeadingWord(s[i..]);
      var rest := SplitWhitespace(s[i + w..]);
      WordsCons(s[i..i + w], rest);
      [s[i..i + w]] + rest
  }

  /** Non-empty strings free of whitespace: what `SplitWhitespace` yields. */
  predicate Words(ts: seq<string>)
  {
    forall k | 0 <= k < |ts| :: |ts[k]| > 0 && forall j | 0 <= j < |ts[k]| :: !IsWhitespace(ts[k][j])
  }

  lemma WordsCons(w: string, ts: seq<string>)
    requires |w| > 0 && (forall j | 0 <= j < |w| :: !IsWhitespace(w[j])) && Words(ts)
    ensures Words([w] + ts)
  {
    var r := [w] + ts;
    forall k | 0 <= k < |r|
      ensures |r[k]| > 0 && forall j | 0 <= j < |r[k]| :: !IsWhitespace(r[k][j])
    {
      if k > 0 { assert r[k] == ts[k - 1]; }
    }
  }

  /** A line splits into no tokens exactly when it is all whitespace, the
      empty line included. */
  lemma {:induction false} NoTokensIffBlank(s: string)
    ensures SplitWhitespace(s) == [] <==> forall i | 0 <= i < |s| :: IsWhitespace(s[i])
  {
    var i := LeadingWhitespace(s);
    if i < |s| {
      assert !IsWhitespace(s[i]);
    }
  }

  /** A non-empty string free of whitespace is a single token. */
  lemma {:induction false} SingleToken(s: string)
    requires |s| > 0
    requires forall i | 0 <= i < |s| :: !IsWhitespace(s[i])
    ensures SplitWhitespace(s) == [s]
  {
    assert LeadingWhitespace(s) == 0;
    assert s[0..] == s;
    assert LeadingWord(s) == |s|;
    assert s[0..|s|] == s;
    assert s[|s|..] == [];
    assert SplitWhitespace(s[|s|..]) == [];
    assert SplitWhitespace(s) == [s[0..|s|]] + SplitWhitespace(s[|s|..]);
  }

  /** Tokens written out with one space between neighbours. */
  function Join(ts: seq<string>): string
  {
    if |ts| == 0 then []
    else if |ts| == 1 then ts[0]
    else ts[0] + " " + Join(ts[1..])
  }

  /** A string that starts with a word splits into that word and the split
      of the rest. */
  lemma SplitStartingWord(t: string)
    requires |t| > 0 && !IsWhitespace(t[0])
    ensures var w := LeadingWord(t);
      SplitWhitespace(t) == [t[..w]] + SplitWhitespace(t[w..])
  {
    assert LeadingWhitespace(t) == 0;
    assert t[0..] == t;
  }

  /** Only what follows the leading whitespace matters to the split. */
  lemma SplitAfterBlank(s: string)
    ensures SplitWhitespace(s) == SplitWhitespace(s[LeadingWhitespace(s)..])
  {
    var i := LeadingWhitespace(s);
    if i < |s| {
      SplitAfterBlankWord(s, i);
    } else {
      assert s[i..] == [];
      assert SplitWhitespace([]) == [];
    }
  }

  /** `SplitAfterBlank` when a word follows the leading whitespace. */
  lemma SplitAfterBlankWord(s: string, i: nat)
    requires i == LeadingWhitespace(s) < |s|
    ensures SplitWhitespace(s) == SplitWhitespace(s[i..])
  {
    var t := s[i..];
    var w := LeadingWord(t);
    assert t[..w] == s[i..i + w] && t[w..] == s[i + w..];
    calc {
      SplitWhitespace(s);
      [s[i..i + w]] + SplitWhitespace(s[i + w..]);
      [t[..w]] + SplitWhitespace(t[w..]);
      { SplitStartingWord(t); }
      SplitWhitespace(t);
    }
  }

  /** Leading whitespace yields no token. */
  lemma SkipWhitespace(c: char, r: string)
    requires IsWhitespace(c)
    ensures SplitWhitespace([c] + r) == SplitWhitespace(r)
  {
    var s := [c] + r;
    assert s[1..] == r;
    var i := LeadingWhitespace(r);
    assert LeadingWhitespace(s) == i + 1;
    assert s[i + 1..] == r[i..];
    SplitAfterBlank(s);
    SplitAfterBlank(r);
  }

  /** The leading word of a word followed by whitespace, or by nothing, is
      the whole word. */
  lemma {:induction false} LeadingWordOf(w: string, r: string)
    requires forall j | 0 <= j < |w| :: !IsWhitespace(w[j])
    requires r == [] || IsWhitespace(r[0])
    ensures LeadingWord(w + r) == |w|
    decreases |w|
  {
    if |w| > 0 {
      assert (w + r)[0] == w[0];
      assert (w + r)[1..] == w[1..] + r;
      LeadingWordOf(w[1..], r);
    } else {
      assert w + r == r;
    }
  }

  /** A word followed by whitespace, or by nothing, is the first token. */
  lemma SplitWord(w: string, r: string)
    requires |w| > 0 && forall j | 0 <= j < |w| :: !IsWhitespace(w[j])
    requires r == [] || IsWhitespace(r[0])
    ensures SplitWhitespace(w + r) == [w] + SplitWhitespace(r)
  {
    var s := w + r;
    assert s[0] == w[0];
    SplitStartingWord(s);
    LeadingWordOf(w, r);
    assert s[..|w|] == w && s[|w|..] == r;
  }

  /** `split_whitespace` recovers the tokens of a space-separated line: the
      tokens are exactly the maximal non-whitespace runs, in order. */
  lemma {:induction false} SplitJoin(ts: seq<string>)
    requires Words(ts)
    ensures SplitWhitespace(Join(ts)) == ts
    decreases |ts|
  {
    if |ts| == 0 {
      assert SplitWhitespace([]) == [];
    } else if |ts| == 1 {
      assert Join(ts) == ts[0] + [];
      assert SplitWhitespace([]) == [];
      SplitWord(ts[0], []);
    } else {
      WordsTail(ts);
      SplitJoin(ts[1..]);
      SplitCons(ts[0], Join(ts[1..]));
      assert [ts[0]] + ts[1..] == ts;
    }
  }

  lemma WordsTail(ts: seq<string>)
    requires |ts| > 0 && Words(ts)
    ensures Words(ts[1..])
  {
    forall k | 0 <= k < |ts| - 1 ensures ts[1..][k] == ts[k + 1] { }
  }

  /** A word, a space, then more: the word is the first token. */
  lemma SplitCons(w: string, rest: string)
    requires |w| > 0 && forall j | 0 <= j < |w| :: !IsWhitespace(w[j])
    ensures SplitWhitespace(w + " " + rest) == [w] + SplitWhitespace(rest)
  {
    SkipWhitespace(' ', rest);
    assert w + " " + rest == w + ([' '] + rest);
    SplitWord(w, [' '] + rest);
  }

  /** `s.trim_start_matches(pat)`: strips every leading repetition of `pat`. */
  function TrimStartMatches(s: string, pat: string): (t: string)
    requires |pat| > 0
    ensures |t| <= |s|
    decreases |s|
  {
    if StartsWith(s, pat) then TrimStartMatches(s[|pat|..], pat) else s
  }

  /** `pat` written `k` times in a row. */
  function Repeat(pat: string, k: nat): (r: string)
    ensures |r| == k * |pat|
  {
    if k == 0 then [] else pat + Repeat(pat, k - 1)
  }

  /** What `TrimStartMatches` keeps: a suffix that no longer starts with
      `pat`, and what it removes: some number of copies of `pat`. */
  lemma {:induction false} TrimStartMatchesSpec(s: string, pat: string)
    requires |pat| > 0
    ensures var t := TrimStartMatches(s, pat);
      && t == s[|s| - |t|..] && !StartsWith(t, pat)
      && exists k: nat :: s == Repeat(pat, k) + t
    decreases |s|
  {
    var t := TrimStartMatches(s, pat);
    if StartsWith(s, pat) {
      var rest := s[|pat|..];
      TrimStartMatchesSpec(rest, pat);
      assert rest[|rest| - |t|..] == s[|s| - |t|..];
      var k: nat :| rest == Repeat(pat, k) + t;
      assert s == pat + rest;
      assert s == Repeat(pat, k + 1) + t;
    } else {
      assert s == Repeat(pat, 0) + t;
    }
  }

  /** `s.trim_start_matches(c)`: strips every leading `c`. */
  function TrimStartChar(s: string, c: char): (t: string)
    ensures |t| <= |s|
    decreases |s|
  {
    if |s| > 0 && s[0] == c then TrimStartChar(s[1..], c) else s
  }

  /** What `TrimStartChar` keeps: the suffix after the leading run of `c`. */
  lemma {:induction false} TrimStartCharSpec(s: string, c: char)
    ensures var t := TrimStartChar(s, c);
      && t == s[|s| - |t|..]
      && (t == [] || t[0] != c)
      && forall i | 0 <= i < |s| - |t| :: s[i] == c
    decreases |s|
  {
    if |s| > 0 && s[0] == c {
      var t := TrimStartChar(s[1..], c);
      TrimStartCharSpec(s[1..], c);
      assert s[1..][|s| - 1 - |t|..] == s[|s| - |t|..];
      forall i | 0 <= i < |s| - |t| ensures s[i] == c {
        if i > 0 { assert s[i] == s[1..][i - 1]; }
      }
    }
  }

  /** `s.trim_end_matches(c)`: strips every trailing `c`. */
  function TrimEndChar(s: string, c: char): (t: string)
    ensures |t| <= |s|
    decreases |s|
  {
    if |s| > 0 && s[|s| - 1] == c then TrimEndChar(s[..|s| - 1], c) else s
  }

  /** What `TrimEndChar` keeps: the prefix before the trailing run of `c`. */
  lemma {:induction false} TrimEndCharSpec(s: string, c: char)
    ensures var t := TrimEndChar(s, c);
      && t == s[..|t|]
      && (t == [] || t[|t| - 1] != c)
      && forall i | |t| <= i < |s| :: s[i] == c
    decreases |s|
  {
    if |s| > 0 && s[|s| - 1] == c {
      var t := TrimEndChar(s[..|s| - 1], c);
      TrimEndCharSpec(s[..|s| - 1], c);
      assert s[..|s| - 1][..|t|] == s[..|t|];
      forall i | |t| <= i < |s| ensures s[i] == c {
        if i < |s| - 1 { assert s[i] == s[..|s| - 1][i]; }
      }
    }
  }

  predicate IsDigit(c: char)
  {
    '0' <= c <= '9'
  }

  predicate AllDigits(s: string)
  {
    forall i | 0 <= i < |s| :: IsDigit(s[i])
  }

  /** The value of a string of decimal digits, most significant first. */
  function DigitsValue(s: string): nat
    requires AllDigits(s)
    decreases |s|
  {
    if |s| == 0 then 0
    else DigitsValue(s[..|s| - 1]) * 10 + (s[|s| - 1] as int - '0' as int)
  }

  /** `s.parse::<usize>()`: an optional `+`, then one or more decimal digits
      whose value fits a `usize`. No sign-only, empty, signed-negative or
      space-padded text is accepted. */
  function ParseUsize(s: string): (r: Option<nat>)
    ensures r.Some? ==> r.value <= USIZE_MAX
    ensures r.Some? ==> |s| > 0 && (IsDigit(s[0]) || s[0] == '+')
    ensures r.Some? ==> forall i | 1 <= i < |s| :: IsDigit(s[i])
  {
    var digits := if |s| > 0 && s[0] == '+' then s[1..] else s;
    if |digits| == 0 || !AllDigits(digits) then None
    else if DigitsValue(digits) > USIZE_MAX then None
    else Some(DigitsValue(digits))
  }

  function DigitChar(d: nat): (c: char)
    requires d < 10
    ensures IsDigit(c)
  {
    ('0' as int + d) as char
  }

  /** The shortest decimal spelling of `n`. */
  function DecimalString(n: nat): (s: string)
    ensures |s| > 0 && AllDigits(s)
    decreases n
  {
    if n < 10 then [DigitChar(n)] else DecimalString(n / 10) + [DigitChar(n % 10)]
  }

  /** Reading a decimal spelling gives back the number. */
  lemma {:induction false} DigitsOfDecimal(n: nat)
    ensures DigitsValue(DecimalString(n)) == n
    decreases n
  {
    var s := DecimalString(n);
    if n >= 10 {
      DigitsOfDecimal(n / 10);
      assert s[..|s| - 1] == DecimalString(n / 10);
    }
  }

  /** `parse::<usize>` inverts decimal printing on every `usize`. */
  lemma ParseDecimal(n: nat)
    requires n <= USIZE_MAX
    ensures ParseUsize(DecimalString(n)) == Some(n)
  {
    DigitsOfDecimal(n);
  }
}
