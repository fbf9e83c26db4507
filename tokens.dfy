/** Numeric tokens of free text: the maximal runs of ASCII digits that
    `re.findall(r"[0-9]+", text)` returns, in textual order, and the value
    Python's `int` gives each of them. */
module Tokens {

  predicate IsDigit(ch: char) {
    '0' <= ch <= '9'
  }

  predicate AllDigits(s: string) {
    forall i :: 0 <= i < |s| ==> IsDigit(s[i])
  }

  predicate NoDigits(s: string) {
    forall i :: 0 <= i < |s| ==> !IsDigit(s[i])
  }

  /** Length of the longest all-digit prefix of s. */
  function DigitPrefixLength(s: string): (k: nat)
    ensures k <= |s| && AllDigits(s[..k])
    ensures k < |s| ==> !IsDigit(s[k])
    decreases |s|
  {
    if s == [] || !IsDigit(s[0]) then 0 else 1 + DigitPrefixLength(s[1..])
  }

  /** The maximal runs of digits of s, left to right: a scan that skips a
      non-digit and otherwise cuts off the longest digit prefix. */
  function DigitRuns(s: string): (runs: seq<string>)
    ensures forall j :: 0 <= j < |runs| ==> |runs[j]| > 0 && AllDigits(runs[j])
    decreases |s|
  {
    if s == [] then []
    else if !IsDigit(s[0]) then DigitRuns(s[1..])
    else
      var k := DigitPrefixLength(s);
      [s[..k]] + DigitRuns(s[k..])
  }

  /** The text gaps[0] runs[0] gaps[1] runs[1] ... runs[n-1] gaps[n]. */
  function Interleave(gaps: seq<string>, runs: seq<string>): string
    requires |gaps| == |runs| + 1
    decreases |runs|
  {
    if runs == [] then gaps[0]
    else gaps[0] + (runs[0] + Interleave(gaps[1..], runs[1..]))
  }

  /** runs are non-empty digit strings, gaps hold no digit, and the gaps between
      two runs are non-empty, so that each run is a maximal run of the text. */
  predicate Separated(gaps: seq<string>, runs: seq<string>) {
    && |gaps| == |runs| + 1
    && (forall j :: 0 <= j < |runs| ==> |runs[j]| > 0 && AllDigits(runs[j]))
    && (forall j :: 0 <= j < |gaps| ==> NoDigits(gaps[j]))
    && (forall j :: 0 < j < |runs| ==> gaps[j] != [])
  }

  /** The non-digit stretches of s around its digit runs. */
  function Gaps(s: string): (gaps: seq<string>)
    ensures |gaps| == |DigitRuns(s)| + 1
    decreases |s|
  {
    if s == [] then [[]]
    else if !IsDigit(s[0]) then
      var g := Gaps(s[1..]);
      [[s[0]] + g[0]] + g[1..]
    else
      [[]] + Gaps(s[DigitPrefixLength(s)..])
  }

  /** Every text splits into its digit runs and the gaps between them, and it
      can be rebuilt from the two without loss. */
  lemma {:induction false} DigitRunsSplit(s: string)
    ensures Separated(Gaps(s), DigitRuns(s))
    ensures Interleave(Gaps(s), DigitRuns(s)) == s
    decreases |s|
  {
    if s == [] {
    } else if !IsDigit(s[0]) {
      DigitRunsSplit(s[1..]);
      ConsGap(s[0], Gaps(s[1..]), DigitRuns(s[1..]), s[1..]);
      assert s == [s[0]] + s[1..];
    } else {
      var k := DigitPrefixLength(s);
      var rest := s[k..];
      DigitRunsSplit(rest);
      if rest != [] {
        NonEmptyFirstGap(rest);
      }
      ConsRun(s[..k], Gaps(rest), DigitRuns(rest), rest);
      assert s == s[..k] + rest;
    }
  }

  /** A non-digit in front of a text joins its first gap. */
  lemma ConsGap(c: char, gaps: seq<string>, runs: seq<string>, t: string)
    requires !IsDigit(c) && Separated(gaps, runs) && Interleave(gaps, runs) == t
    ensures Separated([[c] + gaps[0]] + gaps[1..], runs)
    ensures Interleave([[c] + gaps[0]] + gaps[1..], runs) == [c] + t
  {
    var g' := [[c] + gaps[0]] + gaps[1..];
    assert g'[1..] == gaps[1..];
    forall j | 0 <= j < |g'| ensures NoDigits(g'[j]) {
      if j > 0 {
        assert g'[j] == gaps[j];
      }
    }
    forall j | 0 < j < |runs| ensures g'[j] != [] {
      assert g'[j] == gaps[j];
    }
  }

  /** A run of digits in front of a text that does not start with a digit is a new first run. */
  lemma ConsRun(r: string, gaps: seq<string>, runs: seq<string>, t: string)
    requires |r| > 0 && AllDigits(r)
    requires Separated(gaps, runs) && Interleave(gaps, runs) == t
    requires t == [] || !IsDigit(t[0])
    requires runs != [] ==> gaps[0] != []
    ensures Separated([[]] + gaps, [r] + runs)
    ensures Interleave([[]] + gaps, [r] + runs) == r + t
  {
    var g', runs' := [[]] + gaps, [r] + runs;
    assert g'[1..] == gaps && runs'[1..] == runs;
    forall j | 0 <= j < |g'| ensures NoDigits(g'[j]) {
      if j > 0 {
        assert g'[j] == gaps[j - 1];
      }
    }
    forall j | 0 < j < |runs'| ensures g'[j] != [] {
      assert g'[j] == gaps[j - 1];
    }
    forall j | 0 <= j < |runs'| ensures |runs'[j]| > 0 && AllDigits(runs'[j]) {
      if j > 0 {
        assert runs'[j] == runs[j - 1];
      }
    }
  }

  /** A text whose first character is not a digit starts with a non-empty gap. */
  lemma NonEmptyFirstGap(s: string)
    requires s != [] && !IsDigit(s[0])
    ensures Gaps(s)[0] != []
  {
  }

  /** A stretch without digits contributes no run. */
  lemma {:induction false} SkipGap(g: string, t: string)
    requires NoDigits(g)
    ensures DigitRuns(g + t) == DigitRuns(t)
    decreases |g|
  {
    if g != [] {
      assert (g + t)[0] == g[0];
      assert (g + t)[1..] == g[1..] + t;
      assert forall i :: 0 <= i < |g| - 1 ==> g[1..][i] == g[i + 1];
      SkipGap(g[1..], t);
    } else {
      assert g + t == t;
    }
  }

  lemma {:induction false} PrefixOfRun(r: string, u: string)
    requires AllDigits(r) && (u == [] || !IsDigit(u[0]))
    ensures DigitPrefixLength(r + u) == |r|
    decreases |r|
  {
    if r != [] {
      assert (r + u)[1..] == r[1..] + u;
      PrefixOfRun(r[1..], u);
    }
  }

  /** A run of digits followed by a non-digit (or the end) is one token. */
  lemma TakeRun(r: string, u: string)
    requires |r| > 0 && AllDigits(r) && (u == [] || !IsDigit(u[0]))
    ensures DigitRuns(r + u) == [r] + DigitRuns(u)
  {
    PrefixOfRun(r, u);
    assert (r + u)[..|r|] == r;
    assert (r + u)[|r|..] == u;
  }

  /** The runs are determined by the text: whichever separated split rebuilds it,
      its runs are DigitRuns of the text. */
  lemma {:induction false} DigitRunsUnique(gaps: seq<string>, runs: seq<string>)
    requires Separated(gaps, runs)
    ensures DigitRuns(Interleave(gaps, runs)) == runs
    decreases |runs|
  {
    if runs == [] {
      assert gaps[0] + [] == gaps[0];
      SkipGap(gaps[0], []);
    } else {
      var u := Interleave(gaps[1..], runs[1..]);
      assert Separated(gaps[1..], runs[1..]) by {
        forall j | 0 <= j < |gaps| - 1 ensures NoDigits(gaps[1..][j]) {
          assert gaps[1..][j] == gaps[j + 1];
        }
        forall j | 0 < j < |runs| - 1 ensures gaps[1..][j] != [] {
          assert gaps[1..][j] == gaps[j + 1];
        }
        forall j | 0 <= j < |runs| - 1 ensures |runs[1..][j]| > 0 && AllDigits(runs[1..][j]) {
          assert runs[1..][j] == runs[j + 1];
        }
      }
      if |runs| > 1 {
        assert u == gaps[1] + (runs[1] + Interleave(gaps[2..], runs[2..])) by {
          assert gaps[1..][0] == gaps[1];
          assert gaps[1..][1..] == gaps[2..];
          assert runs[1..][1..] == runs[2..];
        }
        assert gaps[1] != [] && NoDigits(gaps[1]);
        assert u[0] == gaps[1][0];
      } else {
        assert u == gaps[1];
        assert NoDigits(gaps[1]);
      }
      SkipGap(gaps[0], runs[0] + u);
      TakeRun(runs[0], u);
      DigitRunsUnique(gaps[1..], runs[1..]);
    }
  }

  function DigitValue(ch: char): (v: nat)
    requires IsDigit(ch)
    ensures v < 10
  {
    (ch as int) - ('0' as int)
  }

  /** Python's `int` of a string of ASCII digits: its decimal value, read most
      significant digit first; leading zeros are allowed. */
  function DecimalValue(s: string): nat
    requires AllDigits(s)
    decreases |s|
  {
    if s == [] then 0 else DecimalValue(s[..|s| - 1]) * 10 + DigitValue(s[|s| - 1])
  }

  function DigitChar(v: nat): (ch: char)
    requires v < 10
    ensures IsDigit(ch) && DigitValue(ch) == v
  {
    ('0' as int + v) as char
  }

  /** The canonical decimal numeral of n: no leading zero except for n == 0 itself. */
  function Decimal(n: nat): (s: string)
    ensures |s| > 0 && AllDigits(s)
    decreases n
  {
    if n < 10 then [DigitChar(n)] else Decimal(n / 10) + [DigitChar(n % 10)]
  }

  /** Reading back the numeral of n gives n. */
  lemma {:induction false} DecimalValueOfDecimal(n: nat)
    ensures DecimalValue(Decimal(n)) == n
    decreases n
  {
    var s := Decimal(n);
    if n < 10 {
      assert s[..0] == [];
    } else {
      assert s[..|s| - 1] == Decimal(n / 10);
      DecimalValueOfDecimal(n / 10);
    }
  }

  /** A leading zero does not change the value, as with Python's `int("007")`. */
  lemma {:induction false} LeadingZeroIgnored(s: string)
    requires AllDigits(s)
    ensures DecimalValue("0" + s) == DecimalValue(s)
    decreases |s|
  {
    if s != [] {
      assert ("0" + s)[..|s|] == "0" + s[..|s| - 1];
      LeadingZeroIgnored(s[..|s| - 1]);
    } else {
      assert ("0" + s)[..0] == [];
    }
  }
}
