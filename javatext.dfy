/**
 * The pieces of java.lang.String, java.util.regex.Pattern and java.lang.Integer
 * that the processors rely on: indexOf, lastIndexOf, contains, the literal-pattern
 * split (limit 0), Integer.parseInt, Integer.toString and int division/remainder,
 * which truncate toward zero.
 */
module JavaText {
  import opened Wrappers

  const INT_MIN: int := -0x8000_0000
  const INT_MAX: int := 0x7fff_ffff

  /** t occurs in s starting at position j. */
  predicate OccursAt(s: string, t: string, j: int) {
    0 <= j && j + |t| <= |s| && s[j..j + |t|] == t
  }

  /** r is what s.indexOf(t) returns: the leftmost position of t in s, or -1. */
  ghost predicate FirstOccurrence(s: string, t: string, r: int) {
    if r == -1 then forall j :: !OccursAt(s, t, j)
    else OccursAt(s, t, r) && forall j :: 0 <= j < r ==> !OccursAt(s, t, j)
  }

  lemma OccursInTail(s: string, t: string, j: int)
    requires |s| > 0 && j >= 0
    ensures OccursAt(s[1..], t, j) <==> OccursAt(s, t, j + 1)
  {
    if 0 <= j && j + |t| <= |s| - 1 {
      assert s[1..][j..j + |t|] == s[j + 1..j + 1 + |t|];
    }
  }

  lemma OccursInInit(s: string, t: string, j: int)
    requires |s| > 0
    ensures OccursAt(s[..|s| - 1], t, j) <==> OccursAt(s, t, j) && j + |t| < |s|
  {
    if 0 <= j && j + |t| <= |s| - 1 {
      assert s[..|s| - 1][j..j + |t|] == s[j..j + |t|];
    }
  }

  /** String.indexOf(String). */
  function IndexOf(s: string, t: string): (r: int)
    ensures FirstOccurrence(s, t, r)
    ensures r == -1 || 0 <= r <= |s| - |t|
    decreases |s|
  {
    if |s| < |t| then -1
    else if s[..|t|] == t then 0
    else
      var k := IndexOf(s[1..], t);
      assert !OccursAt(s, t, 0);
      assert forall j :: j >= 0 ==> (OccursAt(s[1..], t, j) <==> OccursAt(s, t, j + 1)) by {
        forall j | j >= 0 { OccursInTail(s, t, j); }
      }
      if k == -1 then
        assert forall j :: !OccursAt(s, t, j) by {
          forall j ensures !OccursAt(s, t, j) {
            if j > 0 { OccursInTail(s, t, j - 1); }
          }
        }
        -1
      else
        assert forall j :: 0 <= j < k + 1 ==> !OccursAt(s, t, j) by {
          forall j | 0 < j < k + 1 ensures !OccursAt(s, t, j) {
            OccursInTail(s, t, j - 1);
          }
        }
        k + 1
  }

  /** Where t occurs, s agrees with t character by character. */
  lemma OccursAtChars(s: string, t: string, j: int)
    ensures OccursAt(s, t, j) ==> forall k :: 0 <= k < |t| ==> s[j + k] == t[k]
  {
    if OccursAt(s, t, j) {
      forall k | 0 <= k < |t| ensures s[j + k] == t[k] {
        assert s[j..j + |t|][k] == s[j + k];
      }
    }
  }

  /** indexOf is the one position that is a first occurrence. */
  lemma FirstOccurrenceIsIndexOf(s: string, t: string, r: int)
    requires FirstOccurrence(s, t, r)
    ensures r == IndexOf(s, t)
  {
    var i := IndexOf(s, t);
    if r != -1 && i != -1 {
      assert !(r < i) && !(i < r);
    }
  }

  /** String.contains(String), which Java defines as indexOf(t) >= 0. */
  predicate Contains(s: string, t: string) {
    IndexOf(s, t) >= 0
  }

  /** contains holds exactly when t occurs somewhere in s. */
  lemma ContainsOccurs(s: string, t: string)
    ensures Contains(s, t) <==> exists j :: OccursAt(s, t, j)
  {
    if Contains(s, t) {
      assert OccursAt(s, t, IndexOf(s, t));
    }
  }

  /** An occurrence of t in b is one in a + b, |a| further on. */
  lemma OccursInSuffix(a: string, b: string, t: string, q: int)
    requires OccursAt(b, t, q)
    ensures OccursAt(a + b, t, |a| + q)
  {
    assert (a + b)[|a| + q..|a| + q + |t|] == b[q..q + |t|];
  }

  lemma ContainsWitness(s: string, t: string, j: int)
    requires OccursAt(s, t, j)
    ensures Contains(s, t) && IndexOf(s, t) <= j
  {
  }

  /** String.lastIndexOf(String): the rightmost position of t in s, or -1. */
  function LastIndexOf(s: string, t: string): (r: int)
    ensures r == -1 ==> forall j :: !OccursAt(s, t, j)
    ensures r != -1 ==> OccursAt(s, t, r) && forall j :: r < j ==> !OccursAt(s, t, j)
    decreases |s|
  {
    if |s| < |t| then -1
    else if s[|s| - |t|..] == t then |s| - |t|
    else
      assert forall j :: OccursAt(s[..|s| - 1], t, j) <==> OccursAt(s, t, j) by {
        forall j { OccursInInit(s, t, j); }
      }
      LastIndexOf(s[..|s| - 1], t)
  }

  /**
   * The fields between successive non-overlapping occurrences of sep in s,
   * found left to right, as java.util.regex.Pattern.split produces them before
   * it removes trailing empty strings.
   */
  function Fields(s: string, sep: string): (r: seq<string>)
    requires |sep| > 0
    ensures |r| >= 1
    ensures |r| == 1 <==> !Contains(s, sep)
    ensures forall k :: 0 <= k < |r| ==> |r[k]| <= |s|
    decreases |s|
  {
    var i := IndexOf(s, sep);
    if i < 0 then [s] else [s[..i]] + Fields(s[i + |sep|..], sep)
  }

  /** s with the separator put back between the fields: the inverse of Fields. */
  function Join(fields: seq<string>, sep: string): string
    requires |fields| >= 1
  {
    if |fields| == 1 then fields[0] else fields[0] + sep + Join(fields[1..], sep)
  }

  lemma {:induction false} JoinFields(s: string, sep: string)
    requires |sep| > 0
    ensures Join(Fields(s, sep), sep) == s
    decreases |s|
  {
    var i := IndexOf(s, sep);
    if i >= 0 {
      var rest := s[i + |sep|..];
      var f := Fields(s, sep);
      assert f == [s[..i]] + Fields(rest, sep);
      JoinFields(rest, sep);
      assert f[1..] == Fields(rest, sep);
      assert Join(f, sep) == s[..i] + sep + rest;
      assert s[i..i + |sep|] == sep;
      Reassemble(s, i, i + |sep|);
    }
  }

  /** A one-character string occurs exactly where that character is. */
  lemma OneCharOccurs(s: string, c: char)
    ensures forall j :: OccursAt(s, [c], j) <==> 0 <= j < |s| && s[j] == c
  {
    forall j | 0 <= j < |s| ensures OccursAt(s, [c], j) <==> s[j] == c {
      assert s[j..j + 1] == [s[j]];
    }
  }

  lemma Reassemble(s: string, i: int, j: int)
    requires 0 <= i <= j <= |s|
    ensures s[..i] + s[i..j] + s[j..] == s
  {
  }

  lemma {:induction false} FieldsAreFree(s: string, sep: string)
    requires |sep| > 0
    ensures forall k :: 0 <= k < |Fields(s, sep)| ==> !Contains(Fields(s, sep)[k], sep)
    decreases |s|
  {
    var i := IndexOf(s, sep);
    var f := Fields(s, sep);
    if i >= 0 {
      var rest := s[i + |sep|..];
      var g := Fields(rest, sep);
      assert f == [s[..i]] + g;
      FieldsAreFree(rest, sep);
      PrefixBeforeFirstIsFree(s, sep);
      forall k | 0 <= k < |f| ensures !Contains(f[k], sep) {
        if k > 0 {
          assert f[k] == g[k - 1];
        }
      }
    }
  }

  /** The text before the first occurrence of t does not contain t. */
  lemma PrefixBeforeFirstIsFree(s: string, t: string)
    requires IndexOf(s, t) >= 0
    ensures |t| > 0 ==> !Contains(s[..IndexOf(s, t)], t)
  {
    var i := IndexOf(s, t);
    var p := s[..i];
    if |t| > 0 && Contains(p, t) {
      var j := IndexOf(p, t);
      assert p[j..j + |t|] == s[j..j + |t|];
      assert OccursAt(s, t, j);
    }
  }

  /** The list without its trailing empty strings. */
  function DropTrailingEmpty(p: seq<string>): (r: seq<string>)
    ensures r <= p
    ensures |r| > 0 ==> r[|r| - 1] != ""
    ensures forall k :: |r| <= k < |p| ==> p[k] == ""
  {
    if |p| == 0 then []
    else if p[|p| - 1] == "" then DropTrailingEmpty(p[..|p| - 1])
    else p
  }

  /**
   * Pattern.compile(Pattern.quote(sep)).split(s): the whole input when sep does
   * not occur, otherwise the fields between occurrences with the trailing empty
   * ones removed (so the result may have fewer than two elements, or none).
   */
  function Split(s: string, sep: string): (r: seq<string>)
    requires |sep| > 0
    ensures !Contains(s, sep) ==> r == [s]
    ensures Contains(s, sep) && |r| >= 1 ==> r[0] == s[..IndexOf(s, sep)]
    ensures |r| >= 2 ==> Contains(s, sep) && |r[1]| + |sep| <= |s|
  {
    if !Contains(s, sep) then [s]
    else
      var i := IndexOf(s, sep);
      var r := DropTrailingEmpty(Fields(s, sep));
      assert |r| >= 2 ==> r[1] == Fields(s[i + |sep|..], sep)[0];
      r
  }

  /** The first field of s: the text before the first separator, or all of s. */
  lemma FirstField(s: string, sep: string)
    requires |sep| > 0
    ensures Fields(s, sep)[0] == if Contains(s, sep) then s[..IndexOf(s, sep)] else s
  {
  }

  /** The field after the first separator runs up to the next separator, or to the end. */
  lemma {:induction false} SplitSecond(s: string, sep: string, rest: string)
    requires |sep| > 0 && Contains(s, sep)
    requires rest == s[IndexOf(s, sep) + |sep|..]
    ensures |Split(s, sep)| >= 2 ==>
              Split(s, sep)[1] == if Contains(rest, sep) then rest[..IndexOf(rest, sep)] else rest
  {
    var f := Fields(s, sep);
    var r := Split(s, sep);
    assert f[1..] == Fields(rest, sep);
    FirstField(rest, sep);
    if |r| >= 2 {
      assert r[1] == f[1];
    }
  }

  /** Split has a second element exactly when some field after the first is non-empty. */
  lemma {:induction false} SplitHasSecond(s: string, sep: string)
    requires |sep| > 0 && Contains(s, sep)
    ensures |Split(s, sep)| >= 2 <==>
              exists k :: 1 <= k < |Fields(s, sep)| && Fields(s, sep)[k] != ""
  {
    var f := Fields(s, sep);
    var r := Split(s, sep);
    assert r == DropTrailingEmpty(f);
    if |r| >= 2 {
      var k := |r| - 1;
      assert r[k] == f[k];
      assert 1 <= k < |f| && f[k] != "";
      assert exists k :: 1 <= k < |Fields(s, sep)| && Fields(s, sep)[k] != "";
    } else {
      assert forall k :: 1 <= k < |f| ==> f[k] == "";
    }
  }

  predicate IsDigit(c: char) {
    '0' <= c <= '9'
  }

  predicate AllDigits(s: string) {
    forall i :: 0 <= i < |s| ==> IsDigit(s[i])
  }

  /** The value of a string of decimal digits. */
  function DigitsValue(s: string): (n: nat)
    requires AllDigits(s)
    decreases |s|
  {
    if s == [] then 0 else DigitsValue(s[..|s| - 1]) * 10 + (s[|s| - 1] as int - '0' as int)
  }

  lemma {:induction false} DigitsValueBound(s: string)
    requires AllDigits(s)
    ensures DigitsValue(s) < Pow10(|s|)
    decreases |s|
  {
    if s != [] {
      DigitsValueBound(s[..|s| - 1]);
    }
  }

  lemma ShortDigitsFit(s: string)
    requires AllDigits(s)
    ensures |s| <= 9 ==> DigitsValue(s) < 1_000_000_000
  {
    DigitsValueBound(s);
    if |s| <= 9 {
      Pow10Monotone(|s|, 9);
    }
  }

  lemma {:induction false} Pow10Monotone(m: nat, n: nat)
    requires m <= n
    ensures Pow10(m) <= Pow10(n)
    decreases n
  {
    if m < n {
      Pow10Monotone(m, n - 1);
    }
  }

  function Pow10(n: nat): (p: nat)
    ensures p >= 1
  {
    if n == 0 then 1 else 10 * Pow10(n - 1)
  }

  /**
   * Integer.parseInt(s) for ASCII digits: an optional sign, at least one digit,
   * and a value that fits in 32 bits; None where Java throws NumberFormatException.
   */
  function ParseInt(s: string): (r: Option<int>)
    ensures r.Some? ==> INT_MIN <= r.value <= INT_MAX
    ensures r.Some? ==> |s| > 0 && (r.value < 0 ==> s[0] == '-')
    ensures AllDigits(s) && 0 < |s| <= 9 ==> r == Some(DigitsValue(s))
    ensures r.Some? ==> (AllDigits(s) && r.value == DigitsValue(s)) ||
                        (s[0] == '+' && AllDigits(s[1..]) && r.value == DigitsValue(s[1..])) ||
                        (s[0] == '-' && AllDigits(s[1..]) && r.value == -(DigitsValue(s[1..]) as int))
    // NumberFormatException: empty, a bare sign, a non-digit other than a leading sign, or out of range
    ensures |s| == 0 || s == "-" || s == "+" ==> r.None?
    ensures |s| > 0 && !IsDigit(s[0]) && s[0] != '-' && s[0] != '+' ==> r.None?
    ensures (exists i :: 0 < i < |s| && !IsDigit(s[i])) ==> r.None?
    ensures AllDigits(s) && |s| > 0 && DigitsValue(s) > INT_MAX ==> r.None?
    ensures |s| > 1 && s[0] == '+' && AllDigits(s[1..]) && DigitsValue(s[1..]) > INT_MAX ==> r.None?
    ensures |s| > 1 && s[0] == '-' && AllDigits(s[1..]) && DigitsValue(s[1..]) > -INT_MIN ==> r.None?
    // and every numeral in int range parses to its value
    ensures AllDigits(s) && |s| > 0 && DigitsValue(s) <= INT_MAX ==> r == Some(DigitsValue(s))
    ensures |s| > 1 && s[0] == '+' && AllDigits(s[1..]) && DigitsValue(s[1..]) <= INT_MAX ==> r == Some(DigitsValue(s[1..]))
    ensures |s| > 1 && s[0] == '-' && AllDigits(s[1..]) && DigitsValue(s[1..]) <= -INT_MIN ==>
              r == Some(-(DigitsValue(s[1..]) as int))
  {
    if |s| == 0 then None
    else
      var digits := if s[0] == '-' || s[0] == '+' then s[1..] else s;
      if |digits| == 0 || !AllDigits(digits) then None
      else
        var v: int := if s[0] == '-' then -(DigitsValue(digits) as int) else DigitsValue(digits);
        ShortDigitsFit(digits);
        if INT_MIN <= v <= INT_MAX then Some(v) else None
  }

  function DigitChar(d: nat): (c: char)
    requires d < 10
    ensures IsDigit(c) && c as int - '0' as int == d
  {
    ('0' as int + d) as char
  }

  /** Integer.toString(n) for a non-negative n. */
  function NatToString(n: nat): (s: string)
    ensures |s| >= 1 && AllDigits(s)
    ensures DigitsValue(s) == n
    ensures s[0] == '0' ==> s == "0"
  {
    if n < 10 then [DigitChar(n)]
    else
      var s := NatToString(n / 10) + [DigitChar(n % 10)];
      assert s[..|s| - 1] == NatToString(n / 10);
      s
  }

  lemma {:induction false} ParseNatToString(n: nat)
    requires n <= INT_MAX
    ensures ParseInt(NatToString(n)) == Some(n)
  {
    var s := NatToString(n);
    assert s[0] != '-' && s[0] != '+';
  }

  /** The 1-based index minus one, in Java's 32-bit arithmetic. */
  function ToZeroBased(n: int): (index: int)
    requires INT_MIN <= n <= INT_MAX
    ensures INT_MIN <= index <= INT_MAX
    ensures n != INT_MIN ==> index + 1 == n
  {
    if n == INT_MIN then INT_MAX else n - 1
  }

  /** Java's int division a / b for b > 0: the quotient rounded toward zero. */
  function JavaDiv(a: int, b: int): (q: int)
    requires b > 0
    ensures a >= 0 ==> 0 <= q * b <= a < q * b + b
    ensures a < 0 ==> q * b - b < a <= q * b <= 0
  {
    if a >= 0 then
      EuclidDiv(a, b);
      a / b
    else
      EuclidDiv(-a, b);
      NegateProduct((-a) / b, b);
      -((-a) / b)
  }

  lemma EuclidDiv(n: nat, b: int)
    requires b > 0
    ensures 0 <= (n / b) * b <= n < (n / b) * b + b
  {
  }

  lemma NegateProduct(m: int, b: int)
    ensures (-m) * b == -(m * b)
  {
  }

  /** Java's int remainder a % b for b > 0: it takes the sign of a. */
  function JavaRem(a: int, b: int): (m: int)
    requires b > 0
    ensures JavaDiv(a, b) * b + m == a
    ensures a >= 0 ==> 0 <= m < b
    ensures a < 0 ==> -b < m <= 0
  {
    a - JavaDiv(a, b) * b
  }
}
