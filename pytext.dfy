/** The Python string built-ins the core relies on, with the semantics
    CPython gives them: `str.find`, `str.rfind`, `str.split`, `str.join`,
    `str.replace`, `str()` of an integer and `os.path.join` of two parts. */
module PyText {

  predicate IsDigit(c: char) {
    '0' <= c <= '9'
  }

  /** `s.find(c)`: the first index holding c, or -1. */
  function Find(s: string, c: char): (r: int)
    ensures -1 <= r < |s|
    ensures 0 <= r ==> s[r] == c
    ensures forall k | 0 <= k < |s| && (r < 0 || k < r) :: s[k] != c
  {
    if |s| == 0 then -1
    else if s[0] == c then 0
    else
      var k := Find(s[1..], c);
      if k < 0 then -1 else k + 1
  }

  /** `s.rfind(c)`: the last index holding c, or -1. */
  function RFind(s: string, c: char): (r: int)
    ensures -1 <= r < |s|
    ensures 0 <= r ==> s[r] == c
    ensures forall k | r < k < |s| :: s[k] != c
  {
    if |s| == 0 then -1
    else if s[|s| - 1] == c then |s| - 1
    else RFind(s[..|s| - 1], c)
  }

  /** `s.split(sep)` for a one-character separator: never empty. */
  function Split(s: string, sep: char): (pieces: seq<string>)
    ensures |pieces| >= 1
    decreases |s|
  {
    var i := Find(s, sep);
    if i < 0 then [s] else [s[..i]] + Split(s[i + 1..], sep)
  }

  /** `sep.join(pieces)`. */
  function Join(pieces: seq<string>, sep: string): string {
    if |pieces| == 0 then ""
    else if |pieces| == 1 then pieces[0]
    else pieces[0] + sep + Join(pieces[1..], sep)
  }

  /** No piece of a split holds the separator. */
  lemma {:induction false} SplitPiecesLackSeparator(s: string, sep: char)
    ensures forall p | p in Split(s, sep) :: sep !in p
    decreases |s|
  {
    var i := Find(s, sep);
    if i >= 0 {
      SplitPiecesLackSeparator(s[i + 1..], sep);
    }
  }

  lemma JoinCons(a: string, tail: seq<string>, sep: string)
    requires |tail| >= 1
    ensures Join([a] + tail, sep) == a + sep + Join(tail, sep)
  {
    assert ([a] + tail)[1..] == tail;
  }

  /** Joining the pieces of a split with the same separator gives the
      original text back. */
  lemma {:induction false} JoinSplit(s: string, sep: char)
    ensures Join(Split(s, sep), [sep]) == s
    decreases |s|
  {
    var i := Find(s, sep);
    if i >= 0 {
      JoinSplit(s[i + 1..], sep);
      JoinSplitStep(s, sep, i);
    } else {
      assert Split(s, sep) == [s];
    }
  }

  lemma JoinSplitStep(s: string, sep: char, i: int)
    requires i == Find(s, sep) && i >= 0
    requires Join(Split(s[i + 1..], sep), [sep]) == s[i + 1..]
    ensures Join(Split(s, sep), [sep]) == s
  {
    var head, rest := s[..i], s[i + 1..];
    var tail := Split(rest, sep);
    SplitAt(s, sep, i);
    JoinCons(head, tail, [sep]);
    assert s == head + [sep] + rest;
  }

  /** A split at the first separator: the text before it, then the split of
      the rest. */
  lemma SplitAt(s: string, sep: char, i: int)
    requires i == Find(s, sep) && i >= 0
    ensures Split(s, sep) == [s[..i]] + Split(s[i + 1..], sep)
  {
  }

  /** The first occurrence found by `find` is the only one before it. */
  lemma FindIs(s: string, c: char, i: nat)
    requires i < |s| && s[i] == c && forall k | 0 <= k < i :: s[k] != c
    ensures Find(s, c) == i
  {
  }

  /** The last occurrence found by `rfind` is the only one after it. */
  lemma RFindIs(s: string, c: char, i: nat)
    requires i < |s| && s[i] == c && forall k | i < k < |s| :: s[k] != c
    ensures RFind(s, c) == i
  {
  }

  /** Splitting text that holds no separator gives the text alone. */
  lemma SplitNoSeparator(s: string, sep: char)
    requires sep !in s
    ensures Split(s, sep) == [s]
  {
    assert Find(s, sep) < 0;
  }

  /** Splitting two texts joined by a separator splits each of them. */
  lemma {:induction false} SplitConcat(x: string, y: string, sep: char)
    ensures Split(x + [sep] + y, sep) == Split(x, sep) + Split(y, sep)
    decreases |x|
  {
    var i := Find(x, sep);
    if i < 0 {
      SplitConcatNoSeparator(x, y, sep);
    } else {
      var rest := x[i + 1..];
      SplitConcatFirst(x, y, sep, i);
      SplitConcat(rest, y, sep);
      SplitAt(x, sep, i);
      assert [x[..i]] + (Split(rest, sep) + Split(y, sep)) == ([x[..i]] + Split(rest, sep)) + Split(y, sep);
    }
  }

  lemma SplitConcatNoSeparator(x: string, y: string, sep: char)
    requires Find(x, sep) < 0
    ensures Split(x + [sep] + y, sep) == [x] + Split(y, sep)
    ensures Split(x, sep) == [x]
  {
    var s := x + [sep] + y;
    FindIs(s, sep, |x|);
    SplitAt(s, sep, |x|);
    assert s[..|x|] == x && s[|x| + 1..] == y;
  }

  lemma SplitConcatFirst(x: string, y: string, sep: char, i: nat)
    requires i == Find(x, sep)
    ensures Split(x + [sep] + y, sep) == [x[..i]] + Split(x[i + 1..] + [sep] + y, sep)
  {
    var s := x + [sep] + y;
    FindIs(s, sep, i);
    SplitAt(s, sep, i);
    assert s[..i] == x[..i];
    assert s[i + 1..] == x[i + 1..] + [sep] + y;
  }

  /** `s.replace(pat, rep)` for a non-empty pattern: occurrences are replaced
      left to right and never overlap. */
  function Replace(s: string, pat: string, rep: string): string
    requires |pat| > 0
    decreases |s|
  {
    if |s| < |pat| then s
    else if s[..|pat|] == pat then rep + Replace(s[|pat|..], pat, rep)
    else [s[0]] + Replace(s[1..], pat, rep)
  }

  /** Replacing a text by itself changes nothing. */
  lemma {:induction false} ReplaceBySelf(s: string, pat: string)
    requires |pat| > 0
    ensures Replace(s, pat, pat) == s
    decreases |s|
  {
    if |s| >= |pat| {
      if s[..|pat|] == pat {
        ReplaceBySelf(s[|pat|..], pat);
        assert s == s[..|pat|] + s[|pat|..];
      } else {
        ReplaceBySelf(s[1..], pat);
        assert s == [s[0]] + s[1..];
      }
    }
  }

  /** Replacing one character by another is a position-wise substitution. */
  lemma {:induction false} ReplaceChar(s: string, c: char, d: char)
    ensures |Replace(s, [c], [d])| == |s|
    ensures forall k | 0 <= k < |s| ::
      Replace(s, [c], [d])[k] == if s[k] == c then d else s[k]
    decreases |s|
  {
    if |s| >= 1 {
      ReplaceChar(s[1..], c, d);
      if s[..1] == [c] {
        assert s[1..] == s[|[c]|..];
      }
    }
  }

  function DigitChar(d: nat): (c: char)
    requires d < 10
    ensures IsDigit(c)
  {
    (('0' as int) + d) as char
  }

  function DigitValue(c: char): (d: nat)
    requires IsDigit(c)
    ensures d < 10
  {
    (c as int) - ('0' as int)
  }

  /** `str(n)` for a natural number: decimal digits without leading zeros. */
  function NatToString(n: nat): (s: string)
    ensures |s| >= 1
    ensures forall k | 0 <= k < |s| :: IsDigit(s[k])
    ensures |s| > 1 ==> s[0] != '0'
    decreases n
  {
    if n < 10 then [DigitChar(n)]
    else
      var r := NatToString(n / 10) + [DigitChar(n % 10)];
      assert r[0] == NatToString(n / 10)[0];
      r
  }

  /** `int(s)` for a string of decimal digits. */
  function ParseDigits(s: string): nat
    requires forall k | 0 <= k < |s| :: IsDigit(s[k])
  {
    if |s| == 0 then 0
    else ParseDigits(s[..|s| - 1]) * 10 + DigitValue(s[|s| - 1])
  }

  /** Reading back the digits of `str(n)` gives n: the rendering loses no
      information. */
  lemma {:induction false} ParseNatToString(n: nat)
    ensures ParseDigits(NatToString(n)) == n
    decreases n
  {
    if n >= 10 {
      ParseNatToString(n / 10);
      var s := NatToString(n);
      assert s[..|s| - 1] == NatToString(n / 10);
    }
  }

  /** `str(i)` for an integer: a leading `-` exactly for a negative number,
      then decimal digits without leading zeros. */
  function IntToString(i: int): (s: string)
    ensures |s| >= 1 && (s[0] == '-' <==> i < 0)
    ensures var digits := if i < 0 then s[1..] else s;
      |digits| >= 1 && (forall k | 0 <= k < |digits| :: IsDigit(digits[k])) &&
      (|digits| > 1 ==> digits[0] != '0')
  {
    if i < 0 then
      var s := "-" + NatToString(-i);
      assert s[1..] == NatToString(-i);
      s
    else NatToString(i)
  }

  /** Reading back `str(i)`: the sign, then the digits of the magnitude. */
  lemma ParseIntToString(i: int)
    ensures var s := IntToString(i);
      var digits := if i < 0 then s[1..] else s;
      ParseDigits(digits) == if i < 0 then -i else i
  {
    if i < 0 {
      ParseNatToString(-i);
      assert IntToString(i)[1..] == NatToString(-i);
    } else {
      ParseNatToString(i);
    }
  }

  /** Different integers have different texts. */
  lemma IntToStringInjective(i: int, j: int)
    requires IntToString(i) == IntToString(j)
    ensures i == j
  {
    ParseIntToString(i);
    ParseIntToString(j);
  }

  /** `os.path.join(a, b)` on a POSIX system: an absolute `b` wins, otherwise
      a single `/` separates the parts. The path ends with `b`, and starts
      with `a` unless `b` is absolute. */
  function PathJoin(a: string, b: string): (p: string)
    ensures |b| <= |p| && p[|p| - |b|..] == b
    ensures |b| > 0 && b[0] != '/' ==> |a| <= |p| && p[..|a|] == a
  {
    if |b| > 0 && b[0] == '/' then b
    else if |a| == 0 || a[|a| - 1] == '/' then a + b
    else a + "/" + b
  }
}
