/** `replace_float_notation` (core/client.py): repairs numbers that a
    French- or German-locale simulator writes with a decimal comma.

    The two patterns are matched by hand here, with the behaviour of
    Python's `re.finditer`: the leftmost match is taken, the search resumes
    after it, and the greedy `[0-9,E-]+` backtracks to the longest run that
    is followed by the terminator. The first pattern ends in `,` (a field in
    the middle of an object), the second in `}` (the last field). Each match
    then rewrites EVERY occurrence of its number text in the whole string, as
    `str.replace` does. */
module FloatNotation {
  import opened Wrappers
  import PyText

  /** `[a-zA-Z_]`: a character of a field name. */
  predicate IsKeyChar(c: char) {
    'a' <= c <= 'z' || 'A' <= c <= 'Z' || c == '_'
  }

  /** `[0-9,E-]`: a character of a (possibly comma-decimal) number. */
  predicate IsNumChar(c: char) {
    '0' <= c <= '9' || c == ',' || c == 'E' || c == '-'
  }

  /** The end of the longest run of field-name characters from i. */
  function KeyRunEnd(s: string, i: nat): (j: nat)
    requires i <= |s|
    ensures i <= j <= |s|
    ensures forall k | i <= k < j :: IsKeyChar(s[k])
    ensures j < |s| ==> !IsKeyChar(s[j])
    decreases |s| - i
  {
    if i < |s| && IsKeyChar(s[i]) then KeyRunEnd(s, i + 1) else i
  }

  /** The end of the longest run of number characters from i. */
  function NumRunEnd(s: string, i: nat): (j: nat)
    requires i <= |s|
    ensures i <= j <= |s|
    ensures forall k | i <= k < j :: IsNumChar(s[k])
    ensures j < |s| ==> !IsNumChar(s[j])
    decreases |s| - i
  {
    if i < |s| && IsNumChar(s[i]) then NumRunEnd(s, i + 1) else i
  }

  /** Backtracking of the greedy number group that starts at lo and can
      reach hi: the group ends at the greatest k in (lo, hi] whose next
      character is the terminator. */
  function LastTerm(s: string, lo: nat, hi: nat, term: char): (k: Option<nat>)
    requires lo < hi <= |s|
    ensures k.Some? ==> lo < k.value <= hi && k.value < |s| && s[k.value] == term
    ensures k.Some? ==> forall m | k.value < m <= hi && m < |s| :: s[m] != term
    ensures k.None? ==> forall m | lo < m <= hi && m < |s| :: s[m] != term
    decreases hi
  {
    if hi < |s| && s[hi] == term then Some(hi)
    else if hi == lo + 1 then None
    else LastTerm(s, lo, hi - 1, term)
  }

  /** One match of `"<name>":<num><term>`: it starts at `start`, the number
      group is s[numStart..numEnd] and the terminator sits at numEnd. */
  datatype Match = Match(start: nat, numStart: nat, numEnd: nat)

  /** A match of the pattern ending in `term` at exactly position i. */
  function MatchAt(s: string, i: nat, term: char): (m: Option<Match>)
    requires i <= |s|
    ensures m.Some? ==> m.value.start == i && i + 3 < m.value.numStart < m.value.numEnd < |s|
    ensures m.Some? ==> s[m.value.numEnd] == term && s[m.value.numStart - 1] == ':'
    ensures m.Some? ==> forall k | m.value.numStart <= k < m.value.numEnd :: IsNumChar(s[k])
    ensures m.Some? ==> s[i] == '"' && i + 1 < m.value.numStart - 2 && s[m.value.numStart - 2] == '"'
    ensures m.Some? ==> forall k | i < k < m.value.numStart - 2 :: IsKeyChar(s[k])
  {
    if i < |s| && s[i] == '"' then
      var j := KeyRunEnd(s, i + 1);
      if j > i + 1 && j + 1 < |s| && s[j] == '"' && s[j + 1] == ':' then
        var n0 := j + 2;
        var n1 := NumRunEnd(s, n0);
        if n1 > n0 then
          match LastTerm(s, n0, n1, term)
          case Some(k) => Some(Match(i, n0, k))
          case None => None
        else None
      else None
    else None
  }

  /** Each match ends, terminator included, before the next one starts. */
  predicate Ordered(ms: seq<Match>) {
    forall a | 0 <= a < |ms| - 1 :: ms[a].numEnd < ms[a + 1].start
  }

  /** `re.finditer` from position i: matches in order, never overlapping. */
  function FindAll(s: string, i: nat, term: char): (ms: seq<Match>)
    requires i <= |s|
    ensures forall m | m in ms :: i <= m.start && m.numStart < m.numEnd < |s|
    ensures Ordered(ms)
    decreases |s| - i
  {
    if i >= |s| then []
    else match MatchAt(s, i, term)
      case Some(m) => [m] + FindAll(s, m.numEnd + 1, term)
      case None => FindAll(s, i + 1, term)
  }

  /** Every element `finditer` yields is a match of the pattern where it
      starts. */
  lemma {:induction false} FindAllSound(s: string, i: nat, term: char, m: Match)
    requires i <= |s| && m in FindAll(s, i, term)
    ensures m.start <= |s| && MatchAt(s, m.start, term) == Some(m)
    decreases |s| - i
  {
    var next := FindAllNext(s, i, term);
    if m !in FindAll(s, next, term) {
      assert m == MatchAt(s, i, term).value;
    } else {
      FindAllSound(s, next, term, m);
    }
  }

  /** `finditer` skips no match: every position where the pattern matches
      lies inside a yielded match, from its start to its terminator. */
  lemma {:induction false} FindAllComplete(s: string, i: nat, term: char, k: nat)
    requires i <= k < |s| && MatchAt(s, k, term).Some?
    ensures exists m | m in FindAll(s, i, term) :: m.start <= k <= m.numEnd
    decreases |s| - i
  {
    var next := FindAllNext(s, i, term);
    if k < next {
      var m := MatchAt(s, i, term).value;
      assert m in FindAll(s, i, term) && m.start <= k <= m.numEnd;
    } else {
      FindAllComplete(s, next, term, k);
      var m :| m in FindAll(s, next, term) && m.start <= k <= m.numEnd;
      assert m in FindAll(s, i, term);
    }
  }

  /** Where the search resumes after position i: past the terminator of a
      match at i, else at i + 1. Below it, only the match at i, if any, is
      yielded, and it covers every position up to the resume point. */
  function FindAllNext(s: string, i: nat, term: char): (next: nat)
    requires i < |s|
    ensures i < next <= |s|
    ensures FindAll(s, i, term) ==
      (if MatchAt(s, i, term).Some? then [MatchAt(s, i, term).value] else []) + FindAll(s, next, term)
    ensures MatchAt(s, i, term).Some? ==>
              MatchAt(s, i, term).value.start == i && next == MatchAt(s, i, term).value.numEnd + 1
    ensures MatchAt(s, i, term).None? ==> next == i + 1
  {
    match MatchAt(s, i, term)
    case Some(m) => m.numEnd + 1
    case None => i + 1
  }

  /** The number groups of the matches, as text. */
  function Groups(s: string, ms: seq<Match>): (nums: seq<string>)
    requires forall m | m in ms :: m.numStart < m.numEnd <= |s|
    ensures |nums| == |ms|
    ensures forall n | n in nums :: |n| > 0
  {
    if ms == [] then []
    else Groups(s, ms[..|ms| - 1]) + [s[ms[|ms| - 1].numStart..ms[|ms| - 1].numEnd]]
  }

  /** `num.replace(',', '.')`. */
  function Dotted(num: string): string {
    PyText.Replace(num, [','], ['.'])
  }

  /** r is s with some of its commas turned into dots, and nothing else
      changed. */
  ghost predicate CommasToDots(s: string, r: string) {
    |r| == |s| && forall k | 0 <= k < |s| :: r[k] == s[k] || (s[k] == ',' && r[k] == '.')
  }

  /** The rebinding loop of one pattern: `string = string.replace(num, dotted)`
      for each matched number, in match order. */
  function ReplaceEach(t: string, nums: seq<string>): string
    requires forall n | n in nums :: |n| > 0
  {
    if nums == [] then t
    else
      var last := nums[|nums| - 1];
      PyText.Replace(ReplaceEach(t, nums[..|nums| - 1]), last, Dotted(last))
  }

  /** One pattern's pass: its matches are found in the string as it stood
      when the pass began. */
  function Pass(s: string, term: char): string {
    ReplaceEach(s, Groups(s, FindAll(s, 0, term)))
  }

  /** The two terminators, in the order the source applies the patterns. */
  const Terminators: seq<char> := [',', '}']

  function Passes(s: string, terms: seq<char>): string {
    if terms == [] then s else Pass(Passes(s, terms[..|terms| - 1]), terms[|terms| - 1])
  }

  /** What `replace_float_notation(s)` returns. */
  function Repaired(s: string): string {
    Passes(s, Terminators)
  }

  lemma DottedPointwise(num: string)
    ensures CommasToDots(num, Dotted(num))
  {
    PyText.ReplaceChar(num, ',', '.');
  }

  lemma CommasToDotsConcat(a: string, a': string, b: string, b': string)
    requires CommasToDots(a, a') && CommasToDots(b, b')
    ensures CommasToDots(a + b, a' + b')
  {
    forall k | 0 <= k < |a + b|
      ensures (a' + b')[k] == (a + b)[k] || ((a + b)[k] == ',' && (a' + b')[k] == '.')
    {
      if k >= |a| {
        assert (a + b)[k] == b[k - |a|] && (a' + b')[k] == b'[k - |a|];
      }
    }
  }

  lemma CommasToDotsTrans(a: string, b: string, c: string)
    requires CommasToDots(a, b) && CommasToDots(b, c)
    ensures CommasToDots(a, c)
  {
  }

  /** Replacing a number text by its dotted form everywhere only turns commas
      into dots. */
  lemma {:induction false} ReplaceDotted(t: string, num: string)
    requires |num| > 0
    ensures CommasToDots(t, PyText.Replace(t, num, Dotted(num)))
    decreases |t|
  {
    if |t| >= |num| {
      if t[..|num|] == num {
        ReplaceDotted(t[|num|..], num);
        DottedPointwise(num);
        CommasToDotsConcat(num, Dotted(num), t[|num|..], PyText.Replace(t[|num|..], num, Dotted(num)));
        assert t == num + t[|num|..];
      } else {
        ReplaceDotted(t[1..], num);
        CommasToDotsConcat([t[0]], [t[0]], t[1..], PyText.Replace(t[1..], num, Dotted(num)));
        assert t == [t[0]] + t[1..];
      }
    }
  }

  lemma {:induction false} ReplaceEachCommasToDots(t: string, nums: seq<string>)
    requires forall n | n in nums :: |n| > 0
    ensures CommasToDots(t, ReplaceEach(t, nums))
  {
    if nums != [] {
      var init := nums[..|nums| - 1];
      ReplaceEachCommasToDots(t, init);
      ReplaceDotted(ReplaceEach(t, init), nums[|nums| - 1]);
      CommasToDotsTrans(t, ReplaceEach(t, init), ReplaceEach(t, nums));
    }
  }

  lemma {:induction false} PassesCommasToDots(s: string, terms: seq<char>)
    ensures CommasToDots(s, Passes(s, terms))
  {
    if terms != [] {
      var mid := Passes(s, terms[..|terms| - 1]);
      PassesCommasToDots(s, terms[..|terms| - 1]);
      ReplaceEachCommasToDots(mid, Groups(mid, FindAll(mid, 0, terms[|terms| - 1])));
      CommasToDotsTrans(s, mid, Passes(s, terms));
    }
  }

  /** The repair keeps the length and differs from its input only where a
      comma became a dot. */
  lemma RepairedCommasToDots(s: string)
    ensures CommasToDots(s, Repaired(s))
  {
    PassesCommasToDots(s, Terminators);
  }

  lemma {:induction false} ReplaceEachNoComma(t: string, nums: seq<string>)
    requires forall n | n in nums :: |n| > 0 && ',' !in n
    ensures ReplaceEach(t, nums) == t
  {
    if nums != [] {
      var last := nums[|nums| - 1];
      ReplaceEachNoComma(t, nums[..|nums| - 1]);
      PyText.ReplaceChar(last, ',', '.');
      assert Dotted(last) == last;
      PyText.ReplaceBySelf(t, last);
    }
  }

  lemma {:induction false} GroupsMember(s: string, ms: seq<Match>, k: nat)
    requires forall m | m in ms :: m.numStart < m.numEnd <= |s|
    requires k < |ms|
    ensures Groups(s, ms)[k] == s[ms[k].numStart..ms[k].numEnd]
  {
    if k < |ms| - 1 {
      GroupsMember(s, ms[..|ms| - 1], k);
    }
  }

  /** The number texts matched by the pattern ending in `term`. */
  function MatchedNumbers(s: string, term: char): (nums: seq<string>)
    ensures forall n | n in nums :: |n| > 0
  {
    Groups(s, FindAll(s, 0, term))
  }

  /** When no number matched by either pattern holds a comma (dot-formatted
      JSON, say), the text comes back unchanged. */
  lemma NoCommaUnchanged(s: string)
    requires forall n | n in MatchedNumbers(s, ',') :: ',' !in n
    requires forall n | n in MatchedNumbers(s, '}') :: ',' !in n
    ensures Repaired(s) == s
  {
    assert Terminators[..1] == [','] && Terminators[..0] == [];
    ReplaceEachNoComma(s, MatchedNumbers(s, ','));
    assert Passes(s, [',']) == s;
    ReplaceEachNoComma(s, MatchedNumbers(s, '}'));
  }

  /** Some `":` at or after i is directly followed by a number character:
      without one, neither pattern can match. */
  predicate NumberAfterKeyFrom(s: string, i: nat)
    decreases |s| - i
  {
    i + 2 < |s| && ((s[i] == '"' && s[i + 1] == ':' && IsNumChar(s[i + 2])) || NumberAfterKeyFrom(s, i + 1))
  }

  lemma {:induction false} NumberAfterKeyAt(s: string, i: nat, k: nat)
    requires i <= k && k + 2 < |s| && s[k] == '"' && s[k + 1] == ':' && IsNumChar(s[k + 2])
    ensures NumberAfterKeyFrom(s, i)
    decreases k - i
  {
    if i < k {
      NumberAfterKeyAt(s, i + 1, k);
    }
  }

  lemma {:induction false} NoMatchesWithoutNumberAfterKey(s: string, i: nat, term: char)
    requires i <= |s| && !NumberAfterKeyFrom(s, i)
    ensures FindAll(s, i, term) == []
    decreases |s| - i
  {
    if i < |s| {
      var m := MatchAt(s, i, term);
      if m.Some? {
        var j := m.value.numStart - 2;
        NumberAfterKeyAt(s, i, j);
        assert false;
      }
      NoMatchesWithoutNumberAfterKey(s, i + 1, term);
    }
  }

  /** Text in which no `"name":` is immediately followed by a number
      character (for instance JSON written with a space after each colon) is
      never touched: the patterns admit no space. */
  lemma NoNumberAfterKeyUnchanged(s: string)
    requires !NumberAfterKeyFrom(s, 0)
    ensures Repaired(s) == s
  {
    NoMatchesWithoutNumberAfterKey(s, 0, ',');
    NoMatchesWithoutNumberAfterKey(s, 0, '}');
    NoCommaUnchanged(s);
  }

  /** `replace_float_notation`: for each pattern in turn, iterate over its
      matches and rebind the string to its replacement. */
  method ReplaceFloatNotation(s: string) returns (r: string)
    ensures r == Repaired(s)
    ensures CommasToDots(s, r)
  {
    r := s;
    for p := 0 to |Terminators|
      invariant r == Passes(s, Terminators[..p])
      invariant CommasToDots(s, r)
    {
      var r' := ApplyPattern(r, Terminators[p]);
      CommasToDotsTrans(s, r, r');
      r := r';
      assert Terminators[..p + 1][..p] == Terminators[..p];
    }
    assert Terminators[..|Terminators|] == Terminators;
  }

  /** One pattern's loop over `re.finditer(pattern, string)`: the matches
      are taken from the string as it stood before the loop, and each one
      rebinds the string. */
  method ApplyPattern(t: string, term: char) returns (r: string)
    ensures r == Pass(t, term)
    ensures CommasToDots(t, r)
  {
    r := t;
    var matches := FindAll(t, 0, term);
    ghost var nums := Groups(t, matches);
    for k := 0 to |matches|
      invariant r == ReplaceEach(t, nums[..k])
      invariant CommasToDots(t, r)
    {
      var num := t[matches[k].numStart..matches[k].numEnd];
      GroupsMember(t, matches, k);
      assert nums[..k + 1][..k] == nums[..k];
      ReplaceDotted(r, num);
      CommasToDotsTrans(t, r, PyText.Replace(r, num, Dotted(num)));
      r := PyText.Replace(r, num, Dotted(num));
    }
    assert nums[..|matches|] == nums;
  }
}
