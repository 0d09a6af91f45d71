/**
 * The JavaScript string operations the modelled code relies on
 * (`startsWith`, `includes`, `split`, `join`, `trim`, `toLowerCase`,
 * `replace(/c/g, d)`, `String(n)`, `padStart`), written over `seq<char>`.
 */
module Text {

  /** `s.startsWith(p)` */
  predicate StartsWith(s: string, p: string) {
    |p| <= |s| && s[..|p|] == p
  }

  /** `s.endsWith(p)` */
  predicate EndsWith(s: string, p: string) {
    |p| <= |s| && s[|s| - |p|..] == p
  }

  /** `t` occurs in `s` starting at index `i`. */
  ghost predicate OccursAt(s: string, t: string, i: int) {
    0 <= i && i + |t| <= |s| && s[i..i + |t|] == t
  }

  /** A string ending with `p` is its front followed by `p`; the front keeps the string's characters. */
  lemma SuffixSplit(s: string, p: string)
    requires EndsWith(s, p)
    ensures s == s[..|s| - |p|] + p
    ensures forall ch :: ch !in s ==> ch !in s[..|s| - |p|]
  {
    assert s == s[..|s| - |p|] + s[|s| - |p|..];
  }

  /** `s.includes(t)` */
  function Contains(s: string, t: string): (r: bool)
    ensures r <==> exists i :: OccursAt(s, t, i)
    decreases |s|
  {
    if StartsWith(s, t) then
      assert OccursAt(s, t, 0);
      true
    else if |s| == 0 then
      false
    else
      var r := Contains(s[1..], t);
      assert forall i :: OccursAt(s[1..], t, i) ==> OccursAt(s, t, i + 1);
      assert forall i :: OccursAt(s, t, i) && i > 0 ==> OccursAt(s[1..], t, i - 1);
      assert !OccursAt(s, t, 0);
      r
  }

  /** `s.split(c)` for a one-character separator: never empty, and no part holds `c`. */
  function Split(s: string, c: char): (parts: seq<string>)
    ensures |parts| >= 1
    ensures forall i :: 0 <= i < |parts| ==> c !in parts[i]
  {
    if |s| == 0 then [""]
    else
      var rest := Split(s[1..], c);
      if s[0] == c then [""] + rest else [[s[0]] + rest[0]] + rest[1..]
  }

  /** `parts.join(c)` */
  function Join(parts: seq<string>, c: char): string {
    if |parts| == 0 then ""
    else if |parts| == 1 then parts[0]
    else parts[0] + [c] + Join(parts[1..], c)
  }

  /** Joining the parts of a split gives back the original string. */
  lemma {:induction false} JoinSplit(s: string, c: char)
    ensures Join(Split(s, c), c) == s
  {
    if |s| > 0 {
      var rest := Split(s[1..], c);
      JoinSplit(s[1..], c);
      if s[0] != c {
        if |rest| > 1 {
          assert Join(rest, c) == rest[0] + [c] + Join(rest[1..], c);
          assert Join([[s[0]] + rest[0]] + rest[1..], c)
              == [s[0]] + rest[0] + [c] + Join(rest[1..], c);
        }
      } else {
        assert Join([""] + rest, c) == [c] + Join(rest, c);
      }
      assert s == [s[0]] + s[1..];
    }
  }

  /** Splitting a string without the separator gives just that string. */
  lemma {:induction false} SplitWithoutSeparator(s: string, c: char)
    requires c !in s
    ensures Split(s, c) == [s]
  {
    if |s| > 0 {
      SplitWithoutSeparator(s[1..], c);
      assert [s[0]] + s[1..] == s;
    }
  }

  /** Splitting a joined list of separator-free parts gives the parts back. */
  lemma {:induction false} SplitJoin(parts: seq<string>, c: char)
    requires |parts| >= 1 && forall i :: 0 <= i < |parts| ==> c !in parts[i]
    ensures Split(Join(parts, c), c) == parts
  {
    if |parts| == 1 {
      SplitWithoutSeparator(parts[0], c);
    } else {
      SplitJoin(parts[1..], c);
      SplitAtFirst(parts[0], Join(parts[1..], c), c);
      assert [parts[0]] + parts[1..] == parts;
    }
  }

  /** Text before the first separator is the first part of a split. */
  lemma {:induction false} SplitAtFirst(a: string, b: string, c: char)
    requires c !in a
    ensures Split(a + [c] + b, c) == [a] + Split(b, c)
  {
    if |a| == 0 {
      assert a + [c] + b == [c] + b;
      assert ([c] + b)[1..] == b;
    } else {
      var whole := a + [c] + b;
      assert whole[0] == a[0] && whole[1..] == a[1..] + [c] + b;
      SplitAtFirst(a[1..], b, c);
      var rest := Split(whole[1..], c);
      assert rest[0] == a[1..] && rest[1..] == Split(b, c);
      assert Split(whole, c) == [[a[0]] + rest[0]] + rest[1..];
      assert [a[0]] + a[1..] == a;
    }
  }


  predicate IsJsSpace(ch: char) {
    ch == ' ' || ch == '\t' || ch == '\n' || ch == '\r' || ch == '\U{000B}' || ch == '\U{000C}'
    || ch == '\U{00A0}' || ch == '\U{1680}' || ('\U{2000}' <= ch <= '\U{200A}')
    || ch == '\U{2028}' || ch == '\U{2029}' || ch == '\U{202F}' || ch == '\U{205F}'
    || ch == '\U{3000}' || ch == '\U{FEFF}'
  }

  /** All characters of `s` are JavaScript whitespace. */
  ghost predicate AllSpace(s: string) {
    forall i :: 0 <= i < |s| ==> IsJsSpace(s[i])
  }

  function TrimStart(s: string): (r: string)
    ensures EndsWith(s, r) && AllSpace(s[..|s| - |r|])
    ensures |r| > 0 ==> !IsJsSpace(r[0])
  {
    if |s| > 0 && IsJsSpace(s[0]) then
      var r := TrimStart(s[1..]);
      assert s[..|s| - |r|] == [s[0]] + s[1..][..|s| - 1 - |r|];
      r
    else s
  }

  function TrimEnd(s: string): (r: string)
    ensures StartsWith(s, r) && AllSpace(s[|r|..])
    ensures |r| > 0 ==> !IsJsSpace(r[|r| - 1])
  {
    if |s| > 0 && IsJsSpace(s[|s| - 1]) then
      var r := TrimEnd(s[..|s| - 1]);
      assert s[|r|..] == s[..|s| - 1][|r|..] + [s[|s| - 1]];
      r
    else s
  }

  /**
   * `s.trim()`: the result is `s` with its leading and trailing whitespace
   * cut off, so it neither starts nor ends with whitespace.
   */
  function Trim(s: string): (r: string)
    ensures exists lead, trail :: AllSpace(lead) && AllSpace(trail) && s == lead + r + trail
    ensures |r| > 0 ==> !IsJsSpace(r[0]) && !IsJsSpace(r[|r| - 1])
  {
    var t := TrimStart(s);
    var r := TrimEnd(t);
    Surrounded(s, t, r);
    assert |r| > 0 ==> r[0] == t[0];
    r
  }

  /** A suffix's prefix, with only whitespace cut off at both ends, is `s` less surrounding whitespace. */
  lemma Surrounded(s: string, t: string, r: string)
    requires EndsWith(s, t) && AllSpace(s[..|s| - |t|])
    requires StartsWith(t, r) && AllSpace(t[|r|..])
    ensures exists lead, trail :: AllSpace(lead) && AllSpace(trail) && s == lead + r + trail
  {
    var lead, trail := s[..|s| - |t|], t[|r|..];
    assert s == lead + t && t == r + trail;
    assert s == lead + r + trail;
  }

  /** `s` neither starts nor ends with whitespace. */
  predicate Trimmed(s: string) {
    |s| > 0 ==> !IsJsSpace(s[0]) && !IsJsSpace(s[|s| - 1])
  }

  /** Trimming leaves a string without surrounding whitespace as it is. */
  lemma TrimTrimmed(s: string)
    requires Trimmed(s)
    ensures Trim(s) == s
  {
  }

  /** Trimming twice is trimming once. */
  lemma TrimIdempotent(s: string)
    ensures Trim(Trim(s)) == Trim(s)
  {
    TrimTrimmed(Trim(s));
  }

  /** Trimming removes characters and adds none. */
  lemma TrimExcludes(s: string, ch: char)
    requires ch !in s
    ensures ch !in Trim(s)
  {
    var t := TrimStart(s);
    assert forall i :: 0 <= i < |t| ==> t[i] == s[|s| - |t| + i];
    var r := TrimEnd(t);
    assert forall i :: 0 <= i < |r| ==> r[i] == t[i];
    assert r == Trim(s);
  }


  function LowerChar(ch: char): char {
    if 'A' <= ch <= 'Z' then (ch as int - 'A' as int + 'a' as int) as char else ch
  }

  function Lower(s: string): (r: string)
    ensures |r| == |s| && forall i :: 0 <= i < |s| ==> r[i] == LowerChar(s[i])
  {
    seq(|s|, i requires 0 <= i < |s| => LowerChar(s[i]))
  }

  /** `s.replace(/from/g, to)` for single characters. */
  function ReplaceChar(s: string, from: char, to: char): (r: string)
    ensures |r| == |s|
    ensures forall i :: 0 <= i < |s| ==> r[i] == if s[i] == from then to else s[i]
    ensures from != to ==> from !in r
  {
    seq(|s|, i requires 0 <= i < |s| => if s[i] == from then to else s[i])
  }

  predicate IsDigit(ch: char) {
    '0' <= ch <= '9'
  }

  ghost predicate AllDigits(s: string) {
    forall i :: 0 <= i < |s| ==> IsDigit(s[i])
  }

  function DigitChar(d: nat): (ch: char)
    requires d < 10
    ensures IsDigit(ch)
  {
    ('0' as int + d) as char
  }

  /** `String(n)` for a non-negative integer: decimal digits, no sign, no leading zero. */
  function NatToString(n: nat): (s: string)
    ensures |s| >= 1 && AllDigits(s)
    ensures |s| > 1 ==> s[0] != '0'
  {
    if n < 10 then [DigitChar(n)] else NatToString(n / 10) + [DigitChar(n % 10)]
  }

  /** The number a run of decimal digits denotes. */
  function DigitsValue(s: string): nat
    requires AllDigits(s)
  {
    if |s| == 0 then 0 else 10 * DigitsValue(s[..|s| - 1]) + (s[|s| - 1] as int - '0' as int)
  }

  /** Reading back the decimal rendering of `n` gives `n`. */
  lemma {:induction false} NatToStringRoundTrip(n: nat)
    ensures DigitsValue(NatToString(n)) == n
  {
    if n >= 10 {
      NatToStringRoundTrip(n / 10);
      var s := NatToString(n);
      assert s[..|s| - 1] == NatToString(n / 10);
    }
  }

  /** Distinct numbers have distinct decimal renderings. */
  lemma NatToStringInjective(a: nat, b: nat)
    requires NatToString(a) == NatToString(b)
    ensures a == b
  {
    NatToStringRoundTrip(a);
    NatToStringRoundTrip(b);
  }

  /** `String(n)` for any integer. */
  function IntToString(n: int): string {
    if n < 0 then "-" + NatToString(-n) else NatToString(n)
  }

  /** `s.padStart(n, [c])` */
  function PadStart(s: string, n: nat, c: char): (r: string)
    ensures |r| == if |s| >= n then |s| else n
    ensures EndsWith(r, s)
    ensures forall i :: 0 <= i < |r| - |s| ==> r[i] == c
  {
    if |s| >= n then s else seq(n - |s|, _ => c) + s
  }

  /** `r` is the longest suffix of `s` that holds no character of `seps`. */
  ghost predicate IsAfterLast(s: string, seps: set<char>, r: string) {
    && EndsWith(s, r)
    && (forall i :: 0 <= i < |r| ==> r[i] !in seps)
    && (|r| < |s| ==> s[|s| - |r| - 1] in seps)
  }

  /**
   * The longest suffix of `s` that holds no character of `seps` (the part
   * after the last separator).
   */
  function AfterLast(s: string, seps: set<char>): (r: string)
    ensures IsAfterLast(s, seps, r)
  {
    if |s| == 0 || s[|s| - 1] in seps then ""
    else
      var front := s[..|s| - 1];
      var r := AfterLast(front, seps);
      AfterLastStep(front, s[|s| - 1], seps, r);
      assert s == front + [s[|s| - 1]];
      r + [s[|s| - 1]]
  }

  /** One more non-separator at the end extends the part after the last separator. */
  lemma AfterLastStep(front: string, c: char, seps: set<char>, r: string)
    requires c !in seps && IsAfterLast(front, seps, r)
    ensures IsAfterLast(front + [c], seps, r + [c])
  {
    var s, res := front + [c], r + [c];
    assert s[|s| - |res|..] == front[|front| - |r|..] + [c];
    assert forall i :: 0 <= i < |r| ==> res[i] == r[i];
    if |res| < |s| {
      assert s[|s| - |res| - 1] == front[|front| - |r| - 1];
    }
  }

  /** The three properties of `AfterLast` determine its result. */
  lemma AfterLastUnique(s: string, seps: set<char>, r: string)
    requires EndsWith(s, r) && forall i :: 0 <= i < |r| ==> r[i] !in seps
    requires |r| < |s| ==> s[|s| - |r| - 1] in seps
    ensures AfterLast(s, seps) == r
  {
    var a := AfterLast(s, seps);
    assert |a| == |r|;
  }

  /** A split with more than one part had a separator to split at. */
  lemma SplitHasSeparator(s: string, c: char)
    requires |Split(s, c)| > 1
    ensures c in s
  {
    if c !in s {
      SplitWithoutSeparator(s, c);
    }
  }

  /** `last` is the text of `s` after its last `c`. */
  ghost predicate TextAfterLast(s: string, c: char, last: string) {
    EndsWith(s, last) && c !in last && (|last| < |s| ==> s[|s| - |last| - 1] == c)
  }

  lemma TextAfterLastOfTail(s: string, c: char, last: string)
    requires |s| > 0 && TextAfterLast(s[1..], c, last)
    requires |last| == |s| - 1 ==> s[0] == c
    ensures TextAfterLast(s, c, last)
  {
    assert s[1..][|s[1..]| - |last|..] == s[|s| - |last|..];
    if |last| < |s| - 1 {
      assert s[1..][|s[1..]| - |last| - 1] == s[|s| - |last| - 1];
    }
  }

  function LastPart(parts: seq<string>): string
    requires |parts| > 0
  {
    parts[|parts| - 1]
  }

  /** The last part of `s.split(c)` is the text after the last `c`. */
  lemma {:induction false} SplitLastPart(s: string, c: char)
    ensures TextAfterLast(s, c, LastPart(Split(s, c)))
  {
    if |s| > 0 {
      SplitLastPart(s[1..], c);
      if s[0] == c {
        SplitLastAtSeparator(s, c);
      } else {
        SplitLastAtOther(s, c);
      }
    }
  }

  lemma SplitLastAtSeparator(s: string, c: char)
    requires |s| > 0 && s[0] == c
    requires TextAfterLast(s[1..], c, LastPart(Split(s[1..], c)))
    ensures TextAfterLast(s, c, LastPart(Split(s, c)))
  {
    var rest := Split(s[1..], c);
    assert Split(s, c) == [""] + rest;
    assert LastPart(Split(s, c)) == LastPart(rest);
    TextAfterLastOfTail(s, c, LastPart(rest));
  }

  lemma SplitLastAtOther(s: string, c: char)
    requires |s| > 0 && s[0] != c
    requires TextAfterLast(s[1..], c, LastPart(Split(s[1..], c)))
    ensures TextAfterLast(s, c, LastPart(Split(s, c)))
  {
    var rest := Split(s[1..], c);
    var last := LastPart(rest);
    if |rest| > 1 {
      assert LastPart(Split(s, c)) == last;
      SplitHasSeparator(s[1..], c);
      TextAfterLastOfTail(s, c, last);
    } else {
      JoinSplit(s[1..], c);
      assert rest == [s[1..]];
      assert [s[0]] + s[1..] == s;
      assert Split(s, c) == [s];
    }
  }
}
