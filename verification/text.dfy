/** String helpers with Python's meaning: `str.strip`, `str.join`,
    slicing `s[:n]`, `str.startswith`/`endswith`, `int()` on a digit run,
    `str(n)` for a natural number, and splitting text into `\n`-delimited
    lines. Strings are sequences of Unicode scalar values, as Python's
    `str` is a sequence of code points. */
module Text {
  import opened Wrappers

  /** The characters for which Python's `str.isspace()` holds, i.e. what
      `str.strip()` removes. */
  predicate IsSpace(c: char) {
    || c == ' ' || c == '\t' || c == '\n' || c == '\r'
    || c == '\U{000B}' || c == '\U{000C}'
    || ('\U{001C}' <= c <= '\U{001F}')
    || c == '\U{0085}' || c == '\U{00A0}' || c == '\U{1680}'
    || ('\U{2000}' <= c <= '\U{200A}')
    || c == '\U{2028}' || c == '\U{2029}' || c == '\U{202F}'
    || c == '\U{205F}' || c == '\U{3000}'
  }

  /** `s.lstrip()`. */
  function TrimLeft(s: string): (r: string)
    ensures |r| <= |s|
    decreases |s|
  {
    if s != [] && IsSpace(s[0]) then TrimLeft(s[1..]) else s
  }

  /** `s.rstrip()`. */
  function TrimRight(s: string): (r: string)
    ensures |r| <= |s|
    decreases |s|
  {
    if s != [] && IsSpace(s[|s| - 1]) then TrimRight(s[..|s| - 1]) else s
  }

  /** `s.strip()`. */
  function Strip(s: string): (r: string)
    ensures |r| <= |s|
  {
    TrimRight(TrimLeft(s))
  }

  /** `lstrip` drops the leading white space and nothing else: what it
      removes is white space, and what it keeps is a suffix that does not
      start with white space. */
  lemma {:induction false} TrimLeftSpec(s: string)
    ensures var r := TrimLeft(s);
            && r == s[|s| - |r|..]
            && (forall i :: 0 <= i < |s| - |r| ==> IsSpace(s[i]))
            && (r == [] || !IsSpace(r[0]))
    decreases |s|
  {
    if s != [] && IsSpace(s[0]) {
      TrimLeftSpec(s[1..]);
    }
  }

  /** `rstrip` drops the trailing white space and nothing else. */
  lemma {:induction false} TrimRightSpec(s: string)
    ensures var r := TrimRight(s);
            && r == s[..|r|]
            && (forall i :: |r| <= i < |s| ==> IsSpace(s[i]))
            && (r == [] || !IsSpace(r[|r| - 1]))
    decreases |s|
  {
    if s != [] && IsSpace(s[|s| - 1]) {
      TrimRightSpec(s[..|s| - 1]);
    }
  }

  /** `strip` keeps a contiguous piece of `s` that neither starts nor ends
      with white space, and everything it drops on either side is white
      space. */
  lemma StripSpec(s: string)
    ensures var r := Strip(s);
            var k := |s| - |TrimLeft(s)|;
            && (r == [] || (!IsSpace(r[0]) && !IsSpace(r[|r| - 1])))
            && 0 <= k <= |s| - |r| && r == s[k..k + |r|]
            && (forall i :: 0 <= i < k ==> IsSpace(s[i]))
            && (forall i :: k + |r| <= i < |s| ==> IsSpace(s[i]))
  {
    var l := TrimLeft(s);
    TrimLeftSpec(s);
    TrimRightSpec(l);
    KeepMiddle(s, l, TrimRight(l));
  }

  /** What the two trims of `strip` say about `s`, once `l` is a suffix of
      `s` and `r` a prefix of `l` whose tail is all white space. */
  lemma KeepMiddle(s: string, l: string, r: string)
    requires |l| <= |s| && l == s[|s| - |l|..]
    requires |r| <= |l| && r == l[..|r|]
    requires forall i :: |r| <= i < |l| ==> IsSpace(l[i])
    ensures var k := |s| - |l|;
            && r == s[k..k + |r|]
            && (forall i :: k + |r| <= i < |s| ==> IsSpace(s[i]))
  {
    var k := |s| - |l|;
    assert s[k..k + |r|] == l[..|r|];
    forall i | k + |r| <= i < |s| ensures IsSpace(s[i]) {
      assert s[i] == l[i - k];
    }
  }

  /** Stripping twice is stripping once: an already stripped string is a
      fixed point of `Strip`. */
  lemma StripIdempotent(s: string)
    ensures Strip(Strip(s)) == Strip(s)
  {
    var t := Strip(s);
    StripSpec(s);
    if t != [] {
      assert TrimLeft(t) == t;
      assert TrimRight(t) == t;
    }
  }

  /** `s.strip()` is empty exactly when `s` consists of white space only. */
  lemma StripEmptyIff(s: string)
    ensures Strip(s) == [] <==> forall i :: 0 <= i < |s| ==> IsSpace(s[i])
  {
    var l := TrimLeft(s);
    TrimLeftSpec(s);
    TrimRightSpec(l);
    if Strip(s) == [] {
      assert l == [];
    } else {
      var k := |s| - |l|;
      assert !IsSpace(l[0]) && s[k] == l[0];
    }
  }

  /** Python's `s[:n]` for a non-negative `n`. */
  function Prefix(s: string, n: nat): (r: string)
    ensures |r| == if |s| < n then |s| else n
    ensures r == s[..|r|]
  {
    if |s| <= n then s else s[..n]
  }

  predicate StartsWith(s: string, p: string) {
    |p| <= |s| && s[..|p|] == p
  }

  predicate EndsWith(s: string, p: string) {
    |p| <= |s| && s[|s| - |p|..] == p
  }

  lemma ConcatEnds(a: string, b: string)
    ensures StartsWith(a + b, a) && EndsWith(a + b, b)
  {
    assert (a + b)[..|a|] == a;
    assert (a + b)[|a + b| - |b|..] == b;
  }

  /** `w in s` for strings: `w` occurs somewhere in `s` as a contiguous
      substring. */
  predicate Contains(s: string, w: string)
    ensures Contains(s, w) ==> |w| <= |s|
    decreases |s|
  {
    StartsWith(s, w) || (s != [] && Contains(s[1..], w))
  }

  /** `w` sits in `s` starting at position `i`. */
  predicate OccursAt(s: string, i: nat, w: string) {
    i + |w| <= |s| && s[i..i + |w|] == w
  }

  /** The middle part of a concatenation sits right after the first. */
  lemma OccursInConcat(a: string, b: string, c: string)
    ensures OccursAt(a + b + c, |a|, b)
  {
    assert (a + b + c)[|a|..|a| + |b|] == b;
  }

  /** Appending to a string keeps what occurs in it where it was. */
  lemma OccursExtend(s: string, i: nat, w: string, t: string)
    requires OccursAt(s, i, w)
    ensures OccursAt(s + t, i, w)
  {
    assert (s + t)[i..i + |w|] == s[i..i + |w|];
  }

  lemma OccursShift(t: string, s: string, i: nat, w: string)
    requires OccursAt(s, i, w)
    ensures OccursAt(t + s, |t| + i, w)
  {
    assert (t + s)[|t| + i..|t| + i + |w|] == s[i..i + |w|];
  }

  /** Where each part of a three-part concatenation sits. */
  lemma ThreeParts(a: string, b: string, c: string)
    ensures StartsWith(a + b + c, a) && EndsWith(a + b + c, c)
    ensures OccursAt(a + b + c, |a|, b) && OccursAt(a + b + c, |a|, b + c)
  {
    var r := a + b + c;
    assert r[..|a|] == a;
    assert r[|r| - |c|..] == c;
    assert r[|a|..|a| + |b|] == b;
    assert r[|a|..|a| + |b| + |c|] == b + c;
  }

  /** Where each part of a five-part concatenation sits, and its length:
      the layout of an f-string with two fields. */
  lemma FiveParts(a: string, b: string, c: string, d: string, e: string)
    ensures StartsWith(a + b + c + d + e, a) && EndsWith(a + b + c + d + e, e)
    ensures OccursAt(a + b + c + d + e, |a|, b)
    ensures OccursAt(a + b + c + d + e, |a| + |b|, c)
    ensures OccursAt(a + b + c + d + e, |a| + |b| + |c|, d)
    ensures |a + b + c + d + e| == |a| + |b| + |c| + |d| + |e|
  {
    var r := a + b + c + d + e;
    assert r[..|a|] == a;
    assert r[|r| - |e|..] == e;
    assert r[|a|..|a| + |b|] == b;
    assert r[|a| + |b|..|a| + |b| + |c|] == c;
    assert r[|a| + |b| + |c|..|a| + |b| + |c| + |d|] == d;
  }

  /** A digit string placed at `i` and followed by a `.` is the whole run
      of digits that starts at `i`. */
  lemma DigitsBeforeDot(r: string, i: nat, a: string)
    requires OccursAt(r, i, a) && OccursAt(r, i + |a|, ".")
    requires forall j :: 0 <= j < |a| ==> IsDigit(a[j])
    ensures DigitsFrom(r, i) == i + |a|
  {
    forall j | i <= j < i + |a| ensures IsDigit(r[j]) {
      assert r[j] == r[i..i + |a|][j - i];
    }
    assert r[i + |a|] == r[i + |a|..i + |a| + 1][0];
    DigitsFromIs(r, i, i + |a|);
  }

  /** Two digit strings, each followed by a `.`, laid out the same way
      around a fixed lead and tail: both are equal, and so is what follows
      the `.`. */
  lemma NumberPairParts(r: string, lead: string, a1: string, b1: string, a2: string, b2: string, tail: string)
    requires r == lead + a1 + "." + b1 + tail && r == lead + a2 + "." + b2 + tail
    requires forall j :: 0 <= j < |a1| ==> IsDigit(a1[j])
    requires forall j :: 0 <= j < |a2| ==> IsDigit(a2[j])
    ensures a1 == a2 && b1 == b2
  {
    FiveParts(lead, a1, ".", b1, tail);
    FiveParts(lead, a2, ".", b2, tail);
    DigitsBeforeDot(r, |lead|, a1);
    DigitsBeforeDot(r, |lead|, a2);
    assert a1 == r[|lead|..|lead| + |a1|] == a2;
    var i := |lead| + |a1| + 1;
    assert b1 == r[i..i + |b1|] == b2;
  }

  /** Two printed numbers around a `.` can be read back: since a `.` is
      not a digit, the first number ends where the `.` is, and the second
      fills what is left before the fixed tail. */
  lemma NumberPairInjective(lead: string, p1: nat, k1: nat, p2: nat, k2: nat, tail: string)
    requires lead + NatToString(p1) + "." + NatToString(k1) + tail
          == lead + NatToString(p2) + "." + NatToString(k2) + tail
    ensures p1 == p2 && k1 == k2
  {
    var r := lead + NatToString(p1) + "." + NatToString(k1) + tail;
    NumberPairParts(r, lead, NatToString(p1), NatToString(k1), NatToString(p2), NatToString(k2), tail);
    if p1 != p2 { NatToStringInjective(p1, p2); }
    if k1 != k2 { NatToStringInjective(k1, k2); }
  }

  /** Position of the first `c` in `s`, as `s.find(c)` but with `None` for
      "absent". */
  function Find(s: string, c: char): (r: Option<nat>)
    ensures r.Some? ==> r.value < |s| && s[r.value] == c
    ensures r.Some? ==> forall j :: 0 <= j < r.value ==> s[j] != c
    ensures r.None? <==> c !in s
  {
    var k := SkipTo(s, c, 0);
    if k == |s| then None else Some(k)
  }

  /** The first position at or after `i` that holds `c`, or `|s|` when
      there is none: the end of what `[^c]*` takes from position `i`. */
  function SkipTo(s: string, c: char, i: nat): (k: nat)
    requires i <= |s|
    ensures i <= k <= |s|
    ensures forall j :: i <= j < k ==> s[j] != c
    ensures k < |s| ==> s[k] == c
    decreases |s| - i
  {
    if i == |s| || s[i] == c then i else SkipTo(s, c, i + 1)
  }

  /** `SkipTo` is determined by its contract: a position with no `c`
      between `i` and it, that holds `c` or is the end, is the one it
      returns. */
  lemma SkipToIs(s: string, c: char, i: nat, k: nat)
    requires i <= k <= |s|
    requires forall j :: i <= j < k ==> s[j] != c
    requires k < |s| ==> s[k] == c
    ensures SkipTo(s, c, i) == k
  {
  }

  /** A position holding `c` with no `c` before it is what `Find` returns. */
  lemma FindFirst(s: string, c: char, k: nat)
    requires k < |s| && s[k] == c
    requires forall j :: 0 <= j < k ==> s[j] != c
    ensures Find(s, c) == Some(k)
  {
    assert c in s;
  }

  // ---------------------------------------------------------------------
  // Decimal digits: `int()` on a run of digits and `str()` of a natural.

  predicate IsDigit(c: char) {
    '0' <= c <= '9'
  }

  /** The end of the run of digits that starts at position `i`: how far
      a greedy `\d+` reaches from there. */
  function DigitsFrom(s: string, i: nat): (n: nat)
    requires i <= |s|
    ensures i <= n <= |s|
    ensures forall j :: i <= j < n ==> IsDigit(s[j])
    ensures n < |s| ==> !IsDigit(s[n])
    decreases |s| - i
  {
    if i < |s| && IsDigit(s[i]) then DigitsFrom(s, i + 1) else i
  }

  /** `DigitsFrom` is determined by its contract: a run of digits that ends
      at a non-digit, or at the end, is the run it measures. */
  lemma DigitsFromIs(s: string, i: nat, n: nat)
    requires i <= n <= |s|
    requires forall j :: i <= j < n ==> IsDigit(s[j])
    requires n < |s| ==> !IsDigit(s[n])
    ensures DigitsFrom(s, i) == n
  {
  }

  /** The value `int(d)` gives for a string of decimal digits (leading
      zeros allowed). */
  function DigitsValue(d: string): nat
    requires forall i :: 0 <= i < |d| ==> IsDigit(d[i])
    decreases |d|
  {
    if d == [] then 0
    else
      assert IsDigit(d[|d| - 1]);
      10 * DigitsValue(d[..|d| - 1]) + (d[|d| - 1] as int - '0' as int)
  }

  function DigitChar(n: nat): (c: char)
    requires n < 10
    ensures IsDigit(c) && c as int - '0' as int == n
  {
    ('0' as int + n) as char
  }

  /** `str(n)` for a natural number: decimal, no sign, no leading zero. */
  function NatToString(n: nat): (r: string)
    ensures r != []
    ensures forall i :: 0 <= i < |r| ==> IsDigit(r[i])
    ensures |r| > 1 ==> r[0] != '0'
  {
    if n < 10 then [DigitChar(n)] else NatToString(n / 10) + [DigitChar(n % 10)]
  }

  /** Printing a natural and reading it back gives the same natural. */
  lemma {:induction false} NatToStringRoundTrip(n: nat)
    ensures DigitsValue(NatToString(n)) == n
  {
    var r := NatToString(n);
    if n >= 10 {
      NatToStringRoundTrip(n / 10);
      assert r[..|r| - 1] == NatToString(n / 10);
    }
  }

  /** Distinct naturals print differently. */
  lemma NatToStringInjective(m: nat, n: nat)
    requires m != n
    ensures NatToString(m) != NatToString(n)
  {
    NatToStringRoundTrip(m);
    NatToStringRoundTrip(n);
  }

  // ---------------------------------------------------------------------
  // Joining and splitting.

  /** `sep.join(parts)`. */
  function Join(sep: string, parts: seq<string>): (r: string)
    ensures |parts| == 0 ==> r == []
    ensures |parts| > 0 ==> StartsWith(r, parts[0])
    decreases |parts|
  {
    if |parts| == 0 then []
    else if |parts| == 1 then parts[0]
    else parts[0] + sep + Join(sep, parts[1..])
  }

  /** Appending one more part extends the joined string by the separator
      and that part: the join an accumulating loop builds. */
  lemma {:induction false} JoinSnoc(sep: string, parts: seq<string>, p: string)
    ensures Join(sep, parts + [p]) == if parts == [] then p else Join(sep, parts) + sep + p
    decreases |parts|
  {
    if |parts| > 1 {
      assert (parts + [p])[1..] == parts[1..] + [p];
      JoinSnoc(sep, parts[1..], p);
    } else if |parts| == 1 {
      assert (parts + [p])[1..] == [p];
    }
  }

  /** The `\n`-delimited lines of `s`, as `s.split("\n")`: always at least
      one line. */
  function Lines(s: string): (r: seq<string>)
    ensures |r| >= 1
    decreases |s|
  {
    match Find(s, '\n')
    case None => [s]
    case Some(k) => [s[..k]] + Lines(s[k + 1..])
  }

  /** No line holds a line break. */
  lemma {:induction false} LinesNoBreak(s: string)
    ensures forall i :: 0 <= i < |Lines(s)| ==> '\n' !in Lines(s)[i]
    decreases |s|
  {
    match Find(s, '\n')
    case None =>
    case Some(k) =>
      LinesNoBreak(s[k + 1..]);
      var ls := Lines(s);
      assert ls == [s[..k]] + Lines(s[k + 1..]);
      forall i | 0 <= i < |ls| ensures '\n' !in ls[i] {
        if i == 0 {
          assert '\n' !in s[..k];
        } else {
          assert ls[i] == Lines(s[k + 1..])[i - 1];
        }
      }
  }

  /** A join of two or more parts is the first part, the separator and
      the join of the rest. */
  lemma JoinCons(sep: string, p: string, rest: seq<string>)
    requires rest != []
    ensures Join(sep, [p] + rest) == p + sep + Join(sep, rest)
  {
    assert ([p] + rest)[1..] == rest;
  }

  lemma SplitAt(s: string, k: nat)
    requires k < |s|
    ensures s == s[..k] + [s[k]] + s[k + 1..]
  {
  }

  /** One step of `Lines`: the text before the first line break, then the
      lines after it. */
  lemma LinesWhen(s: string, k: nat)
    requires Find(s, '\n') == Some(k)
    ensures Lines(s) == [s[..k]] + Lines(s[k + 1..])
  {
  }

  /** Splitting into lines loses nothing: joining the lines with `\n`
      restores the text. */
  lemma {:induction false} LinesJoin(s: string)
    ensures Join("\n", Lines(s)) == s
    decreases |s|
  {
    match Find(s, '\n')
    case None =>
    case Some(k) =>
      var tail := s[k + 1..];
      LinesWhen(s, k);
      JoinCons("\n", s[..k], Lines(tail));
      LinesJoin(tail);
      SplitAt(s, k);
  }
}
