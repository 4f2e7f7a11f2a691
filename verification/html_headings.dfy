/** `extract_headings_from_html`: three regular-expression passes over the
    HTML that PyMuPDF renders for a page, collecting candidate headings.

    The regular expressions are written out as scanners. `re.finditer`
    tries each position from the left, takes the match found there, and
    resumes right after its end; `Scan` does the same over suffixes of the
    input, and `ScanEmptyIff` and `ScanLeftmost` pin down that behaviour.
    Every pattern ends in a character class bounded by the character that
    follows it (`[^>]*>` and `[^<]+<`), so each pattern reduces to "find
    the next `>`" and "find the next `<`". The keyword pattern's leading
    `[^<]*` does backtrack to find the keyword, but whatever it settles
    on, the capture still runs to the next `<`, so the keyword pattern
    reduces to "the segment up to the next `<` holds a keyword". */
module HtmlHeadings {
  import opened Wrappers
  import opened Text

  /** The three patterns, in the order the passes run. */
  datatype Pattern =
    | FontSize  // font-size:(\d+)px[^>]*>([^<]+)<
    | Bold      // font-weight:bold[^>]*>([^<]+)<
    | Keyword   // >([^<]*(Section|Chapter|...)[^<]*)<   matched case-insensitively

  /** One match: the captured text and, for `FontSize`, the pixel size
      (`int(match.group(1))`); the other patterns carry size 0. */
  datatype Hit = Hit(size: nat, text: string)

  const FontSizeLead: string := "font-size:"
  const BoldLead: string := "font-weight:bold"

  /** A heading is accepted when it is not empty and shorter than 100
      characters. */
  const MaxHeadingLength: nat := 100

  /** Folds a character the way Python's case-insensitive matching relates
      it to the lower-case ASCII letters of the keywords: ASCII capitals,
      plus the dotted and dotless capital/small I, which match `i`, and the
      long s, which matches `s`. */
  function FoldChar(c: char): (f: char)
    ensures 'A' <= c <= 'Z' ==> f as int == c as int + 32
  {
    if 'A' <= c <= 'Z' then (c as int + 32) as char
    else if c == '\U{0130}' || c == '\U{0131}' then 'i'
    else if c == '\U{017F}' then 's'
    else c
  }

  function Fold(s: string): (r: string)
    ensures |r| == |s|
    ensures forall i :: 0 <= i < |s| ==> r[i] == FoldChar(s[i])
  {
    seq(|s|, i requires 0 <= i < |s| => FoldChar(s[i]))
  }

  /** The keyword alternation of the third pass, ignoring case. */
  predicate HasKeyword(t: string)
    ensures HasKeyword(t) ==> t != []
  {
    var f := Fold(t);
    || Contains(f, "section") || Contains(f, "chapter") || Contains(f, "part")
    || Contains(f, "installation") || Contains(f, "maintenance")
    || Contains(f, "troubleshooting") || Contains(f, "configuration")
  }

  /** `[^>]*>([^<]+)<` read from position `i` of `s`: skip to the first
      `>`, then capture the non-empty run up to the next `<`. Yields the
      capture and the position just after that `<`. */
  function TailFrom(s: string, i: nat): (r: Option<(string, nat)>)
    requires i <= |s|
    ensures r.Some? ==> 0 < |r.value.0| && i + |r.value.0| + 2 <= r.value.1 <= |s|
    ensures r.Some? ==> '<' !in r.value.0
  {
    var g := SkipTo(s, '>', i);
    if g == |s| then None
    else
      var e := SkipTo(s, '<', g + 1);
      if e == |s| || e == g + 1 then None
      else Some((s[g + 1..e], e + 1))
  }

  /** `font-size:(\d+)px[^>]*>([^<]+)<` at the start of `s`: the digit
      run is maximal and must be followed by `px`. */
  function MatchFontSize(s: string): (r: Option<(Hit, nat)>)
    ensures r.Some? ==> 0 < r.value.1 <= |s|
    ensures r.Some? ==> r.value.0.text != [] && '<' !in r.value.0.text
  {
    if !StartsWith(s, FontSizeLead) then None
    else
      var e := DigitsFrom(s, |FontSizeLead|);
      if e == |FontSizeLead| || !StartsWith(s[e..], "px") then None
      else
        match TailFrom(s, e + 2)
        case None => None
        case Some((t, n)) =>
          var digits := s[|FontSizeLead|..e];
          assert forall j :: 0 <= j < |digits| ==> digits[j] == s[|FontSizeLead| + j];
          Some((Hit(DigitsValue(digits), t), n))
  }

  /** `font-weight:bold[^>]*>([^<]+)<` at the start of `s`. */
  function MatchBold(s: string): (r: Option<(Hit, nat)>)
    ensures r.Some? ==> 0 < r.value.1 <= |s|
    ensures r.Some? ==> r.value.0.text != [] && '<' !in r.value.0.text && r.value.0.size == 0
  {
    if !StartsWith(s, BoldLead) then None
    else
      match TailFrom(s, |BoldLead|)
      case None => None
      case Some((t, n)) => Some((Hit(0, t), n))
  }

  /** The keyword pattern at the start of `s`: `s` opens with `>`, and the
      whole segment up to the next `<` is captured when it holds a keyword
      (the leading `[^<]*` is greedy, so the capture always runs to that
      `<`). */
  function MatchKeyword(s: string): (r: Option<(Hit, nat)>)
    ensures r.Some? ==> 0 < r.value.1 <= |s|
    ensures r.Some? ==> r.value.0.text != [] && '<' !in r.value.0.text && r.value.0.size == 0
    ensures r.Some? ==> HasKeyword(r.value.0.text) && s[0] == '>' && s[r.value.1 - 1] == '<'
    ensures r.Some? ==> s[1..r.value.1 - 1] == r.value.0.text
  {
    if s == [] || s[0] != '>' then None
    else
      var e := SkipTo(s, '<', 1);
      if e == |s| then None
      else
        var segment := s[1..e];
        assert forall j :: 0 <= j < |segment| ==> segment[j] == s[1 + j];
        if HasKeyword(segment) then Some((Hit(0, segment), e + 1)) else None
  }

  // ---------------------------------------------------------------------
  // What each pattern matches, stated on the pieces of the input.

  /** `u` and `t` can sit around the `>` of `[^>]*>([^<]+)<`: `u` holds no
      `>`, and the capture `t` is not empty and holds no `<`. */
  predicate TailPieces(u: string, t: string) {
    '>' !in u && t != [] && '<' !in t
  }

  /** `w` is `u`, a `>`, the capture `t`, a `<`, and anything after: the
      inputs at whose start `[^>]*>([^<]+)<` matches, capturing `t`. */
  predicate TailForm(w: string, u: string, t: string, rest: string) {
    TailPieces(u, t) && w == u + ">" + t + "<" + rest
  }

  /** A non-empty run of decimal digits. */
  predicate DigitString(d: string) {
    d != [] && forall i :: 0 <= i < |d| ==> IsDigit(d[i])
  }

  /** `s` is `font-size:`, the digits `d`, `px`, and the tail form with
      pieces `u`, `t` and `rest`. */
  predicate FontSizeForm(s: string, d: string, u: string, t: string, rest: string) {
    DigitString(d) && TailPieces(u, t) && s == FontSizeLead + d + "px" + (u + ">" + t + "<" + rest)
  }

  /** `s` is `font-weight:bold` and the tail form with pieces `u`, `t` and
      `rest`. */
  predicate BoldForm(s: string, u: string, t: string, rest: string) {
    TailPieces(u, t) && s == BoldLead + (u + ">" + t + "<" + rest)
  }

  /** `s` is `>`, a segment `t` without `<` that holds a keyword, `<`, and
      anything after. */
  predicate KeywordForm(s: string, t: string, rest: string) {
    '<' !in t && HasKeyword(t) && s == ">" + t + "<" + rest
  }

  /** `TailFrom` when the first `>` from `i` is at `g` and the next `<` at
      `e`, with something between them. */
  lemma TailFromAt(s: string, i: nat, g: nat, e: nat, t: string, n: nat)
    requires i <= g && g + 1 < e < |s|
    requires SkipTo(s, '>', i) == g && SkipTo(s, '<', g + 1) == e
    requires t == s[g + 1..e] && n == e + 1
    ensures TailFrom(s, i) == Some((t, n))
  {
  }

  /** What a tail match found: the `>` at `g`, the `<` at `e`. */
  lemma TailFromRead(s: string, i: nat, t: string, n: nat)
    requires i <= |s| && TailFrom(s, i) == Some((t, n))
    ensures var g := SkipTo(s, '>', i);
            && g < |s| && g + |t| + 2 == n
            && SkipTo(s, '<', g + 1) == n - 1 && t == s[g + 1..n - 1]
  {
  }

  /** The index facts of a `>` at `g` and the next `<` at `e` are the
      tail form of `s[i..]`. */
  lemma TailFormAt(s: string, i: nat, g: nat, e: nat)
    requires i <= g && g + 1 < e < |s|
    requires s[g] == '>' && forall j :: i <= j < g ==> s[j] != '>'
    requires s[e] == '<' && forall j :: g < j < e ==> s[j] != '<'
    ensures TailForm(s[i..], s[i..g], s[g + 1..e], s[e + 1..])
  {
    var u := s[i..g];
    var t := s[g + 1..e];
    forall j | 0 <= j < |u| ensures u[j] != '>' {
      assert u[j] == s[i + j];
    }
    forall j | 0 <= j < |t| ensures t[j] != '<' {
      assert t[j] == s[g + 1 + j];
    }
    assert s[i..] == u + [s[g]] + t + [s[e]] + s[e + 1..];
  }

  /** The tail form of `s[i..]` read back as index facts. */
  lemma TailFormIndex(s: string, i: nat, u: string, t: string, rest: string)
    requires i <= |s| && TailForm(s[i..], u, t, rest)
    ensures var g := i + |u|;
            var e := g + 1 + |t|;
            && e < |s| && s[g] == '>' && s[e] == '<'
            && (forall j :: i <= j < g ==> s[j] != '>')
            && (forall j :: g < j < e ==> s[j] != '<')
            && s[g + 1..e] == t
  {
    var w := s[i..];
    var g := i + |u|;
    var e := g + 1 + |t|;
    assert w[|u|] == '>' && w[|u| + 1 + |t|] == '<';
    forall j | i <= j < g ensures s[j] != '>' {
      assert s[j] == w[j - i] == u[j - i];
    }
    forall j | g < j < e ensures s[j] != '<' {
      assert s[j] == w[j - i] == t[j - g - 1];
    }
    assert s[g + 1..e] == w[|u| + 1..|u| + 1 + |t|] == t;
  }

  /** A tail match from `i` reads the tail form off `s[i..]`. */
  lemma TailFromSound(s: string, i: nat, t: string, n: nat)
    requires i <= |s| && TailFrom(s, i) == Some((t, n))
    ensures i + |t| + 2 <= n
    ensures TailForm(s[i..], s[i..n - |t| - 2], t, s[n..])
  {
    TailFromRead(s, i, t, n);
    TailFormAt(s, i, SkipTo(s, '>', i), n - 1);
  }

  /** Wherever the tail form is present at `i`, the tail match finds it. */
  lemma TailFromComplete(s: string, i: nat, u: string, t: string, rest: string, n: nat)
    requires i <= |s| && TailForm(s[i..], u, t, rest)
    requires n == i + |u| + |t| + 2
    ensures TailFrom(s, i) == Some((t, n))
  {
    var g := i + |u|;
    var e := g + 1 + |t|;
    TailFormIndex(s, i, u, t, rest);
    SkipToIs(s, '>', i, g);
    SkipToIs(s, '<', g + 1, e);
    TailFromAt(s, i, g, e, t, n);
  }

  /** `[^>]*>([^<]+)<` matches at position `i` with capture `t`, ending
      at `n`, exactly when `s[i..]` has the tail form with capture `t`
      and `n` is where that form's `<` ends. */
  lemma TailFromIff(s: string, i: nat, t: string, n: nat)
    requires i <= |s|
    ensures TailFrom(s, i) == Some((t, n)) <==>
              exists u, rest {:trigger TailForm(s[i..], u, t, rest)} :: TailForm(s[i..], u, t, rest) && n == i + |u| + |t| + 2
  {
    if TailFrom(s, i) == Some((t, n)) {
      TailFromSound(s, i, t, n);
      var u := s[i..n - |t| - 2];
      assert TailForm(s[i..], u, t, s[n..]) && n == i + |u| + |t| + 2;
    }
    if exists u, rest {:trigger TailForm(s[i..], u, t, rest)} :: TailForm(s[i..], u, t, rest) && n == i + |u| + |t| + 2 {
      var u, rest :| TailForm(s[i..], u, t, rest) && n == i + |u| + |t| + 2;
      TailFromComplete(s, i, u, t, rest, n);
    }
  }

  /** `MatchFontSize` once the lead, the digits `d` and `px` have been
      read and the tail match is known. */
  lemma FontSizeWhen(s: string, d: string, h: Hit, n: nat)
    requires StartsWith(s, FontSizeLead) && DigitString(d)
    requires DigitsFrom(s, |FontSizeLead|) == |FontSizeLead| + |d|
    requires s[|FontSizeLead|..|FontSizeLead| + |d|] == d
    requires StartsWith(s[|FontSizeLead| + |d|..], "px")
    requires TailFrom(s, |FontSizeLead| + |d| + 2) == Some((h.text, n))
    requires h == Hit(DigitsValue(d), h.text)
    ensures MatchFontSize(s) == Some((h, n))
  {
  }

  /** `s` opens with `font-size:`, digits up to `e`, and `px`, and `h`
      carries the value of those digits. */
  predicate FontSizeRun(s: string, e: nat, h: Hit) {
    && StartsWith(s, FontSizeLead) && |FontSizeLead| < e <= |s|
    && DigitString(s[|FontSizeLead|..e]) && StartsWith(s[e..], "px")
    && h == Hit(DigitsValue(s[|FontSizeLead|..e]), h.text)
  }

  /** What a font-size match has read: the lead, a digit run ending at
      `e`, `px`, and a tail match from `e + 2`. */
  lemma FontSizeRead(s: string, h: Hit, n: nat)
    requires MatchFontSize(s) == Some((h, n))
    ensures StartsWith(s, FontSizeLead)
    ensures var e := DigitsFrom(s, |FontSizeLead|);
            && |FontSizeLead| < e && StartsWith(s[e..], "px")
            && DigitString(s[|FontSizeLead|..e])
            && h == Hit(DigitsValue(s[|FontSizeLead|..e]), h.text)
            && TailFrom(s, e + 2) == Some((h.text, n))
  {
    var e := DigitsFrom(s, |FontSizeLead|);
    var d := s[|FontSizeLead|..e];
    assert forall j :: 0 <= j < |d| ==> d[j] == s[|FontSizeLead| + j];
  }

  /** The facts `FontSizeRead` yields, gathered as `FontSizeRun`. */
  lemma FontSizeRunOf(s: string, e: nat, h: Hit)
    requires StartsWith(s, FontSizeLead) && |FontSizeLead| < e <= |s|
    requires DigitString(s[|FontSizeLead|..e]) && StartsWith(s[e..], "px")
    requires h == Hit(DigitsValue(s[|FontSizeLead|..e]), h.text)
    ensures FontSizeRun(s, e, h)
  {
  }

  /** The pieces of `lead + d + "px" + w` as `MatchFontSize` reads them. */
  lemma DigitsLead(s: string, lead: string, d: string, w: string)
    requires DigitString(d) && s == lead + d + "px" + w
    ensures StartsWith(s, lead)
    ensures DigitsFrom(s, |lead|) == |lead| + |d|
    ensures s[|lead|..|lead| + |d|] == d
    ensures StartsWith(s[|lead| + |d|..], "px")
    ensures s[|lead| + |d| + 2..] == w
  {
    var a := |lead|;
    var b := a + |d|;
    assert s[..a] == lead;
    forall j | a <= j < b ensures IsDigit(s[j]) {
      assert s[j] == d[j - a];
    }
    assert s[b] == 'p';
    DigitsFromIs(s, a, b);
    assert s[a..b] == d;
    assert s[b..][..2] == "px";
    assert s[b + 2..] == w;
  }

  /** `s` is `lead + d + "px" + w` when it reads that way piece by piece. */
  lemma LeadJoin(s: string, lead: string, d: string, w: string)
    requires StartsWith(s, lead) && |lead| + |d| <= |s|
    requires s[|lead|..|lead| + |d|] == d && StartsWith(s[|lead| + |d|..], "px")
    requires s[|lead| + |d| + 2..] == w
    ensures s == lead + d + "px" + w
  {
    var a := |lead|;
    var b := a + |d|;
    assert s[b..b + 2] == "px";
    assert s == s[..a] + s[a..b] + s[b..b + 2] + s[b + 2..];
  }

  /** The pieces a font-size match reads, put back together: the lead,
      the digits up to `e`, `px`, and a tail form from `e + 2`. */
  lemma FontSizeJoin(s: string, e: nat, u: string, t: string, rest: string)
    requires StartsWith(s, FontSizeLead) && |FontSizeLead| < e <= |s|
    requires DigitString(s[|FontSizeLead|..e]) && StartsWith(s[e..], "px")
    requires TailForm(s[e + 2..], u, t, rest)
    ensures FontSizeForm(s, s[|FontSizeLead|..e], u, t, rest)
  {
    LeadJoin(s, FontSizeLead, s[|FontSizeLead|..e], u + ">" + t + "<" + rest);
  }

  /** A font-size form with its hit and end position, as a witness. */
  lemma FontSizeWitness(s: string, d: string, u: string, t: string, rest: string, h: Hit, n: nat)
    requires FontSizeForm(s, d, u, t, rest)
    requires h == Hit(DigitsValue(d), t) && n == |FontSizeLead| + |d| + 2 + |u| + |t| + 2
    ensures exists d, u, t, rest {:trigger FontSizeForm(s, d, u, t, rest)} :: FontSizeForm(s, d, u, t, rest)
                                    && h == Hit(DigitsValue(d), t)
                                    && n == |FontSizeLead| + |d| + 2 + |u| + |t| + 2
  {
  }

  /** The lead, digits ending at `e`, `px`, and a tail form from `e + 2`
      ending at `n` make up the font-size form of hit `h`. */
  lemma FontSizeFormAt(s: string, e: nat, h: Hit, n: nat)
    requires FontSizeRun(s, e, h) && e + 2 + |h.text| + 2 <= n <= |s|
    requires TailForm(s[e + 2..], s[e + 2..n - |h.text| - 2], h.text, s[n..])
    ensures exists d, u, t, rest {:trigger FontSizeForm(s, d, u, t, rest)} :: FontSizeForm(s, d, u, t, rest)
                                    && h == Hit(DigitsValue(d), t)
                                    && n == |FontSizeLead| + |d| + 2 + |u| + |t| + 2
  {
    var u := s[e + 2..n - |h.text| - 2];
    FontSizeJoin(s, e, u, h.text, s[n..]);
    FontSizeWitness(s, s[|FontSizeLead|..e], u, h.text, s[n..], h, n);
  }

  /** What a font-size match reads, digits ending at `e`, has the
      font-size form. */
  lemma FontSizeSoundAt(s: string, e: nat, h: Hit, n: nat)
    requires FontSizeRun(s, e, h)
    requires TailFrom(s, e + 2) == Some((h.text, n))
    ensures exists d, u, t, rest {:trigger FontSizeForm(s, d, u, t, rest)} :: FontSizeForm(s, d, u, t, rest)
                                    && h == Hit(DigitsValue(d), t)
                                    && n == |FontSizeLead| + |d| + 2 + |u| + |t| + 2
  {
    TailFromSound(s, e + 2, h.text, n);
    FontSizeFormAt(s, e, h, n);
  }

  /** A font-size match has the font-size form, with the value of the
      digits as its size. */
  lemma MatchFontSizeSound(s: string, h: Hit, n: nat)
    requires MatchFontSize(s) == Some((h, n))
    ensures exists d, u, t, rest {:trigger FontSizeForm(s, d, u, t, rest)} :: FontSizeForm(s, d, u, t, rest)
                                    && h == Hit(DigitsValue(d), t)
                                    && n == |FontSizeLead| + |d| + 2 + |u| + |t| + 2
  {
    FontSizeRead(s, h, n);
    FontSizeRunOf(s, DigitsFrom(s, |FontSizeLead|), h);
    FontSizeSoundAt(s, DigitsFrom(s, |FontSizeLead|), h, n);
  }

  /** Wherever the font-size form is present, the font-size match finds
      it, with the value of the digits as its size. */
  lemma MatchFontSizeComplete(s: string, d: string, u: string, t: string, rest: string, h: Hit, n: nat)
    requires FontSizeForm(s, d, u, t, rest)
    requires h == Hit(DigitsValue(d), t) && n == |FontSizeLead| + |d| + 2 + |u| + |t| + 2
    ensures MatchFontSize(s) == Some((h, n))
  {
    DigitsLead(s, FontSizeLead, d, u + ">" + t + "<" + rest);
    TailFromComplete(s, |FontSizeLead| + |d| + 2, u, t, rest, n);
    FontSizeWhen(s, d, h, n);
  }

  /** The font-size match yields hit `h` ending at `n` exactly when `s`
      has the font-size form with `h`'s text as capture and the value of
      the digits as `h`'s size. */
  lemma MatchFontSizeIff(s: string, h: Hit, n: nat)
    ensures MatchFontSize(s) == Some((h, n)) <==>
              exists d, u, t, rest {:trigger FontSizeForm(s, d, u, t, rest)} :: FontSizeForm(s, d, u, t, rest)
                                      && h == Hit(DigitsValue(d), t)
                                      && n == |FontSizeLead| + |d| + 2 + |u| + |t| + 2
  {
    if MatchFontSize(s) == Some((h, n)) {
      MatchFontSizeSound(s, h, n);
    }
    if exists d, u, t, rest {:trigger FontSizeForm(s, d, u, t, rest)} :: FontSizeForm(s, d, u, t, rest)
                               && h == Hit(DigitsValue(d), t)
                               && n == |FontSizeLead| + |d| + 2 + |u| + |t| + 2 {
      var d, u, t, rest :| FontSizeForm(s, d, u, t, rest)
                           && h == Hit(DigitsValue(d), t)
                           && n == |FontSizeLead| + |d| + 2 + |u| + |t| + 2;
      MatchFontSizeComplete(s, d, u, t, rest, h, n);
    }
  }

  /** A bold match has the bold form. */
  lemma MatchBoldSound(s: string, h: Hit, n: nat)
    requires MatchBold(s) == Some((h, n))
    ensures exists u, t, rest {:trigger BoldForm(s, u, t, rest)} :: BoldForm(s, u, t, rest)
                                 && h == Hit(0, t) && n == |BoldLead| + |u| + |t| + 2
  {
    var k := |BoldLead|;
    assert StartsWith(s, BoldLead) && TailFrom(s, k) == Some((h.text, n)) && h == Hit(0, h.text);
    TailFromSound(s, k, h.text, n);
    var u := s[k..n - |h.text| - 2];
    assert s == s[..k] + s[k..];
    assert BoldForm(s, u, h.text, s[n..]);
  }

  /** Wherever the bold form is present, the bold match finds it. */
  lemma MatchBoldComplete(s: string, u: string, t: string, rest: string, h: Hit, n: nat)
    requires BoldForm(s, u, t, rest)
    requires h == Hit(0, t) && n == |BoldLead| + |u| + |t| + 2
    ensures MatchBold(s) == Some((h, n))
  {
    var k := |BoldLead|;
    assert s[..k] == BoldLead && s[k..] == u + ">" + t + "<" + rest;
    TailFromComplete(s, k, u, t, rest, n);
  }

  /** The bold match yields hit `h` ending at `n` exactly when `s` has the
      bold form with `h`'s text as capture (and size 0). */
  lemma MatchBoldIff(s: string, h: Hit, n: nat)
    ensures MatchBold(s) == Some((h, n)) <==>
              exists u, t, rest {:trigger BoldForm(s, u, t, rest)} :: BoldForm(s, u, t, rest)
                                   && h == Hit(0, t) && n == |BoldLead| + |u| + |t| + 2
  {
    if MatchBold(s) == Some((h, n)) {
      MatchBoldSound(s, h, n);
    }
    if exists u, t, rest {:trigger BoldForm(s, u, t, rest)} :: BoldForm(s, u, t, rest)
                            && h == Hit(0, t) && n == |BoldLead| + |u| + |t| + 2 {
      var u, t, rest :| BoldForm(s, u, t, rest)
                        && h == Hit(0, t) && n == |BoldLead| + |u| + |t| + 2;
      MatchBoldComplete(s, u, t, rest, h, n);
    }
  }

  /** At a `>` followed by a segment without `<` and then a `<`, the
      keyword pattern matches exactly when the segment holds a keyword, and
      then captures the whole segment. */
  lemma MatchKeywordSegment(s: string, t: string)
    requires '<' !in t && StartsWith(s, ">" + t + "<")
    ensures MatchKeyword(s) == if HasKeyword(t) then Some((Hit(0, t), |t| + 2)) else None
  {
    var w := ">" + t + "<";
    assert s[..|w|] == w;
    assert s[1 + |t|] == '<';
    forall j | 1 <= j < 1 + |t| ensures s[j] != '<' {
      assert s[j] == t[j - 1];
    }
    SkipToIs(s, '<', 1, 1 + |t|);
    assert s[1..1 + |t|] == t;
  }

  /** `s` read as `>`, the segment before `n - 1`, `<`, and the rest. */
  lemma KeywordJoin(s: string, n: nat)
    requires 2 <= n <= |s| && s[0] == '>' && s[n - 1] == '<'
    ensures s == ">" + s[1..n - 1] + "<" + s[n..]
  {
    assert s == [s[0]] + s[1..n - 1] + [s[n - 1]] + s[n..];
  }

  /** A keyword match has the keyword form. */
  lemma MatchKeywordSound(s: string, h: Hit, n: nat)
    requires MatchKeyword(s) == Some((h, n))
    ensures exists t, rest {:trigger KeywordForm(s, t, rest)} :: KeywordForm(s, t, rest) && h == Hit(0, t) && n == |t| + 2
  {
    KeywordJoin(s, n);
    assert KeywordForm(s, h.text, s[n..]);
  }

  /** Wherever the keyword form is present, the keyword match finds it. */
  lemma MatchKeywordComplete(s: string, t: string, rest: string, h: Hit, n: nat)
    requires KeywordForm(s, t, rest) && h == Hit(0, t) && n == |t| + 2
    ensures MatchKeyword(s) == Some((h, n))
  {
    assert s[..|t| + 2] == ">" + t + "<";
    MatchKeywordSegment(s, t);
  }

  /** The keyword match yields hit `h` ending at `n` exactly when `s` has
      the keyword form with `h`'s text as the segment. */
  lemma MatchKeywordIff(s: string, h: Hit, n: nat)
    ensures MatchKeyword(s) == Some((h, n)) <==>
              exists t, rest {:trigger KeywordForm(s, t, rest)} :: KeywordForm(s, t, rest) && h == Hit(0, t) && n == |t| + 2
  {
    if MatchKeyword(s) == Some((h, n)) {
      MatchKeywordSound(s, h, n);
    }
    if exists t, rest {:trigger KeywordForm(s, t, rest)} :: KeywordForm(s, t, rest) && h == Hit(0, t) && n == |t| + 2 {
      var t, rest :| KeywordForm(s, t, rest) && h == Hit(0, t) && n == |t| + 2;
      MatchKeywordComplete(s, t, rest, h, n);
    }
  }

  /** The match of pattern `p` that starts at the first character of `s`,
      if any, with the number of characters it consumes. */
  function MatchAt(p: Pattern, s: string): (r: Option<(Hit, nat)>)
    ensures r.Some? ==> 0 < r.value.1 <= |s|
    ensures r.Some? ==> r.value.0.text != [] && '<' !in r.value.0.text
    ensures r.Some? && p != FontSize ==> r.value.0.size == 0
    ensures r.Some? && p == Keyword ==> HasKeyword(r.value.0.text)
  {
    match p
    case FontSize => MatchFontSize(s)
    case Bold => MatchBold(s)
    case Keyword => MatchKeyword(s)
  }

  /** `re.finditer(p, s)`: the successive non-overlapping matches, left
      to right. */
  function Scan(p: Pattern, s: string): (r: seq<Hit>)
    ensures forall h :: h in r ==> h.text != [] && '<' !in h.text
    ensures p != FontSize ==> forall h :: h in r ==> h.size == 0
    ensures p == Keyword ==> forall h :: h in r ==> HasKeyword(h.text)
    decreases |s|
  {
    if s == [] then []
    else
      match MatchAt(p, s)
      case Some((h, n)) => [h] + Scan(p, s[n..])
      case None => Scan(p, s[1..])
  }

  /** The scan finds nothing exactly when the pattern matches at no
      position of the input. */
  lemma {:induction false} ScanEmptyIff(p: Pattern, s: string)
    ensures Scan(p, s) == [] <==> forall i :: 0 <= i <= |s| ==> MatchAt(p, s[i..]).None?
    decreases |s|
  {
    if s == [] {
      assert forall i :: 0 <= i <= |s| ==> s[i..] == [];
    } else {
      var m := MatchAt(p, s);
      assert s[0..] == s;
      if m.None? {
        assert Scan(p, s) == Scan(p, s[1..]);
        ScanEmptyIff(p, s[1..]);
        assert forall i :: 1 <= i <= |s| ==> s[i..] == s[1..][i - 1..];
      }
    }
  }

  /** No match at the first position: the scan moves on by one character. */
  lemma ScanSkip(p: Pattern, s: string)
    requires s != [] && MatchAt(p, s).None?
    ensures Scan(p, s) == Scan(p, s[1..])
  {
  }

  /** A match at the first position is reported and the scan resumes
      after it. */
  lemma ScanTake(p: Pattern, s: string, h: Hit, n: nat)
    requires MatchAt(p, s) == Some((h, n))
    ensures n <= |s| && Scan(p, s) == [h] + Scan(p, s[n..])
  {
  }

  /** The scan reports the leftmost match first and resumes right after
      its end: scanning from any position `k` up to the first match at
      `i` reports that match, then continues from its end. */
  lemma {:induction false} ScanLeftmost(p: Pattern, s: string, k: nat, i: nat, h: Hit, n: nat)
    requires k <= i <= |s| && MatchAt(p, s[i..]) == Some((h, n))
    requires forall j :: k <= j < i ==> MatchAt(p, s[j..]).None?
    ensures i + n <= |s|
    ensures Scan(p, s[k..]) == [h] + Scan(p, s[i + n..])
    decreases i - k
  {
    if k == i {
      ScanTake(p, s[i..], h, n);
      assert s[i..][n..] == s[i + n..];
    } else {
      ScanSkip(p, s[k..]);
      assert s[k..][1..] == s[k + 1..];
      ScanLeftmost(p, s, k + 1, i, h, n);
    }
  }

  // ---------------------------------------------------------------------
  // The three passes.

  /** A heading is kept when, after stripping, it is not empty and is
      shorter than 100 characters. */
  predicate Acceptable(t: string) {
    t != [] && |t| < MaxHeadingLength
  }

  /** What the collected list holds: stripped, acceptable strings. */
  predicate IsHeading(t: string) {
    Strip(t) == t && Acceptable(t)
  }

  /** `match.group(...).strip()` for each match, in order. */
  function Texts(hits: seq<Hit>): (r: seq<string>)
    ensures |r| == |hits|
    ensures forall i :: 0 <= i < |hits| ==> r[i] == Strip(hits[i].text)
  {
    seq(|hits|, i requires 0 <= i < |hits| => Strip(hits[i].text))
  }

  /** Each stripped capture is a fixed point of `Strip`. */
  lemma TextsStripped(hits: seq<Hit>)
    ensures forall t :: t in Texts(hits) ==> Strip(t) == t
  {
    forall t | t in Texts(hits) ensures Strip(t) == t {
      var i :| 0 <= i < |hits| && Texts(hits)[i] == t;
      StripIdempotent(hits[i].text);
    }
  }

  /** Pass 1: every font-size match above 14px contributes its stripped
      capture when acceptable; this pass does not check for repeats. */
  function FontSizePass(hits: seq<Hit>): (r: seq<string>)
    ensures |r| <= |hits|
    decreases |hits|
  {
    if hits == [] then []
    else
      var t := Strip(hits[0].text);
      var rest := FontSizePass(hits[1..]);
      if hits[0].size > 14 && Acceptable(t) then [t] + rest else rest
  }

  /** A text enters pass 1 exactly when some match above 14px strips to it
      and it is acceptable; every entry is a valid heading. */
  lemma {:induction false} FontSizePassSpec(hits: seq<Hit>)
    ensures forall t :: t in FontSizePass(hits) ==> IsHeading(t)
    ensures forall t :: t in FontSizePass(hits) <==>
              exists h :: h in hits && h.size > 14 && Strip(h.text) == t && Acceptable(t)
    decreases |hits|
  {
    if hits != [] {
      FontSizePassSpec(hits[1..]);
      StripIdempotent(hits[0].text);
      assert forall h :: h in hits <==> h == hits[0] || h in hits[1..];
    }
  }

  /** One step of passes 2 and 3: append `t` when it is acceptable and not
      already collected. */
  function AddIfNew(acc: seq<string>, t: string): (r: seq<string>)
  {
    if Acceptable(t) && t !in acc then acc + [t] else acc
  }

  /** Passes 2 and 3 over the stripped captures, in order. What was
      collected before stays in place, and a string ends up in the list
      exactly when it was there before or is an acceptable candidate. */
  function AddNew(acc: seq<string>, cands: seq<string>): (r: seq<string>)
    ensures |acc| <= |r| && r[..|acc|] == acc
    ensures forall t :: t in r <==> t in acc || (t in cands && Acceptable(t))
    decreases |cands|
  {
    if cands == [] then acc
    else
      var next := AddIfNew(acc, cands[0]);
      var r := AddNew(next, cands[1..]);
      assert r[..|acc|] == next[..|acc|];
      assert forall t :: t in cands <==> t == cands[0] || t in cands[1..];
      r
  }

  /** From position `from` on, every entry of `r` is an acceptable member
      of `cands` that does not occur earlier in `r`. */
  predicate FreshFrom(r: seq<string>, from: nat, cands: seq<string>)
    requires from <= |r|
  {
    forall j :: from <= j < |r| ==> Acceptable(r[j]) && r[j] in cands && r[j] !in r[..j]
  }

  /** Everything passes 2 and 3 add is an acceptable candidate that does
      not occur earlier in the list. */
  lemma {:induction false} AddNewNoRepeats(acc: seq<string>, cands: seq<string>)
    ensures FreshFrom(AddNew(acc, cands), |acc|, cands)
    decreases |cands|
  {
    if cands != [] {
      var next := AddIfNew(acc, cands[0]);
      var r := AddNew(next, cands[1..]);
      assert r == AddNew(acc, cands);
      AddNewNoRepeats(next, cands[1..]);
      assert FreshFrom(r, |next|, cands[1..]);
      assert r[..|next|] == next;
      forall j | |acc| <= j < |r|
        ensures Acceptable(r[j]) && r[j] in cands && r[j] !in r[..j]
      {
        if j < |next| {
          assert next == acc + [cands[0]];
          assert r[j] == next[j] == cands[0];
          assert r[..j] == next[..j] == acc;
        } else {
          assert r[j] in cands[1..];
        }
      }
    }
  }

  /** The loop of passes 2 and 3 unrolled one candidate at a time: adding
      `cands + [t]` is adding `cands`, then `t`. */
  lemma {:induction false} AddNewSnoc(acc: seq<string>, cands: seq<string>, t: string)
    ensures AddNew(acc, cands + [t]) == AddIfNew(AddNew(acc, cands), t)
    decreases |cands|
  {
    if cands == [] {
      assert AddNew(AddIfNew(acc, t), []) == AddIfNew(acc, t);
    } else {
      assert (cands + [t])[1..] == cands[1..] + [t];
      AddNewSnoc(AddIfNew(acc, cands[0]), cands[1..], t);
    }
  }

  /** The headings list assembled from the matches of the three passes. */
  function Collect(sized: seq<Hit>, bold: seq<string>, keyword: seq<string>): seq<string>
  {
    AddNew(AddNew(FontSizePass(sized), bold), keyword)
  }

  /** Where each entry past the font-size block comes from: the bold pass
      adds acceptable bold candidates not yet present, then the keyword
      pass adds acceptable keyword candidates not yet present; no entry
      after the font-size block repeats an earlier one. */
  lemma CollectLayout(sized: seq<Hit>, bold: seq<string>, keyword: seq<string>)
    ensures var r := Collect(sized, bold, keyword);
            var f := FontSizePass(sized);
            var m := |AddNew(f, bold)|;
            && |f| <= m <= |r| && r[..|f|] == f
            && FreshFrom(r[..m], |f|, bold)
            && FreshFrom(r, m, keyword)
            && (forall j :: m <= j < |r| ==> r[j] !in bold)
  {
    var f := FontSizePass(sized);
    var mid := AddNew(f, bold);
    var r := AddNew(mid, keyword);
    assert Collect(sized, bold, keyword) == r;
    AddNewNoRepeats(f, bold);
    AddNewNoRepeats(mid, keyword);
    assert r[..|mid|] == mid;
    assert r[..|f|] == mid[..|f|];
    KeywordsNotBold(f, bold, keyword);
  }

  /** The keyword pass adds nothing the bold pass already considered: an
      acceptable bold candidate is in the list before the keyword pass starts. */
  lemma KeywordsNotBold(f: seq<string>, bold: seq<string>, keyword: seq<string>)
    ensures var mid := AddNew(f, bold);
            var r := AddNew(mid, keyword);
            forall j :: |mid| <= j < |r| ==> r[j] !in bold
  {
    var mid := AddNew(f, bold);
    var r := AddNew(mid, keyword);
    AddNewNoRepeats(mid, keyword);
    forall j | |mid| <= j < |r| ensures r[j] !in bold {
      assert Acceptable(r[j]) && r[j] !in r[..j];
      assert r[..j][..|mid|] == mid;
      assert forall t :: t in mid ==> t in r[..j];
    }
  }

  /** No entry after the font-size block repeats an earlier one. */
  lemma FreshFromJoin(r: seq<string>, a: nat, b: nat, c1: seq<string>, c2: seq<string>)
    requires a <= b <= |r|
    requires FreshFrom(r[..b], a, c1) && FreshFrom(r, b, c2)
    ensures forall j :: a <= j < |r| ==> Acceptable(r[j]) && r[j] !in r[..j]
  {
    forall j | a <= j < b ensures Acceptable(r[j]) && r[j] !in r[..j] {
      assert r[..b][j] == r[j] && r[..b][..j] == r[..j];
    }
  }

  /** `extract_headings_from_html(html)`. */
  function ExtractHeadings(html: string): seq<string>
  {
    Collect(Scan(FontSize, html), Texts(Scan(Bold, html)), Texts(Scan(Keyword, html)))
  }

  /** The headings of a page: every entry stripped, non-empty and shorter
      than 100. The font-size headings (size above 14) come first, in match
      order and with any repeats. Then come the bold headings, then the
      keyword headings, each added only when not already present. A string
      is listed exactly when one of the three passes offers it. */
  lemma ExtractHeadingsSpec(html: string)
    ensures var r := ExtractHeadings(html);
            var f := FontSizePass(Scan(FontSize, html));
            var bold := Texts(Scan(Bold, html));
            var keyword := Texts(Scan(Keyword, html));
            var m := |AddNew(f, bold)|;
            && |f| <= m <= |r| && r[..|f|] == f
            && (forall t :: t in r ==> IsHeading(t))
            && (forall j :: |f| <= j < |r| ==> r[j] !in r[..j])
            && (forall j :: |f| <= j < m ==> r[j] in bold)
            && (forall j :: m <= j < |r| ==> r[j] in keyword && r[j] !in bold)
            && (forall t :: t in r <==>
                  || (exists h :: h in Scan(FontSize, html) && h.size > 14 && Strip(h.text) == t && Acceptable(t))
                  || (t in bold && Acceptable(t))
                  || (t in keyword && Acceptable(t)))
  {
    var sized := Scan(FontSize, html);
    var bold := Texts(Scan(Bold, html));
    var keyword := Texts(Scan(Keyword, html));
    CollectLayout(sized, bold, keyword);
    FontSizePassSpec(sized);
    var m := |AddNew(FontSizePass(sized), bold)|;
    var r := Collect(sized, bold, keyword);
    FreshFromJoin(r, |FontSizePass(sized)|, m, bold, keyword);
    forall j | |FontSizePass(sized)| <= j < m ensures r[j] in bold {
      assert r[..m][j] == r[j];
    }
    TextsStripped(Scan(Bold, html));
    TextsStripped(Scan(Keyword, html));
  }

  /** The page heading: the first collected heading, or `""`. */
  function PageHeading(html: string): string
  {
    var hs := ExtractHeadings(html);
    if hs != [] then hs[0] else ""
  }

  /** The page heading is empty exactly when no pass offers a heading;
      otherwise it is stripped, non-empty and shorter than 100; and the
      first font-size heading wins whenever the font-size pass found one. */
  lemma PageHeadingSpec(html: string)
    ensures var r := PageHeading(html);
            var f := FontSizePass(Scan(FontSize, html));
            var bold := Texts(Scan(Bold, html));
            var keyword := Texts(Scan(Keyword, html));
            && (r == "" <==>
                  && f == []
                  && (forall t :: t in bold ==> !Acceptable(t))
                  && (forall t :: t in keyword ==> !Acceptable(t)))
            && (r != "" ==> IsHeading(r))
            && (f != [] ==> r == f[0])
  {
    ExtractHeadingsSpec(html);
    FontSizePassSpec(Scan(FontSize, html));
    var r := ExtractHeadings(html);
    if r != [] {
      assert r[0] in r;
    } else {
      assert forall t :: t in FontSizePass(Scan(FontSize, html)) ==> t in r;
    }
  }

  /** Pass 1 unrolled one match at a time. */
  lemma {:induction false} FontSizePassSnoc(hits: seq<Hit>, h: Hit)
    ensures FontSizePass(hits + [h]) ==
            FontSizePass(hits) + (if h.size > 14 && Acceptable(Strip(h.text)) then [Strip(h.text)] else [])
    decreases |hits|
  {
    if hits == [] {
      assert FontSizePass([h]) == (if h.size > 14 && Acceptable(Strip(h.text)) then [Strip(h.text)] else []) + FontSizePass([]);
    } else {
      assert (hits + [h])[1..] == hits[1..] + [h];
      FontSizePassSnoc(hits[1..], h);
    }
  }

  /** The loop of pass 1 over the font-size matches. */
  method FontSizeLoop(sized: seq<Hit>) returns (headings: seq<string>)
    ensures headings == FontSizePass(sized)
  {
    headings := [];
    var i := 0;
    while i < |sized|
      invariant 0 <= i <= |sized|
      invariant headings + FontSizePass(sized[i..]) == FontSizePass(sized)
    {
      var text := Strip(sized[i].text);
      assert sized[i..][0] == sized[i] && sized[i..][1..] == sized[i + 1..];
      if sized[i].size > 14 && text != [] && |text| < MaxHeadingLength {
        assert FontSizePass(sized[i..]) == [text] + FontSizePass(sized[i + 1..]);
        headings := headings + [text];
      }
      i := i + 1;
    }
  }

  /** The loop of pass 2 or 3 over its matches, appending to `start`. */
  method AddNewLoop(start: seq<string>, hits: seq<Hit>) returns (headings: seq<string>)
    ensures headings == AddNew(start, Texts(hits))
  {
    var texts := Texts(hits);
    headings := start;
    var i := 0;
    while i < |hits|
      invariant 0 <= i <= |hits|
      invariant AddNew(headings, texts[i..]) == AddNew(start, texts)
    {
      var text := Strip(hits[i].text);
      assert texts[i..][0] == text && texts[i..][1..] == texts[i + 1..];
      if text != [] && |text| < MaxHeadingLength && text !in headings {
        headings := headings + [text];
      }
      i := i + 1;
    }
  }

  /** The three loops of `extract_headings_from_html`, run over the
      matches of the three `re.finditer` calls the way the source runs
      them; the result is the list `Collect` describes. */
  method CollectHeadings(sized: seq<Hit>, bold: seq<Hit>, keyword: seq<Hit>) returns (headings: seq<string>)
    ensures headings == Collect(sized, Texts(bold), Texts(keyword))
  {
    headings := FontSizeLoop(sized);
    headings := AddNewLoop(headings, bold);
    headings := AddNewLoop(headings, keyword);
  }
}
