/** The three prefix regexes of utils/llm.py and `_clean_piece`, which
    normalises one side of a flashcard.

    Each regex is anchored at the start of the string (`^`, no MULTILINE),
    so `sub("", s)` removes at most one match. Every function here reads a
    window `s[lo..hi]` of a larger string in place: a match is modelled by
    the index where it ends (`lo` when there is no match, since no match is
    empty), and the substitution by moving the window's start there. */
module Prefixes {
  import opened Text

  /** Unicode decimal digits (`\d` on str patterns, general category Nd,
      Unicode 15): the ASCII digits, and above ASCII the blocks of ten
      consecutive code points listed in `NonAsciiDigit`. */
  predicate IsDecimalDigit(c: char) {
    var x := c as int;
    if x < 0x80 then 0x30 <= x <= 0x39 else NonAsciiDigit(x)
  }

  /** The decimal digits above ASCII: sixty-two blocks of ten, and the fifty
      mathematical digits U+1D7CE..U+1D7FF. */
  predicate NonAsciiDigit(x: int) {
    || (0x660 <= x <= 0x669) || (0x6F0 <= x <= 0x6F9) || (0x7C0 <= x <= 0x7C9) || (0x966 <= x <= 0x96F)
    || (0x9E6 <= x <= 0x9EF) || (0xA66 <= x <= 0xA6F) || (0xAE6 <= x <= 0xAEF) || (0xB66 <= x <= 0xB6F)
    || (0xBE6 <= x <= 0xBEF) || (0xC66 <= x <= 0xC6F) || (0xCE6 <= x <= 0xCEF) || (0xD66 <= x <= 0xD6F)
    || (0xDE6 <= x <= 0xDEF) || (0xE50 <= x <= 0xE59) || (0xED0 <= x <= 0xED9) || (0xF20 <= x <= 0xF29)
    || (0x1040 <= x <= 0x1049) || (0x1090 <= x <= 0x1099) || (0x17E0 <= x <= 0x17E9) || (0x1810 <= x <= 0x1819)
    || (0x1946 <= x <= 0x194F) || (0x19D0 <= x <= 0x19D9) || (0x1A80 <= x <= 0x1A89) || (0x1A90 <= x <= 0x1A99)
    || (0x1B50 <= x <= 0x1B59) || (0x1BB0 <= x <= 0x1BB9) || (0x1C40 <= x <= 0x1C49) || (0x1C50 <= x <= 0x1C59)
    || (0xA620 <= x <= 0xA629) || (0xA8D0 <= x <= 0xA8D9) || (0xA900 <= x <= 0xA909) || (0xA9D0 <= x <= 0xA9D9)
    || (0xA9F0 <= x <= 0xA9F9) || (0xAA50 <= x <= 0xAA59) || (0xABF0 <= x <= 0xABF9) || (0xFF10 <= x <= 0xFF19)
    || (0x104A0 <= x <= 0x104A9) || (0x10D30 <= x <= 0x10D39) || (0x11066 <= x <= 0x1106F) || (0x110F0 <= x <= 0x110F9)
    || (0x11136 <= x <= 0x1113F) || (0x111D0 <= x <= 0x111D9) || (0x112F0 <= x <= 0x112F9) || (0x11450 <= x <= 0x11459)
    || (0x114D0 <= x <= 0x114D9) || (0x11650 <= x <= 0x11659) || (0x116C0 <= x <= 0x116C9) || (0x11730 <= x <= 0x11739)
    || (0x118E0 <= x <= 0x118E9) || (0x11950 <= x <= 0x11959) || (0x11C50 <= x <= 0x11C59) || (0x11D50 <= x <= 0x11D59)
    || (0x11DA0 <= x <= 0x11DA9) || (0x11F50 <= x <= 0x11F59) || (0x16A60 <= x <= 0x16A69) || (0x16AC0 <= x <= 0x16AC9)
    || (0x16B50 <= x <= 0x16B59) || (0x1E140 <= x <= 0x1E149) || (0x1E2F0 <= x <= 0x1E2F9) || (0x1E4F0 <= x <= 0x1E4F9)
    || (0x1E950 <= x <= 0x1E959) || (0x1FBF0 <= x <= 0x1FBF9)
    || (0x1D7CE <= x <= 0x1D7FF)
  }

  /** The bullet characters of `_NUM_PREFIX`: `-`, U+2022 and `*`. */
  predicate IsBullet(c: char) {
    c == '-' || c == '\U{2022}' || c == '*'
  }

  /** What may close a number in `_NUM_PREFIX`: `)`, `.`, `-` or `:`. */
  predicate IsNumberEnd(c: char) {
    c == ')' || c == '.' || c == '-' || c == ':'
  }

  /** What may close a label in `_Q_PREFIX` and `_A_PREFIX`: `:` or `-`. */
  predicate IsLabelEnd(c: char) {
    c == ':' || c == '-'
  }

  function AsciiUpper(c: char): char {
    if 'a' <= c <= 'z' then (c as int - 32) as char else c
  }

  /** A subject character matches the lower-case pattern letter `p` under
      `re.IGNORECASE` (Unicode mode): besides the ASCII pair, `i` also matches
      U+0130 and U+0131 and `s` also matches U+017F. */
  predicate IgnoreCaseEq(c: char, p: char) {
    || c == p
    || c == AsciiUpper(p)
    || (p == 'i' && (c == '\U{130}' || c == '\U{131}'))
    || (p == 's' && c == '\U{17F}')
  }

  /** `word` (lower case) occurs at index `i` of `s`, ending by `hi`, under `re.IGNORECASE`. */
  predicate IgnoreCaseAt(s: string, i: nat, hi: nat, word: string)
    requires hi <= |s|
  {
    i + |word| <= hi && forall k :: 0 <= k < |word| ==> IgnoreCaseEq(s[i + k], word[k])
  }

  /** `s.lower().startswith(p)` for a prefix `p` of ASCII lower-case letters and
      punctuation. Only U+0130 lowers to a string starting with such a letter,
      and it lowers to two characters (`i` and U+0307), which never continues
      one of the prefixes used here; so the test is an ASCII case-insensitive
      comparison of the first `|p|` characters. */
  predicate LowerStartsWith(s: string, p: string) {
    |p| <= |s| && forall k :: 0 <= k < |p| ==> s[k] == p[k] || s[k] == AsciiUpper(p[k])
  }

  /** End of the maximal run of decimal digits starting at `i` (the greedy `\d+`). */
  function SkipDigits(s: string, i: nat, hi: nat): (j: nat)
    requires i <= hi <= |s|
    ensures i <= j <= hi
    decreases hi - i
  {
    if i < hi && IsDecimalDigit(s[i]) then SkipDigits(s, i + 1, hi) else i
  }

  /** The greedy `\d+` stops exactly at the first character that is not a digit. */
  lemma {:induction false} SkipDigitsTo(s: string, i: nat, j: nat, hi: nat)
    requires i <= j <= hi <= |s|
    requires forall m :: i <= m < j ==> IsDecimalDigit(s[m])
    requires j == hi || !IsDecimalDigit(s[j])
    ensures SkipDigits(s, i, hi) == j
    decreases j - i
  {
    if i < j {
      SkipDigitsTo(s, i + 1, j, hi);
    }
  }

  /** Length of the match of the group `(\d+[\)\.\-:]|\-|•|\*)` at `i`,
      alternatives tried in order; 0 when none matches. */
  function NumberOrBulletLen(s: string, i: nat, hi: nat): (g: nat)
    requires i <= hi <= |s|
    ensures i + g <= hi
  {
    var d := SkipDigits(s, i, hi);
    if d > i && d < hi && IsNumberEnd(s[d]) then d + 1 - i
    else if i < hi && IsBullet(s[i]) then 1
    else 0
  }

  /** End of the match of `_NUM_PREFIX`
      `^\s*[\-•\*]?\s*(\d+[\)\.\-:]|\-|•|\*)\s*` on `s[lo..hi]` (`lo` if none).
      With a leading bullet the engine first tries bullet, spaces, group;
      when that fails it backtracks and lets the bullet itself be the group. */
  function NumPrefixEnd(s: string, lo: nat, hi: nat): (e: nat)
    requires lo <= hi <= |s|
    ensures lo <= e <= hi
    ensures e > lo ==> var p := SkipSpace(s, lo, hi); p < hi && (IsBullet(s[p]) || IsDecimalDigit(s[p]))
    ensures e > lo ==> e == hi || !IsSpace(s[e])
  {
    var p := SkipSpace(s, lo, hi);
    if p < hi && IsBullet(s[p]) then BulletEnd(s, p, hi)
    else
      var e := GroupEnd(s, p, hi);
      if e >= 0 then e else lo
  }

  /** The bullet at `p`, spaces, then the group if it matches. */
  function BulletEnd(s: string, p: nat, hi: nat): (e: nat)
    requires p < hi <= |s|
    ensures p < e <= hi
  {
    var q := SkipSpace(s, p + 1, hi);
    var e := GroupEnd(s, q, hi);
    if e >= 0 then e else q
  }

  /** End of `(\d+[\)\.\-:]|\-|•|\*)\s*` matched at `q`, or -1 if the group does not match there. */
  function GroupEnd(s: string, q: nat, hi: nat): (e: int)
    requires q <= hi <= |s|
    ensures e == -1 || q < e <= hi
  {
    var g := NumberOrBulletLen(s, q, hi);
    if g > 0 then SkipSpace(s, q + g, hi) else -1
  }

  /** End of the match of `^\s*(<letter>(<rest>)?[:\-]\s*)` under
      `re.IGNORECASE` on `s[lo..hi]` (`lo` if none): the long word is tried
      first, then the single letter. */
  function LabelPrefixEnd(s: string, lo: nat, hi: nat, letter: char, rest: string): (e: nat)
    requires lo <= hi <= |s|
    ensures lo <= e <= hi
    ensures e > lo ==> LabelAt(s, SkipSpace(s, lo, hi), hi, letter, rest)
    ensures e > lo ==> e == hi || !IsSpace(s[e])
  {
    var p := SkipSpace(s, lo, hi);
    if p < hi && IgnoreCaseEq(s[p], letter) then
      var e := LabelTailEnd(s, p + 1, hi, rest);
      if e >= 0 then e else lo
    else lo
  }

  /** At `p` stands the letter, optionally followed by the rest of the
      word, and then `:` or `-`. */
  predicate LabelAt(s: string, p: nat, hi: nat, letter: char, rest: string)
    requires hi <= |s|
  {
    && p < hi && IgnoreCaseEq(s[p], letter)
    && ((p + 1 < hi && IsLabelEnd(s[p + 1]))
        || (IgnoreCaseAt(s, p + 1, hi, rest) && p + 1 + |rest| < hi && IsLabelEnd(s[p + 1 + |rest|])))
  }

  /** End of `(<rest>)?[:\-]\s*` matched at `i`, or -1 if it does not match there. */
  function LabelTailEnd(s: string, i: nat, hi: nat, rest: string): (e: int)
    requires i <= hi <= |s|
    ensures e == -1 || i < e <= hi
  {
    var w := i + |rest|;
    if IgnoreCaseAt(s, i, hi, rest) && w < hi && IsLabelEnd(s[w]) then SkipSpace(s, w + 1, hi)
    else if i < hi && IsLabelEnd(s[i]) then SkipSpace(s, i + 1, hi)
    else -1
  }

  /** `_Q_PREFIX = ^\s*(q(uestion)?[:\-]\s*)`, case-insensitive. */
  function QPrefixEnd(s: string, lo: nat, hi: nat): nat
    requires lo <= hi <= |s|
  {
    LabelPrefixEnd(s, lo, hi, 'q', "uestion")
  }

  /** `_A_PREFIX = ^\s*(a(nswer)?[:\-]\s*)`, case-insensitive. */
  function APrefixEnd(s: string, lo: nat, hi: nat): nat
    requires lo <= hi <= |s|
  {
    LabelPrefixEnd(s, lo, hi, 'a', "nswer")
  }

  /** A bare letter label with a colon, `Q:` or `A:` in either case, ends
      after the colon and the whitespace that follows it. */
  lemma LetterLabelEnd(s: string, letter: char, rest: string)
    requires |s| >= 2 && 'a' <= letter <= 'z' && (s[0] == letter || s[0] == AsciiUpper(letter)) && s[1] == ':'
    requires rest != [] && 'a' <= rest[0] <= 'z'
    ensures LabelPrefixEnd(s, 0, |s|, letter, rest) == SkipSpace(s, 2, |s|)
  {
    assert SkipSpace(s, 0, |s|) == 0;
    assert !IgnoreCaseAt(s, 1, |s|, rest) by {
      if 1 + |rest| <= |s| {
        assert !IgnoreCaseEq(s[1], rest[0]);
      }
    }
  }

  /** A cleaned side: no leading or trailing whitespace, and every inner
      whitespace run is a single plain space. */
  predicate IsClean(s: string) {
    IsStripped(s) && SingleSpaced(s)
  }

  /** The three prefix substitutions of `_clean_piece`, in order, on
      `s[lo..hi]`: one numbering/bullet prefix, then one Q label, then one A
      label. The result is where what is left starts. */
  function PrefixesEnd(s: string, lo: nat, hi: nat): (e: nat)
    requires lo <= hi <= |s|
    ensures lo <= e <= hi
  {
    var n := NumPrefixEnd(s, lo, hi);
    var q := QPrefixEnd(s, n, hi);
    APrefixEnd(s, q, hi)
  }

  /** `_clean_piece(s[lo:hi])`: strip, drop the prefixes, collapse
      whitespace runs, strip again. */
  function CleanRange(s: string, lo: nat, hi: nat): (r: string)
    requires lo <= hi <= |s|
    ensures IsClean(r)
  {
    var a := SkipSpace(s, lo, hi);
    var b := SkipSpaceBack(s, a, hi);
    var e := PrefixesEnd(s, a, b);
    CollapseShape(s, e, b);
    var c := Collapse(s, e, b);
    StripSingleSpaced(c);
    Strip(c)
  }

  /** `_clean_piece` */
  function CleanPiece(s: string): (r: string)
    ensures IsClean(r)
  {
    CleanRange(s, 0, |s|)
  }

  /** Whitespace in front of a side changes nothing: `_clean_piece` strips
      it first. */
  lemma CleanPieceDropSpace(x: string, k: nat)
    requires k <= |x| && forall m :: 0 <= m < k ==> IsSpace(x[m])
    ensures CleanPiece(x[k..]) == CleanPiece(x)
  {
    assert x[k..|x|] == x[k..];
    CleanPieceOfSlice(x, k, |x|);
    SkipSpaceThrough(x, 0, k, |x|);
    CleanRangeFromStart(x, 0, k, |x|);
  }

  /** Only where the first strip stops matters to `CleanRange`. */
  lemma CleanRangeFromStart(s: string, lo: nat, lo': nat, hi: nat)
    requires lo <= hi && lo' <= hi <= |s| && SkipSpace(s, lo, hi) == SkipSpace(s, lo', hi)
    ensures CleanRange(s, lo, hi) == CleanRange(s, lo', hi)
  {
  }

  /** A label ending at `e` (the colon and the whitespace after it) is
      cleaned away together with that whitespace: what is left cleans like
      the text after the colon. */
  lemma CleanAfterLabel(l: string, body: string, e: nat)
    requires |l| >= 2 && l[2..] == body && e == SkipSpace(l, 2, |l|)
    ensures CleanPiece(l[e..]) == CleanPiece(body)
  {
    SkipSpaceRun(l, 2, |l|);
    assert l[e..] == body[e - 2..];
    forall m | 0 <= m < e - 2 ensures IsSpace(body[m]) {
      assert body[m] == l[m + 2];
    }
    CleanPieceDropSpace(body, e - 2);
  }

  /** Cleaning never lengthens a side. */
  lemma {:induction false} CleanRangeShorter(s: string, lo: nat, hi: nat)
    requires lo <= hi <= |s|
    ensures |CleanRange(s, lo, hi)| <= hi - lo
  {
    var a := SkipSpace(s, lo, hi);
    var b := SkipSpaceBack(s, a, hi);
    CollapseLength(s, PrefixesEnd(s, a, b), b);
  }

  /** A clean window that starts with no numbering, bullet, Q label or A
      label is a fixed point of `_clean_piece`. */
  lemma {:induction false} CleanRangeFixed(s: string, lo: nat, hi: nat)
    requires lo <= hi <= |s|
    requires IsClean(s[lo..hi])
    requires PrefixesEnd(s, lo, hi) == lo
    ensures CleanRange(s, lo, hi) == s[lo..hi]
  {
    CleanRangeOfStripped(s, lo, hi, lo);
  }

  /** A stripped window whose prefixes end at `e`, leaving a clean
      remainder, cleans to that remainder. */
  lemma {:induction false} CleanRangeOfStripped(s: string, lo: nat, hi: nat, e: nat)
    requires lo <= e <= hi <= |s|
    requires IsStripped(s[lo..hi]) && PrefixesEnd(s, lo, hi) == e && IsClean(s[e..hi])
    ensures CleanRange(s, lo, hi) == s[e..hi]
  {
    StrippedWindow(s, lo, hi);
    SingleSpacedSlice(s, e, hi);
    CollapseSingleSpaced(s, e, hi);
    StrippedFixed(s[e..hi]);
  }

  /** None of the three prefixes matches when the first character is not
      whitespace, a digit, a bullet or a label letter. */
  lemma NoPrefixes(s: string, lo: nat, hi: nat)
    requires lo < hi <= |s|
    requires !IsSpace(s[lo]) && !IsDecimalDigit(s[lo]) && !IsBullet(s[lo])
    requires !IgnoreCaseEq(s[lo], 'q') && !IgnoreCaseEq(s[lo], 'a')
    ensures NumPrefixEnd(s, lo, hi) == lo && QPrefixEnd(s, lo, hi) == lo && APrefixEnd(s, lo, hi) == lo
    ensures PrefixesEnd(s, lo, hi) == lo
  {
    assert SkipSpace(s, lo, hi) == lo;
    assert SkipDigits(s, lo, hi) == lo;
  }

  /** `_A_PREFIX` also accepts `-` after the bare letter: "A-team" loses "A-". */
  lemma ATeamLosesItsA()
    ensures CleanPiece("A-team") == "team"
  {
    var s := "A-team";
    assert SkipSpace(s, 0, 6) == 0;
    assert SkipDigits(s, 0, 6) == 0;
    assert NumPrefixEnd(s, 0, 6) == 0;
    assert QPrefixEnd(s, 0, 6) == 0;
    assert SkipSpace(s, 2, 6) == 2;
    assert APrefixEnd(s, 0, 6) == 2;
    assert s[0..6] == s;
    assert s[2..6] == "team";
    CleanRangeOfStripped(s, 0, 6, 2);
  }

  /** `_Q_PREFIX` likewise accepts `-` after the bare letter: "Q-why" loses "Q-". */
  lemma QDashStripped()
    ensures CleanPiece("Q-why") == "why"
  {
    var s := "Q-why";
    assert SkipSpace(s, 0, 5) == 0;
    assert SkipDigits(s, 0, 5) == 0;
    assert NumPrefixEnd(s, 0, 5) == 0;
    assert SkipSpace(s, 2, 5) == 2;
    assert QPrefixEnd(s, 0, 5) == 2;
    assert APrefixEnd(s, 2, 5) == 2;
    assert s[0..5] == s;
    assert s[2..5] == "why";
    CleanRangeOfStripped(s, 0, 5, 2);
  }

  /** A leading year with a full stop is taken for list numbering. */
  lemma YearTakenForNumbering()
    ensures CleanPiece("1990. was a year") == "was a year"
  {
    var s := "1990. was a year";
    YearNumbering();
    YearRemainder();
    assert s[0..16] == s;
    CleanRangeOfStripped(s, 0, 16, 6);
  }

  lemma YearNumbering()
    ensures NumPrefixEnd("1990. was a year", 0, 16) == 6
  {
    var s := "1990. was a year";
    assert SkipSpace(s, 0, 16) == 0;
    assert SkipDigits(s, 0, 16) == 4;
    assert SkipSpace(s, 5, 16) == 6;
  }

  lemma YearRemainder()
    ensures QPrefixEnd("1990. was a year", 6, 16) == 6 && APrefixEnd("1990. was a year", 6, 16) == 6
    ensures "1990. was a year"[6..16] == "was a year" && IsClean("was a year")
  {
    assert SkipSpace("1990. was a year", 6, 16) == 6;
  }

  /** Only one numbering prefix is removed: a second one survives. */
  lemma OneNumberingRemoved()
    ensures CleanPiece("1) 2) x") == "2) x"
  {
    var s := "1) 2) x";
    assert SkipSpace(s, 0, 7) == 0;
    assert SkipDigits(s, 0, 7) == 1;
    assert SkipSpace(s, 2, 7) == 3;
    assert NumPrefixEnd(s, 0, 7) == 3;
    SecondNumbering();
    assert s[0..7] == s;
    CleanRangeOfStripped(s, 0, 7, 3);
  }

  lemma SecondNumbering()
    ensures QPrefixEnd("1) 2) x", 3, 7) == 3 && APrefixEnd("1) 2) x", 3, 7) == 3
    ensures "1) 2) x"[3..7] == "2) x" && IsClean("2) x")
  {
    assert SkipSpace("1) 2) x", 3, 7) == 3;
    assert !SpacePairAt("2) x", 2);
  }

  // Reading a window in place is the same as reading a copy of it: every
  // function above gives, on `t`, the answer it gives on `s` shifted by `d`
  // wherever `t[k] == s[k + d]`.

  lemma {:induction false} SkipDigitsShift(t: string, s: string, d: nat, i: nat, j: nat, i': nat, j': nat)
    requires Agree(t, s, d) && i <= j <= |t|
    requires i' == i + d && j' == j + d
    ensures SkipDigits(t, i, j) + d == SkipDigits(s, i', j')
    decreases j - i
  {
    if i < j {
      assert t[i] == s[i'];
      SkipDigitsShift(t, s, d, i + 1, j, i' + 1, j');
    }
  }

  lemma {:induction false} NumberOrBulletLenShift(t: string, s: string, d: nat, i: nat, j: nat, i': nat, j': nat)
    requires Agree(t, s, d) && i <= j <= |t|
    requires i' == i + d && j' == j + d
    ensures NumberOrBulletLen(t, i, j) == NumberOrBulletLen(s, i', j')
  {
    SkipDigitsShift(t, s, d, i, j, i', j');
    var e := SkipDigits(t, i, j);
    if e < j {
      assert t[e] == s[SkipDigits(s, i', j')];
    }
    if i < j {
      assert t[i] == s[i'];
    }
  }

  lemma {:induction false} GroupEndShift(t: string, s: string, d: nat, q: nat, hi: nat, q': nat, hi': nat)
    requires Agree(t, s, d) && q <= hi <= |t|
    requires q' == q + d && hi' == hi + d
    ensures GroupEnd(t, q, hi) == -1 <==> GroupEnd(s, q', hi') == -1
    ensures GroupEnd(t, q, hi) != -1 ==> GroupEnd(t, q, hi) + d == GroupEnd(s, q', hi')
  {
    var g := NumberOrBulletLen(t, q, hi);
    NumberOrBulletLenShift(t, s, d, q, hi, q', hi');
    if g > 0 {
      SkipSpaceShift(t, s, d, q + g, hi, q' + g, hi');
    }
  }

  lemma {:induction false} NumPrefixEndShift(t: string, s: string, d: nat, lo: nat, hi: nat, lo': nat, hi': nat)
    requires Agree(t, s, d) && lo <= hi <= |t|
    requires lo' == lo + d && hi' == hi + d
    ensures NumPrefixEnd(t, lo, hi) + d == NumPrefixEnd(s, lo', hi')
  {
    var p, p' := SkipSpace(t, lo, hi), SkipSpace(s, lo', hi');
    SkipSpaceShift(t, s, d, lo, hi, lo', hi');
    if p < hi {
      assert t[p] == s[p'];
    }
    if p < hi && IsBullet(t[p]) {
      BulletEndShift(t, s, d, p, hi, p', hi');
    } else {
      GroupEndShift(t, s, d, p, hi, p', hi');
    }
  }

  /** The bullet branch of `NumPrefixEnd` moves with the text. */
  lemma BulletEndShift(t: string, s: string, d: nat, p: nat, hi: nat, p': nat, hi': nat)
    requires Agree(t, s, d) && p < hi <= |t|
    requires p' == p + d && hi' == hi + d
    ensures BulletEnd(t, p, hi) + d == BulletEnd(s, p', hi')
  {
    var q, q' := SkipSpace(t, p + 1, hi), SkipSpace(s, p' + 1, hi');
    SkipSpaceShift(t, s, d, p + 1, hi, p' + 1, hi');
    GroupEndShift(t, s, d, q, hi, q', hi');
  }

  lemma {:induction false} LabelPrefixEndShift(t: string, s: string, d: nat, lo: nat, hi: nat, lo': nat, hi': nat,
                                               letter: char, rest: string)
    requires Agree(t, s, d) && lo <= hi <= |t|
    requires lo' == lo + d && hi' == hi + d
    ensures LabelPrefixEnd(t, lo, hi, letter, rest) + d == LabelPrefixEnd(s, lo', hi', letter, rest)
  {
    var p, p' := SkipSpace(t, lo, hi), SkipSpace(s, lo', hi');
    SkipSpaceShift(t, s, d, lo, hi, lo', hi');
    if p < hi {
      assert t[p] == s[p'];
      LabelTailEndShift(t, s, d, p + 1, hi, p' + 1, hi', rest);
    }
  }

  lemma {:induction false} LabelTailEndShift(t: string, s: string, d: nat, i: nat, hi: nat, i': nat, hi': nat,
                                             rest: string)
    requires Agree(t, s, d) && i <= hi <= |t|
    requires i' == i + d && hi' == hi + d
    ensures LabelTailEnd(t, i, hi, rest) == -1 <==> LabelTailEnd(s, i', hi', rest) == -1
    ensures LabelTailEnd(t, i, hi, rest) != -1 ==> LabelTailEnd(t, i, hi, rest) + d == LabelTailEnd(s, i', hi', rest)
  {
    var w, w' := i + |rest|, i' + |rest|;
    LabelTailGuardsShift(t, s, d, i, hi, i', hi', rest);
    if IgnoreCaseAt(t, i, hi, rest) && w < hi && IsLabelEnd(t[w]) {
      SkipSpaceShift(t, s, d, w + 1, hi, w' + 1, hi');
    } else if i < hi && IsLabelEnd(t[i]) {
      SkipSpaceShift(t, s, d, i + 1, hi, i' + 1, hi');
    }
  }

  /** The two tests of `LabelTailEnd` agree on `t` and on `s`. */
  lemma LabelTailGuardsShift(t: string, s: string, d: nat, i: nat, hi: nat, i': nat, hi': nat, rest: string)
    requires Agree(t, s, d) && i <= hi <= |t|
    requires i' == i + d && hi' == hi + d
    ensures var w, w' := i + |rest|, i' + |rest|;
            && ((IgnoreCaseAt(t, i, hi, rest) && w < hi && IsLabelEnd(t[w]))
                <==> (IgnoreCaseAt(s, i', hi', rest) && w' < hi' && IsLabelEnd(s[w'])))
            && ((i < hi && IsLabelEnd(t[i])) <==> (i' < hi' && IsLabelEnd(s[i'])))
  {
    IgnoreCaseAtShift(t, s, d, i, hi, i', hi', rest);
    var w, w' := i + |rest|, i' + |rest|;
    if w < hi {
      assert t[w] == s[w'];
    }
    if i < hi {
      assert t[i] == s[i'];
    }
  }

  lemma IgnoreCaseAtShift(t: string, s: string, d: nat, i: nat, hi: nat, i': nat, hi': nat, word: string)
    requires Agree(t, s, d) && i <= hi <= |t|
    requires i' == i + d && hi' == hi + d
    ensures IgnoreCaseAt(t, i, hi, word) <==> IgnoreCaseAt(s, i', hi', word)
  {
    if i + |word| <= hi {
      forall k | 0 <= k < |word| ensures IgnoreCaseEq(t[i + k], word[k]) <==> IgnoreCaseEq(s[i' + k], word[k]) {
        assert t[i + k] == s[i' + k];
      }
    }
  }

  lemma {:induction false} PrefixesEndShift(t: string, s: string, d: nat, lo: nat, hi: nat, lo': nat, hi': nat)
    requires Agree(t, s, d) && lo <= hi <= |t|
    requires lo' == lo + d && hi' == hi + d
    ensures PrefixesEnd(t, lo, hi) + d == PrefixesEnd(s, lo', hi')
  {
    var n, n' := NumPrefixEnd(t, lo, hi), NumPrefixEnd(s, lo', hi');
    NumPrefixEndShift(t, s, d, lo, hi, lo', hi');
    var q, q' := QPrefixEnd(t, n, hi), QPrefixEnd(s, n', hi');
    LabelPrefixEndShift(t, s, d, n, hi, n', hi', 'q', "uestion");
    LabelPrefixEndShift(t, s, d, q, hi, q', hi', 'a', "nswer");
  }

  lemma {:induction false} CleanRangeShift(t: string, s: string, d: nat, lo: nat, hi: nat, lo': nat, hi': nat)
    requires Agree(t, s, d) && lo <= hi <= |t|
    requires lo' == lo + d && hi' == hi + d
    ensures CleanRange(t, lo, hi) == CleanRange(s, lo', hi')
  {
    var a, a' := SkipSpace(t, lo, hi), SkipSpace(s, lo', hi');
    SkipSpaceShift(t, s, d, lo, hi, lo', hi');
    var b, b' := SkipSpaceBack(t, a, hi), SkipSpaceBack(s, a', hi');
    SkipSpaceBackShift(t, s, d, a, hi, a', hi');
    PrefixesEndShift(t, s, d, a, b, a', b');
    CollapseShift(t, s, d, PrefixesEnd(t, a, b), b, PrefixesEnd(s, a', b'), b');
  }

  /** `CleanRange` is `_clean_piece` of the window's copy. */
  lemma {:induction false} CleanPieceOfSlice(s: string, lo: nat, hi: nat)
    requires lo <= hi <= |s|
    ensures CleanPiece(s[lo..hi]) == CleanRange(s, lo, hi)
  {
    var t := s[lo..hi];
    assert Agree(t, s, lo);
    CleanRangeShift(t, s, lo, 0, |t|, lo, hi);
  }
}
