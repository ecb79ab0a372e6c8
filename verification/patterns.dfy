/**
 * The fixed patterns the scraper searches for, each written out as an
 * explicit matcher instead of a general regular-expression engine:
 *
 *   Literal(p)                  the plain substring `p` (`range(of:)`)
 *   BrowseLink                  `/browse/(\d+)`
 *   LinkTitle                   `>([^<]+)</a>`
 *   BadgeCount                  `>\s*(\d+)\s*<`
 *   Clock(DottedDuration)       `(\d{1,2}):(\d{2})\.(\d{2})`
 *   Clock(OptionalDotDuration)  `(\d{1,2}):(\d{2})\.?(\d{2})`
 *   Clock(Timestamp)            `(\d{1,2}):(\d{2}):(\d{2})\.?(\d*)`
 *
 * `MatchesAt(pat, s, i)` says that the pattern matches starting at index `i`;
 * `Leftmost` finds the first such index, as `firstMatch(in:)` does. Greedy
 * quantifiers are resolved by maximal runs; for these patterns a shorter
 * run can never complete a match, so no backtracking is needed.
 * `Contains` (`String.contains`) is the plain occurrence test; it agrees
 * with `IndexOf` (`ContainsIndexOf`).
 */
module Patterns {
  import opened Wrappers
  import opened Text
  import opened Numbers

  datatype ClockKind = DottedDuration | OptionalDotDuration | Timestamp

  datatype Pattern =
    | Literal(text: string)
    | BrowseLink
    | LinkTitle
    | BadgeCount
    | Clock(kind: ClockKind)

  /** The character classes that the patterns repeat. */
  datatype CharClass = Digits | NotLessThan | Spaces

  predicate InClass(c: char, k: CharClass) {
    match k
    case Digits => IsDigit(c)
    case NotLessThan => c != '<'
    case Spaces => IsSpace(c)
  }

  /** The end of the longest run of class `k` starting at `j`. */
  function RunEnd(s: string, j: nat, k: CharClass): (e: nat)
    requires j <= |s|
    decreases |s| - j
    ensures j <= e <= |s|
    ensures forall x :: j <= x < e ==> InClass(s[x], k)
    ensures e == |s| || !InClass(s[e], k)
  {
    if j < |s| && InClass(s[j], k) then RunEnd(s, j + 1, k) else j
  }

  /** Hours, minutes and seconds as captured, each one or two digits. */
  datatype ClockTime = ClockTime(hours: nat, minutes: nat, seconds: nat)

  predicate TwoDigitsAt(s: string, j: nat) {
    j + 2 <= |s| && IsDigit(s[j]) && IsDigit(s[j + 1])
  }

  function TwoDigitValue(s: string, j: nat): (v: nat)
    requires TwoDigitsAt(s, j)
    ensures v <= 99
  {
    DigitValue(s[j]) * 10 + DigitValue(s[j + 1])
  }

  /**
   * The part of a clock pattern after the hours, starting at the `:` at
   * index `j`: the captured minutes and seconds, if it matches.
   */
  function ClockTail(k: ClockKind, s: string, j: nat): (r: Option<(nat, nat)>)
    ensures r.Some? ==> r.value.0 <= 99 && r.value.1 <= 99
  {
    if !(j < |s| && s[j] == ':' && TwoDigitsAt(s, j + 1)) then None
    else
      var minutes := TwoDigitValue(s, j + 1);
      match k
      case DottedDuration =>
        if j + 3 < |s| && s[j + 3] == '.' && TwoDigitsAt(s, j + 4)
        then Some((minutes, TwoDigitValue(s, j + 4))) else None
      case OptionalDotDuration =>
        if j + 3 < |s| && s[j + 3] == '.' && TwoDigitsAt(s, j + 4) then Some((minutes, TwoDigitValue(s, j + 4)))
        else if TwoDigitsAt(s, j + 3) then Some((minutes, TwoDigitValue(s, j + 3)))
        else None
      case Timestamp =>
        // the trailing `\.?(\d*)` matches the empty string, so it never decides anything
        if j + 3 < |s| && s[j + 3] == ':' && TwoDigitsAt(s, j + 4)
        then Some((minutes, TwoDigitValue(s, j + 4))) else None
  }

  /** A clock pattern starting at `i`: two-digit hours are tried before one-digit hours. */
  function ClockAt(k: ClockKind, s: string, i: nat): (r: Option<ClockTime>)
    ensures r.Some? ==> r.value.hours <= 99 && r.value.minutes <= 99 && r.value.seconds <= 99
  {
    if TwoDigitsAt(s, i) && ClockTail(k, s, i + 2).Some? then
      var t := ClockTail(k, s, i + 2).value;
      Some(ClockTime(TwoDigitValue(s, i), t.0, t.1))
    else if i < |s| && IsDigit(s[i]) && ClockTail(k, s, i + 1).Some? then
      var t := ClockTail(k, s, i + 1).value;
      Some(ClockTime(DigitValue(s[i]), t.0, t.1))
    else None
  }

  /** The pattern matches `s` starting at index `i`. */
  predicate MatchesAt(pat: Pattern, s: string, i: nat) {
    match pat
    case Literal(p) => StartsAt(s, p, i)
    case BrowseLink => StartsAt(s, "/browse/", i) && i + 8 < |s| && IsDigit(s[i + 8])
    case LinkTitle =>
      i < |s| && s[i] == '>' &&
      var e := RunEnd(s, i + 1, NotLessThan);
      e > i + 1 && StartsAt(s, "</a>", e)
    case BadgeCount =>
      i < |s| && s[i] == '>' &&
      var a := RunEnd(s, i + 1, Spaces);
      var b := RunEnd(s, a, Digits);
      b > a && var c := RunEnd(s, b, Spaces); c < |s| && s[c] == '<'
    case Clock(k) => ClockAt(k, s, i).Some?
  }

  /** The first index at or after `from` where `pat` matches. */
  function LeftmostFrom(pat: Pattern, s: string, from: nat): (r: Option<nat>)
    requires from <= |s|
    decreases |s| - from
    ensures r.Some? ==> from <= r.value <= |s| && MatchesAt(pat, s, r.value)
    ensures r.Some? ==> forall j :: from <= j < r.value ==> !MatchesAt(pat, s, j)
    ensures r.None? ==> forall j :: from <= j <= |s| ==> !MatchesAt(pat, s, j)
  {
    if MatchesAt(pat, s, from) then Some(from)
    else if from == |s| then None
    else LeftmostFrom(pat, s, from + 1)
  }

  /** `firstMatch(in:)`: the leftmost index where `pat` matches `s`. */
  function Leftmost(pat: Pattern, s: string): Option<nat> {
    LeftmostFrom(pat, s, 0)
  }

  /** A match at `i` with none before it is the leftmost one. */
  lemma LeftmostAt(pat: Pattern, s: string, i: nat)
    requires i <= |s| && MatchesAt(pat, s, i)
    requires forall j :: 0 <= j < i ==> !MatchesAt(pat, s, j)
    ensures Leftmost(pat, s) == Some(i)
  {
    var l := LeftmostFrom(pat, s, 0);
    assert l.Some?;
  }

  /** `p` occurs in `s` at index `from` or later. */
  predicate ContainsFrom(s: string, p: string, from: nat)
    decreases |s| - from
  {
    from <= |s| && (StartsAt(s, p, from) || ContainsFrom(s, p, from + 1))
  }

  /** `s.contains(p)`. */
  predicate Contains(s: string, p: string) {
    ContainsFrom(s, p, 0)
  }

  lemma {:induction false} ContainsFromAt(s: string, p: string, from: nat, i: nat)
    requires from <= i && StartsAt(s, p, i)
    ensures ContainsFrom(s, p, from)
    decreases i - from
  {
    if from < i {
      ContainsFromAt(s, p, from + 1, i);
    }
  }

  /** An occurrence of `p` at any index makes `s.contains(p)` true. */
  lemma ContainsAt(s: string, p: string, i: nat)
    requires StartsAt(s, p, i)
    ensures Contains(s, p)
  {
    ContainsFromAt(s, p, 0, i);
  }

  lemma {:induction false} NotContainsFrom(s: string, p: string, from: nat)
    requires forall i :: from <= i <= |s| ==> !StartsAt(s, p, i)
    ensures !ContainsFrom(s, p, from)
    decreases |s| - from
  {
    if from < |s| {
      NotContainsFrom(s, p, from + 1);
    }
  }

  /** Without an occurrence at any index, `s.contains(p)` is false. */
  lemma NotContains(s: string, p: string)
    requires forall i :: 0 <= i <= |s| ==> !StartsAt(s, p, i)
    ensures !Contains(s, p)
  {
    NotContainsFrom(s, p, 0);
  }

  /** `range(of: p)`: the index of the first occurrence of `p`. */
  function IndexOf(s: string, p: string): Option<nat> {
    Leftmost(Literal(p), s)
  }

  /** Before the first occurrence of a character, that character does not occur. */
  lemma BeforeIndexOf(s: string, c: char, j: nat)
    requires IndexOf(s, [c]).Some? && j < IndexOf(s, [c]).value
    ensures s[j] != c
  {
    assert s[j..j + 1] == [s[j]];
    assert !MatchesAt(Literal([c]), s, j);
  }

  /** `s.contains(p)` holds exactly when `s.range(of: p)` finds something. */
  lemma ContainsIndexOf(s: string, p: string)
    ensures Contains(s, p) <==> IndexOf(s, p).Some?
  {
    match IndexOf(s, p)
    case Some(i) =>
      assert MatchesAt(Literal(p), s, i);
      ContainsAt(s, p, i);
    case None =>
      forall i | 0 <= i <= |s| ensures !StartsAt(s, p, i) {
        assert !MatchesAt(Literal(p), s, i);
      }
      NotContains(s, p);
  }

  /** The id digits of the first `/browse/<digits>` link: a maximal run of digits. */
  function BrowseDigits(s: string): (r: Option<string>)
    ensures r.Some? ==> r.value != [] && AllDigits(r.value)
    ensures r.None? <==> forall j :: 0 <= j <= |s| ==> !MatchesAt(BrowseLink, s, j)
  {
    match Leftmost(BrowseLink, s)
    case None => None
    case Some(i) => Some(s[i + 8..RunEnd(s, i + 8, Digits)])
  }

  /** The text of the first `>text</a>`: non-empty and free of `<`. */
  function LinkText(s: string): (r: Option<string>)
    ensures r.Some? ==> r.value != [] && '<' !in r.value
    ensures r.None? <==> forall j :: 0 <= j <= |s| ==> !MatchesAt(LinkTitle, s, j)
  {
    match Leftmost(LinkTitle, s)
    case None => None
    case Some(i) =>
      var t := s[i + 1..RunEnd(s, i + 1, NotLessThan)];
      assert forall x :: 0 <= x < |t| ==> t[x] != '<';
      Some(t)
  }

  /** The digits of the first `>` digits `<` badge, spaces allowed around them. */
  function BadgeDigits(s: string): (r: Option<string>)
    ensures r.Some? ==> r.value != [] && AllDigits(r.value)
    ensures r.None? <==> forall j :: 0 <= j <= |s| ==> !MatchesAt(BadgeCount, s, j)
  {
    match Leftmost(BadgeCount, s)
    case None => None
    case Some(i) =>
      var a := RunEnd(s, i + 1, Spaces);
      Some(s[a..RunEnd(s, a, Digits)])
  }

  /**
   * At the leftmost `/browse/<digit>` match, the id is the whole run of
   * digits after `/browse/`: it stops at the end of the text or before a
   * non-digit.
   */
  lemma BrowseDigitsLeftmost(s: string, i: nat)
    requires i <= |s| && MatchesAt(BrowseLink, s, i)
    requires forall j :: 0 <= j < i ==> !MatchesAt(BrowseLink, s, j)
    ensures BrowseDigits(s).Some?
    ensures var d := BrowseDigits(s).value;
      && i + 8 + |d| <= |s| && s[i + 8..i + 8 + |d|] == d
      && (i + 8 + |d| == |s| || !IsDigit(s[i + 8 + |d|]))
  {
    LeftmostAt(BrowseLink, s, i);
  }

  /**
   * At the leftmost `>text</a>` match, the title is all the text after the
   * `>` up to the `</a>`.
   */
  lemma LinkTextLeftmost(s: string, i: nat)
    requires i <= |s| && MatchesAt(LinkTitle, s, i)
    requires forall j :: 0 <= j < i ==> !MatchesAt(LinkTitle, s, j)
    ensures LinkText(s).Some?
    ensures var t := LinkText(s).value;
      && i + 1 + |t| <= |s| && s[i + 1..i + 1 + |t|] == t
      && StartsAt(s, "</a>", i + 1 + |t|)
  {
    LeftmostAt(LinkTitle, s, i);
  }

  /**
   * At the leftmost badge match, the confirmations are the whole run of
   * digits that follows the `>` and the spaces after it.
   */
  lemma BadgeDigitsLeftmost(s: string, i: nat)
    requires i <= |s| && MatchesAt(BadgeCount, s, i)
    requires forall j :: 0 <= j < i ==> !MatchesAt(BadgeCount, s, j)
    ensures BadgeDigits(s).Some?
    ensures var d := BadgeDigits(s).value; var a := RunEnd(s, i + 1, Spaces);
      && a + |d| <= |s| && s[a..a + |d|] == d
      && (a + |d| == |s| || !IsDigit(s[a + |d|]))
  {
    LeftmostAt(BadgeCount, s, i);
    BadgeDigitsAt(s, i);
  }

  lemma BadgeDigitsAt(s: string, i: nat)
    requires i < |s| && Leftmost(BadgeCount, s) == Some(i)
    ensures BadgeDigits(s).Some?
    ensures var d := BadgeDigits(s).value; var a := RunEnd(s, i + 1, Spaces);
      && a + |d| <= |s| && s[a..a + |d|] == d
      && (a + |d| == |s| || !IsDigit(s[a + |d|]))
  {
    var a := RunEnd(s, i + 1, Spaces);
    var e := RunEnd(s, a, Digits);
    assert BadgeDigits(s) == Some(s[a..e]);
    assert e == |s| || !InClass(s[e], Digits);
  }

  /** The groups of the first match of a clock pattern. */
  function FindClock(k: ClockKind, s: string): (r: Option<ClockTime>)
    ensures r.Some? ==> r.value.hours <= 99 && r.value.minutes <= 99 && r.value.seconds <= 99
    ensures r.None? <==> forall j :: 0 <= j <= |s| ==> !MatchesAt(Clock(k), s, j)
  {
    match Leftmost(Clock(k), s)
    case None => None
    case Some(i) => ClockAt(k, s, i)
  }

  /** The groups `FindClock` returns are those of the leftmost match. */
  lemma FindClockLeftmost(k: ClockKind, s: string, i: nat)
    requires i <= |s| && MatchesAt(Clock(k), s, i)
    requires forall j :: 0 <= j < i ==> !MatchesAt(Clock(k), s, j)
    ensures FindClock(k, s) == ClockAt(k, s, i)
  {
    LeftmostAt(Clock(k), s, i);
  }

  /** `(hours * 3600 + minutes * 60 + seconds) * 1000`. */
  function Millis(t: ClockTime): nat {
    (t.hours * 3600 + t.minutes * 60 + t.seconds) * 1000
  }

  /** Two-digit groups bound every clock value by 99:99:99. */
  lemma MillisBound(t: ClockTime)
    requires t.hours <= 99 && t.minutes <= 99 && t.seconds <= 99
    ensures Millis(t) <= 362_439_000
  {
  }
}
