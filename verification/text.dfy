/**
 * Character classes and the Foundation string operations the scraper uses:
 * `hasPrefix`-style matching at an offset, `trimmingCharacters(in:
 * .whitespacesAndNewlines)` and `replacingOccurrences(of:with:)`.
 * Strings are sequences of characters; Unicode normalisation and the full
 * Unicode whitespace class are not modelled.
 */
module Text {

  /** The whitespace characters recognised by trimming and by `\s`. */
  predicate IsSpace(c: char) {
    c == ' ' || c == '\t' || c == '\n' || c == '\r' || c == '\U{000B}' || c == '\U{000C}'
  }

  /** `p` occurs in `s` starting at index `i`. */
  predicate StartsAt(s: string, p: string, i: nat) {
    i + |p| <= |s| && s[i..i + |p|] == p
  }

  /** The index of the first non-whitespace character at or after `i`, or `|s|`. */
  function SkipSpace(s: string, i: nat): (k: nat)
    requires i <= |s|
    decreases |s| - i
    ensures i <= k <= |s|
    ensures forall j :: i <= j < k ==> IsSpace(s[j])
    ensures k == |s| || !IsSpace(s[k])
  {
    if i < |s| && IsSpace(s[i]) then SkipSpace(s, i + 1) else i
  }

  /** The end of `s[lo..e]` once its trailing whitespace is removed. */
  function TrimEndIndex(s: string, lo: nat, e: nat): (f: nat)
    requires lo <= e <= |s|
    decreases e
    ensures lo <= f <= e
    ensures forall j :: f <= j < e ==> IsSpace(s[j])
    ensures f == lo || !IsSpace(s[f - 1])
  {
    if e > lo && IsSpace(s[e - 1]) then TrimEndIndex(s, lo, e - 1) else e
  }

  /**
   * `trimmingCharacters(in: .whitespacesAndNewlines)`: the slice of `s`
   * left once whitespace is removed from both ends. Neither end of the
   * result is whitespace (`TrimCutsSpace` says that only whitespace was
   * removed).
   */
  function Trim(s: string): (t: string)
    ensures |t| <= |s|
    ensures t == [] || (!IsSpace(t[0]) && !IsSpace(t[|t| - 1]))
  {
    var k := SkipSpace(s, 0);
    s[k..TrimEndIndex(s, k, |s|)]
  }

  /** `t` is the part of `s` after its leading spaces, followed in `s` by spaces only. */
  predicate BetweenSpaces(s: string, t: string) {
    var k := SkipSpace(s, 0);
    && k + |t| <= |s| && t == s[k..k + |t|]
    && (forall j :: 0 <= j < k ==> IsSpace(s[j]))
    && (forall j :: k + |t| <= j < |s| ==> IsSpace(s[j]))
  }

  /**
   * Trimming removes exactly the leading and the trailing whitespace: what
   * remains is a slice of `s` with only whitespace before and after it.
   */
  lemma TrimCutsSpace(s: string)
    ensures BetweenSpaces(s, Trim(s))
  {
    var k := SkipSpace(s, 0);
    var e := TrimEndIndex(s, k, |s|);
    assert Trim(s) == s[k..e];
    assert k + |Trim(s)| == e;
  }

  /** Trimming an already trimmed string changes nothing. */
  lemma TrimIdempotent(s: string)
    ensures Trim(Trim(s)) == Trim(s)
  {
    var t := Trim(s);
    assert SkipSpace(t, 0) == 0;
    assert TrimEndIndex(t, 0, |t|) == |t|;
  }

  /** Trimming only removes characters: every character of the result is one of the input's. */
  lemma TrimKeeps(s: string)
    ensures forall c :: c in Trim(s) ==> c in s
  {
    TrimCutsSpace(s);
    var k := SkipSpace(s, 0);
    var t := Trim(s);
    forall c | c in t ensures c in s {
      var j :| 0 <= j < |t| && t[j] == c;
      assert s[k + j] == c;
    }
  }

  /**
   * `replacingOccurrences(of: p, with: r)`: every occurrence of `p`, found
   * left to right without overlap, is replaced by `r`.
   */
  function ReplaceAll(s: string, p: string, r: string): (t: string)
    requires p != []
    decreases |s|
  {
    if |s| < |p| then s
    else if s[..|p|] == p then r + ReplaceAll(s[|p|..], p, r)
    else [s[0]] + ReplaceAll(s[1..], p, r)
  }

  /** A text without the first character of `p` has no occurrence to replace. */
  lemma {:induction false} ReplaceAllAbsent(s: string, p: string, r: string)
    requires p != [] && p[0] !in s
    ensures ReplaceAll(s, p, r) == s
  {
    if |s| >= |p| {
      assert s[..|p|][0] == s[0] != p[0];
      assert s[1..] + [] == s[1..];
      assert forall c :: c in s[1..] ==> c in s;
      ReplaceAllAbsent(s[1..], p, r);
      assert [s[0]] + s[1..] == s;
    }
  }

  /**
   * The entity decoding applied to a chapter name: the six replacements
   * in this fixed order, each over the output of the previous one.
   */
  function DecodeEntities(s: string): string {
    var a := ReplaceAll(s, "&nbsp;", " ");
    var b := ReplaceAll(a, "&amp;", "&");
    var c := ReplaceAll(b, "&lt;", "<");
    var d := ReplaceAll(c, "&gt;", ">");
    var e := ReplaceAll(d, "&quot;", "\"");
    ReplaceAll(e, "&#39;", "'")
  }

  /** A name without an ampersand is not changed by entity decoding. */
  lemma DecodeEntitiesPlain(s: string)
    requires '&' !in s
    ensures DecodeEntities(s) == s
  {
    ReplaceAllAbsent(s, "&nbsp;", " ");
    ReplaceAllAbsent(s, "&amp;", "&");
    ReplaceAllAbsent(s, "&lt;", "<");
    ReplaceAllAbsent(s, "&gt;", ">");
    ReplaceAllAbsent(s, "&quot;", "\"");
    ReplaceAllAbsent(s, "&#39;", "'");
  }

  /**
   * Because `&amp;` is decoded before `&lt;`, an escaped entity is decoded
   * twice: the text `&amp;lt;` ends up as `<`.
   */
  lemma DecodeEntitiesTwice()
    ensures DecodeEntities("&amp;lt;") == "<"
  {
    assert ReplaceAll("&amp;lt;", "&nbsp;", " ") == "&amp;lt;" by {
      ReplaceAllAbsent("amp;lt;", "&nbsp;", " ");
    }
    assert ReplaceAll("&amp;lt;", "&amp;", "&") == "&lt;" by {
      ReplaceAllAbsent("lt;", "&amp;", "&");
    }
    assert ReplaceAll("&lt;", "&lt;", "<") == "<";
    ReplaceAllAbsent("<", "&gt;", ">");
    ReplaceAllAbsent("<", "&quot;", "\"");
    ReplaceAllAbsent("<", "&#39;", "'");
  }
}
