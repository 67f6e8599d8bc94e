/**
 * The two string operations the game applies to every word and guess:
 * JavaScript's `String.prototype.trim` and `String.prototype.toLowerCase`,
 * and their composition `s.trim().toLowerCase()`.
 *
 * Trim removes exactly the characters ECMAScript calls WhiteSpace or
 * LineTerminator. Lower maps only the ASCII letters A-Z; every other
 * character is left as it is (an abstraction of the full Unicode mapping).
 */
module Text {

  /** ECMAScript WhiteSpace (TAB, VT, FF, SP, NBSP, ZWNBSP and the other
      space separators) and LineTerminator (LF, CR, LS, PS). */
  predicate IsSpace(c: char) {
    || c == '\t' || c == '\n' || c == '\U{000B}' || c == '\U{000C}' || c == '\r'
    || c == ' ' || c == '\U{00A0}' || c == '\U{1680}'
    || ('\U{2000}' <= c <= '\U{200A}')
    || c == '\U{2028}' || c == '\U{2029}' || c == '\U{202F}' || c == '\U{205F}'
    || c == '\U{3000}' || c == '\U{FEFF}'
  }

  predicate AllSpace(s: string) {
    forall k :: 0 <= k < |s| ==> IsSpace(s[k])
  }

  /** Drops the leading white space (`TrimStartSpec` says exactly what
      remains). */
  function TrimStart(s: string): (r: string)
    ensures |r| <= |s|
  {
    if |s| > 0 && IsSpace(s[0]) then TrimStart(s[1..]) else s
  }

  /** Drops the trailing white space (`TrimEndSpec` says exactly what
      remains). */
  function TrimEnd(s: string): (r: string)
    ensures |r| <= |s|
  {
    if |s| > 0 && IsSpace(s[|s| - 1]) then TrimEnd(s[..|s| - 1]) else s
  }

  /** `s.trim()`. */
  function Trim(s: string): (r: string)
    ensures |r| <= |s|
  {
    TrimEnd(TrimStart(s))
  }

  /** `TrimStart(s)` is the suffix of `s` that starts at its first non-space
      character: everything before it is white space. */
  lemma {:induction false} TrimStartSpec(s: string)
    ensures var r := TrimStart(s);
            && r == s[|s| - |r|..]
            && AllSpace(s[..|s| - |r|])
            && (r == [] || !IsSpace(r[0]))
  {
    if |s| > 0 && IsSpace(s[0]) {
      TrimStartSpec(s[1..]);
      var r := TrimStart(s);
      assert s[..|s| - |r|] == [s[0]] + s[1..][..|s| - 1 - |r|];
    }
  }

  /** `TrimEnd(s)` is the prefix of `s` that ends at its last non-space
      character: everything after it is white space. */
  lemma {:induction false} TrimEndSpec(s: string)
    ensures var r := TrimEnd(s);
            && r == s[..|r|]
            && AllSpace(s[|r|..])
            && (r == [] || !IsSpace(r[|r| - 1]))
  {
    if |s| > 0 && IsSpace(s[|s| - 1]) {
      var p := s[..|s| - 1];
      TrimEndSpec(p);
      var r := TrimEnd(s);
      assert s[|r|..] == p[|r|..] + [s[|s| - 1]];
    }
  }

  /** What `Trim` removes is white space, and only from the two ends:
      `s` is some white space, then `Trim(s)`, then some white space; and
      `Trim(s)` neither starts nor ends with white space. */
  lemma TrimDecompose(s: string) returns (lead: string, trail: string)
    ensures s == lead + Trim(s) + trail
    ensures AllSpace(lead) && AllSpace(trail)
    ensures Trim(s) == [] || (!IsSpace(Trim(s)[0]) && !IsSpace(Trim(s)[|Trim(s)| - 1]))
  {
    var t := TrimStart(s);
    TrimStartSpec(s);
    var r := TrimEnd(t);
    TrimEndSpec(t);
    lead, trail := s[..|s| - |t|], t[|r|..];
    assert t == r + trail;
  }

  function LowerChar(c: char): (d: char)
    ensures 'A' <= c <= 'Z' ==> 'a' <= d <= 'z' && d as int == c as int + 32
    ensures !('A' <= c <= 'Z') ==> d == c
  {
    if 'A' <= c <= 'Z' then (c as int - 'A' as int + 'a' as int) as char else c
  }

  /** `s.toLowerCase()` on the ASCII letters: same length, every upper-case
      letter replaced by its lower-case partner, nothing else changed. */
  function Lower(s: string): (r: string)
    ensures |r| == |s|
    ensures forall k :: 0 <= k < |s| ==> r[k] == LowerChar(s[k])
  {
    seq(|s|, k requires 0 <= k < |s| => LowerChar(s[k]))
  }

  /** Two characters are the same letter up to ASCII case: equal, or an
      upper-case letter and its lower-case partner, which sits 32 code
      points higher. */
  predicate SameIgnoringCase(c: char, d: char) {
    || c == d
    || ('A' <= c <= 'Z' && d as int == c as int + 32)
    || ('A' <= d <= 'Z' && c as int == d as int + 32)
  }

  /** `s.trim().toLowerCase()`, the normal form in which words are stored
      and guesses compared. */
  function Normalize(s: string): string {
    Lower(Trim(s))
  }

  /** A trimmed string is empty exactly when the input is all white space. */
  lemma TrimEmptyIff(s: string)
    ensures Trim(s) == [] <==> AllSpace(s)
  {
    var lead, trail := TrimDecompose(s);
    var r := Trim(s);
    if r != [] {
      assert s[|lead|] == r[0];
    } else {
      assert s == lead + trail;
    }
  }

  lemma Regroup(a: string, b: string, c: string, d: string, e: string)
    ensures a + (b + c + d) + e == (a + b) + c + (d + e)
  {
  }

  lemma AllSpaceAppend(a: string, b: string)
    ensures AllSpace(a + b) <==> AllSpace(a) && AllSpace(b)
  {
    if AllSpace(a + b) {
      forall k | 0 <= k < |b| ensures IsSpace(b[k]) {
        assert b[k] == (a + b)[|a| + k];
      }
      forall k | 0 <= k < |a| ensures IsSpace(a[k]) {
        assert a[k] == (a + b)[k];
      }
    }
    if AllSpace(a) && AllSpace(b) {
      forall k | 0 <= k < |a + b| ensures IsSpace((a + b)[k]) {
        if k >= |a| { assert (a + b)[k] == b[k - |a|]; }
      }
    }
  }

  /** Trimming is uniquely determined: a string that is `s` with white space
      removed from both sides, and that neither starts nor ends with white
      space, is `Trim(s)`. */
  lemma {:induction false} TrimUnique(lead: string, w: string, trail: string)
    requires AllSpace(lead) && AllSpace(trail)
    requires w != [] && !IsSpace(w[0]) && !IsSpace(w[|w| - 1])
    ensures Trim(lead + w + trail) == w
  {
    TrimStartPadded(lead, w + trail);
    assert lead + w + trail == lead + (w + trail);
    TrimEndPadded(w, trail);
  }

  lemma {:induction false} TrimStartPadded(lead: string, rest: string)
    requires AllSpace(lead)
    requires rest == [] || !IsSpace(rest[0])
    ensures TrimStart(lead + rest) == rest
  {
    if lead != [] {
      assert (lead + rest)[1..] == lead[1..] + rest;
      TrimStartPadded(lead[1..], rest);
    }
  }

  lemma {:induction false} TrimEndPadded(w: string, trail: string)
    requires AllSpace(trail)
    requires w == [] || !IsSpace(w[|w| - 1])
    ensures TrimEnd(w + trail) == w
  {
    if trail != [] {
      var n := |trail| - 1;
      assert (w + trail)[..|w + trail| - 1] == w + trail[..n];
      TrimEndPadded(w, trail[..n]);
    } else {
      assert w + trail == w;
    }
  }

  /** Trimming twice is trimming once. */
  lemma TrimIdempotent(s: string)
    ensures Trim(Trim(s)) == Trim(s)
  {
    var r := Trim(s);
    var _, _ := TrimDecompose(s);
    if r != [] {
      assert [] + r + [] == r;
      TrimUnique([], r, []);
    }
  }

  /** White space around a word does not change its trimmed form. */
  lemma TrimPadding(lead: string, s: string, trail: string)
    requires AllSpace(lead) && AllSpace(trail)
    ensures Trim(lead + s + trail) == Trim(s)
  {
    var r := Trim(s);
    var l, t := TrimDecompose(s);
    AllSpaceAppend(lead, l);
    AllSpaceAppend(t, trail);
    Regroup(lead, l, r, t, trail);
    if r == [] {
      AllSpaceAppend(lead + l, t + trail);
      TrimEmptyIff(lead + s + trail);
    } else {
      TrimUnique(lead + l, r, t + trail);
    }
  }

  lemma LowerKeepsSpace(c: char)
    ensures IsSpace(LowerChar(c)) == IsSpace(c)
  {
  }

  /** Lower-casing twice is lower-casing once. */
  lemma LowerIdempotent(s: string)
    ensures Lower(Lower(s)) == Lower(s)
  {
  }

  lemma LowerAppend(a: string, b: string, c: string)
    ensures Lower(a + b + c) == Lower(a) + Lower(b) + Lower(c)
  {
  }

  lemma LowerAllSpace(s: string)
    requires AllSpace(s)
    ensures AllSpace(Lower(s))
  {
  }

  /** Lower-casing does not move white space, so it commutes with trimming. */
  lemma TrimLowerCommute(s: string)
    ensures Trim(Lower(s)) == Lower(Trim(s))
  {
    var r := Trim(s);
    var lead, trail := TrimDecompose(s);
    if r == [] {
      TrimEmptyIff(s);
      LowerAllSpace(s);
      TrimEmptyIff(Lower(s));
    } else {
      var lr := Lower(r);
      LowerAppend(lead, r, trail);
      LowerAllSpace(lead);
      LowerAllSpace(trail);
      LowerKeepsSpace(r[0]);
      LowerKeepsSpace(r[|r| - 1]);
      assert lr[0] == LowerChar(r[0]) && lr[|lr| - 1] == LowerChar(r[|r| - 1]);
      TrimUnique(Lower(lead), lr, Lower(trail));
    }
  }

  /** A stored word is already in normal form: normalizing it again leaves
      it unchanged, so typing the word exactly as stored always matches. */
  lemma NormalizeIdempotent(s: string)
    ensures Normalize(Normalize(s)) == Normalize(s)
  {
    TrimLowerCommute(Trim(s));
    TrimIdempotent(s);
    LowerIdempotent(Trim(s));
  }

  /** A word in normal form: no white space at either end and no upper-case
      ASCII letter. */
  predicate IsNormal(w: string) {
    && (w == [] || (!IsSpace(w[0]) && !IsSpace(w[|w| - 1])))
    && forall k :: 0 <= k < |w| ==> !('A' <= w[k] <= 'Z')
  }

  /** Every normalized string is in normal form. */
  lemma NormalizeIsNormal(s: string)
    ensures IsNormal(Normalize(s))
  {
    var t := Trim(s);
    var _, _ := TrimDecompose(s);
    if t != [] {
      LowerKeepsSpace(t[0]);
      LowerKeepsSpace(t[|t| - 1]);
    }
  }

  /** Normalizing leaves a word in normal form unchanged, so the words in
      normal form are exactly the results of `Normalize`. */
  lemma NormalFixed(w: string)
    requires IsNormal(w)
    ensures Normalize(w) == w
  {
    if w != [] {
      assert [] + w + [] == w;
      TrimUnique([], w, []);
    }
  }

  lemma LowerCharSameIff(c: char, d: char)
    ensures LowerChar(c) == LowerChar(d) <==> SameIgnoringCase(c, d)
  {
  }

  /** Lower-casing determines a string exactly up to ASCII case: two strings
      lower-case to the same string if and only if they have the same length
      and agree position by position up to case. */
  lemma LowerEqualIff(a: string, b: string)
    ensures Lower(a) == Lower(b) <==>
              |a| == |b| && forall k :: 0 <= k < |a| ==> SameIgnoringCase(a[k], b[k])
  {
    if Lower(a) == Lower(b) {
      forall k | 0 <= k < |a| ensures SameIgnoringCase(a[k], b[k]) {
        LowerCharSameIff(a[k], b[k]);
      }
    }
    if |a| == |b| && forall k :: 0 <= k < |a| ==> SameIgnoringCase(a[k], b[k]) {
      forall k | 0 <= k < |a| ensures Lower(a)[k] == Lower(b)[k] {
        LowerCharSameIff(a[k], b[k]);
      }
    }
  }

  /** What `Lower` produces: no upper-case ASCII letter remains, and each
      position holds the input's letter up to case. These two facts pin the
      result down, since a character has at most one partner of the other case. */
  lemma LowerRemovesUpper(s: string)
    ensures |Lower(s)| == |s|
    ensures forall k :: 0 <= k < |s| ==> !('A' <= Lower(s)[k] <= 'Z')
    ensures forall k :: 0 <= k < |s| ==> SameIgnoringCase(s[k], Lower(s)[k])
  {
  }

  /** Normalizing ignores case: two strings that agree position by position
      up to ASCII case have the same normal form. */
  lemma NormalizeIgnoresCase(a: string, b: string)
    requires |a| == |b| && forall k :: 0 <= k < |a| ==> SameIgnoringCase(a[k], b[k])
    ensures Normalize(a) == Normalize(b)
  {
    LowerEqualIff(a, b);
    TrimLowerCommute(a);
    TrimLowerCommute(b);
  }

  /** Normalizing ignores surrounding white space. */
  lemma NormalizeIgnoresPadding(lead: string, s: string, trail: string)
    requires AllSpace(lead) && AllSpace(trail)
    ensures Normalize(lead + s + trail) == Normalize(s)
  {
    TrimPadding(lead, s, trail);
  }

  /** A string normalizes to the empty word exactly when it is all white space. */
  lemma NormalizeEmptyIff(s: string)
    ensures Normalize(s) == [] <==> AllSpace(s)
  {
    TrimEmptyIff(s);
  }

  /** Guesses typed with stray case and spaces normalize to the stored word. */
  lemma NormalizeExamples()
    ensures Normalize("  CAT ") == "cat"
    ensures Normalize("Apple ") == "apple"
  {
    assert AllSpace("  ") && AllSpace(" ") && AllSpace([]);
    assert Lower("CAT") == "cat" && Lower("Apple") == "apple";
    assert "  CAT " == "  " + "CAT" + " ";
    assert "Apple " == [] + "Apple" + " ";
    PaddedExample("  ", "CAT", " ", "cat");
    PaddedExample([], "Apple", " ", "apple");
  }

  lemma PaddedExample(lead: string, w: string, trail: string, expected: string)
    requires AllSpace(lead) && AllSpace(trail)
    requires w != [] && !IsSpace(w[0]) && !IsSpace(w[|w| - 1])
    requires Lower(w) == expected
    ensures Normalize(lead + w + trail) == expected
  {
    TrimUnique(lead, w, trail);
  }
}
