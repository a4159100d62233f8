/**
 * ASCII models of the Kotlin string operations the application uses:
 * `Char.isWhitespace`, `String.trim`, `String.lowercase`, `Char.uppercase`,
 * `String.replace(old, "")`, `String.replaceFirstChar` and `Int.toString`.
 */
module Text {

  /** Kotlin's `Char.isWhitespace`, restricted to the ASCII range:
      tab, line feed, vertical tab, form feed, carriage return,
      the four separators 0x1C-0x1F, and space. */
  predicate IsWhitespace(c: char) {
    (9 <= c as int <= 13) || (28 <= c as int <= 32)
  }

  predicate IsAsciiUpper(c: char) { 'A' <= c <= 'Z' }

  predicate IsAsciiLower(c: char) { 'a' <= c <= 'z' }

  predicate AllWhitespace(s: string) {
    forall i :: 0 <= i < |s| ==> IsWhitespace(s[i])
  }

  /** No ASCII upper-case letter anywhere in `s`. */
  predicate NoUpper(s: string) {
    forall i :: 0 <= i < |s| ==> !IsAsciiUpper(s[i])
  }

  /** `Char.lowercaseChar()` on ASCII. */
  function LowerChar(c: char): (d: char)
    ensures !IsAsciiUpper(d)
    ensures IsAsciiUpper(c) ==> IsAsciiLower(d) && d as int == c as int + 32
    ensures !IsAsciiUpper(c) ==> d == c
  {
    if IsAsciiUpper(c) then (c as int + 32) as char else c
  }

  /** `Char.uppercase()` on ASCII (one character in, one character out). */
  function UpperChar(c: char): (d: char)
    ensures !IsAsciiLower(d)
    ensures IsAsciiLower(c) ==> IsAsciiUpper(d) && LowerChar(d) == c
    ensures !IsAsciiLower(c) ==> d == c
  {
    if IsAsciiLower(c) then (c as int - 32) as char else c
  }

  /** `String.lowercase()`: every character mapped through LowerChar. */
  function Lowercase(s: string): (r: string)
    ensures |r| == |s|
    ensures forall i :: 0 <= i < |s| ==> r[i] == LowerChar(s[i])
    ensures NoUpper(r)
  {
    if s == [] then [] else [LowerChar(s[0])] + Lowercase(s[1..])
  }

  /** Lower-casing keeps a trimmed string trimmed. */
  lemma LowercaseTrimmed(t: string)
    requires Trimmed(t)
    ensures Trimmed(Lowercase(t))
  {
    var n := Lowercase(t);
    if t != [] {
      assert n[0] == LowerChar(t[0]);
      assert n[|n| - 1] == LowerChar(t[|t| - 1]);
    }
  }

  /** Lower-casing a string without upper-case letters changes nothing. */
  lemma {:induction false} LowercaseNoUpper(s: string)
    requires NoUpper(s)
    ensures Lowercase(s) == s
  {
    if s != [] {
      assert NoUpper(s[1..]) by {
        forall i | 0 <= i < |s| - 1 ensures !IsAsciiUpper(s[1..][i]) { assert s[1..][i] == s[i + 1]; }
      }
      LowercaseNoUpper(s[1..]);
    }
  }

  /** `String.trimStart()`: drop the leading whitespace. */
  function TrimStart(s: string): (r: string)
    ensures |r| <= |s| && r == s[|s| - |r|..]
    ensures forall i :: 0 <= i < |s| - |r| ==> IsWhitespace(s[i])
    ensures r == [] || !IsWhitespace(r[0])
  {
    if s != [] && IsWhitespace(s[0]) then TrimStart(s[1..]) else s
  }

  /** `String.trimEnd()`: drop the trailing whitespace. */
  function TrimEnd(s: string): (r: string)
    ensures |r| <= |s| && r == s[..|r|]
    ensures forall i :: |r| <= i < |s| ==> IsWhitespace(s[i])
    ensures r == [] || !IsWhitespace(r[|r| - 1])
  {
    if s != [] && IsWhitespace(s[|s| - 1]) then TrimEnd(s[..|s| - 1]) else s
  }

  /** `String.trim()`: the longest infix of `s` that neither starts
      nor ends with whitespace. */
  function Trim(s: string): (r: string)
    ensures |r| <= |s|
    ensures r == [] || (!IsWhitespace(r[0]) && !IsWhitespace(r[|r| - 1]))
    ensures r == [] <==> AllWhitespace(s)
  {
    TrimEnd(TrimStart(s))
  }

  /** Trimming removes exactly the surrounding whitespace. */
  lemma {:induction false} TrimSurrounding(w1: string, t: string, w2: string)
    requires AllWhitespace(w1) && AllWhitespace(w2) && Trimmed(t)
    ensures Trim(w1 + t + w2) == t
  {
    if t == [] {
      assert w1 + t + w2 == w1 + w2;
      WhitespaceJoin(w1, w2);
    } else {
      assert w1 + t + w2 == w1 + (t + w2);
      assert (t + w2)[0] == t[0];
      TrimStartDrops(w1, t + w2);
      TrimEndDrops(t, w2);
    }
  }

  /** A trimmed string is its own trim. */
  lemma TrimTrimmed(t: string)
    requires Trimmed(t)
    ensures Trim(t) == t
  {
    if t != [] {
      assert TrimStart(t) == t;
      assert TrimEnd(t) == t;
    }
  }

  lemma WhitespaceJoin(w1: string, w2: string)
    requires AllWhitespace(w1) && AllWhitespace(w2)
    ensures AllWhitespace(w1 + w2)
  {
    forall i | 0 <= i < |w1 + w2| ensures IsWhitespace((w1 + w2)[i]) {
      if i >= |w1| { assert (w1 + w2)[i] == w2[i - |w1|]; }
    }
  }

  lemma {:induction false} TrimStartDrops(w: string, u: string)
    requires AllWhitespace(w) && (u == [] || !IsWhitespace(u[0]))
    ensures TrimStart(w + u) == u
  {
    if w != [] {
      assert (w + u)[1..] == w[1..] + u;
      TrimStartDrops(w[1..], u);
    }
  }

  lemma {:induction false} TrimEndDrops(u: string, w: string)
    requires AllWhitespace(w) && (u == [] || !IsWhitespace(u[|u| - 1]))
    ensures TrimEnd(u + w) == u
  {
    if w != [] {
      assert (u + w)[..|u + w| - 1] == u + w[..|w| - 1];
      TrimEndDrops(u, w[..|w| - 1]);
    } else {
      assert u + w == u;
    }
  }

  /** `Char.isWhitespace` fails on the first and the last character. */
  predicate Trimmed(s: string) {
    s == [] || (!IsWhitespace(s[0]) && !IsWhitespace(s[|s| - 1]))
  }

  /** `s.startsWith(p)`. */
  predicate StartsWith(s: string, p: string) {
    |p| <= |s| && s[..|p|] == p
  }

  /** True when `pat` occurs in `s` starting at index `i`. */
  predicate OccursAt(s: string, pat: string, i: nat) {
    i + |pat| <= |s| && s[i..i + |pat|] == pat
  }

  /**
   * `s.replace(pat, "")`: scanning from the left, every occurrence of `pat`
   * is deleted and the scan resumes right after it, so occurrences never overlap.
   */
  function DeleteAll(s: string, pat: string): (r: string)
    requires pat != []
    ensures |r| <= |s|
    decreases |s|
  {
    if |s| < |pat| then s
    else if s[..|pat|] == pat then DeleteAll(s[|pat|..], pat)
    else [s[0]] + DeleteAll(s[1..], pat)
  }

  /** Deleting only ever removes characters: each one left was in `s`. */
  lemma {:induction false} DeleteAllKeepsCharacters(s: string, pat: string)
    requires pat != []
    ensures forall i :: 0 <= i < |DeleteAll(s, pat)| ==> DeleteAll(s, pat)[i] in s
    decreases |s|
  {
    if |s| >= |pat| {
      if s[..|pat|] == pat {
        DeleteAllKeepsCharacters(s[|pat|..], pat);
        assert forall c :: c in s[|pat|..] ==> c in s;
      } else {
        DeleteAllKeepsCharacters(s[1..], pat);
        assert forall c :: c in s[1..] ==> c in s;
      }
    }
  }

  /** Without an occurrence of `pat`, deleting leaves `s` as it was. */
  lemma {:induction false} DeleteAllNoOccurrence(s: string, pat: string)
    requires pat != []
    requires forall i :: 0 <= i <= |s| ==> !OccursAt(s, pat, i)
    ensures DeleteAll(s, pat) == s
    decreases |s|
  {
    if |s| >= |pat| {
      assert !OccursAt(s, pat, 0);
      forall i | 0 <= i <= |s| - 1 ensures !OccursAt(s[1..], pat, i) {
        assert !OccursAt(s, pat, i + 1);
        if i + |pat| <= |s| - 1 { assert s[1..][i..i + |pat|] == s[i + 1..i + 1 + |pat|]; }
      }
      DeleteAllNoOccurrence(s[1..], pat);
    }
  }

  /** A leading occurrence is deleted and the scan goes on after it. */
  lemma DeleteAllLeading(pat: string, t: string)
    requires pat != []
    ensures DeleteAll(pat + t, pat) == DeleteAll(t, pat)
  {
    assert (pat + t)[..|pat|] == pat;
    assert (pat + t)[|pat|..] == t;
  }

  /** A first character that does not start an occurrence is kept. */
  lemma DeleteAllKeep(c: char, t: string, pat: string)
    requires pat != [] && !OccursAt([c] + t, pat, 0)
    ensures DeleteAll([c] + t, pat) == [c] + DeleteAll(t, pat)
  {
    assert ([c] + t)[1..] == t;
  }

  /** A string lacking some character of `pat` holds no occurrence of it. */
  lemma DeleteAllAbsent(s: string, pat: string, k: nat)
    requires k < |pat| && pat[k] !in s
    ensures DeleteAll(s, pat) == s
  {
    forall i | 0 <= i <= |s| ensures !OccursAt(s, pat, i) {
      assert i + |pat| <= |s| ==> s[i..i + |pat|][k] == s[i + k];
    }
    DeleteAllNoOccurrence(s, pat);
  }

  /** `s.replaceFirstChar { it.uppercase() }`. */
  function Capitalize(s: string): (r: string)
    ensures |r| == |s|
    ensures s != [] ==> r[0] == UpperChar(s[0]) && r[1..] == s[1..]
  {
    if s == [] then [] else [UpperChar(s[0])] + s[1..]
  }

  /** The decimal digits of `n`, most significant first, without leading zeros. */
  function NatToDecimal(n: nat): (r: string)
    ensures |r| >= 1
    ensures forall i :: 0 <= i < |r| ==> '0' <= r[i] <= '9'
    ensures r[0] == '0' ==> n == 0
  {
    if n < 10 then [('0' as int + n) as char]
    else NatToDecimal(n / 10) + [('0' as int + n % 10) as char]
  }

  /** `Int.toString()`: a minus sign before the digits of a negative number. */
  function IntToDecimal(n: int): (r: string)
    ensures |r| >= 1
    ensures (r[0] == '-') <==> n < 0
  {
    if n < 0 then "-" + NatToDecimal(-n) else NatToDecimal(n)
  }

  /** The value of a string of decimal digits (a reference reading of NatToDecimal). */
  function DecimalValue(s: string): (v: int)
    ensures (forall i :: 0 <= i < |s| ==> '0' <= s[i] <= '9') ==> v >= 0
  {
    if s == [] then 0 else DecimalValue(s[..|s| - 1]) * 10 + (s[|s| - 1] as int - '0' as int)
  }

  lemma {:induction false} DecimalRoundTrip(n: nat)
    ensures DecimalValue(NatToDecimal(n)) == n
  {
    if n >= 10 {
      DecimalRoundTrip(n / 10);
      var r := NatToDecimal(n);
      assert r[..|r| - 1] == NatToDecimal(n / 10);
    }
  }
}
