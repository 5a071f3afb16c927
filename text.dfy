/** The `java.lang.String` operations the listing filters and the dispatch on
    type tags use, over ASCII (Java's full Unicode case mapping is not modelled). */
module Text {

  /** `Character.toLowerCase` on ASCII letters. */
  function LowerChar(c: char): char
  {
    if 'A' <= c <= 'Z' then (c as int + 32) as char else c
  }

  /** `Character.toUpperCase` on ASCII letters. */
  function UpperChar(c: char): char
  {
    if 'a' <= c <= 'z' then (c as int - 32) as char else c
  }

  /** `String.toLowerCase()`. */
  function Lower(s: string): string
  {
    seq(|s|, i requires 0 <= i < |s| => LowerChar(s[i]))
  }

  /** `String.toUpperCase()`. */
  function Upper(s: string): string
  {
    seq(|s|, i requires 0 <= i < |s| => UpperChar(s[i]))
  }

  /** `a.equalsIgnoreCase(b)`: same length, and equal position by position after case folding. */
  predicate EqualsIgnoreCase(a: string, b: string)
  {
    |a| == |b| && forall i :: 0 <= i < |a| ==> UpperChar(a[i]) == UpperChar(b[i])
  }

  /** Whitespace as `String.trim()` sees it: every character up to U+0020. */
  predicate IsTrimmed(c: char)
  {
    c <= ' '
  }

  /** `String.trim()`: drops leading and trailing characters up to U+0020. */
  function Trim(s: string): (r: string)
    ensures |r| <= |s|
    ensures r != [] ==> !IsTrimmed(r[0]) && !IsTrimmed(r[|r| - 1])
    decreases |s|
  {
    if s == [] then []
    else if IsTrimmed(s[0]) then Trim(s[1..])
    else if IsTrimmed(s[|s| - 1]) then Trim(s[..|s| - 1])
    else s
  }

  /** `s.trim().isEmpty()`: the string is empty or made of whitespace only. */
  predicate IsBlank(s: string)
  {
    Trim(s) == []
  }

  /** `s.contains(t)`: `t` occurs in `s` at some position. */
  predicate Contains(s: string, t: string)
    decreases |s|
  {
    t <= s || (s != [] && Contains(s[1..], t))
  }

  /** A string is blank exactly when every character in it is whitespace. */
  lemma {:induction false} BlankIffAllWhitespace(s: string)
    ensures IsBlank(s) <==> forall i :: 0 <= i < |s| ==> IsTrimmed(s[i])
    decreases |s|
  {
    if s != [] {
      if IsTrimmed(s[0]) {
        BlankIffAllWhitespace(s[1..]);
        assert forall i :: 1 <= i < |s| ==> s[i] == s[1..][i - 1];
      } else if IsTrimmed(s[|s| - 1]) {
        BlankIffAllWhitespace(s[..|s| - 1]);
      }
    }
  }

  /** `t` occurs in `s` starting at position `k`. */
  ghost predicate OccursAt(s: string, t: string, k: int)
  {
    0 <= k && k + |t| <= |s| && s[k..k + |t|] == t
  }

  /** `Contains` is the existence of an occurrence. */
  lemma {:induction false} ContainsIffOccurs(s: string, t: string)
    ensures Contains(s, t) <==> exists k :: OccursAt(s, t, k)
    decreases |s|
  {
    if s != [] {
      ContainsIffOccurs(s[1..], t);
      if k :| OccursAt(s, t, k) {
        if k > 0 {
          assert OccursAt(s[1..], t, k - 1);
        } else {
          assert t <= s;
        }
      }
      if Contains(s[1..], t) && !(t <= s) {
        var k :| OccursAt(s[1..], t, k);
        assert OccursAt(s, t, k + 1);
      }
      if t <= s {
        assert OccursAt(s, t, 0);
      }
    } else {
      if k :| OccursAt(s, t, k) {
        assert t == [];
      }
      if t <= s {
        assert OccursAt(s, t, 0);
      }
    }
  }

  /** A string equals its own lower-case and upper-case forms, ignoring case. */
  lemma CaseFoldingIgnored(s: string)
    ensures EqualsIgnoreCase(s, Lower(s)) && EqualsIgnoreCase(s, Upper(s))
  {
  }

  /** Case-insensitive equality is equality after upper-casing. */
  lemma EqualsIgnoreCaseIffUpper(a: string, b: string)
    ensures EqualsIgnoreCase(a, b) <==> Upper(a) == Upper(b)
  {
    if Upper(a) == Upper(b) {
      assert |a| == |Upper(a)|;
      forall i | 0 <= i < |a|
        ensures UpperChar(a[i]) == UpperChar(b[i])
      {
        assert Upper(a)[i] == Upper(b)[i];
      }
    }
  }
}
