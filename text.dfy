/** String operations the import pipeline and the roster rely on: Python's
    str.lower, str.strip, str.replace(c, ""), str.endswith and the `in`
    substring test, restricted to ASCII. */
module Text {

  /** Whitespace as str.strip sees it, restricted to ASCII:
      tab, line feed, vertical tab, form feed, carriage return,
      the four information separators and the space. */
  predicate IsSpace(c: char) {
    (9 <= c as int <= 13) || (28 <= c as int <= 32)
  }

  predicate IsUpper(c: char) {
    'A' <= c <= 'Z'
  }

  function LowerChar(c: char): (d: char)
    ensures !IsUpper(d)
    ensures IsUpper(c) ==> d as int == c as int + 32
    ensures !IsUpper(c) ==> d == c
  {
    if IsUpper(c) then (c as int + 32) as char else c
  }

  /** str.lower, on ASCII letters only. */
  function Lower(s: string): (r: string)
    ensures |r| == |s|
    ensures forall i :: 0 <= i < |s| ==> r[i] == LowerChar(s[i])
  {
    if s == [] then [] else [LowerChar(s[0])] + Lower(s[1..])
  }

  predicate NoUpper(s: string) {
    forall i :: 0 <= i < |s| ==> !IsUpper(s[i])
  }

  /** Lower-casing leaves a string without upper-case letters unchanged,
      so lower-casing twice is the same as lower-casing once. */
  lemma LowerFixesLowercase(s: string)
    requires NoUpper(s)
    ensures Lower(s) == s
  {
  }

  /** Lower-casing is idempotent. */
  lemma LowerIdempotent(s: string)
    ensures Lower(Lower(s)) == Lower(s)
  {
    assert NoUpper(Lower(s));
    LowerFixesLowercase(Lower(s));
  }

  /** A prepended space is left alone by lower-casing. */
  lemma LowerLeadingSpace(s: string)
    ensures Lower(" " + s) == " " + Lower(s)
  {
    assert (" " + s)[1..] == s;
  }

  /** str.replace(c, ""): every occurrence of c is deleted. */
  function Remove(s: string, c: char): (r: string)
    ensures |r| <= |s|
  {
    if s == [] then []
    else if s[0] == c then Remove(s[1..], c)
    else [s[0]] + Remove(s[1..], c)
  }

  /** Remove deletes c and keeps every other character, as many times as it
      occurs. */
  lemma {:induction false} RemoveDeletesOnly(s: string, c: char)
    ensures c !in Remove(s, c)
    ensures forall x :: x != c ==> (x in Remove(s, c) <==> x in s)
    ensures |Remove(s, c)| + multiset(s)[c] == |s|
    ensures multiset(Remove(s, c)) == multiset(s)[c := 0]
  {
    if s != [] {
      RemoveDeletesOnly(s[1..], c);
      assert s == [s[0]] + s[1..];
    }
  }

  /** Remove works piecewise, so the kept characters stay in their order. */
  lemma {:induction false} RemoveAppend(a: string, b: string, c: char)
    ensures Remove(a + b, c) == Remove(a, c) + Remove(b, c)
  {
    if a != [] {
      assert (a + b)[1..] == a[1..] + b;
      RemoveAppend(a[1..], b, c);
    } else {
      assert a + b == b;
    }
  }

  /** Without c in it, a string is left alone. */
  lemma {:induction false} RemoveAbsent(s: string, c: char)
    requires c !in s
    ensures Remove(s, c) == s
  {
    if s != [] {
      RemoveAbsent(s[1..], c);
      assert s == [s[0]] + s[1..];
    }
  }

  /** The number of whitespace characters at the start of s. */
  function LeadingSpaces(s: string): (n: nat)
    ensures n <= |s|
    ensures n < |s| ==> !IsSpace(s[n])
  {
    if s == [] || !IsSpace(s[0]) then 0 else 1 + LeadingSpaces(s[1..])
  }

  /** The number of whitespace characters at the end of s. */
  function TrailingSpaces(s: string): (n: nat)
    ensures n <= |s|
    ensures n < |s| ==> !IsSpace(s[|s| - 1 - n])
  {
    if s == [] || !IsSpace(s[|s| - 1]) then 0 else 1 + TrailingSpaces(s[..|s| - 1])
  }

  /** str.lstrip(): drop leading whitespace. */
  function StripLeft(s: string): string {
    s[LeadingSpaces(s)..]
  }

  /** str.rstrip(): drop trailing whitespace. */
  function StripRight(s: string): string {
    s[..|s| - TrailingSpaces(s)]
  }

  /** str.strip(): drop leading and trailing whitespace. What it keeps is
      no longer than the input and begins and ends with a non-space. */
  function Strip(s: string): (r: string)
    ensures |r| <= |s|
    ensures Trimmed(r)
  {
    var l := StripLeft(s);
    var r := StripRight(l);
    if r == [] then r
    else
      assert r[0] == l[0] == s[LeadingSpaces(s)];
      assert r[|r| - 1] == l[|l| - 1 - TrailingSpaces(l)];
      r
  }

  predicate Trimmed(s: string) {
    s != [] ==> !IsSpace(s[0]) && !IsSpace(s[|s| - 1])
  }

  predicate AllSpace(s: string) {
    forall i :: 0 <= i < |s| ==> IsSpace(s[i])
  }

  /** Everything LeadingSpaces counts is whitespace. */
  lemma {:induction false} LeadingAreSpaces(s: string)
    ensures forall i :: 0 <= i < LeadingSpaces(s) ==> IsSpace(s[i])
  {
    if s != [] && IsSpace(s[0]) {
      LeadingAreSpaces(s[1..]);
      forall i | 0 <= i < LeadingSpaces(s) ensures IsSpace(s[i]) {
        if i > 0 {
          assert s[i] == s[1..][i - 1];
        }
      }
    }
  }

  /** Everything TrailingSpaces counts is whitespace. */
  lemma {:induction false} TrailingAreSpaces(s: string)
    ensures forall i :: |s| - TrailingSpaces(s) <= i < |s| ==> IsSpace(s[i])
  {
    if s != [] && IsSpace(s[|s| - 1]) {
      var s' := s[..|s| - 1];
      TrailingAreSpaces(s');
      forall i | |s| - TrailingSpaces(s) <= i < |s| ensures IsSpace(s[i]) {
        if i < |s| - 1 {
          assert s[i] == s'[i];
        }
      }
    }
  }

  /** The leading whitespace count is determined by where the first
      non-space is. */
  lemma LeadingSpacesAre(s: string, n: nat)
    requires n <= |s| && (forall i :: 0 <= i < n ==> IsSpace(s[i]))
    requires n < |s| ==> !IsSpace(s[n])
    ensures LeadingSpaces(s) == n
  {
    LeadingAreSpaces(s);
  }

  lemma TrailingSpacesAre(s: string, n: nat)
    requires n <= |s| && (forall i :: |s| - n <= i < |s| ==> IsSpace(s[i]))
    requires n < |s| ==> !IsSpace(s[|s| - 1 - n])
    ensures TrailingSpaces(s) == n
  {
    TrailingAreSpaces(s);
  }

  /** Strip returns exactly the trimmed core of a string padded with
      whitespace on either side. This determines Strip completely. */
  lemma StripPadded(p: string, t: string, q: string)
    requires AllSpace(p) && Trimmed(t) && AllSpace(q)
    ensures Strip(p + t + q) == t
  {
    var s := p + t + q;
    if t == [] {
      assert s == p + q;
      LeadingSpacesAre(s, |s|);
    } else {
      assert s[|p|] == t[0];
      LeadingSpacesAre(s, |p|);
      var l := StripLeft(s);
      assert l == t + q;
      assert l[|l| - 1 - |q|] == t[|t| - 1];
      TrailingSpacesAre(l, |q|);
      assert StripRight(l) == t;
    }
  }

  /** StripLeft drops a whitespace prefix. */
  lemma StripLeftDrops(s: string)
    ensures s == s[..LeadingSpaces(s)] + StripLeft(s) && AllSpace(s[..LeadingSpaces(s)])
  {
    var p := s[..LeadingSpaces(s)];
    LeadingAreSpaces(s);
    forall i | 0 <= i < |p| ensures IsSpace(p[i]) {
      assert p[i] == s[i];
    }
  }

  /** StripRight drops a whitespace suffix. */
  lemma StripRightDrops(s: string)
    ensures s == StripRight(s) + s[|StripRight(s)|..] && AllSpace(s[|StripRight(s)|..])
  {
    var k := |s| - TrailingSpaces(s);
    var q := s[k..];
    TrailingAreSpaces(s);
    forall i | 0 <= i < |q| ensures IsSpace(q[i]) {
      assert q[i] == s[k + i];
    }
  }

  /** Strip keeps a contiguous run of the input, and what it drops on either
      side is whitespace. */
  lemma StripDecompose(s: string) returns (p: string, q: string)
    ensures s == p + Strip(s) + q && AllSpace(p) && AllSpace(q)
  {
    var l := StripLeft(s);
    StripLeftDrops(s);
    StripRightDrops(l);
    p, q := s[..LeadingSpaces(s)], l[|Strip(s)|..];
    assert s == p + (Strip(s) + q);
  }

  /** Every character Strip keeps is a character of its input. */
  lemma StripKeepsCharacters(s: string)
    ensures forall x :: x in Strip(s) ==> x in s
  {
    var l := StripLeft(s);
    forall x | x in Strip(s) ensures x in s {
      var k :| 0 <= k < |Strip(s)| && Strip(s)[k] == x;
      assert l[k] == x;
      assert s[LeadingSpaces(s) + k] == x;
    }
  }

  /** A string without surrounding whitespace is left alone. */
  lemma StripTrimmed(s: string)
    requires Trimmed(s)
    ensures Strip(s) == s
  {
    StripPadded([], s, []);
    assert [] + s + [] == s;
  }

  /** Stripping twice is stripping once. */
  lemma StripIdempotent(s: string)
    ensures Strip(Strip(s)) == Strip(s)
  {
    StripTrimmed(Strip(s));
  }

  /** A separator appended to a string does not survive Strip. */
  lemma StripDropsTrailingSpace(a: string)
    ensures Strip(a + " ") == Strip(a)
  {
    var p, q := StripDecompose(a);
    var t := Strip(a);
    assert a + " " == p + t + (q + " ");
    assert AllSpace(q + " ") by {
      forall i | 0 <= i < |q| + 1 ensures IsSpace((q + " ")[i]) {
        if i < |q| {
          assert (q + " ")[i] == q[i];
        }
      }
    }
    StripPadded(p, t, q + " ");
  }

  /** A separator prepended to a string does not survive Strip. */
  lemma StripDropsLeadingSpace(b: string)
    ensures Strip(" " + b) == Strip(b)
  {
    var p, q := StripDecompose(b);
    var t := Strip(b);
    assert " " + b == (" " + p) + t + q;
    assert AllSpace(" " + p) by {
      forall i | 0 <= i < |p| + 1 ensures IsSpace((" " + p)[i]) {
        if i > 0 {
          assert (" " + p)[i] == p[i - 1];
        }
      }
    }
    StripPadded(" " + p, t, q);
  }

  /** Strip leaves nothing exactly when every character is whitespace. */
  lemma StripEmptyIff(s: string)
    ensures Strip(s) == [] <==> forall i :: 0 <= i < |s| ==> IsSpace(s[i])
  {
    var p, q := StripDecompose(s);
    if Strip(s) == [] {
      assert s == p + q;
      forall i | 0 <= i < |s| ensures IsSpace(s[i]) {
        if i < |p| {
          assert s[i] == p[i];
        } else {
          assert s[i] == q[i - |p|];
        }
      }
    } else {
      StripKeepsCharacters(s);
      assert Strip(s)[0] in s;
    }
  }

  /** sub occurs in s starting at position i. */
  predicate OccursAt(s: string, sub: string, i: int) {
    0 <= i && i + |sub| <= |s| && s[i..i + |sub|] == sub
  }

  /** Python's `sub in s`: sub occurs somewhere in s (always true for ""). */
  predicate Contains(s: string, sub: string)
    ensures Contains(s, sub) ==> |sub| <= |s|
  {
    exists i | 0 <= i <= |s| - |sub| :: OccursAt(s, sub, i)
  }

  /** A position where sub occurs is enough to establish containment. */
  lemma ContainsAt(s: string, sub: string, i: int)
    requires OccursAt(s, sub, i)
    ensures Contains(s, sub)
  {
  }

  /** A string containing c can only contain strings that contain c. */
  lemma ContainsChar(s: string, sub: string, c: char)
    requires Contains(s, sub) && c in sub
    ensures c in s
  {
    var i :| 0 <= i <= |s| - |sub| && OccursAt(s, sub, i);
    var k :| 0 <= k < |sub| && sub[k] == c;
    assert s[i + k] == sub[k];
  }

  /** A string lacking one of sub's characters does not contain sub. */
  lemma MissingCharRulesOut(s: string, sub: string, c: char)
    requires c in sub && c !in s
    ensures !Contains(s, sub)
  {
    if Contains(s, sub) {
      ContainsChar(s, sub, c);
    }
  }

  /** str.endswith(suffix), case-sensitive. */
  predicate EndsWith(s: string, suffix: string)
    ensures EndsWith(s, suffix) ==> |suffix| <= |s| && s == s[..|s| - |suffix|] + suffix
  {
    |suffix| <= |s| && s[|s| - |suffix|..] == suffix
  }

  /** Appending a suffix makes the string end with it. */
  lemma EndsWithAppend(p: string, suffix: string)
    ensures EndsWith(p + suffix, suffix)
  {
    assert (p + suffix)[|p|..] == suffix;
  }
}
