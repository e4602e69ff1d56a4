/** The two string operations the lookups rely on: lower-casing
    (`String.prototype.toLowerCase`, here restricted to ASCII letters) and
    substring search (`String.prototype.includes`). */
module Text {

  /** An ASCII upper-case letter becomes its lower-case form; every other character is kept. */
  function LowerChar(c: char): (r: char)
    ensures !('A' <= r <= 'Z')
    ensures 'A' <= c <= 'Z' ==> 'a' <= r <= 'z' && r as int - 'a' as int == c as int - 'A' as int
    ensures !('A' <= c <= 'Z') ==> r == c
  {
    if 'A' <= c <= 'Z' then (c as int + 32) as char else c
  }

  /** The string with each character lower-cased: same length, each upper-case
      ASCII letter replaced by the same letter in lower case, every other
      character where it was. */
  function Lower(s: string): (r: string)
    ensures |r| == |s|
    ensures forall i :: 0 <= i < |r| ==> !('A' <= r[i] <= 'Z')
    ensures forall i :: 0 <= i < |s| && 'A' <= s[i] <= 'Z' ==> r[i] as int - 'a' as int == s[i] as int - 'A' as int
    ensures forall i :: 0 <= i < |s| && !('A' <= s[i] <= 'Z') ==> r[i] == s[i]
  {
    seq(|s|, i requires 0 <= i < |s| => LowerChar(s[i]))
  }

  /** Lower-casing is a projection: a lower-cased string has nothing left to lower-case. */
  lemma LowerIdempotent(s: string)
    ensures Lower(Lower(s)) == Lower(s)
  {
    assert forall i :: 0 <= i < |s| ==> LowerChar(LowerChar(s[i])) == LowerChar(s[i]);
  }

  /** `a` and `b` are the same character, or the same ASCII letter in the two cases. */
  predicate SameLetterUpToCase(a: char, b: char)
  {
    || a == b
    || ('A' <= a <= 'Z' && b as int - 'a' as int == a as int - 'A' as int)
    || ('A' <= b <= 'Z' && a as int - 'a' as int == b as int - 'A' as int)
  }

  /** `s` and `t` differ at most in the case of their ASCII letters. */
  ghost predicate SameUpToCase(s: string, t: string)
  {
    |s| == |t| && forall i :: 0 <= i < |s| ==> SameLetterUpToCase(s[i], t[i])
  }

  /** Two strings lower-case to the same string exactly when they differ at most
      in the case of their ASCII letters. */
  lemma LowerEqualIff(s: string, t: string)
    ensures Lower(s) == Lower(t) <==> SameUpToCase(s, t)
  {
    if Lower(s) == Lower(t) {
      forall i | 0 <= i < |s|
        ensures SameLetterUpToCase(s[i], t[i])
      {
        assert LowerChar(s[i]) == Lower(s)[i] == Lower(t)[i] == LowerChar(t[i]);
      }
    }
    if SameUpToCase(s, t) {
      forall i | 0 <= i < |s|
        ensures Lower(s)[i] == Lower(t)[i]
      {
        assert SameLetterUpToCase(s[i], t[i]);
      }
    }
  }

  /** `t` occurs in `s` starting at position `i`. */
  predicate OccursAt(s: string, t: string, i: nat)
  {
    i + |t| <= |s| && s[i..i + |t|] == t
  }

  /** Whether `t` occurs somewhere in `s`, scanning start positions from left to right. */
  function Includes(s: string, t: string): (r: bool)
    ensures t <= s ==> r
    ensures r ==> |t| <= |s|
  {
    if t <= s then true
    else if |s| == 0 then false
    else Includes(s[1..], t)
  }

  /** The scan answers yes exactly when `t` occurs at some position of `s`
      (so the empty string occurs in every string). */
  lemma {:induction false} IncludesIff(s: string, t: string)
    ensures Includes(s, t) <==> exists i: nat :: OccursAt(s, t, i)
  {
    if t <= s {
      assert OccursAt(s, t, 0);
    } else if |s| == 0 {
      assert forall i: nat :: !OccursAt(s, t, i);
    } else {
      IncludesIff(s[1..], t);
      assert !OccursAt(s, t, 0);
      forall i: nat
        ensures OccursAt(s[1..], t, i) <==> OccursAt(s, t, i + 1)
      {
        OccursShift(s, t, i);
      }
      forall i: nat | OccursAt(s, t, i)
        ensures i > 0 && OccursAt(s[1..], t, i - 1)
      {
        OccursShift(s, t, i - 1);
      }
      if Includes(s, t) {
        var i: nat :| OccursAt(s[1..], t, i);
        assert OccursAt(s, t, i + 1);
      }
    }
  }

  /** Dropping the first character moves every occurrence one place left. */
  lemma OccursShift(s: string, t: string, i: nat)
    requires |s| > 0
    ensures OccursAt(s[1..], t, i) <==> OccursAt(s, t, i + 1)
  {
    if i + 1 + |t| <= |s| {
      assert s[1..][i..i + |t|] == s[i + 1..i + 1 + |t|];
    }
  }

  /** Every character of `t` is a character of any string that includes `t`. */
  lemma {:induction false} IncludedCharsOccur(s: string, t: string, k: nat)
    requires k < |t| && Includes(s, t)
    ensures t[k] in s
  {
    IncludesIff(s, t);
    var i: nat :| OccursAt(s, t, i);
    assert s[i + k] == t[k];
  }
}
