/**
 * The string operations the booking path relies on: lower-casing,
 * `String.prototype.includes` and `Array.prototype.join(' ')`.
 */
module Text {

  /** ASCII lower-casing of one character; every other character is unchanged. */
  function LowerChar(c: char): (r: char)
    ensures !('A' <= r <= 'Z')
    ensures !('A' <= c <= 'Z') ==> r == c
  {
    if 'A' <= c <= 'Z' then (c as int + 32) as char else c
  }

  /** `s.toLowerCase()`, restricted to ASCII letters. */
  function Lower(s: string): (r: string)
    ensures |r| == |s|
    ensures forall i :: 0 <= i < |s| ==> r[i] == LowerChar(s[i])
  {
    if s == [] then [] else [LowerChar(s[0])] + Lower(s[1..])
  }

  /** No character of `s` is an ASCII upper-case letter. */
  predicate IsLowerCase(s: string) {
    forall i :: 0 <= i < |s| ==> !('A' <= s[i] <= 'Z')
  }

  /** Every slice of a lower-case string is lower-case. */
  lemma SliceOfLowerCase(s: string, b: nat, e: nat)
    requires IsLowerCase(s) && b <= e <= |s|
    ensures IsLowerCase(s[b..e])
  {
    forall i | 0 <= i < e - b
      ensures !('A' <= s[b..e][i] <= 'Z')
    {
      assert s[b..e][i] == s[b + i];
    }
  }

  lemma LowerIsLowerCase(s: string)
    ensures IsLowerCase(Lower(s))
    ensures Lower(Lower(s)) == Lower(s)
  {
  }

  lemma LowerConcat(a: string, b: string)
    ensures Lower(a + b) == Lower(a) + Lower(b)
  {
    assert forall i :: 0 <= i < |a + b| ==> Lower(a + b)[i] == (Lower(a) + Lower(b))[i];
  }

  /** `sub` occurs in `s` at index `i`. */
  predicate OccursAt(s: string, sub: string, i: int) {
    0 <= i && i + |sub| <= |s| && s[i..i + |sub|] == sub
  }

  /** `s.includes(sub)`: `sub` is a prefix of some suffix of `s`. */
  function Contains(s: string, sub: string): (r: bool)
    ensures sub == [] ==> r
    ensures r ==> |sub| <= |s|
    decreases |s|
  {
    if sub <= s then true
    else if s == [] then false
    else Contains(s[1..], sub)
  }

  /** `Contains` holds exactly when `sub` occurs somewhere in `s`. */
  lemma {:induction false} ContainsIff(s: string, sub: string)
    ensures Contains(s, sub) <==> exists i :: OccursAt(s, sub, i)
    decreases |s|
  {
    if sub <= s {
      assert OccursAt(s, sub, 0);
    } else if s == [] {
      assert forall i :: !OccursAt(s, sub, i);
    } else {
      ContainsIff(s[1..], sub);
      forall i | OccursAt(s, sub, i)
        ensures OccursAt(s[1..], sub, i - 1)
      {
        assert i != 0;
        assert s[1..][i - 1..i - 1 + |sub|] == s[i..i + |sub|];
      }
      forall j | OccursAt(s[1..], sub, j)
        ensures OccursAt(s, sub, j + 1)
      {
        assert s[1..][j..j + |sub|] == s[j + 1..j + 1 + |sub|];
      }
    }
  }

  /** When no character of `s` lower-cases to the `j`-th character of `sub`, the lower-cased `s` does not contain `sub`. */
  lemma LowerLacksLetter(s: string, sub: string, j: nat)
    requires j < |sub|
    requires forall i :: 0 <= i < |s| ==> LowerChar(s[i]) != sub[j]
    ensures !Contains(Lower(s), sub)
  {
    var t := Lower(s);
    forall i | 0 <= i && i + |sub| <= |t|
      ensures !OccursAt(t, sub, i)
    {
      assert t[i..i + |sub|][j] == t[i + j];
    }
    ContainsIff(t, sub);
  }

  /** An occurrence in a part is an occurrence in any text that embeds that part. */
  lemma ContainsInContext(a: string, b: string, c: string, sub: string)
    requires Contains(b, sub)
    ensures Contains(a + b + c, sub)
  {
    ContainsIff(b, sub);
    var i :| OccursAt(b, sub, i);
    assert (a + b + c)[|a| + i..|a| + i + |sub|] == b[i..i + |sub|];
    assert OccursAt(a + b + c, sub, |a| + i);
    ContainsIff(a + b + c, sub);
  }

  /** `parts.join(' ')`: the parts in order, separated by single spaces. */
  function JoinWithSpaces(parts: seq<string>): (r: string)
    ensures |parts| > 0 ==> parts[0] <= r
  {
    if |parts| == 0 then ""
    else if |parts| == 1 then parts[0]
    else parts[0] + " " + JoinWithSpaces(parts[1..])
  }

  /** Lower-casing the joined text is joining the lower-cased parts. */
  lemma {:induction false} LowerJoin(parts: seq<string>)
    ensures Lower(JoinWithSpaces(parts)) == JoinWithSpaces(LowerAll(parts))
  {
    if |parts| >= 2 {
      LowerJoin(parts[1..]);
      assert LowerAll(parts)[1..] == LowerAll(parts[1..]);
      LowerConcat(parts[0] + " ", JoinWithSpaces(parts[1..]));
      LowerConcat(parts[0], " ");
    }
  }

  /** Every part lower-cased. */
  function LowerAll(parts: seq<string>): (r: seq<string>)
    ensures |r| == |parts|
    ensures forall i :: 0 <= i < |parts| ==> r[i] == Lower(parts[i])
  {
    if parts == [] then [] else [Lower(parts[0])] + LowerAll(parts[1..])
  }

  /** A part of a join occurs in the joined text, with its neighbours around it. */
  lemma {:induction false} JoinEmbedsPart(parts: seq<string>, k: int)
    requires 0 <= k < |parts|
    ensures exists a, c :: JoinWithSpaces(parts) == a + parts[k] + c
  {
    if |parts| == 1 {
      assert JoinWithSpaces(parts) == "" + parts[0] + "";
    } else if k == 0 {
      assert JoinWithSpaces(parts) == "" + parts[0] + (" " + JoinWithSpaces(parts[1..]));
    } else {
      JoinEmbedsPart(parts[1..], k - 1);
      var a, c :| JoinWithSpaces(parts[1..]) == a + parts[1..][k - 1] + c;
      assert JoinWithSpaces(parts) == (parts[0] + " " + a) + parts[k] + c;
    }
  }
}
