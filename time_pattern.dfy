/**
 * The time pattern `/(\d{1,2}):?(\d{2})?\s*(am|pm)/i` and `String.prototype.match`
 * with it: the leftmost match, found in the regular-expression engine's
 * backtracking order.
 */
module TimePattern {

  import opened Wrappers
  import Text

  /** `\d`: an ASCII decimal digit. */
  predicate IsDigit(c: char) {
    '0' <= c <= '9'
  }

  /** `\s`: ECMAScript WhiteSpace and LineTerminator characters. */
  predicate IsSpace(c: char) {
    c == '\t' || c == '\n' || c == '\U{000B}' || c == '\U{000C}' || c == '\r' || c == ' ' ||
    c == '\U{00A0}' || c == '\U{1680}' || ('\U{2000}' <= c <= '\U{200A}') ||
    c == '\U{2028}' || c == '\U{2029}' || c == '\U{202F}' || c == '\U{205F}' ||
    c == '\U{3000}' || c == '\U{FEFF}'
  }

  /** `(am|pm)` under the `i` flag: the two characters `x`, `y`. */
  predicate IsMeridiem(x: char, y: char) {
    (Text.LowerChar(x) == 'a' || Text.LowerChar(x) == 'p') && Text.LowerChar(y) == 'm'
  }

  // ---------------------------------------------------------------------------
  // The language of the pattern, stated declaratively: each predicate says
  // that `t[i..e]` is a string of one suffix of the pattern, as a union of
  // its alternatives, with no order among them.

  /** Every character of `t[i..j]` is whitespace. */
  ghost predicate SpacesIn(t: string, i: nat, j: nat) {
    forall k :: i <= k < j && k < |t| ==> IsSpace(t[k])
  }

  /** `t[i..e]` is in the language of `\s*(am|pm)`. */
  ghost predicate MeridiemRest(t: string, i: nat, e: nat) {
    i + 2 <= e <= |t| && SpacesIn(t, i, e - 2) && IsMeridiem(t[e - 2], t[e - 1])
  }

  /** `t[i..e]` is in the language of `(\d{2})?\s*(am|pm)`. */
  ghost predicate MinutesRest(t: string, i: nat, e: nat) {
    MeridiemRest(t, i, e) ||
    (i + 2 <= |t| && IsDigit(t[i]) && IsDigit(t[i + 1]) && MeridiemRest(t, i + 2, e))
  }

  /** `t[i..e]` is in the language of `:?(\d{2})?\s*(am|pm)`. */
  ghost predicate ColonRest(t: string, i: nat, e: nat) {
    MinutesRest(t, i, e) || (i < |t| && t[i] == ':' && MinutesRest(t, i + 1, e))
  }

  /** `t[p..e]` is in the language of `(\d{1,2}):?(\d{2})?\s*(am|pm)`. */
  ghost predicate TimeAt(t: string, p: nat, e: nat) {
    p < |t| && IsDigit(t[p]) &&
    (ColonRest(t, p + 1, e) || (p + 1 < |t| && IsDigit(t[p + 1]) && ColonRest(t, p + 2, e)))
  }

  /** `s` as a whole is a string of the pattern's language. */
  ghost predicate IsTimeToken(s: string) {
    TimeAt(s, 0, |s|)
  }

  // ---------------------------------------------------------------------------
  // The matcher, in the engine's order: greedy quantifiers try the longer
  // alternative first and fall back to the shorter one.

  /** Index after the longest run of whitespace from `i` (greedy `\s*`). */
  function SkipSpaces(t: string, i: nat): (j: nat)
    requires i <= |t|
    ensures i <= j <= |t|
    ensures forall k :: i <= k < j ==> IsSpace(t[k])
    ensures j == |t| || !IsSpace(t[j])
    decreases |t| - i
  {
    if i < |t| && IsSpace(t[i]) then SkipSpaces(t, i + 1) else i
  }

  /**
   * `\s*(am|pm)` from `i`. Giving back whitespace to `\s*` never helps,
   * since no whitespace character can start a meridiem.
   */
  function MeridiemFrom(t: string, i: nat): (r: Option<nat>)
    requires i <= |t|
    ensures r.Some? ==> i < r.value <= |t|
  {
    var j := SkipSpaces(t, i);
    if j + 2 <= |t| && IsMeridiem(t[j], t[j + 1]) then Some(j + 2) else None
  }

  /** `(\d{2})?\s*(am|pm)` from `i`: with the minutes first, then without. */
  function MinutesFrom(t: string, i: nat): (r: Option<nat>)
    requires i <= |t|
    ensures r.Some? ==> i < r.value <= |t|
  {
    if i + 2 <= |t| && IsDigit(t[i]) && IsDigit(t[i + 1]) && MeridiemFrom(t, i + 2).Some?
    then MeridiemFrom(t, i + 2)
    else MeridiemFrom(t, i)
  }

  /** `:?(\d{2})?\s*(am|pm)` from `i`: with the colon first, then without. */
  function ColonFrom(t: string, i: nat): (r: Option<nat>)
    requires i <= |t|
    ensures r.Some? ==> i < r.value <= |t|
  {
    if i < |t| && t[i] == ':' && MinutesFrom(t, i + 1).Some?
    then MinutesFrom(t, i + 1)
    else MinutesFrom(t, i)
  }

  /** The whole pattern anchored at `p`: two hour digits first, then one. */
  function MatchAt(t: string, p: nat): (r: Option<nat>)
    requires p <= |t|
    ensures r.Some? ==> p < r.value <= |t|
  {
    if p < |t| && IsDigit(t[p]) then
      if p + 1 < |t| && IsDigit(t[p + 1]) && ColonFrom(t, p + 2).Some?
      then ColonFrom(t, p + 2)
      else ColonFrom(t, p + 1)
    else None
  }

  /** The engine's scan: start positions `p`, `p + 1`, ... until one matches. */
  function SearchFrom(t: string, p: nat): (r: Option<(nat, nat)>)
    requires p <= |t|
    ensures r.Some? ==> p <= r.value.0 < r.value.1 <= |t|
    decreases |t| - p
  {
    if p == |t| then None
    else match MatchAt(t, p)
      case Some(e) => Some((p, e))
      case None => SearchFrom(t, p + 1)
  }

  /** `t.match(/(\d{1,2}):?(\d{2})?\s*(am|pm)/i)`, reduced to the matched text `[0]`. */
  function FindTime(t: string): (r: Option<string>)
    ensures r.Some? ==> 0 < |r.value| <= |t|
  {
    match SearchFrom(t, 0)
    case Some((b, e)) => Some(t[b..e])
    case None => None
  }

  // ---------------------------------------------------------------------------
  // The language is prefix-free: at most one of its strings starts at a given
  // index. So the order in which the engine tries the alternatives does not
  // change what it matches.

  /** The first character of a meridiem suffix is neither a digit nor a colon. */
  lemma MeridiemRestStart(t: string, i: nat, e: nat)
    requires MeridiemRest(t, i, e)
    ensures i < |t| && !IsDigit(t[i]) && t[i] != ':'
  {
    if i < e - 2 { assert IsSpace(t[i]); }
  }

  lemma MeridiemRestUnique(t: string, i: nat, e1: nat, e2: nat)
    requires MeridiemRest(t, i, e1) && MeridiemRest(t, i, e2)
    ensures e1 == e2
  {
  }

  lemma MinutesRestUnique(t: string, i: nat, e1: nat, e2: nat)
    requires MinutesRest(t, i, e1) && MinutesRest(t, i, e2)
    ensures e1 == e2
  {
    if MeridiemRest(t, i, e1) { MeridiemRestStart(t, i, e1); }
    if MeridiemRest(t, i, e2) { MeridiemRestStart(t, i, e2); }
    if MeridiemRest(t, i, e1) && MeridiemRest(t, i, e2) {
      MeridiemRestUnique(t, i, e1, e2);
    } else {
      MeridiemRestUnique(t, i + 2, e1, e2);
    }
  }

  /** A suffix without a colon at its start is not a digit pair followed by the colon branch. */
  lemma MinutesRestStart(t: string, i: nat, e: nat)
    requires MinutesRest(t, i, e)
    ensures i < |t| && t[i] != ':'
  {
    if MeridiemRest(t, i, e) { MeridiemRestStart(t, i, e); }
  }

  lemma ColonRestUnique(t: string, i: nat, e1: nat, e2: nat)
    requires ColonRest(t, i, e1) && ColonRest(t, i, e2)
    ensures e1 == e2
  {
    if MinutesRest(t, i, e1) { MinutesRestStart(t, i, e1); }
    if MinutesRest(t, i, e2) { MinutesRestStart(t, i, e2); }
    if MinutesRest(t, i, e1) && MinutesRest(t, i, e2) {
      MinutesRestUnique(t, i, e1, e2);
    } else {
      MinutesRestUnique(t, i + 1, e1, e2);
    }
  }

  /** After one hour digit, a further digit starts only the minutes of the colon-less branch. */
  lemma OneDigitThenDigit(t: string, i: nat, e: nat)
    requires ColonRest(t, i, e) && IsDigit(t[i])
    ensures i + 2 <= |t| && IsDigit(t[i + 1]) && MeridiemRest(t, i + 2, e)
  {
    if MeridiemRest(t, i, e) { MeridiemRestStart(t, i, e); }
  }

  /** No two strings of the language start at the same index. */
  lemma TimeAtUnique(t: string, p: nat, e1: nat, e2: nat)
    requires TimeAt(t, p, e1) && TimeAt(t, p, e2)
    ensures e1 == e2
  {
    if ColonRest(t, p + 1, e1) && ColonRest(t, p + 1, e2) {
      ColonRestUnique(t, p + 1, e1, e2);
    } else if ColonRest(t, p + 2, e1) && ColonRest(t, p + 2, e2) && p + 1 < |t| && IsDigit(t[p + 1]) {
      ColonRestUnique(t, p + 2, e1, e2);
    } else if ColonRest(t, p + 1, e1) {
      // e1 takes one hour digit and two minute digits, e2 takes two hour digits
      OneDigitThenDigit(t, p + 1, e1);
      MeridiemRestStart(t, p + 3, e1);
      if MeridiemRest(t, p + 2, e2) { MeridiemRestStart(t, p + 2, e2); }
    } else {
      OneDigitThenDigit(t, p + 1, e2);
      MeridiemRestStart(t, p + 3, e2);
      if MeridiemRest(t, p + 2, e1) { MeridiemRestStart(t, p + 2, e1); }
    }
  }

  // ---------------------------------------------------------------------------
  // The matcher agrees with the language, layer by layer.

  lemma MeridiemFromCorrect(t: string, i: nat, e: nat)
    requires i <= |t|
    ensures MeridiemFrom(t, i) == Some(e) <==> MeridiemRest(t, i, e)
  {
    if MeridiemRest(t, i, e) {
      var j := SkipSpaces(t, i);
    }
  }

  lemma MinutesFromCorrect(t: string, i: nat, e: nat)
    requires i <= |t|
    ensures MinutesFrom(t, i) == Some(e) <==> MinutesRest(t, i, e)
  {
    MeridiemFromCorrect(t, i, e);
    if i + 2 <= |t| {
      MeridiemFromCorrect(t, i + 2, e);
      if MinutesFrom(t, i).Some? {
        MeridiemFromCorrect(t, i, MinutesFrom(t, i).value);
        MeridiemFromCorrect(t, i + 2, MinutesFrom(t, i).value);
        if MinutesRest(t, i, e) {
          MinutesRestUnique(t, i, e, MinutesFrom(t, i).value);
        }
      }
    }
  }

  lemma ColonFromCorrect(t: string, i: nat, e: nat)
    requires i <= |t|
    ensures ColonFrom(t, i) == Some(e) <==> ColonRest(t, i, e)
  {
    MinutesFromCorrect(t, i, e);
    if i < |t| {
      MinutesFromCorrect(t, i + 1, e);
      if ColonFrom(t, i).Some? {
        MinutesFromCorrect(t, i, ColonFrom(t, i).value);
        MinutesFromCorrect(t, i + 1, ColonFrom(t, i).value);
        if ColonRest(t, i, e) {
          ColonRestUnique(t, i, e, ColonFrom(t, i).value);
        }
      }
    }
  }

  /** `MatchAt(t, p)` is `Some(e)` exactly when `t[p..e]` is a string of the language. */
  lemma MatchAtCorrect(t: string, p: nat, e: nat)
    requires p <= |t|
    ensures MatchAt(t, p) == Some(e) <==> TimeAt(t, p, e)
  {
    if p < |t| {
      ColonFromCorrect(t, p + 1, e);
      if p + 1 < |t| {
        ColonFromCorrect(t, p + 2, e);
        if MatchAt(t, p).Some? {
          ColonFromCorrect(t, p + 1, MatchAt(t, p).value);
          ColonFromCorrect(t, p + 2, MatchAt(t, p).value);
          if TimeAt(t, p, e) {
            TimeAtUnique(t, p, e, MatchAt(t, p).value);
          }
        }
      }
    }
  }

  /**
   * The scan from `p` returns the leftmost start at or after `p` at which a
   * string of the language begins, with that string's end; `None` when there is none.
   */
  lemma {:induction false} SearchFromCorrect(t: string, p: nat)
    requires p <= |t|
    ensures SearchFrom(t, p).Some? ==>
              TimeAt(t, SearchFrom(t, p).value.0, SearchFrom(t, p).value.1) &&
              forall b': nat, e': nat :: p <= b' < SearchFrom(t, p).value.0 ==> !TimeAt(t, b', e')
    ensures SearchFrom(t, p).None? ==> forall b': nat, e': nat :: p <= b' ==> !TimeAt(t, b', e')
    decreases |t| - p
  {
    if p == |t| {
      forall b': nat, e': nat | p <= b' ensures !TimeAt(t, b', e') { }
    } else if MatchAt(t, p).Some? {
      MatchAtCorrect(t, p, MatchAt(t, p).value);
    } else {
      var r := SearchFrom(t, p + 1);
      assert SearchFrom(t, p) == r;
      SearchFromCorrect(t, p + 1);
      NoMatchNoToken(t, p);
      var q := if r.Some? then r.value.0 else |t| + 1;
      forall b': nat, e': nat | p <= b' < q ensures !TimeAt(t, b', e') {
        if b' == p {
          assert forall e: nat :: !TimeAt(t, p, e);
        }
      }
    }
  }

  /** Where `MatchAt` fails, no string of the language starts. */
  lemma NoMatchNoToken(t: string, p: nat)
    requires p <= |t| && MatchAt(t, p).None?
    ensures forall e: nat :: !TimeAt(t, p, e)
  {
    forall e: nat ensures !TimeAt(t, p, e) {
      MatchAtCorrect(t, p, e);
    }
  }

  /**
   * `FindTime` is the leftmost string of the language in `t`, and `None`
   * exactly when no substring of `t` is in the language.
   */
  lemma FindTimeIsLeftmostMatch(t: string)
    ensures FindTime(t).None? <==> forall b: nat, e: nat :: !TimeAt(t, b, e)
    ensures forall b: nat, e: nat ::
              TimeAt(t, b, e) && (forall b': nat, e': nat :: b' < b ==> !TimeAt(t, b', e')) ==>
              FindTime(t) == Some(t[b..e])
  {
    SearchFromCorrect(t, 0);
    forall b: nat, e: nat | TimeAt(t, b, e) && (forall b': nat, e': nat :: b' < b ==> !TimeAt(t, b', e'))
      ensures FindTime(t) == Some(t[b..e])
    {
      var (b0, e0) := SearchFrom(t, 0).value;
      assert b0 == b;
      TimeAtUnique(t, b, e, e0);
    }
  }

  // ---------------------------------------------------------------------------
  // A matched substring is itself a string of the language.

  lemma MeridiemRestSlice(t: string, b: nat, i: nat, e: nat, stop: nat)
    requires b <= i && e <= stop <= |t| && MeridiemRest(t, i, e)
    ensures MeridiemRest(t[b..stop], i - b, e - b)
  {
    var s := t[b..stop];
    forall k | i - b <= k < e - b - 2 && k < |s| ensures IsSpace(s[k]) {
      assert s[k] == t[k + b];
    }
  }

  lemma MinutesRestSlice(t: string, b: nat, i: nat, e: nat, stop: nat)
    requires b <= i && e <= stop <= |t| && MinutesRest(t, i, e)
    ensures MinutesRest(t[b..stop], i - b, e - b)
  {
    if MeridiemRest(t, i, e) {
      MeridiemRestSlice(t, b, i, e, stop);
    } else {
      MeridiemRestSlice(t, b, i + 2, e, stop);
    }
  }

  lemma ColonRestSlice(t: string, b: nat, i: nat, e: nat, stop: nat)
    requires b <= i && e <= stop <= |t| && ColonRest(t, i, e)
    ensures ColonRest(t[b..stop], i - b, e - b)
  {
    if MinutesRest(t, i, e) {
      MinutesRestSlice(t, b, i, e, stop);
    } else {
      MinutesRestSlice(t, b, i + 1, e, stop);
    }
  }

  /** `t[b..e]` matching the pattern in `t` makes it a time token on its own. */
  lemma TimeAtSlice(t: string, b: nat, e: nat)
    requires TimeAt(t, b, e)
    ensures b <= e <= |t| && IsTimeToken(t[b..e])
  {
    if ColonRest(t, b + 1, e) {
      ColonRestSlice(t, b, b + 1, e, e);
    } else {
      ColonRestSlice(t, b, b + 2, e, e);
    }
  }

  // ---------------------------------------------------------------------------
  // What a time token looks like.

  /** The number of digits in `t[i..e]`. */
  function DigitsIn(t: string, i: nat, e: nat): nat
    requires i <= e <= |t|
    decreases e - i
  {
    if i == e then 0 else (if IsDigit(t[i]) then 1 else 0) + DigitsIn(t, i + 1, e)
  }

  lemma {:induction false} NoDigitsIn(t: string, i: nat, e: nat)
    requires i <= e <= |t|
    requires forall k :: i <= k < e ==> !IsDigit(t[k])
    ensures DigitsIn(t, i, e) == 0
    decreases e - i
  {
    if i < e { NoDigitsIn(t, i + 1, e); }
  }

  lemma MeridiemRestFacts(t: string, i: nat, e: nat)
    requires MeridiemRest(t, i, e)
    ensures DigitsIn(t, i, e) == 0
    ensures forall k :: i <= k < e ==> t[k] != ':'
  {
    forall k | i <= k < e ensures !IsDigit(t[k]) && t[k] != ':' {
      if k < e - 2 { assert IsSpace(t[k]); }
    }
    NoDigitsIn(t, i, e);
  }

  lemma MinutesRestFacts(t: string, i: nat, e: nat)
    requires MinutesRest(t, i, e)
    ensures DigitsIn(t, i, e) == 0 || DigitsIn(t, i, e) == 2
    ensures forall k :: i <= k < e ==> t[k] != ':'
    ensures IsMeridiem(t[e - 2], t[e - 1])
  {
    if MeridiemRest(t, i, e) {
      MeridiemRestFacts(t, i, e);
    } else {
      MeridiemRestFacts(t, i + 2, e);
      assert DigitsIn(t, i, e) == 2 + DigitsIn(t, i + 2, e);
    }
  }

  lemma ColonRestFacts(t: string, i: nat, e: nat)
    requires ColonRest(t, i, e)
    ensures DigitsIn(t, i, e) == 0 || DigitsIn(t, i, e) == 2
    ensures forall k :: i < k < e ==> t[k] != ':'
    ensures IsMeridiem(t[e - 2], t[e - 1])
  {
    if MinutesRest(t, i, e) {
      MinutesRestFacts(t, i, e);
    } else {
      MinutesRestFacts(t, i + 1, e);
    }
  }

  /**
   * A time token starts with a digit, ends with a meridiem, holds one to four
   * digits, and holds a colon only right after its first one or two
   * characters, both digits, so at most one colon.
   */
  lemma TimeTokenShape(s: string)
    requires IsTimeToken(s)
    ensures |s| >= 3 && IsDigit(s[0]) && IsMeridiem(s[|s| - 2], s[|s| - 1])
    ensures 1 <= DigitsIn(s, 0, |s|) <= 4
    ensures forall k :: 0 <= k < |s| && s[k] == ':' ==>
              (k == 1 || k == 2) && forall j :: 0 <= j < k ==> IsDigit(s[j])
    ensures forall k1, k2 :: 0 <= k1 < |s| && 0 <= k2 < |s| && s[k1] == ':' && s[k2] == ':' ==> k1 == k2
  {
    if ColonRest(s, 1, |s|) {
      ColonRestFacts(s, 1, |s|);
      assert DigitsIn(s, 0, |s|) == 1 + DigitsIn(s, 1, |s|);
    } else {
      ColonRestFacts(s, 2, |s|);
      assert DigitsIn(s, 0, |s|) == 2 + DigitsIn(s, 2, |s|);
    }
  }

  /** In lower-cased text a time token ends exactly in "am" or "pm". */
  lemma LowerCaseTimeTokenEnd(s: string)
    requires IsTimeToken(s) && Text.IsLowerCase(s)
    ensures |s| >= 3 && (s[|s| - 2..] == "am" || s[|s| - 2..] == "pm")
  {
    TimeTokenShape(s);
  }

  /** What `FindTime` returns is a time token taken from `t`. */
  lemma FindTimeIsToken(t: string)
    requires FindTime(t).Some?
    ensures IsTimeToken(FindTime(t).value)
    ensures Text.Contains(t, FindTime(t).value)
  {
    SearchFromCorrect(t, 0);
    var (b, e) := SearchFrom(t, 0).value;
    TimeAtSlice(t, b, e);
    assert Text.OccursAt(t, t[b..e], b);
    Text.ContainsIff(t, t[b..e]);
  }

  /** In lower-cased text, the matched time is lower-case and ends exactly in "am" or "pm". */
  lemma FindTimeInLowerCase(t: string)
    requires Text.IsLowerCase(t) && FindTime(t).Some?
    ensures Text.IsLowerCase(FindTime(t).value)
    ensures var v := FindTime(t).value; |v| >= 3 && (v[|v| - 2..] == "am" || v[|v| - 2..] == "pm")
  {
    SearchFromCorrect(t, 0);
    var (b, e) := SearchFrom(t, 0).value;
    TimeAtSlice(t, b, e);
    Text.SliceOfLowerCase(t, b, e);
    LowerCaseTimeTokenEnd(t[b..e]);
  }
}
