/**
 * The years-of-experience pattern `(\d{1,2})\+?\s+years`, searched with
 * `re.search` on the lower-cased resume text.
 *
 * `MatchAt` is the backtracking matcher at one start index (two digits are
 * tried before one, then an optional '+', then a whitespace run followed by
 * "years"); `PatternAt` is the declarative reading of the pattern, and the
 * lemmas below show the two agree.  `FirstMatchFrom` and `SearchYears` give
 * the leftmost match, which is what `re.search` reports.
 */
module ExperiencePattern {
  import opened Wrappers
  import opened AsciiText

  /** What `re.search` reports: where the match starts and `int(m.group(1))`. */
  datatype YearsMatch = YearsMatch(start: nat, years: nat)

  const Years: string := "years"

  /** `t[lo..hi]` is a run of `\s` characters. */
  predicate AllSpaces(t: string, lo: nat, hi: nat) {
    lo <= hi <= |t| && forall k :: lo <= k < hi ==> IsSpace(t[k])
  }

  /** `t[lo..hi]` is a run of `\d` characters. */
  predicate AllDigits(t: string, lo: nat, hi: nat) {
    lo <= hi <= |t| && forall k :: lo <= k < hi ==> IsDigit(t[k])
  }

  /** `\s*years` at index `k`: the greedy whitespace run, then the literal. */
  predicate SpacesThenYears(t: string, k: nat)
    decreases |t| - k
  {
    if k < |t| && IsSpace(t[k]) then SpacesThenYears(t, k + 1) else OccursAt(t, k, Years)
  }

  /** `\s+years` at index `j`. */
  predicate WsThenYears(t: string, j: nat) {
    j < |t| && IsSpace(t[j]) && SpacesThenYears(t, j + 1)
  }

  /** `\+?\s+years` at index `j`: with the '+' first, then without it. */
  predicate SuffixAt(t: string, j: nat) {
    (j < |t| && t[j] == '+' && WsThenYears(t, j + 1)) || WsThenYears(t, j)
  }

  /** The integer value of the digit group `t[i..i+d]`, for one or two digits. */
  function GroupValue(t: string, i: nat, d: nat): (v: nat)
    requires 1 <= d <= 2 && AllDigits(t, i, i + d)
    ensures v <= 99
  {
    if d == 1 then DigitValue(t[i]) else 10 * DigitValue(t[i]) + DigitValue(t[i + 1])
  }

  /**
   * The backtracking matcher started at index `i`: `\d{1,2}` greedily takes
   * two digits and falls back to one when the rest of the pattern fails.
   * The result is the value of the digit group.
   */
  function MatchAt(t: string, i: nat): (r: Option<nat>)
    ensures r.Some? ==> r.value <= 99
  {
    if i + 1 < |t| && IsDigit(t[i]) && IsDigit(t[i + 1]) && SuffixAt(t, i + 2) then
      Some(GroupValue(t, i, 2))
    else if i < |t| && IsDigit(t[i]) && SuffixAt(t, i + 1) then
      Some(GroupValue(t, i, 1))
    else
      None
  }

  /**
   * Declarative reading of the pattern at `i`: `d` digits, an optional '+',
   * `ws` >= 1 whitespace characters, then "years".
   */
  ghost predicate PatternAt(t: string, i: nat, d: nat, plus: bool, ws: nat) {
    var j := i + d + (if plus then 1 else 0);
    1 <= d <= 2 && 1 <= ws &&
    AllDigits(t, i, i + d) &&
    (plus ==> i + d < |t| && t[i + d] == '+') &&
    AllSpaces(t, j, j + ws) &&
    OccursAt(t, j + ws, Years)
  }

  lemma {:induction false} SpacesThenYearsSound(t: string, k: nat)
    requires SpacesThenYears(t, k)
    ensures exists e: nat :: AllSpaces(t, k, e) && OccursAt(t, e, Years)
    decreases |t| - k
  {
    if k < |t| && IsSpace(t[k]) {
      SpacesThenYearsSound(t, k + 1);
      var e: nat :| AllSpaces(t, k + 1, e) && OccursAt(t, e, Years);
      assert AllSpaces(t, k, e);
    } else {
      assert AllSpaces(t, k, k);
    }
  }

  lemma {:induction false} SpacesThenYearsComplete(t: string, k: nat, n: nat)
    requires AllSpaces(t, k, k + n) && OccursAt(t, k + n, Years)
    ensures SpacesThenYears(t, k)
    decreases n
  {
    if n == 0 {
      assert t[k] == Years[0];
    } else {
      SpacesThenYearsComplete(t, k + 1, n - 1);
    }
  }

  /** Every value `MatchAt` returns comes from an occurrence of the pattern. */
  lemma MatchAtSound(t: string, i: nat)
    requires MatchAt(t, i).Some?
    ensures exists d: nat, plus: bool, ws: nat ::
      PatternAt(t, i, d, plus, ws) && MatchAt(t, i).value == GroupValue(t, i, d)
  {
    if i + 1 < |t| && IsDigit(t[i]) && IsDigit(t[i + 1]) && SuffixAt(t, i + 2) {
      var plus, ws := SuffixAtSound(t, i, 2);
      assert PatternAt(t, i, 2, plus, ws);
    } else {
      var plus, ws := SuffixAtSound(t, i, 1);
      assert PatternAt(t, i, 1, plus, ws);
    }
  }

  /** The rest of the pattern after a digit group of length `d` yields its '+' choice and space count. */
  lemma SuffixAtSound(t: string, i: nat, d: nat) returns (plus: bool, ws: nat)
    requires 1 <= d <= 2 && AllDigits(t, i, i + d) && SuffixAt(t, i + d)
    ensures PatternAt(t, i, d, plus, ws)
  {
    var j := i + d;
    plus := j < |t| && t[j] == '+' && WsThenYears(t, j + 1);
    var j' := j + (if plus then 1 else 0);
    assert WsThenYears(t, j');
    SpacesThenYearsSound(t, j' + 1);
    var e: nat :| AllSpaces(t, j' + 1, e) && OccursAt(t, e, Years);
    ws := e - j';
    assert AllSpaces(t, j', j' + ws);
  }

  /** Every occurrence of the pattern at `i` is found, with its group's value. */
  lemma MatchAtComplete(t: string, i: nat, d: nat, plus: bool, ws: nat)
    requires PatternAt(t, i, d, plus, ws)
    ensures MatchAt(t, i) == Some(GroupValue(t, i, d))
  {
    var j := i + d + (if plus then 1 else 0);
    assert t[j] == Years[0] || IsSpace(t[j]);
    SpacesThenYearsComplete(t, j + 1, ws - 1);
    assert WsThenYears(t, j);
    assert SuffixAt(t, i + d);
    if d == 1 {
      // The character after a one-digit group is '+' or whitespace, so the
      // two-digit alternative cannot apply.
      assert !IsDigit(t[i + 1]);
    }
  }

  /** The leftmost start index at or after `i` where the pattern matches. */
  function FirstMatchFrom(t: string, i: nat): (r: Option<YearsMatch>)
    ensures r.None? ==> forall j :: i <= j < |t| ==> MatchAt(t, j).None?
    ensures r.Some? ==>
              && i <= r.value.start < |t|
              && MatchAt(t, r.value.start) == Some(r.value.years)
              && forall j :: i <= j < r.value.start ==> MatchAt(t, j).None?
    decreases |t| - i
  {
    if i >= |t| then None
    else match MatchAt(t, i)
      case Some(v) => Some(YearsMatch(i, v))
      case None => FirstMatchFrom(t, i + 1)
  }

  /** `re.search`: scan start indices left to right, stop at the first match. */
  method SearchYears(t: string) returns (m: Option<YearsMatch>)
    ensures m == FirstMatchFrom(t, 0)
  {
    var i := 0;
    while i < |t|
      invariant 0 <= i <= |t|
      invariant FirstMatchFrom(t, i) == FirstMatchFrom(t, 0)
    {
      var r := MatchAt(t, i);
      if r.Some? {
        return Some(YearsMatch(i, r.value));
      }
      i := i + 1;
    }
    return None;
  }

  /** `experience_years`: the group of the leftmost match, or 0 when there is none. */
  function ExperienceYears(t: string): nat {
    match FirstMatchFrom(t, 0)
    case Some(m) => m.years
    case None => 0
  }

  /**
   * The years are 0 when no pattern occurrence exists, and otherwise the
   * value of the leftmost occurrence's digit group; either way at most 99.
   */
  lemma ExperienceYearsLeftmost(t: string)
    ensures ExperienceYears(t) <= 99
    ensures (forall i: nat, d: nat, plus: bool, ws: nat :: !PatternAt(t, i, d, plus, ws))
            ==> ExperienceYears(t) == 0
    ensures forall i: nat, d: nat, plus: bool, ws: nat ::
              PatternAt(t, i, d, plus, ws)
              && (forall i': nat, d': nat, plus': bool, ws': nat :: i' < i ==> !PatternAt(t, i', d', plus', ws'))
              ==> ExperienceYears(t) == GroupValue(t, i, d)
  {
    match FirstMatchFrom(t, 0)
    case None =>
      forall i: nat, d: nat, plus: bool, ws: nat | PatternAt(t, i, d, plus, ws)
        ensures false
      {
        MatchAtComplete(t, i, d, plus, ws);
      }
    case Some(m) =>
      MatchAtSound(t, m.start);
      forall i: nat, d: nat, plus: bool, ws: nat |
        PatternAt(t, i, d, plus, ws)
        && (forall i': nat, d': nat, plus': bool, ws': nat :: i' < i ==> !PatternAt(t, i', d', plus', ws'))
        ensures ExperienceYears(t) == GroupValue(t, i, d)
      {
        MatchAtComplete(t, i, d, plus, ws);
        assert i < |t|;
        assert m.start <= i;
        var d': nat, plus': bool, ws': nat :| PatternAt(t, m.start, d', plus', ws') && m.years == GroupValue(t, m.start, d');
        assert !(m.start < i);
      }
  }

  /** "123 years": no match starts at the '1', so the match at the '2' gives 23. */
  lemma LeftmostMatchSkipsThreeDigits()
    ensures MatchAt("123 years", 0).None?
    ensures FirstMatchFrom("123 years", 0) == Some(YearsMatch(1, 23))
    ensures ExperienceYears("123 years") == 23
  {
    var t := "123 years";
    assert !SuffixAt(t, 2) && !SuffixAt(t, 1);
    assert MatchAt(t, 0) == None;
    assert OccursAt(t, 4, Years);
    assert SpacesThenYears(t, 4);
    assert MatchAt(t, 1) == Some(23);
  }
}
