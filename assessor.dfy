/**
 * The heuristic resume assessor `fake_ai_analyze`: a skill scan over a fixed
 * vocabulary, the years-of-experience pattern, and an ATS-style score capped
 * at 95, returned in a record with five fixed keys.
 */
module Assessor {
  import opened Wrappers
  import opened AsciiText
  import opened ExperiencePattern

  /** `common_skills`, in the order the scan visits it. */
  const Vocabulary: seq<string> :=
    ["python", "java", "c++", "sql", "excel", "tensorflow", "pandas", "numpy", "docker", "aws"]

  const Summary: string :=
    "This is a short summary generated in test mode. Replace with real AI later."

  const Improvements: seq<string> := [
    "Add a brief one-line professional summary at the top.",
    "List achievements with metrics (e.g., increased X by Y%)."
  ]

  /** The ATS score never exceeds this cap. */
  const ScoreCap: int := 95

  /** The score of a resume with no skill and no years. */
  const ScoreBase: int := 50

  /**
   * The returned dict: the keys `skills`, `experience_years`, `summary`,
   * `ats_score` and `improvements`, and no others.
   */
  datatype Analysis = Analysis(
    skills: seq<string>,
    experienceYears: nat,
    summary: string,
    atsScore: int,
    improvements: seq<string>)

  /** No entry occurs twice. */
  predicate Distinct(s: seq<string>) {
    forall i, j :: 0 <= i < j < |s| ==> s[i] != s[j]
  }

  /** `a` is `b` with some entries dropped: same relative order. */
  predicate IsSubsequence(a: seq<string>, b: seq<string>)
    decreases |b|
  {
    if b == [] then a == []
    else (a != [] && a[0] == b[0] && IsSubsequence(a[1..], b[1..])) || IsSubsequence(a, b[1..])
  }

  /** The entries of `vocab` that are substrings of `t`, in vocabulary order. */
  function FoundSkills(vocab: seq<string>, t: string): (r: seq<string>)
    ensures |r| <= |vocab|
  {
    if vocab == [] then []
    else (if Contains(t, vocab[0]) then [vocab[0]] else []) + FoundSkills(vocab[1..], t)
  }

  /** The skill loop: append each vocabulary word that occurs in `lower`. */
  method DetectSkills(lower: string) returns (skills: seq<string>)
    ensures skills == FoundSkills(Vocabulary, lower)
  {
    skills := [];
    for i := 0 to |Vocabulary|
      invariant skills + FoundSkills(Vocabulary[i..], lower) == FoundSkills(Vocabulary, lower)
    {
      var s := Vocabulary[i];
      var found := Contains(lower, s);
      FoundSkillsStep(Vocabulary, i, lower, skills, found);
      if found {
        skills := skills + [s];
      }
    }
  }

  /**
   * One step of the scan: the skills so far followed by the rest of the
   * scan are unchanged when word `i` is appended exactly if it was found.
   */
  lemma FoundSkillsStep(vocab: seq<string>, i: nat, t: string, skills: seq<string>, found: bool)
    requires i < |vocab| && found == Contains(t, vocab[i])
    ensures skills + FoundSkills(vocab[i..], t)
         == (if found then skills + [vocab[i]] else skills) + FoundSkills(vocab[i + 1..], t)
  {
    assert vocab[i..][1..] == vocab[i + 1..];
    if found {
      var rest := FoundSkills(vocab[i + 1..], t);
      assert skills + ([vocab[i]] + rest) == (skills + [vocab[i]]) + rest;
    }
  }

  function Min(a: int, b: int): int {
    if a <= b then a else b
  }

  /** `ats_score`: 50 plus 5 per skill plus 2 per year, capped at 95. */
  function AtsScore(skillCount: nat, years: nat): (r: int)
    ensures ScoreBase <= r <= ScoreCap
    ensures r == ScoreCap || r == ScoreBase + 5 * skillCount + 2 * years
    ensures r <= ScoreBase + 5 * skillCount + 2 * years
  {
    Min(ScoreCap, ScoreBase + skillCount * 5 + years * 2)
  }

  /** The value `fake_ai_analyze` returns for `text`. */
  function Assess(text: string): Analysis {
    var lower := Lower(text);
    var skills := FoundSkills(Vocabulary, lower);
    var years := ExperienceYears(lower);
    Analysis(skills, years, Summary, AtsScore(|skills|, years), Improvements)
  }

  /** `fake_ai_analyze`: lower-case, scan for skills, search for years, score. */
  method FakeAiAnalyze(resumeText: string) returns (a: Analysis)
    ensures a == Assess(resumeText)
  {
    var lower := Lower(resumeText);
    var skills := DetectSkills(lower);
    var experienceYears := 0;
    var m := SearchYears(Lower(resumeText));
    if m.Some? {
      experienceYears := m.value.years;
    }
    var atsScore := Min(95, 50 + |skills| * 5 + experienceYears * 2);
    a := Analysis(skills, experienceYears, Summary, atsScore, Improvements);
  }

  // ---------------------------------------------------------------- skills

  /** A word is found exactly when it is in the vocabulary and occurs in the text. */
  lemma {:induction false} FoundSkillsMembership(vocab: seq<string>, t: string, w: string)
    ensures w in FoundSkills(vocab, t) <==> w in vocab && Contains(t, w)
  {
    if vocab != [] {
      FoundSkillsMembership(vocab[1..], t, w);
      assert vocab == [vocab[0]] + vocab[1..];
    }
  }

  /** The found skills keep vocabulary order. */
  lemma {:induction false} FoundSkillsSubsequence(vocab: seq<string>, t: string)
    ensures IsSubsequence(FoundSkills(vocab, t), vocab)
  {
    if vocab != [] {
      FoundSkillsSubsequence(vocab[1..], t);
      var r := FoundSkills(vocab, t);
      if Contains(t, vocab[0]) {
        assert r[0] == vocab[0] && r[1..] == FoundSkills(vocab[1..], t);
      } else {
        assert r == FoundSkills(vocab[1..], t);
      }
    }
  }

  /** A vocabulary without repeats yields skills without repeats. */
  lemma {:induction false} FoundSkillsDistinct(vocab: seq<string>, t: string)
    requires Distinct(vocab)
    ensures Distinct(FoundSkills(vocab, t))
  {
    if vocab != [] {
      var rest := FoundSkills(vocab[1..], t);
      assert Distinct(vocab[1..]) by {
        forall i, j | 0 <= i < j < |vocab[1..]| ensures vocab[1..][i] != vocab[1..][j] {
          assert vocab[1..][i] == vocab[i + 1] && vocab[1..][j] == vocab[j + 1];
        }
      }
      FoundSkillsDistinct(vocab[1..], t);
      if Contains(t, vocab[0]) {
        FoundSkillsMembership(vocab[1..], t, vocab[0]);
        assert vocab[0] !in vocab[1..] by {
          forall j | 0 <= j < |vocab[1..]| ensures vocab[1..][j] != vocab[0] {
            assert vocab[1..][j] == vocab[j + 1];
          }
        }
        var r := [vocab[0]] + rest;
        forall i, j | 0 <= i < j < |r| ensures r[i] != r[j] {
          if i == 0 {
            assert r[j] == rest[j - 1];
            assert rest[j - 1] in rest;
          } else {
            assert r[i] == rest[i - 1] && r[j] == rest[j - 1];
          }
        }
      }
    }
  }

  lemma VocabularyDistinct()
    ensures Distinct(Vocabulary)
  {
  }

  /**
   * `skills` holds exactly the vocabulary words occurring in the lower-cased
   * text, in vocabulary order and without repeats.
   */
  lemma AssessSkills(text: string)
    ensures forall w :: w in Assess(text).skills <==> w in Vocabulary && Contains(Lower(text), w)
    ensures IsSubsequence(Assess(text).skills, Vocabulary)
    ensures Distinct(Assess(text).skills)
  {
    forall w ensures w in Assess(text).skills <==> w in Vocabulary && Contains(Lower(text), w) {
      FoundSkillsMembership(Vocabulary, Lower(text), w);
    }
    FoundSkillsSubsequence(Vocabulary, Lower(text));
    VocabularyDistinct();
    FoundSkillsDistinct(Vocabulary, Lower(text));
  }

  /** Substring matching finds "java" inside "JavaScript". */
  lemma JavaFoundInJavaScript(text: string)
    requires text == "JavaScript"
    ensures "java" in Assess(text).skills
  {
    LowerJavaScript(text);
    assert Contains(Lower(text), "java") by {
      assert OccursAt("javascript", 0, "java");
    }
    FoundSkillsMembership(Vocabulary, Lower(text), "java");
  }

  lemma LowerJavaScript(text: string)
    requires text == "JavaScript"
    ensures Lower(text) == "javascript"
  {
    assert LowerChar('J') == 'j' && LowerChar('S') == 's';
  }

  // ----------------------------------------------------------------- years

  /**
   * `experience_years` is the digit group of the leftmost occurrence of the
   * pattern in the lower-cased text, 0 when there is none, and at most 99.
   */
  lemma AssessYears(text: string)
    ensures Assess(text).experienceYears <= 99
    ensures (forall i: nat, d: nat, plus: bool, ws: nat :: !PatternAt(Lower(text), i, d, plus, ws))
            ==> Assess(text).experienceYears == 0
    ensures forall i: nat, d: nat, plus: bool, ws: nat ::
              PatternAt(Lower(text), i, d, plus, ws)
              && (forall i': nat, d': nat, plus': bool, ws': nat :: i' < i ==> !PatternAt(Lower(text), i', d', plus', ws'))
              ==> Assess(text).experienceYears == GroupValue(Lower(text), i, d)
  {
    ExperienceYearsLeftmost(Lower(text));
  }

  /** The resume "123 years" is credited with 23 years, not 12 and not 123. */
  lemma ThreeDigitResumeYears(text: string)
    requires text == "123 years"
    ensures Assess(text).experienceYears == 23
  {
    assert Lower(text) == text by {
      LowerOfLowerCase(text);
    }
    assert ExperienceYears(text) == 23 by {
      LeftmostMatchSkipsThreeDigits();
    }
  }

  // ----------------------------------------------------------------- score

  /** The score formula relates the record's own fields, and lies in 50..95. */
  lemma AssessScore(text: string)
    ensures var a := Assess(text);
      a.atsScore == Min(ScoreCap, ScoreBase + 5 * |a.skills| + 2 * a.experienceYears)
      && ScoreBase <= a.atsScore <= ScoreCap
  {
  }

  /** More skills or more years never lower the score. */
  lemma AtsScoreMonotone(k1: nat, y1: nat, k2: nat, y2: nat)
    requires k1 <= k2 && y1 <= y2
    ensures AtsScore(k1, y1) <= AtsScore(k2, y2)
  {
  }

  // ----------------------------------------------------------- whole record

  /** The summary and the two improvement hints do not depend on the text. */
  lemma AssessShape(text: string)
    ensures Assess(text).summary == Summary && |Summary| > 0
    ensures Assess(text).improvements == Improvements && |Improvements| == 2
  {
  }

  /** The analysis reads only the lower-cased text, so case does not matter. */
  lemma AssessCaseInsensitive(text: string)
    ensures Assess(Lower(text)) == Assess(text)
  {
    LowerIdempotent(text);
  }
}
