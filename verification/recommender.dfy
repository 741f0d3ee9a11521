/** The recommender: ranks the career catalog for a user, computes the skill gap
    against one career, and picks the courses that teach a missing skill.
    The similarity scores (TF-IDF vectors compared by cosine similarity) are an
    input here: one score per career, in catalog order. */
module Recommender {
  import opened Strings
  import opened Ranking

  /** A course of the catalog: its name and the one skill it teaches. */
  datatype Course = Course(name: string, skill: string)

  // ---------------------------------------------------------------------------
  // Ranking the careers

  /** Each career of the catalog paired with the score at its own index, in catalog order. */
  function Paired(careers: seq<Career>, scores: seq<real>): seq<Recommendation>
    requires |scores| == |careers|
  {
    seq(|careers|, i requires 0 <= i < |careers| => Recommendation(careers[i], scores[i]))
  }

  /** Returns no recommendation for a user without skills; otherwise every career
      of the catalog with its own score, highest score first, ties in catalog order. */
  method RecommendCareers(userSkills: seq<string>, careers: seq<Career>, scores: seq<real>)
    returns (recommendations: seq<Recommendation>)
    requires userSkills != [] ==> |scores| == |careers|
    ensures userSkills == [] ==> recommendations == []
    ensures userSkills != [] ==> recommendations == SortByScore(Paired(careers, scores))
    ensures userSkills != [] ==> |recommendations| == |careers|
    ensures userSkills != [] ==> multiset(recommendations) == multiset(Paired(careers, scores))
    ensures Descending(recommendations)
    ensures userSkills != [] ==>
              forall v :: WithScore(recommendations, v) == WithScore(Paired(careers, scores), v)
  {
    if userSkills == [] {
      return [];
    }
    recommendations := [];
    for i := 0 to |careers|
      invariant |recommendations| == i
      invariant forall k :: 0 <= k < i ==> recommendations[k] == Recommendation(careers[k], scores[k])
    {
      recommendations := recommendations + [Recommendation(careers[i], scores[i])];
    }
    ghost var paired := recommendations;
    assert paired == Paired(careers, scores);
    recommendations := SortByScore(recommendations);
    SortByScoreDescending(paired);
    forall v
      ensures WithScore(recommendations, v) == WithScore(paired, v)
    {
      SortByScoreStable(paired, v);
    }
  }

  // ---------------------------------------------------------------------------
  // The skill gap

  /** The lower-case forms of a list of skills. */
  function LowerSet(skills: seq<string>): set<string>
  {
    set s | s in skills :: LowerStr(s)
  }

  /** The required skills, lower-cased, that the user does not have in any casing. */
  function SkillGap(userSkills: seq<string>, requiredSkills: seq<string>): (gap: set<string>)
    ensures forall g :: g in gap ==> exists r :: r in requiredSkills && LowerStr(r) == g
    ensures forall g, u :: g in gap && u in userSkills ==> LowerStr(u) != g
    ensures forall r :: r in requiredSkills && LowerStr(r) !in LowerSet(userSkills) ==> LowerStr(r) in gap
  {
    LowerSet(requiredSkills) - LowerSet(userSkills)
  }

  /** Every gap entry is in lower case. */
  lemma SkillGapIsLower(userSkills: seq<string>, requiredSkills: seq<string>)
    ensures forall g :: g in SkillGap(userSkills, requiredSkills) ==> IsLower(g)
  {
    forall g | g in SkillGap(userSkills, requiredSkills)
      ensures IsLower(g)
    {
      var r :| r in requiredSkills && LowerStr(r) == g;
      LowerStrIsLower(r);
    }
  }

  /** A required skill is in the gap exactly when no user skill matches it up to case. */
  lemma SkillGapIff(userSkills: seq<string>, requiredSkills: seq<string>, r: string)
    requires r in requiredSkills
    ensures LowerStr(r) in SkillGap(userSkills, requiredSkills)
            <==> forall u :: u in userSkills ==> LowerStr(u) != LowerStr(r)
  {
  }

  /** Writing the user's skills or the career's skills in another case does not change the gap. */
  lemma SkillGapIgnoresCase(user1: seq<string>, user2: seq<string>,
                            required1: seq<string>, required2: seq<string>)
    requires |user1| == |user2| && forall k :: 0 <= k < |user1| ==> SameIgnoringCase(user1[k], user2[k])
    requires |required1| == |required2|
    requires forall k :: 0 <= k < |required1| ==> SameIgnoringCase(required1[k], required2[k])
    ensures SkillGap(user1, required1) == SkillGap(user2, required2)
  {
    forall k | 0 <= k < |user1|
      ensures LowerStr(user1[k]) == LowerStr(user2[k])
    {
      SameIgnoringCaseLower(user1[k], user2[k]);
    }
    forall k | 0 <= k < |required1|
      ensures LowerStr(required1[k]) == LowerStr(required2[k])
    {
      SameIgnoringCaseLower(required1[k], required2[k]);
    }
    assert LowerSet(user1) == LowerSet(user2) by {
      forall g | g in LowerSet(user1) ensures g in LowerSet(user2) {
        var s :| s in user1 && LowerStr(s) == g;
        var k :| 0 <= k < |user1| && user1[k] == s;
        assert user2[k] in user2;
      }
      forall g | g in LowerSet(user2) ensures g in LowerSet(user1) {
        var s :| s in user2 && LowerStr(s) == g;
        var k :| 0 <= k < |user2| && user2[k] == s;
        assert user1[k] in user1;
      }
    }
    assert LowerSet(required1) == LowerSet(required2) by {
      forall g | g in LowerSet(required1) ensures g in LowerSet(required2) {
        var s :| s in required1 && LowerStr(s) == g;
        var k :| 0 <= k < |required1| && required1[k] == s;
        assert required2[k] in required2;
      }
      forall g | g in LowerSet(required2) ensures g in LowerSet(required1) {
        var s :| s in required2 && LowerStr(s) == g;
        var k :| 0 <= k < |required2| && required2[k] == s;
        assert required1[k] in required1;
      }
    }
  }

  // ---------------------------------------------------------------------------
  // Courses for the gap

  /** `a` is `b` with some entries left out, the rest in their order. */
  predicate IsSubsequence<T(==)>(a: seq<T>, b: seq<T>)
    decreases |b|
  {
    if a == [] then true
    else if b == [] then false
    else (a[0] == b[0] && IsSubsequence(a[1..], b[1..])) || IsSubsequence(a, b[1..])
  }

  /** The courses, in catalog order, whose skill is literally (case-sensitively) a gap entry. */
  function RecommendCourses(gap: set<string>, courses: seq<Course>): (r: seq<Course>)
    ensures IsSubsequence(r, courses)
    ensures forall c :: c in r <==> c in courses && c.skill in gap
    ensures forall c :: multiset(r)[c] == if c.skill in gap then multiset(courses)[c] else 0
    ensures gap == {} ==> r == []
  {
    if courses == [] then []
    else
      assert courses == [courses[0]] + courses[1..];
      var rest := RecommendCourses(gap, courses[1..]);
      if courses[0].skill in gap then [courses[0]] + rest else rest
  }

  /** The gap holds lower-case names only, so a course whose skill is written with
      a capital letter is never recommended, whatever the user and the career. */
  lemma CapitalizedCourseNeverRecommended(userSkills: seq<string>, requiredSkills: seq<string>,
                                          courses: seq<Course>, c: Course)
    requires !IsLower(c.skill)
    ensures c !in RecommendCourses(SkillGap(userSkills, requiredSkills), courses)
  {
    SkillGapIsLower(userSkills, requiredSkills);
  }

  /** The lower-case forms of two example skill lists. */
  lemma ExampleLowerSets()
    ensures LowerSet(["Python", "SQL", "Docker"]) == {"python", "sql", "docker"}
    ensures LowerSet(["Python", "SQL"]) == {"python", "sql"}
  {
    assert LowerStr("Docker") == "docker";
    assert LowerStr("Python") == "python";
    assert LowerStr("SQL") == "sql";
  }

  /** Example: a user with Python and SQL, aiming at a career requiring
      Python, SQL and Docker, lacks exactly "docker", lower-cased. */
  lemma DockerGapExample(gap: set<string>)
    requires gap == SkillGap(["Python", "SQL"], ["Python", "SQL", "Docker"])
    ensures gap == {"docker"}
  {
    ExampleLowerSets();
  }

  /** With that gap, the course whose skill is "Docker" is not offered, while one whose
      skill is "docker" would be. */
  lemma DockerCourseExample(gap: set<string>)
    requires gap == {"docker"}
    ensures RecommendCourses(gap, [Course("Intro Docker", "Docker")]) == []
    ensures RecommendCourses(gap, [Course("Intro Docker", "docker")]) == [Course("Intro Docker", "docker")]
  {
  }
}
