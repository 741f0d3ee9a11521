# Skill-to-career matching, modelled in Dafny

This project models the matching core of a career-advice web application. The user
describes themselves in free text. The core then does four things:

1. **Skill extraction** (`skill_mapper.py`). `extract_skills` lower-cases the text. For each
   entry of the skill vocabulary, it checks whether the lower-cased entry, with one space
   on each side, occurs in the lower-cased text, also padded with one space on each side.
   Every entry that matches is returned once, spelled as in the vocabulary.
2. **Career ranking** (`recommender.py`, `recommend_careers`). A user with no skills gets
   an empty list. Otherwise every career of the catalog is paired with its similarity
   score. The pairs are then sorted by score, highest first, with Python's stable sort.
3. **Skill gap** (`analyze_skill_gap`). The gap is the lower-cased required skills minus
   the lower-cased user skills.
4. **Course matching** (`recommend_courses`). These are the courses, in catalog order,
   whose `skill` field is exactly an entry of the gap.

Modules and files:

- `strings.dfy` (module `Strings`): `str.lower()` on ASCII letters, and Python's
  substring test `needle in hay`, with a lemma equating it to "occurs at some offset".
- `skill_mapper.dfy` (module `SkillMapper`): the extractor is the method `ExtractSkills`,
  a loop over the vocabulary that adds to a set. It is proved equal to the set
  `Extracted(text, vocabulary)`. The lemmas about that set show that a match is a
  whole-word (or whole-phrase) match, that the case of the text does not matter, and
  two worked examples.
- `ranking.dfy` (module `Ranking`): careers, (career, score) pairs, and
  `recommendations.sort(key=score, reverse=True)` modelled as a stable insertion sort
  `SortByScore`. It is proved to be descending, a permutation and stable. It is also
  proved to be the only arrangement with those properties, so the result does not
  depend on Python's sorting algorithm.
- `recommender.dfy` (module `Recommender`): `RecommendCareers` (a loop that builds the
  pairs, then the sort), `SkillGap` and `RecommendCourses`.

Behaviour kept exactly as the code has it:

- The gap holds lower-cased names, but the course test is an exact, case-sensitive
  membership test. So a course whose `skill` contains a capital letter (for example
  "Docker") is never recommended. `CapitalizedCourseNeverRecommended` and
  `DockerCourseExample` state this.
- The code has no synonym resolution, no Jaccard scoring, no sorted extraction or gap
  output, and no courses with several skills: it uses TF-IDF and cosine similarity,
  plain vocabulary entries, unordered results, and one `skill` string per course.
  Neither does the model.

Abstractions of the model:

- `extract_skills` and `analyze_skill_gap` return `list(some_set)`, whose order Python
  does not specify. The model returns the set itself.
- `recommend_courses` tests membership in the gap list. Membership in a list is
  membership in the set of its elements, so the model takes the gap as a set.

## Model

| member | source | states |
|---|---|---|
| `Strings.LowerStrIsLower` | skill_mapper.py:7 | lower-casing leaves no upper-case letter and is idempotent |
| `Strings.SameIgnoringCaseLower` | skill_mapper.py:7 | two strings that differ only in letter case have the same lower-case form |
| `Strings.IsSubstringIff` | skill_mapper.py:11 | the left-to-right substring search succeeds exactly when the needle occurs at some offset of the haystack |
| `SkillMapper.ExtractSkills` | skill_mapper.py:1-13 | the loop returns exactly the vocabulary entries, in their original spelling, whose padded lower-case form occurs in the padded lower-case text; each entry at most once, since the result is a set |
| `SkillMapper.PaddedOccursIff` | skill_mapper.py:11 | the padded entry occurs in the padded text at an offset exactly when the entry occurs there with a space or a text end on each side |
| `SkillMapper.MentionsIff` | skill_mapper.py:9-11 | the extractor's test holds exactly when the lower-cased entry occurs in the lower-cased text bounded by spaces or the text's ends |
| `SkillMapper.SingleWordText` | skill_mapper.py:9-11 | for a text with no space, an entry matches exactly when it equals the whole text up to case, so it is never found inside a longer word |
| `SkillMapper.DelimitedInJoin` | skill_mapper.py:9-11 | a delimited occurrence of a space-free entry in `A + " " + B` lies wholly within `A` or within `B` |
| `SkillMapper.SplitAtSpace` | skill_mapper.py:9-11 | a one-word entry is found in two parts joined by a space exactly when it is found in one of the parts |
| `SkillMapper.MentionsWord` | skill_mapper.py:9-11 | a one-word entry is found in a text of space-separated words exactly when it equals one of those words up to case |
| `SkillMapper.ExtractedIgnoresCase` | skill_mapper.py:7-11 | changing the case of letters in the text does not change the extracted set |
| `SkillMapper.ExtractedWholeText` | skill_mapper.py:11-12 | a text equal, up to case, to a vocabulary entry yields that entry, spelled as in the vocabulary |
| `SkillMapper.ExtractedWithinVocabulary` | skill_mapper.py:6-13 | every extracted skill is a vocabulary entry; an empty vocabulary yields an empty result |
| `SkillMapper.GoNotInGoogling` | skill_mapper.py:9-11 | in "I love googling" the entry "Go" is not found |
| `SkillMapper.PythonSqlExample` | skill_mapper.py:6-13 | from the six words "I", "know", "Python", "and", "SQL", "well" joined by single spaces with vocabulary Python, SQL, Docker, exactly Python and SQL are extracted |
| `Ranking.Insert` | recommender.py:33 | inserting one pair adds exactly that pair: length grows by one and the multiset gains the pair |
| `Ranking.SortByScore` | recommender.py:33 | the sort keeps the length and is a permutation of its input |
| `Ranking.InsertDescending` | recommender.py:33 | inserting into a descending sequence keeps it descending |
| `Ranking.InsertWithScore` | recommender.py:33 | insertion keeps the relative order of the entries of each score, the inserted pair first among its ties |
| `Ranking.SortByScoreDescending` | recommender.py:33 | the sorted sequence has non-increasing scores |
| `Ranking.SortByScoreStable` | recommender.py:33 | for every score, the entries with that score keep their input order (the sort is stable) |
| `Ranking.StableOrderUnique` | recommender.py:33 | two descending sequences that agree, for every score, on the ordered list of entries with that score are equal, so the ranking is deterministic |
| `Ranking.SortByScoreCharacterized` | recommender.py:33 | the sorted result is the only descending arrangement that keeps the order of ties |
| `Ranking.WithScoreMembers` | recommender.py:33 | the per-score filter keeps exactly the entries with that score |
| `Recommender.RecommendCareers` | recommender.py:4-35 | no user skills gives the empty list; otherwise the result is a permutation of the pairs (career i, score i), one entry per catalog career, scores non-increasing, and ties in catalog order |
| `Recommender.SkillGap` | recommender.py:37-45 | every gap entry is lower-case, is the lower-case form of a required skill, and matches no user skill up to case; every required skill whose lower-case form no user skill has is in the gap |
| `Recommender.SkillGapIff` | recommender.py:41-44 | a required skill's lower-case form is in the gap exactly when no user skill has that lower-case form |
| `Recommender.SkillGapIgnoresCase` | recommender.py:41-42 | writing the user's or the career's skills in another letter case does not change the gap |
| `Recommender.RecommendCourses` | recommender.py:47-49 | the result is an order-preserving subsequence of the catalog; a course is in it exactly when its skill is literally in the gap, as often as in the catalog; an empty gap gives no courses |
| `Recommender.CapitalizedCourseNeverRecommended` | recommender.py:42-49 | a course whose skill contains an upper-case letter is never recommended for any computed gap |
| `Recommender.ExampleLowerSets` | recommender.py:41-42 | the lower-cased skill sets of the worked example are {python, sql, docker} and {python, sql} |
| `Recommender.DockerGapExample` | recommender.py:41-44 | a user with Python and SQL, against a career requiring Python, SQL and Docker, has the gap {"docker"} |
| `Recommender.DockerCourseExample` | recommender.py:49 | with that gap, a course whose skill is "Docker" is not offered, and one whose skill is "docker" is |

## Left out

- TF-IDF vectorisation and cosine similarity (recommender.py:11-22) are library calls that produce floating-point scores. The scores are an input to `RecommendCareers`: one `real` per career, in catalog order. The library's own failures are not modelled. For example, it raises an error for an empty career catalog or an empty vocabulary.
- Floating point: scores are exact reals. A NaN score, which would break the ordering, is not represented.
- `str.lower()` is modelled on ASCII letters only. Unicode case mappings, including ones that change a string's length, are not modelled.
- `RecommendCareers`: Python's `list.sort` is modelled by its result, a stable descending sort. It is not modelled as the in-place steps of Timsort. `StableOrderUnique` shows that any stable descending sort gives the same result.
- The order of the lists built from sets in `extract_skills` and `analyze_skill_gap` is not modelled: Python leaves it unspecified. Both return sets.
- Career and course records are JSON dictionaries. The model keeps only the fields the core reads: `required_skills`, and `skill` plus a name. A record that lacks such a field would make Python raise `KeyError`; this is not modelled.
- app.py (web routing, rendering, loading the catalogs at startup), data_loader.py (file and JSON I/O), youtube_service.py (video API client) and script.js (browser code) are not part of this model.
