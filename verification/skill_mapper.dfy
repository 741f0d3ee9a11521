/** Skill extraction: which entries of a skill vocabulary a free text mentions.
    An entry is mentioned when its lower-case form, with one space on each side,
    occurs in the lower-case text with one space on each side. */
module SkillMapper {
  import opened Strings

  /** A string with one space added on each side. */
  function Pad(s: string): (r: string)
    ensures |r| == |s| + 2 && r[0] == ' ' && r[|r| - 1] == ' '
    ensures r[1..|r| - 1] == s
  {
    " " + s + " "
  }

  /** The matching test of the extractor for one vocabulary entry. */
  predicate Mentions(text: string, skill: string)
  {
    IsSubstring(Pad(LowerStr(skill)), Pad(LowerStr(text)))
  }

  /** The set the extractor returns: the vocabulary entries the text mentions, as spelled in the vocabulary. */
  ghost function Extracted(text: string, skillsList: seq<string>): set<string>
  {
    set skill | skill in skillsList && Mentions(text, skill)
  }

  /** Walks the vocabulary once, adding each mentioned entry to the result set. */
  method ExtractSkills(text: string, skillsList: seq<string>) returns (found: set<string>)
    ensures found == Extracted(text, skillsList)
    ensures forall skill :: skill in found <==> skill in skillsList && Mentions(text, skill)
  {
    found := {};
    var textLower := LowerStr(text);
    for i := 0 to |skillsList|
      invariant found == Extracted(text, skillsList[..i])
    {
      var skill := skillsList[i];
      if IsSubstring(Pad(LowerStr(skill)), Pad(textLower)) {
        found := found + {skill};
      }
      assert skillsList[..i + 1] == skillsList[..i] + [skill];
    }
    assert skillsList[..|skillsList|] == skillsList;
  }

  // ---------------------------------------------------------------------------
  // What a match means

  /** `w` occurs in `t` at offset `i`, with a space or the end of `t` on each side. */
  ghost predicate DelimitedAt(w: string, t: string, i: int)
  {
    OccursAt(w, t, i)
    && (i == 0 || t[i - 1] == ' ')
    && (i + |w| == |t| || t[i + |w|] == ' ')
  }

  /** Padded occurrence is exactly a space-delimited occurrence. */
  lemma PaddedOccursIff(w: string, t: string, i: int)
    ensures OccursAt(Pad(w), Pad(t), i) <==> DelimitedAt(w, t, i)
  {
    var N, P := Pad(w), Pad(t);
    if OccursAt(N, P, i) {
      assert P[i..i + |N|][0] == N[0];
      assert P[i..i + |N|][|N| - 1] == N[|N| - 1];
      forall k | 0 <= k < |w|
        ensures t[i + k] == w[k]
      {
        assert P[i..i + |N|][k + 1] == N[k + 1];
      }
      assert t[i..i + |w|] == w;
      if i + |w| < |t| {
        assert P[i + |w| + 1] == t[i + |w|];
      }
    }
    if DelimitedAt(w, t, i) {
      forall k | 0 <= k < |N|
        ensures P[i + k] == N[k]
      {
        if 0 < k < |N| - 1 {
          assert t[i..i + |w|][k - 1] == w[k - 1];
        }
      }
      assert P[i..i + |N|] == N;
    }
  }

  /** The extractor's test holds exactly when the lower-cased entry occurs in the
      lower-cased text bounded by spaces or the text's ends: a whole-word (or whole-phrase) match. */
  lemma MentionsIff(text: string, skill: string)
    ensures Mentions(text, skill)
            <==> exists i :: DelimitedAt(LowerStr(skill), LowerStr(text), i)
  {
    var w, t := LowerStr(skill), LowerStr(text);
    IsSubstringIff(Pad(w), Pad(t));
    if Mentions(text, skill) {
      var i :| OccursAt(Pad(w), Pad(t), i);
      PaddedOccursIff(w, t, i);
      assert DelimitedAt(w, t, i);
      assert exists j :: DelimitedAt(LowerStr(skill), LowerStr(text), j);
    } else {
      forall i | DelimitedAt(w, t, i)
        ensures false
      {
        PaddedOccursIff(w, t, i);
      }
    }
  }

  /** A string with no space in it. */
  predicate NoSpace(s: string)
  {
    forall k :: 0 <= k < |s| ==> s[k] != ' '
  }

  /** When the text is a single word, an entry matches exactly when it equals that word up to case:
      an entry is never found inside a longer word. */
  lemma SingleWordText(text: string, skill: string)
    requires NoSpace(text)
    ensures Mentions(text, skill) <==> LowerStr(skill) == LowerStr(text)
  {
    var w, t := LowerStr(skill), LowerStr(text);
    MentionsIff(text, skill);
    LowerStrSpaces(text);
    if Mentions(text, skill) {
      var i :| DelimitedAt(w, t, i);
      assert i == 0;
      assert i + |w| == |t|;
      assert t[..|t|] == t;
    }
    if w == t {
      assert t[0..|w|] == t;
      assert DelimitedAt(w, t, 0);
    }
  }

  /** An occurrence of a word without spaces covers no space of the string it occurs in. */
  lemma OccurrenceHasNoSpace(w: string, t: string, i: int, p: int)
    requires NoSpace(w) && OccursAt(w, t, i) && i <= p < i + |w|
    ensures t[p] != ' '
  {
    assert t[i..i + |w|][p - i] == t[p];
  }

  /** A delimited occurrence in `A + " " + B` of a word without spaces lies within `A` or within `B`. */
  lemma DelimitedInJoin(w: string, A: string, B: string, i: int)
    requires NoSpace(w) && DelimitedAt(w, A + " " + B, i)
    ensures DelimitedAt(w, A, i) || DelimitedAt(w, B, i - |A| - 1)
  {
    var T := A + " " + B;
    if i <= |A| < i + |w| {
      OccurrenceHasNoSpace(w, T, i, |A|);
    }
    if i + |w| <= |A| {
      assert T[i..i + |w|] == A[i..i + |w|];
      if i > 0 { assert T[i - 1] == A[i - 1]; }
      if i + |w| < |A| { assert T[i + |w|] == A[i + |w|]; }
    } else {
      var j := i - |A| - 1;
      assert j >= 0;
      assert T[i..i + |w|] == B[j..j + |w|];
      if j > 0 { assert T[i - 1] == B[j - 1]; }
      if j + |w| < |B| { assert T[i + |w|] == B[j + |w|]; }
    }
  }

  /** A delimited occurrence in `A` stays delimited in `A + " " + B`. */
  lemma DelimitedLeftOfJoin(w: string, A: string, B: string, i: int)
    requires DelimitedAt(w, A, i)
    ensures DelimitedAt(w, A + " " + B, i)
  {
    var T := A + " " + B;
    assert T[i..i + |w|] == A[i..i + |w|];
    if i > 0 { assert T[i - 1] == A[i - 1]; }
  }

  /** A delimited occurrence in `B` stays delimited in `A + " " + B`, shifted by `|A| + 1`. */
  lemma DelimitedRightOfJoin(w: string, A: string, B: string, j: int)
    requires DelimitedAt(w, B, j)
    ensures DelimitedAt(w, A + " " + B, j + |A| + 1)
  {
    var T, i := A + " " + B, j + |A| + 1;
    assert T[i..i + |w|] == B[j..j + |w|];
    if j + |w| < |B| { assert T[i + |w|] == B[j + |w|]; }
  }

  /** Lower-casing keeps the joining space. */
  lemma LowerStrJoin(a: string, b: string)
    ensures LowerStr(a + " " + b) == LowerStr(a) + " " + LowerStr(b)
  {
    assert a + " " + b == a + (" " + b);
    LowerStrAppend(a, " " + b);
    LowerStrAppend(" ", b);
    assert LowerStr(" ") == " ";
  }

  /** For a one-word entry, a text of two parts joined by a space mentions the entry
      exactly when one of the parts does: matches never straddle a space. */
  lemma SplitAtSpace(a: string, b: string, skill: string)
    requires NoSpace(skill)
    ensures Mentions(a + " " + b, skill) <==> Mentions(a, skill) || Mentions(b, skill)
  {
    var w, A, B := LowerStr(skill), LowerStr(a), LowerStr(b);
    LowerStrJoin(a, b);
    LowerStrSpaces(skill);
    MentionsIff(a + " " + b, skill);
    MentionsIff(a, skill);
    MentionsIff(b, skill);
    if Mentions(a + " " + b, skill) {
      var i :| DelimitedAt(w, A + " " + B, i);
      DelimitedInJoin(w, A, B, i);
    }
    if Mentions(a, skill) {
      var i :| DelimitedAt(w, A, i);
      DelimitedLeftOfJoin(w, A, B, i);
    }
    if Mentions(b, skill) {
      var j :| DelimitedAt(w, B, j);
      DelimitedRightOfJoin(w, A, B, j);
    }
  }

  /** Words joined by single spaces: the inverse of Python's `text.split(' ')`. */
  function Join(words: seq<string>): (text: string)
    requires |words| > 0
  {
    if |words| == 1 then words[0] else words[0] + " " + Join(words[1..])
  }

  /** Some word of `words` equals `skill` up to case. */
  ghost predicate HasWord(words: seq<string>, skill: string)
  {
    exists k :: 0 <= k < |words| && LowerStr(words[k]) == LowerStr(skill)
  }

  /** A word list has the word exactly when its first word is it or the rest has it. */
  lemma HasWordCons(words: seq<string>, skill: string)
    requires |words| > 0
    ensures HasWord(words, skill)
            <==> LowerStr(words[0]) == LowerStr(skill) || HasWord(words[1..], skill)
  {
    if HasWord(words, skill) {
      var k :| 0 <= k < |words| && LowerStr(words[k]) == LowerStr(skill);
      if k > 0 {
        assert LowerStr(words[1..][k - 1]) == LowerStr(skill);
      }
    }
    if HasWord(words[1..], skill) {
      var k :| 0 <= k < |words| - 1 && LowerStr(words[1..][k]) == LowerStr(skill);
      assert LowerStr(words[k + 1]) == LowerStr(skill);
    }
  }

  /** A one-word entry is mentioned in a text of space-separated words exactly when
      it equals one of those words up to case; it is never found inside a longer word. */
  lemma {:induction false} MentionsWord(words: seq<string>, skill: string)
    requires |words| > 0 && NoSpace(skill)
    requires forall k :: 0 <= k < |words| ==> NoSpace(words[k])
    ensures Mentions(Join(words), skill)
            <==> exists k :: 0 <= k < |words| && LowerStr(words[k]) == LowerStr(skill)
  {
    SingleWordText(words[0], skill);
    HasWordCons(words, skill);
    if |words| > 1 {
      SplitAtSpace(words[0], Join(words[1..]), skill);
      MentionsWord(words[1..], skill);
      assert Mentions(Join(words[1..]), skill) <==> HasWord(words[1..], skill);
    } else {
      assert !HasWord(words[1..], skill);
    }
  }

  // ---------------------------------------------------------------------------
  // Properties of the extracted set

  /** Changing the case of letters in the text does not change the extracted set. */
  lemma ExtractedIgnoresCase(text1: string, text2: string, skillsList: seq<string>)
    requires SameIgnoringCase(text1, text2)
    ensures Extracted(text1, skillsList) == Extracted(text2, skillsList)
  {
    SameIgnoringCaseLower(text1, text2);
  }

  /** A text equal, up to case, to a vocabulary entry yields that entry, in the vocabulary's spelling. */
  lemma ExtractedWholeText(text: string, skillsList: seq<string>, skill: string)
    requires skill in skillsList && LowerStr(skill) == LowerStr(text)
    ensures skill in Extracted(text, skillsList)
  {
    var t := LowerStr(text);
    assert t[0..|t|] == t;
    assert DelimitedAt(t, t, 0);
    MentionsIff(text, skill);
  }

  /** An empty vocabulary yields nothing, and every result is a vocabulary entry. */
  lemma ExtractedWithinVocabulary(text: string, skillsList: seq<string>)
    ensures forall skill :: skill in Extracted(text, skillsList) ==> skill in skillsList
    ensures skillsList == [] ==> Extracted(text, skillsList) == {}
  {
  }

  /** Example: "Go" is not found in "I love googling", since it is only the start of a longer word. */
  lemma GoNotInGoogling()
    ensures Join(["I", "love", "googling"]) == "I love googling"
    ensures Extracted(Join(["I", "love", "googling"]), ["Go"]) == {}
  {
    MentionsWord(["I", "love", "googling"], "Go");
  }

  /** The words of an example text; joined by single spaces they read "I know Python and SQL well". */
  function ExampleWords(): seq<string>
  {
    ["I", "know", "Python", "and", "SQL", "well"]
  }

  lemma ExampleFindsPythonAndSql(text: string)
    requires text == Join(ExampleWords())
    ensures Mentions(text, "Python") && Mentions(text, "SQL")
  {
    var words := ExampleWords();
    MentionsWord(words, "Python");
    MentionsWord(words, "SQL");
    assert LowerStr(words[2]) == LowerStr("Python");
    assert LowerStr(words[4]) == LowerStr("SQL");
  }

  lemma ExampleMissesDocker(text: string)
    requires text == Join(ExampleWords())
    ensures !Mentions(text, "Docker")
  {
    var words := ExampleWords();
    MentionsWord(words, "Docker");
    forall k | 0 <= k < |words|
      ensures LowerStr(words[k]) != LowerStr("Docker")
    {
      if k == 2 {
        assert LowerStr("Python")[0] != LowerStr("Docker")[0];
      }
    }
  }

  /** Example: from the six example words joined by single spaces, with the vocabulary
      Python, SQL and Docker, Python and SQL are found and Docker is not. */
  lemma PythonSqlExample(text: string)
    requires text == Join(ExampleWords())
    ensures Extracted(text, ["Python", "SQL", "Docker"]) == {"Python", "SQL"}
  {
    ExampleFindsPythonAndSql(text);
    ExampleMissesDocker(text);
    var vocabulary := ["Python", "SQL", "Docker"];
    forall skill | skill in Extracted(text, vocabulary)
      ensures skill in {"Python", "SQL"}
    {
      assert skill == "Python" || skill == "SQL" || skill == "Docker";
    }
  }
}
