/**
 * The resume parser: the page texts of an uploaded PDF are joined into one
 * document, the fields of a resume are extracted from it (a name from the
 * named entities, emails and phone numbers by regular expression, skills
 * from a fixed vocabulary, education and project lines and profile
 * sentences by keyword), and the results become one fixed-shape record.
 *
 * The PDF library and the NLP engine are not modelled: the page texts, the
 * entities and the sentences are inputs.
 */
module ResumeParser {
  import opened Wrappers
  import opened Strings
  import opened Patterns

  // ============================================================ page text

  /** A page without a text layer reads as empty. */
  function PageText(t: Option<string>): string {
    t.GetOr("")
  }

  function PageTexts(pages: seq<Option<string>>): seq<string> {
    seq(|pages|, i requires 0 <= i < |pages| => PageText(pages[i]))
  }

  /** The page loop: every page's text is appended in page order, and the
      parts are joined with a blank line between consecutive pages; no page
      marker is inserted. */
  method AssembleText(pages: seq<Option<string>>) returns (allText: string)
    ensures allText == Join(PageTexts(pages), "\n\n")
  {
    var parts: seq<string> := [];
    for i := 0 to |pages|
      invariant parts == PageTexts(pages[..i])
    {
      assert PageTexts(pages[..i + 1]) == PageTexts(pages[..i]) + [PageText(pages[i])];
      parts := parts + [PageText(pages[i])];
    }
    assert pages[..|pages|] == pages;
    allText := Join(parts, "\n\n");
  }

  /** Every page's text occurs in the document. */
  lemma AssembledPageOccurs(pages: seq<Option<string>>, i: nat)
    requires i < |pages|
    ensures Contains(Join(PageTexts(pages), "\n\n"), PageText(pages[i]))
  {
    JoinContainsPart(PageTexts(pages), "\n\n", i);
  }

  /** One more page adds a blank line and its text at the end. */
  lemma {:induction false} AssembledNextPage(pages: seq<Option<string>>, t: Option<string>)
    ensures Join(PageTexts(pages + [t]), "\n\n") ==
      if pages == [] then PageText(t) else Join(PageTexts(pages), "\n\n") + "\n\n" + PageText(t)
  {
    assert PageTexts(pages + [t]) == PageTexts(pages) + [PageText(t)];
    JoinSnoc(PageTexts(pages), PageText(t), "\n\n");
  }

  /** The document is empty exactly when there is at most one page and it
      has no text: two pages always leave their separator behind. */
  lemma {:induction false} AssembledEmptyIff(pages: seq<Option<string>>)
    ensures Join(PageTexts(pages), "\n\n") == "" <==>
      |pages| <= 1 && forall i | 0 <= i < |pages| :: PageText(pages[i]) == ""
  {
    var parts := PageTexts(pages);
    if |pages| > 1 {
      assert Join(parts, "\n\n") == parts[0] + "\n\n" + Join(parts[1..], "\n\n");
    }
  }

  // ================================================================= name

  /** A named entity as the NLP engine reports it: its text and its label (`kind`). */
  datatype Entity = Entity(text: string, kind: string)

  /** The texts of the entities labelled `PERSON`, in order. */
  function PersonNames(ents: seq<Entity>): seq<string> {
    if ents == [] then []
    else (if ents[0].kind == "PERSON" then [ents[0].text] else []) + PersonNames(ents[1..])
  }

  /** The person names are the texts of the entities labelled PERSON, and
      the first of them is the text of the first such entity. */
  lemma {:induction false} PersonNamesFirst(ents: seq<Entity>)
    ensures PersonNames(ents) == [] <==> forall i | 0 <= i < |ents| :: ents[i].kind != "PERSON"
    ensures forall i | 0 <= i < |ents| && ents[i].kind == "PERSON" &&
                       (forall j | 0 <= j < i :: ents[j].kind != "PERSON") ::
              PersonNames(ents)[0] == ents[i].text
  {
    if ents != [] {
      PersonNamesFirst(ents[1..]);
      if ents[0].kind != "PERSON" {
        forall i | 0 < i < |ents| && ents[i].kind == "PERSON" &&
                   (forall j | 0 <= j < i :: ents[j].kind != "PERSON")
          ensures PersonNames(ents)[0] == ents[i].text
        {
          assert ents[1..][i - 1] == ents[i];
          forall j | 0 <= j < i - 1 ensures ents[1..][j].kind != "PERSON" {
            assert ents[1..][j] == ents[j + 1];
          }
        }
        forall i | 0 < i < |ents| ensures ents[i].kind == ents[1..][i - 1].kind { }
      }
    }
  }

  /** The name field: the text of the first PERSON entity, in the order
      the engine reports them, or `"N/A"` when there is none. */
  function Name(ents: seq<Entity>): (name: string)
    ensures (forall i | 0 <= i < |ents| :: ents[i].kind != "PERSON") ==> name == "N/A"
    ensures forall i | 0 <= i < |ents| && ents[i].kind == "PERSON" &&
                       (forall j | 0 <= j < i :: ents[j].kind != "PERSON") ::
              name == ents[i].text
  {
    PersonNamesFirst(ents);
    var names := PersonNames(ents);
    if names != [] then names[0] else "N/A"
  }

  // =============================================================== skills

  const SkillsList: seq<string> := [
    "Python", "Java", "PHP", "SQL", "Pandas", "NumPy",
    "Matplotlib", "Seaborn", "Tableau", "Machine Learning",
    "Deep Learning", "HTML", "CSS", "JavaScript", "Statistics",
    "Logistic Regression", "Random Forest", "KNN", "SVR"]

  /** The skill occurs in the text once both are lower-cased. */
  predicate SkillIn(skill: string, text: string) {
    Contains(Lower(text), Lower(skill))
  }

  /** The skills of `vocab` that occur in `text`, ignoring case, in
      vocabulary order. */
  function FoundSkills(vocab: seq<string>, text: string): (r: seq<string>)
    ensures |r| <= |vocab|
    ensures forall s :: s in r <==> s in vocab && SkillIn(s, text)
  {
    if vocab == [] then []
    else (if SkillIn(vocab[0], text) then [vocab[0]] else []) + FoundSkills(vocab[1..], text)
  }

  /** `a` is `b` with some elements left out, the rest in their order. */
  predicate Subsequence<T(==)>(a: seq<T>, b: seq<T>)
    decreases |b|
  {
    || a == []
    || (b != [] && ((a[0] == b[0] && Subsequence(a[1..], b[1..])) || Subsequence(a, b[1..])))
  }

  predicate Distinct<T(==)>(s: seq<T>) {
    forall i, j | 0 <= i < j < |s| :: s[i] != s[j]
  }

  /** The found skills are a subsequence of the vocabulary. */
  lemma {:induction false} FoundSkillsSubsequence(vocab: seq<string>, text: string)
    ensures Subsequence(FoundSkills(vocab, text), vocab)
  {
    if vocab != [] {
      FoundSkillsSubsequence(vocab[1..], text);
      var rest := FoundSkills(vocab[1..], text);
      if SkillIn(vocab[0], text) {
        assert ([vocab[0]] + rest)[1..] == rest;
      } else {
        assert [] + rest == rest;
      }
    }
  }

  /** A vocabulary without repetitions yields found skills without them. */
  lemma {:induction false} FoundSkillsDistinct(vocab: seq<string>, text: string)
    requires Distinct(vocab)
    ensures Distinct(FoundSkills(vocab, text))
  {
    if vocab != [] {
      var tail := vocab[1..];
      assert Distinct(tail) by {
        forall i, j | 0 <= i < j < |tail| ensures tail[i] != tail[j] {
          assert tail[i] == vocab[i + 1] && tail[j] == vocab[j + 1];
        }
      }
      FoundSkillsDistinct(tail, text);
      var rest := FoundSkills(tail, text);
      if SkillIn(vocab[0], text) {
        assert vocab[0] !in tail by {
          forall j | 0 <= j < |tail| ensures tail[j] != vocab[0] {
            assert tail[j] == vocab[j + 1];
          }
        }
        var r := [vocab[0]] + rest;
        forall i, j | 0 <= i < j < |r| ensures r[i] != r[j] {
          if i == 0 {
            assert r[j] == rest[j - 1];
            assert r[j] in rest;
          } else {
            assert r[i] == rest[i - 1] && r[j] == rest[j - 1];
          }
        }
      } else {
        assert [] + rest == rest;
      }
    }
  }

  /** The skill test ignores the case of the text. */
  lemma SkillsIgnoreCase(vocab: seq<string>, text: string)
    ensures FoundSkills(vocab, text) == FoundSkills(vocab, Lower(text))
  {
    LowerIdempotent(text);
  }

  /** A skill whose lower-case form lies inside another's is found whenever
      that other one is: the test is a plain substring test. */
  lemma SkillInsideSkill(vocab: seq<string>, text: string, a: string, b: string)
    requires a in vocab && Contains(Lower(b), Lower(a)) && b in FoundSkills(vocab, text)
    ensures a in FoundSkills(vocab, text)
  {
    ContainsTrans(Lower(text), Lower(b), Lower(a));
  }

  /** "Java" is found in any text that mentions JavaScript. */
  lemma JavaInJavaScript(text: string)
    requires SkillIn("JavaScript", text)
    ensures "Java" in FoundSkills(SkillsList, text) && "JavaScript" in FoundSkills(SkillsList, text)
  {
    var a, b := "Java", "JavaScript";
    assert a == SkillsList[1] && b == SkillsList[13];
    assert Lower(b)[0..4] == Lower(a);
    assert OccursAt(Lower(b), Lower(a), 0);
    SkillInsideSkill(SkillsList, text, a, b);
  }

  /** The vocabulary has no repetitions, so neither has any list of found skills. */
  lemma {:induction false} SkillsListDistinct()
    ensures Distinct(SkillsList)
  {
    SkillsDistinctFirst();
    SkillsDistinctMiddle();
    SkillsDistinctLast();
  }

  lemma {:induction false} SkillsDistinctFirst()
    ensures forall i, j | 0 <= i < 6 && i < j < |SkillsList| :: SkillsList[i] != SkillsList[j]
  {
    assert forall j | 0 < j < |SkillsList| :: SkillsList[0] != SkillsList[j];
    assert forall j | 1 < j < |SkillsList| :: SkillsList[1] != SkillsList[j];
    assert forall j | 2 < j < |SkillsList| :: SkillsList[2] != SkillsList[j];
    assert forall j | 3 < j < |SkillsList| :: SkillsList[3] != SkillsList[j];
    assert forall j | 4 < j < |SkillsList| :: SkillsList[4] != SkillsList[j];
    assert forall j | 5 < j < |SkillsList| :: SkillsList[5] != SkillsList[j];
  }

  lemma {:induction false} SkillsDistinctMiddle()
    ensures forall i, j | 6 <= i < 12 && i < j < |SkillsList| :: SkillsList[i] != SkillsList[j]
  {
    assert forall j | 6 < j < |SkillsList| :: SkillsList[6] != SkillsList[j];
    assert forall j | 7 < j < |SkillsList| :: SkillsList[7] != SkillsList[j];
    assert forall j | 8 < j < |SkillsList| :: SkillsList[8] != SkillsList[j];
    assert forall j | 9 < j < |SkillsList| :: SkillsList[9] != SkillsList[j];
    assert forall j | 10 < j < |SkillsList| :: SkillsList[10] != SkillsList[j];
    assert forall j | 11 < j < |SkillsList| :: SkillsList[11] != SkillsList[j];
  }

  lemma {:induction false} SkillsDistinctLast()
    ensures forall i, j | 12 <= i < 18 && i < j < |SkillsList| :: SkillsList[i] != SkillsList[j]
  {
    assert forall j | 12 < j < |SkillsList| :: SkillsList[12] != SkillsList[j];
    assert forall j | 13 < j < |SkillsList| :: SkillsList[13] != SkillsList[j];
    assert forall j | 14 < j < |SkillsList| :: SkillsList[14] != SkillsList[j];
    assert forall j | 15 < j < |SkillsList| :: SkillsList[15] != SkillsList[j];
    assert forall j | 16 < j < |SkillsList| :: SkillsList[16] != SkillsList[j];
    assert forall j | 17 < j < |SkillsList| :: SkillsList[17] != SkillsList[j];
  }

  // ============================================================ filtering

  /** The items that pass `keep`, each stripped, in order. */
  function Kept(items: seq<string>, keep: string -> bool): (r: seq<string>)
    ensures |r| <= |items|
  {
    if items == [] then []
    else (if keep(items[0]) then [Strip(items[0])] else []) + Kept(items[1..], keep)
  }

  /** `x` is the stripped form of one of the items that pass the test. */
  predicate StrippedFrom(items: seq<string>, keep: string -> bool, x: string) {
    exists i | 0 <= i < |items| :: keep(items[i]) && x == Strip(items[i])
  }

  /** Every kept item is the stripped form of an item that passes the test. */
  lemma {:induction false} KeptSound(items: seq<string>, keep: string -> bool)
    ensures forall k | 0 <= k < |Kept(items, keep)| :: StrippedFrom(items, keep, Kept(items, keep)[k])
  {
    forall k | 0 <= k < |Kept(items, keep)|
      ensures StrippedFrom(items, keep, Kept(items, keep)[k])
    {
      var i := KeptOrigin(items, keep, k);
    }
  }

  lemma {:induction false} KeptOrigin(items: seq<string>, keep: string -> bool, k: nat) returns (i: nat)
    requires k < |Kept(items, keep)|
    ensures i < |items| && keep(items[i]) && Kept(items, keep)[k] == Strip(items[i])
  {
    var rest := Kept(items[1..], keep);
    var h := if keep(items[0]) then [Strip(items[0])] else [];
    assert Kept(items, keep) == h + rest;
    if k < |h| {
      i := 0;
    } else {
      var j := KeptOrigin(items[1..], keep, k - |h|);
      i := j + 1;
      assert items[1..][j] == items[i];
    }
  }

  /** The filter works item by item: filtering a concatenation concatenates
      the results, and a single item is kept, stripped, exactly when it
      passes the test.  Together these fix the order and the duplicates. */
  lemma {:induction false} KeptAppend(a: seq<string>, b: seq<string>, keep: string -> bool)
    ensures Kept(a + b, keep) == Kept(a, keep) + Kept(b, keep)
  {
    if a == [] {
      assert a + b == b;
    } else {
      var x, rest := a[0], a[1..];
      var h := if keep(x) then [Strip(x)] else [];
      assert a == [x] + rest;
      assert a + b == [x] + (rest + b);
      KeptAppend(rest, b, keep);
      KeptCons(x, rest + b, keep);
      KeptCons(x, rest, keep);
      AppendAssoc(h, Kept(rest, keep), Kept(b, keep));
    }
  }

  /** Filtering a list that starts with `x`. */
  lemma KeptCons(x: string, rest: seq<string>, keep: string -> bool)
    ensures Kept([x] + rest, keep) == (if keep(x) then [Strip(x)] else []) + Kept(rest, keep)
  {
    assert ([x] + rest)[1..] == rest;
  }

  lemma KeptOne(x: string, keep: string -> bool)
    ensures Kept([x], keep) == if keep(x) then [Strip(x)] else []
  {
    assert [x][1..] == [];
  }

  /** Every item that passes the test is in the result. */
  lemma {:induction false} KeptComplete(items: seq<string>, keep: string -> bool, i: nat)
    requires i < |items| && keep(items[i])
    ensures Strip(items[i]) in Kept(items, keep)
  {
    var x, rest := items[0], items[1..];
    assert items == [x] + rest;
    KeptCons(x, rest, keep);
    if i > 0 {
      assert rest[i - 1] == items[i];
      KeptComplete(rest, keep, i - 1);
    }
  }

  /** Some keyword occurs in the line (case-sensitive). */
  predicate HasKeyword(keys: seq<string>, line: string) {
    exists k | 0 <= k < |keys| :: Contains(line, keys[k])
  }

  function KeywordTest(keys: seq<string>): string -> bool {
    line => HasKeyword(keys, line)
  }

  /** Words that begin and end with a non-space character. */
  predicate Trimmed(keys: seq<string>) {
    forall k | 0 <= k < |keys| :: keys[k] != "" && !IsSpace(keys[k][0]) && !IsSpace(keys[k][|keys[k]| - 1])
  }

  const EducationKeywords: seq<string> := ["Bachelors", "Masters", "+2", "School", "College", "University"]

  const ProjectsKeywords: seq<string> :=
    ["Project", "PROJECT", "projects", "ACADEMIC PROJECTS", "Mini Projects"]

  /** The lines of the text that hold a keyword, stripped. */
  function KeywordLines(text: string, keys: seq<string>): seq<string> {
    Kept(Split(text, '\n'), KeywordTest(keys))
  }

  function EducationLines(text: string): seq<string> {
    KeywordLines(text, EducationKeywords)
  }

  function ProjectLines(text: string): seq<string> {
    KeywordLines(text, ProjectsKeywords)
  }

  /** Stripping a line keeps its keyword, since no keyword begins or ends
      with whitespace; the kept lines are single lines; and there are no
      more of them than lines of text. */
  lemma {:induction false} KeywordLinesShape(text: string, keys: seq<string>)
    requires Trimmed(keys)
    ensures |KeywordLines(text, keys)| <= |Split(text, '\n')|
    ensures forall k | 0 <= k < |KeywordLines(text, keys)| ::
      HasKeyword(keys, KeywordLines(text, keys)[k]) && '\n' !in KeywordLines(text, keys)[k]
  {
    var lines := Split(text, '\n');
    var r := KeywordLines(text, keys);
    forall k | 0 <= k < |r| ensures HasKeyword(keys, r[k]) && '\n' !in r[k] {
      var i := KeptOrigin(lines, KeywordTest(keys), k);
      assert HasKeyword(keys, lines[i]);
      var j :| 0 <= j < |keys| && Contains(lines[i], keys[j]);
      StripKeepsPiece(lines[i], keys[j]);
      StripKeepsOut(lines[i], '\n');
    }
  }

  /** The kept lines are exactly the lines that hold a keyword, the test
      being case-sensitive: a line is kept precisely when it passes. */
  lemma KeywordLineKept(text: string, keys: seq<string>, i: nat)
    requires i < |Split(text, '\n')| && HasKeyword(keys, Split(text, '\n')[i])
    ensures Strip(Split(text, '\n')[i]) in KeywordLines(text, keys)
  {
    KeptComplete(Split(text, '\n'), KeywordTest(keys), i);
  }

  lemma KeywordListsTrimmed()
    ensures Trimmed(EducationKeywords) && Trimmed(ProjectsKeywords)
  {
  }

  /** The profile test: the lower-cased sentence mentions being passionate
      or skilled. */
  predicate ProfileTest(sent: string) {
    Contains(Lower(sent), "passionate") || Contains(Lower(sent), "skilled")
  }

  function ProfileSentences(sents: seq<string>): seq<string> {
    Kept(sents, ProfileTest)
  }

  /** Every kept sentence, stripped, still passes the test. */
  lemma {:induction false} ProfileSentencesPass(sents: seq<string>)
    ensures forall k | 0 <= k < |ProfileSentences(sents)| :: ProfileTest(ProfileSentences(sents)[k])
  {
    var r := ProfileSentences(sents);
    forall k | 0 <= k < |r| ensures ProfileTest(r[k]) {
      var i := KeptOrigin(sents, ProfileTest, k);
      LowerStrip(sents[i]);
      var w1, w2 := "passionate", "skilled";
      assert w1[0] == 'p' && w1[|w1| - 1] == 'e' && w2[0] == 's' && w2[|w2| - 1] == 'd';
      if Contains(Lower(sents[i]), w1) {
        StripKeepsPiece(Lower(sents[i]), w1);
      } else {
        StripKeepsPiece(Lower(sents[i]), w2);
      }
    }
  }

  // =============================================================== record

  /** The seven fields of a parsed resume, in the order of the record. */
  datatype ParsedRecord = ParsedRecord(
    name: string, emails: string, phones: string, skills: string,
    education: string, projects: string, profile: string)

  /** The lists the fields are made from, before they are joined. */
  datatype Extracted = Extracted(
    name: string, emails: seq<string>, phones: seq<string>, skills: seq<string>,
    education: seq<string>, projects: seq<string>, profile: seq<string>)

  /** All fields of one resume: the entities and sentences come from the NLP
      engine, the rest from the document text. */
  function Extract(ents: seq<Entity>, sents: seq<string>, allText: string): Extracted {
    Extracted(
      Name(ents), FindEmails(allText), FindPhones(allText), FoundSkills(SkillsList, allText),
      EducationLines(allText), ProjectLines(allText), ProfileSentences(sents))
  }

  /** What each extracted list holds: email tokens, phone-shaped matches,
      skills of the list in its order without repeats, lines holding an
      education or project keyword, and profile sentences. */
  lemma ExtractSound(ents: seq<Entity>, sents: seq<string>, allText: string)
    ensures var x := Extract(ents, sents, allText);
      && (forall k | 0 <= k < |x.emails| :: IsEmailToken(x.emails[k]))
      && (forall k | 0 <= k < |x.phones| :: IsPhone(x.phones[k]))
      && Subsequence(x.skills, SkillsList) && Distinct(x.skills)
      && (forall k | 0 <= k < |x.education| :: HasKeyword(EducationKeywords, x.education[k]))
      && (forall k | 0 <= k < |x.projects| :: HasKeyword(ProjectsKeywords, x.projects[k]))
      && (forall k | 0 <= k < |x.profile| :: ProfileTest(x.profile[k]))
  {
    FoundSkillsSubsequence(SkillsList, allText);
    SkillsListDistinct();
    FoundSkillsDistinct(SkillsList, allText);
    KeywordListsTrimmed();
    KeywordLinesShape(allText, EducationKeywords);
    KeywordLinesShape(allText, ProjectsKeywords);
    ProfileSentencesPass(sents);
  }

  /** The items joined by `sep`, or `none` when there are none. */
  function JoinedOr(items: seq<string>, sep: string, none: string): string {
    if items == [] then none else Join(items, sep)
  }

  /** The record that is persisted: an empty list becomes `""`. */
  function Persisted(x: Extracted): ParsedRecord {
    ParsedRecord(
      x.name, JoinedOr(x.emails, ", ", ""), JoinedOr(x.phones, ", ", ""), JoinedOr(x.skills, ", ", ""),
      JoinedOr(x.education, "\n", ""), JoinedOr(x.projects, "\n", ""), JoinedOr(x.profile, "\n", ""))
  }

  /** The fields as displayed: an empty list is shown as `"N/A"`. */
  function Displayed(x: Extracted): ParsedRecord {
    ParsedRecord(
      x.name, JoinedOr(x.emails, ", ", "N/A"), JoinedOr(x.phones, ", ", "N/A"), JoinedOr(x.skills, ", ", "N/A"),
      JoinedOr(x.education, "\n", "N/A"), JoinedOr(x.projects, "\n", "N/A"), JoinedOr(x.profile, "\n", "N/A"))
  }

  predicate NoEmptyItem(items: seq<string>) {
    forall k | 0 <= k < |items| :: items[k] != ""
  }

  /** No extracted item is empty: a match, a skill, a line with a keyword
      and a sentence with a profile word all have characters. */
  lemma {:induction false} ExtractedItemsNonEmpty(ents: seq<Entity>, sents: seq<string>, allText: string)
    ensures var x := Extract(ents, sents, allText);
      && NoEmptyItem(x.emails) && NoEmptyItem(x.phones) && NoEmptyItem(x.skills)
      && NoEmptyItem(x.education) && NoEmptyItem(x.projects) && NoEmptyItem(x.profile)
  {
    SkillsNonEmpty(allText);
    KeywordListsTrimmed();
    KeywordLinesNonEmpty(allText, EducationKeywords);
    KeywordLinesNonEmpty(allText, ProjectsKeywords);
    ProfileNonEmpty(sents);
  }

  lemma {:induction false} SkillsNonEmpty(text: string)
    ensures NoEmptyItem(FoundSkills(SkillsList, text))
  {
    assert forall k | 0 <= k < |SkillsList| :: SkillsList[k] != "";
    var r := FoundSkills(SkillsList, text);
    forall k | 0 <= k < |r| ensures r[k] != "" {
      assert r[k] in r;
    }
  }

  lemma {:induction false} KeywordLinesNonEmpty(text: string, keys: seq<string>)
    requires Trimmed(keys)
    ensures NoEmptyItem(KeywordLines(text, keys))
  {
    KeywordLinesShape(text, keys);
    var r := KeywordLines(text, keys);
    forall k | 0 <= k < |r| ensures r[k] != "" {
      var j :| 0 <= j < |keys| && Contains(r[k], keys[j]);
    }
  }

  lemma {:induction false} ProfileNonEmpty(sents: seq<string>)
    ensures NoEmptyItem(ProfileSentences(sents))
  {
    ProfileSentencesPass(sents);
    var r := ProfileSentences(sents);
    forall k | 0 <= k < |r| ensures r[k] != "" {
      assert ProfileTest(r[k]);
    }
  }

  /** A persisted field is `""` exactly when nothing matched, and the
      displayed field is then `"N/A"` and otherwise the persisted text;
      only the name is the same in both, `"N/A"` included. */
  lemma {:induction false} RecordSentinels(ents: seq<Entity>, sents: seq<string>, allText: string)
    ensures var x := Extract(ents, sents, allText);
      var r := Persisted(x);
      && (r.emails == "" <==> x.emails == [])
      && (r.phones == "" <==> x.phones == [])
      && (r.skills == "" <==> x.skills == [])
      && (r.education == "" <==> x.education == [])
      && (r.projects == "" <==> x.projects == [])
      && (r.profile == "" <==> x.profile == [])
      && Displayed(x) == ShowMissing(r)
  {
    var x := Extract(ents, sents, allText);
    ExtractedItemsNonEmpty(ents, sents, allText);
    JoinEmptyIff(x.emails, ", ");
    JoinEmptyIff(x.phones, ", ");
    JoinEmptyIff(x.skills, ", ");
    JoinEmptyIff(x.education, "\n");
    JoinEmptyIff(x.projects, "\n");
    JoinEmptyIff(x.profile, "\n");
  }

  /** On screen a field with no match reads `"N/A"`; any other field
      shows the non-empty persisted text. */
  lemma DisplayedSentinels(ents: seq<Entity>, sents: seq<string>, allText: string)
    ensures var x := Extract(ents, sents, allText);
      var r, d := Persisted(x), Displayed(x);
      && d.name == r.name
      && (x.emails == [] ==> d.emails == "N/A") && (x.emails != [] ==> d.emails == r.emails != "")
      && (x.phones == [] ==> d.phones == "N/A") && (x.phones != [] ==> d.phones == r.phones != "")
      && (x.skills == [] ==> d.skills == "N/A") && (x.skills != [] ==> d.skills == r.skills != "")
      && (x.education == [] ==> d.education == "N/A") && (x.education != [] ==> d.education == r.education != "")
      && (x.projects == [] ==> d.projects == "N/A") && (x.projects != [] ==> d.projects == r.projects != "")
      && (x.profile == [] ==> d.profile == "N/A") && (x.profile != [] ==> d.profile == r.profile != "")
  {
    RecordSentinels(ents, sents, allText);
  }

  /** A record as it would be displayed, reading `""` as nothing found. */
  function ShowMissing(r: ParsedRecord): ParsedRecord {
    ParsedRecord(
      r.name, OrMissing(r.emails), OrMissing(r.phones), OrMissing(r.skills),
      OrMissing(r.education), OrMissing(r.projects), OrMissing(r.profile))
  }

  function OrMissing(field: string): string {
    if field == "" then "N/A" else field
  }

  /** The persisted education and projects fields split back, at their line
      breaks, into exactly the kept lines. */
  lemma RecordLinesRoundTrip(ents: seq<Entity>, sents: seq<string>, allText: string)
    ensures var x := Extract(ents, sents, allText);
      var r := Persisted(x);
      && (x.education != [] ==> Split(r.education, '\n') == x.education)
      && (x.projects != [] ==> Split(r.projects, '\n') == x.projects)
  {
    var x := Extract(ents, sents, allText);
    KeywordListsTrimmed();
    KeywordLinesShape(allText, EducationKeywords);
    KeywordLinesShape(allText, ProjectsKeywords);
    if x.education != [] {
      SplitJoin(x.education, '\n');
    }
    if x.projects != [] {
      SplitJoin(x.projects, '\n');
    }
  }

  // ======================================================= blank document

  /** Pages without text assemble into a text of whitespace: nothing, for
      no or one page, or the blank lines between the pages. */
  lemma AssembledBlank(pages: seq<Option<string>>)
    requires forall i | 0 <= i < |pages| :: PageText(pages[i]) == ""
    ensures AllSpace(Join(PageTexts(pages), "\n\n"))
  {
    JoinAllSpace(PageTexts(pages), "\n\n");
  }

  /** A document with no visible text gives nothing for the five fields
      taken from the text.  Name and Profile come from the entities and
      sentences of the NLP engine, which are inputs here, so a blank text
      alone does not determine them. */
  lemma BlankDocumentFindsNothing(allText: string)
    requires AllSpace(allText)
    ensures FindEmails(allText) == [] && FindPhones(allText) == []
    ensures FoundSkills(SkillsList, allText) == []
    ensures EducationLines(allText) == [] && ProjectLines(allText) == []
  {
    BlankFindsNoEmail(allText);
    BlankFindsNoPhone(allText);
    SkillsListTrimmed();
    NoSkillsInBlank(SkillsList, allText);
    KeywordListsTrimmed();
    NoKeywordLinesInBlank(allText, EducationKeywords);
    NoKeywordLinesInBlank(allText, ProjectsKeywords);
  }

  /** Pages without text give a record whose five text fields hold the
      `""` sentinel. */
  lemma BlankPagesPersistEmpty(pages: seq<Option<string>>, ents: seq<Entity>, sents: seq<string>)
    requires forall i | 0 <= i < |pages| :: PageText(pages[i]) == ""
    ensures var r := Persisted(Extract(ents, sents, Join(PageTexts(pages), "\n\n")));
      && r.emails == "" && r.phones == "" && r.skills == ""
      && r.education == "" && r.projects == ""
  {
    AssembledBlank(pages);
    BlankDocumentFindsNothing(Join(PageTexts(pages), "\n\n"));
  }

  lemma SkillsListTrimmed()
    ensures Trimmed(SkillsList)
  {
  }

  /** No skill that begins with a non-space character is found in a text
      of whitespace. */
  lemma {:induction false} NoSkillsInBlank(vocab: seq<string>, text: string)
    requires AllSpace(text) && Trimmed(vocab)
    ensures FoundSkills(vocab, text) == []
  {
    if vocab != [] {
      NoSkillsInBlank(vocab[1..], text);
      LowerAllSpace(text);
      AllSpaceContainsNothing(Lower(text), Lower(vocab[0]), 0);
    }
  }

  /** No line of a text of whitespace holds a keyword that begins with a
      non-space character. */
  lemma NoKeywordLinesInBlank(text: string, keys: seq<string>)
    requires AllSpace(text) && Trimmed(keys)
    ensures KeywordLines(text, keys) == []
  {
    var lines := Split(text, '\n');
    SplitAllSpace(text, '\n');
    forall i | 0 <= i < |lines| ensures !HasKeyword(keys, lines[i]) {
      forall k | 0 <= k < |keys| ensures !Contains(lines[i], keys[k]) {
        AllSpaceContainsNothing(lines[i], keys[k], 0);
      }
    }
    KeptNone(lines, KeywordTest(keys));
  }

  /** A filter that no item passes keeps nothing. */
  lemma {:induction false} KeptNone(items: seq<string>, keep: string -> bool)
    requires forall i | 0 <= i < |items| :: !keep(items[i])
    ensures Kept(items, keep) == []
  {
    if items != [] {
      assert forall i | 0 <= i < |items| - 1 :: items[1..][i] == items[i + 1];
      KeptNone(items[1..], keep);
    }
  }
}
