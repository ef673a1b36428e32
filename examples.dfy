/**
 * Worked cases of the engine: the spelling-insensitive comparison, the
 * exact level test, the topic test across fields, the end-to-end search
 * scenario, and interest inference where the topic must contain the
 * interest. Each is proved for abstract strings with the facts it needs,
 * then instantiated with concrete text.
 */
module Examples {
  import opened Wrappers
  import opened Text
  import opened Catalog
  import opened Matcher
  import opened SearchEngine

  /** A word of lower-case ASCII letters: already normalized. */
  lemma PlainWord(s: string)
    requires s != "" && forall i :: 0 <= i < |s| ==> 'a' <= s[i] <= 'z'
    ensures NormalizeText(Some(s)) == s
  {
    NormalizeSettled(s);
  }

  /** A value with no white space at either end is its own trim. */
  lemma TrimUnchanged(s: string)
    requires s != [] && !IsJsSpace(s[0]) && !IsJsSpace(s[|s| - 1])
    ensures Trim(s) == s
  {
    assert s[0..] == s;
    assert s[..|s|] == s;
  }

  /** Normalizing four pieces one by one and joining the results. */
  lemma NormalizeParts(a: string, b: string, c: string, d: string, a': string, b': string, c': string, d': string)
    requires NormalizeText(Some(a)) == a' && NormalizeText(Some(b)) == b'
    requires NormalizeText(Some(c)) == c' && NormalizeText(Some(d)) == d'
    ensures NormalizeText(Some(a + b + c + d)) == a' + b' + c' + d'
  {
    NormalizeAppend(a, b);
    NormalizeAppend(a + b, c);
    NormalizeAppend(a + b + c, d);
  }

  lemma NormalizeCapitalP()
    ensures NormalizeText(Some("P")) == "p"
  {
    assert Lower("P") == "p";
    NormalizeIgnoresCase("P");
    NormalizeSettled("p");
  }

  lemma NormalizeRogramaci()
    ensures NormalizeText(Some("rogramaci")) == "rogramaci"
  {
    PlainWord("rogramaci");
  }

  lemma NormalizeN()
    ensures NormalizeText(Some("n")) == "n"
  {
    PlainWord("n");
  }

  lemma NormalizeProgramacion()
    ensures NormalizeText(Some("programacion")) == "programacion"
  {
    PlainWord("programacion");
  }

  lemma NormalizeOAcute()
    ensures NormalizeText(Some("ó")) == "o"
  {
    NormalizeStripsAccent('ó');
  }

  lemma ProgramacionJoined()
    ensures "Programación" == "P" + "rogramaci" + "ó" + "n"
    ensures "programacion" == "p" + "rogramaci" + "o" + "n"
  {
  }

  /** "Programación" and "programacion" normalize identically. */
  lemma AccentAndCaseInsensitive()
    ensures NormalizeText(Some("Programación")) == NormalizeText(Some("programacion")) == "programacion"
  {
    NormalizeCapitalP();
    NormalizeRogramaci();
    NormalizeOAcute();
    NormalizeN();
    NormalizeParts("P", "rogramaci", "ó", "n", "p", "rogramaci", "o", "n");
    ProgramacionJoined();
    NormalizeProgramacion();
  }

  // ---------------------------------------------------------------------
  // Search
  // ---------------------------------------------------------------------

  /** A course with the chosen level whose topic normalizes like the chosen topic is kept. */
  lemma KeptByLevelAndTopic(c: Course, topic: string, level: string)
    requires topic != "" && level != "" && c.nivel == Some(level)
    requires NormalizeText(Some(c.tema)) == NormalizeText(Some(topic))
    ensures Keep(c, topic, level)
  {
    var n := NormalizeText(Some(topic));
    assert n[..|n|] == n;
  }

  /** A course whose level normalizes differently from the chosen one is dropped, whatever its topic. */
  lemma DroppedByLevel(c: Course, topic: string, level: string)
    requires level != "" && c.nivel.Some?
    requires NormalizeText(c.nivel) != NormalizeText(Some(level))
    ensures !Keep(c, topic, level)
  {
  }

  lemma SearchTwo(c1: Course, c2: Course, topic: string, level: string)
    requires Trim(topic) == topic && Trim(level) == level
    requires Keep(c1, topic, level) && !Keep(c2, topic, level)
    ensures Search([c1, c2], topic, level) == [c1]
  {
    var p := (c: Course) => Keep(c, topic, level);
    assert [c1, c2][1..] == [c2];
    assert [c2][1..] == [];
    assert FilterBy([c2], p) == [] + FilterBy([], p);
    assert FilterBy([c1, c2], p) == [c1] + FilterBy([c2], p);
  }

  lemma AiFacts()
    ensures NormalizeText(Some("AI")) == NormalizeText(Some("ai")) == "ai"
    ensures Trim("ai") == "ai"
  {
    assert Lower("AI") == "ai";
    NormalizeIgnoresCase("AI");
    PlainWord("ai");
    TrimUnchanged("ai");
  }

  lemma BeginnerNormalized()
    ensures NormalizeText(Some("beginner")) == "beginner"
  {
    PlainWord("beginner");
  }

  lemma BeginnerTrimmed()
    ensures Trim("beginner") == "beginner"
  {
    TrimUnchanged("beginner");
  }

  lemma AdvancedFacts()
    ensures NormalizeText(Some("advanced")) == "advanced"
  {
    PlainWord("advanced");
  }

  /**
   * Of an "AI" course for beginners and one for advanced students,
   * searching topic "ai" and level "beginner" returns exactly the first.
   */
  lemma BeginnerAiScenario()
    ensures Search([Course("Intro to ML", "AI", Some("beginner"), Some("basics")),
                    Course("Deep Learning", "AI", Some("advanced"), None)], "ai", "beginner")
         == [Course("Intro to ML", "AI", Some("beginner"), Some("basics"))]
  {
    AiFacts();
    BeginnerNormalized();
    BeginnerTrimmed();
    AdvancedFacts();
    KeptByLevelAndTopic(Course("Intro to ML", "AI", Some("beginner"), Some("basics")), "ai", "beginner");
    DroppedByLevel(Course("Deep Learning", "AI", Some("advanced"), None), "ai", "beginner");
    SearchTwo(Course("Intro to ML", "AI", Some("beginner"), Some("basics")),
              Course("Deep Learning", "AI", Some("advanced"), None), "ai", "beginner");
  }

  lemma AdvancedCourseNormalized()
    ensures NormalizeText(Some("advanced course")) == "advanced course"
  {
    NormalizeSettled("advanced course");
  }

  lemma CapitalAdvancedNormalized()
    ensures NormalizeText(Some("Advanced")) == "advanced"
  {
    assert Lower("Advanced") == "advanced";
    NormalizeIgnoresCase("Advanced");
    AdvancedFacts();
  }

  lemma AdvancedTrimmed()
    ensures Trim("Advanced") == "Advanced"
  {
    TrimUnchanged("Advanced");
  }

  /**
   * The level test is exact: a course at level "advanced course" is not
   * found for level "Advanced", whatever its other fields and the topic.
   */
  lemma LevelIsExactNotSubstring(cursos: seq<Course>, topicValue: string, nombre: string, tema: string, desc: Option<string>)
    ensures Course(nombre, tema, Some("advanced course"), desc) !in Search(cursos, topicValue, "Advanced")
  {
    AdvancedCourseNormalized();
    CapitalAdvancedNormalized();
    AdvancedTrimmed();
    var c := Course(nombre, tema, Some("advanced course"), desc);
    DroppedByLevel(c, Trim(topicValue), "Advanced");
    FilterSpec(cursos, Trim(topicValue), "Advanced");
    assert multiset(Search(cursos, topicValue, "Advanced"))[c] == 0;
  }

  /** The topic test is an OR across fields: a match in `nombre` alone keeps the course when no level is chosen. */
  lemma NameMatchSuffices(c: Course, topic: string)
    requires topic != "" && Includes(NormalizeText(Some(c.nombre)), NormalizeText(Some(topic)))
    ensures Keep(c, topic, "")
  {
  }

  /** With no filters, a one-course catalog is returned as it is, and an empty catalog gives an empty result. */
  lemma NoFiltersExamples(c: Course)
    ensures Search([c], "", "") == [c]
    ensures Search([], "", "") == []
  {
    SearchWithoutFilters([c], "", "");
    SearchWithoutFilters([], "", "");
  }

  // ---------------------------------------------------------------------
  // Interest inference
  // ---------------------------------------------------------------------

  /** A needle longer than the text cannot occur in it. */
  lemma {:induction false} TooLongNotIncluded(hay: string, needle: string)
    requires |needle| > |hay|
    ensures !Includes(hay, needle)
  {
    if hay != [] { TooLongNotIncluded(hay[1..], needle); }
  }

  lemma QuantumComputingLowered()
    ensures Lower("Quantum Computing") == "quantum computing"
  {
  }

  lemma QuantumComputingSettled()
    ensures NormalizeText(Some("quantum computing")) == "quantum computing"
  {
    NormalizeSettled("quantum computing");
  }

  lemma QuantumComputingNormalized()
    ensures NormalizeText(Some("Quantum Computing")) == "quantum computing"
  {
    QuantumComputingLowered();
    NormalizeIgnoresCase("Quantum Computing");
    QuantumComputingSettled();
  }

  lemma BiologyLowered()
    ensures Lower("Biology") == "biology"
  {
  }

  lemma BiologySettled()
    ensures NormalizeText(Some("biology")) == "biology"
  {
    NormalizeSettled("biology");
  }

  lemma BiologyNormalized()
    ensures NormalizeText(Some("Biology")) == "biology"
  {
    BiologyLowered();
    NormalizeIgnoresCase("Biology");
    BiologySettled();
  }

  lemma QuantumPhysicsNormalized()
    ensures NormalizeText(Some("quantum physics")) == "quantum physics"
  {
    NormalizeSettled("quantum physics");
  }

  lemma ComputingNormalized()
    ensures NormalizeText(Some("computing")) == "computing"
  {
    PlainWord("computing");
  }

  /** "quantum physics" occurs nowhere in "quantum computing". */
  lemma QuantumPhysicsNotInQuantumComputing()
    ensures !Includes("quantum computing", "quantum physics")
  {
    var hay, needle := "quantum computing", "quantum physics";
    assert hay[..15][8] != needle[8];
    assert hay[1..][..15][7] != needle[7];
    assert hay[2..][..15][0] != needle[0];
    assert hay[1..][1..] == hay[2..];
    TooLongNotIncluded(hay[2..][1..], needle);
  }

  /** "computing" occurs in "quantum computing", at offset 8. */
  lemma ComputingInQuantumComputing()
    ensures Includes("quantum computing", "computing")
  {
    var hay, needle := "quantum computing", "computing";
    assert OccursAt(hay, needle, 8) by {
      assert hay[8..8 + |needle|] == needle;
    }
    IncludesIff(hay, needle);
  }

  lemma BiologyLacksQuantumPhysics()
    ensures !TopicMatches("Biology", "quantum physics")
  {
    BiologyNormalized();
    TooLongNotIncluded("biology", "quantum physics");
  }

  lemma QuantumComputingLacksQuantumPhysics()
    ensures !TopicMatches("Quantum Computing", "quantum physics")
  {
    QuantumComputingNormalized();
    QuantumPhysicsNotInQuantumComputing();
  }

  lemma BiologyLacksComputing()
    ensures !TopicMatches("Biology", "computing")
  {
    BiologyNormalized();
    TooLongNotIncluded("biology", "computing");
  }

  lemma QuantumComputingHasComputing()
    ensures TopicMatches("Quantum Computing", "computing")
  {
    QuantumComputingNormalized();
    ComputingInQuantumComputing();
  }

  lemma QuantumPhysicsNeedle(u: User)
    requires u.intereses == Some("quantum physics")
    ensures InterestNeedle(u) == "quantum physics"
  {
    QuantumPhysicsNormalized();
  }

  lemma ComputingNeedle(u: User)
    requires u.intereses == Some("computing")
    ensures InterestNeedle(u) == "computing"
  {
    ComputingNormalized();
  }

  /** No course of a two-course catalog matches when neither topic contains the needle. */
  lemma NeitherMatches(c1: Course, c2: Course, needle: string)
    requires !TopicMatches(c1.tema, needle) && !TopicMatches(c2.tema, needle)
    ensures CourseMatch([c1, c2], needle).None?
  {
    var p := (c: Course) => TopicMatches(c.tema, needle);
    assert [c1, c2][1..] == [c2] && [c2][1..] == [];
    assert FirstIndex([c2], p).None?;
  }

  /** Only the second course matches: it is the one found. */
  lemma SecondMatches(c1: Course, c2: Course, needle: string)
    requires !TopicMatches(c1.tema, needle) && TopicMatches(c2.tema, needle)
    ensures CourseMatch([c1, c2], needle) == Some(1)
  {
    var p := (c: Course) => TopicMatches(c.tema, needle);
    assert [c1, c2][1..] == [c2];
    assert FirstIndex([c2], p) == Some(0);
  }

  /**
   * The matcher asks whether the TOPIC contains the INTEREST: an interest of
   * "quantum physics" finds neither "Biology" nor "Quantum Computing", and
   * the topic selector is left alone.
   */
  lemma QuantumPhysicsFindsNoTopic(c1: Course, c2: Course, u: User)
    requires c1.tema == "Biology" && c2.tema == "Quantum Computing"
    requires u.intereses == Some("quantum physics")
    ensures CourseMatch([c1, c2], InterestNeedle(u)).None?
    ensures InferTopic([c1, c2], [""] + Topics([c1, c2]), u).None?
  {
    QuantumPhysicsNeedle(u);
    BiologyLacksQuantumPhysics();
    QuantumComputingLacksQuantumPhysics();
    NeitherMatches(c1, c2, InterestNeedle(u));
    InferTopicOverCatalogOptions([c1, c2], u);
  }

  /** An interest of "computing" selects the topic "Quantum Computing", the first topic containing it. */
  lemma ComputingPicksQuantumComputing(c1: Course, c2: Course, u: User, options: seq<string>)
    requires c1.tema == "Biology" && c2.tema == "Quantum Computing"
    requires u.intereses == Some("computing")
    ensures InferTopic([c1, c2], options, u) == Some("Quantum Computing")
  {
    ComputingNeedle(u);
    BiologyLacksComputing();
    QuantumComputingHasComputing();
    SecondMatches(c1, c2, InterestNeedle(u));
    assert [c1, c2][1].tema == "Quantum Computing";
  }
}
