/**
 * InterestMatcher: the decision logic of loadSelectedUser (script.js:58-77).
 * The user is looked up by `usuario`; the normalized interest is matched
 * against the normalized `tema` of each course in catalog order, and only
 * when no course matches against the values of the topic selector's
 * options.
 */
module Matcher {
  import opened Wrappers
  import opened Text
  import opened Catalog

  /** `Array.prototype.find`, by position: the first element that satisfies p. */
  function FirstIndex<T>(s: seq<T>, p: T -> bool): (r: Option<nat>)
    ensures r.Some? ==> r.value < |s| && p(s[r.value])
    ensures r.Some? ==> forall j :: 0 <= j < r.value ==> !p(s[j])
    ensures r.None? ==> forall j :: 0 <= j < |s| ==> !p(s[j])
  {
    if s == [] then None
    else if p(s[0]) then Some(0)
    else match FirstIndex(s[1..], p)
      case None => None
      case Some(i) => Some(i + 1)
  }

  /** `usuarios.find(x => x.usuario === uid)` */
  function FindUser(usuarios: seq<User>, uid: string): (r: Option<nat>)
    ensures r.Some? ==> r.value < |usuarios| && usuarios[r.value].usuario == uid
    ensures r.Some? ==> forall j :: 0 <= j < r.value ==> usuarios[j].usuario != uid
    ensures r.None? ==> forall j :: 0 <= j < |usuarios| ==> usuarios[j].usuario != uid
  {
    FirstIndex(usuarios, (u: User) => u.usuario == uid)
  }

  /** `normalizeText(u.intereses || '')`: a missing interest counts as ''. */
  function InterestNeedle(u: User): (r: string)
    ensures !Truthy(u.intereses) ==> r == ""
    ensures NoMarks(r) && NoUpper(r)
  {
    NormalizeText(Some(OrEmpty(u.intereses)))
  }

  /** `normalizeText(topic).includes(needle)` */
  predicate TopicMatches(topic: string, needle: string)
  {
    Includes(NormalizeText(Some(topic)), needle)
  }

  /** `cursos.find(c => normalizeText(c.tema).includes(needle))` (script.js:68) */
  function CourseMatch(cursos: seq<Course>, needle: string): (r: Option<nat>)
    ensures r.Some? ==> r.value < |cursos| && TopicMatches(cursos[r.value].tema, needle)
    ensures r.Some? ==> forall j :: 0 <= j < r.value ==> !TopicMatches(cursos[j].tema, needle)
    ensures r.None? ==> forall j :: 0 <= j < |cursos| ==> !TopicMatches(cursos[j].tema, needle)
  {
    FirstIndex(cursos, (c: Course) => TopicMatches(c.tema, needle))
  }

  /** `Array.from(topicSelect.options).find(o => normalizeText(o.value).includes(needle))` (script.js:73) */
  function OptionMatch(options: seq<string>, needle: string): (r: Option<nat>)
    ensures r.Some? ==> r.value < |options| && TopicMatches(options[r.value], needle)
    ensures r.Some? ==> forall j :: 0 <= j < r.value ==> !TopicMatches(options[j], needle)
    ensures r.None? ==> forall j :: 0 <= j < |options| ==> !TopicMatches(options[j], needle)
  {
    FirstIndex(options, (o: string) => TopicMatches(o, needle))
  }

  /**
   * The value loadSelectedUser assigns to the topic selector for user u,
   * or None when it leaves the selector alone (script.js:65-75).
   */
  function InferTopic(cursos: seq<Course>, options: seq<string>, u: User): (r: Option<string>)
    ensures r.Some? ==> (exists i :: 0 <= i < |cursos| && cursos[i].tema == r.value) || r.value in options
    ensures r.None? ==> forall j :: 0 <= j < |cursos| ==> !TopicMatches(cursos[j].tema, InterestNeedle(u))
    ensures r.None? ==> forall j :: 0 <= j < |options| ==> !TopicMatches(options[j], InterestNeedle(u))
  {
    var needle := InterestNeedle(u);
    match CourseMatch(cursos, needle)
    case Some(i) => Some(cursos[i].tema)
    case None =>
      match OptionMatch(options, needle)
      case Some(j) => Some(options[j])
      case None => None
  }

  // ---------------------------------------------------------------------
  // Lemmas
  // ---------------------------------------------------------------------

  /** The user found is the first record with that `usuario`; no record means none has it. */
  lemma FindUserSpec(usuarios: seq<User>, uid: string)
    ensures FindUser(usuarios, uid).Some? ==>
      var i := FindUser(usuarios, uid).value;
      i < |usuarios| && usuarios[i].usuario == uid && forall j :: 0 <= j < i ==> usuarios[j].usuario != uid
    ensures FindUser(usuarios, uid).None? <==> forall j :: 0 <= j < |usuarios| ==> usuarios[j].usuario != uid
  {
    var p := (u: User) => u.usuario == uid;
    var r := FirstIndex(usuarios, p);
    if r.Some? {
      assert p(usuarios[r.value]);
    }
  }

  /** When some course's topic contains the interest, the topic of the first such course is chosen. */
  lemma InferPicksFirstMatchingCourse(cursos: seq<Course>, options: seq<string>, u: User, i: nat)
    requires i < |cursos| && TopicMatches(cursos[i].tema, InterestNeedle(u))
    requires forall j :: 0 <= j < i ==> !TopicMatches(cursos[j].tema, InterestNeedle(u))
    ensures InferTopic(cursos, options, u) == Some(cursos[i].tema)
  {
    var needle := InterestNeedle(u);
    var m := CourseMatch(cursos, needle);
    var p := (c: Course) => TopicMatches(c.tema, needle);
    assert p(cursos[i]);
    assert m.Some?;
  }

  /** A user without interests (or whose interests normalize to '') gets the first course's topic. */
  lemma EmptyInterestPicksFirstCourse(cursos: seq<Course>, options: seq<string>, u: User)
    requires |cursos| > 0
    requires !Truthy(u.intereses) || NormalizeText(u.intereses) == ""
    ensures InferTopic(cursos, options, u) == Some(cursos[0].tema)
  {
    assert InterestNeedle(u) == "" by {
      if Truthy(u.intereses) { assert OrEmpty(u.intereses) == u.intereses.value; }
    }
    EmptyIncluded(NormalizeText(Some(cursos[0].tema)));
    InferPicksFirstMatchingCourse(cursos, options, u, 0);
  }

  /** Only the empty needle occurs in the empty string. */
  lemma IncludedInEmpty(needle: string)
    ensures Includes("", needle) <==> needle == ""
  {
  }

  /**
   * The option scan cannot find a non-empty topic the course scan missed:
   * every non-empty option of a selector populated from the catalog is some
   * course's `tema`. It can only match the "any" option, and only for an
   * empty interest over an empty catalog.
   */
  lemma FallbackFindsNothingNew(cursos: seq<Course>, needle: string)
    requires CourseMatch(cursos, needle).None?
    ensures forall k :: 0 <= k < |[""] + Topics(cursos)| && ([""] + Topics(cursos))[k] != "" ==>
      !TopicMatches(([""] + Topics(cursos))[k], needle)
    ensures OptionMatch([""] + Topics(cursos), needle).Some? ==>
      OptionMatch([""] + Topics(cursos), needle).value == 0 && cursos == [] && needle == ""
  {
    var options := [""] + Topics(cursos);
    var p := (c: Course) => TopicMatches(c.tema, needle);
    TopicsSpec(cursos);
    forall k | 0 <= k < |options| && options[k] != "" ensures !TopicMatches(options[k], needle) {
      assert options[k] in Topics(cursos);
      var i :| 0 <= i < |cursos| && cursos[i].tema == options[k];
      assert !p(cursos[i]);
    }
    var m := OptionMatch(options, needle);
    if m.Some? {
      assert options[m.value] == "";
      IncludedInEmpty(needle);
      assert needle == "";
      if cursos != [] {
        assert false;
      }
    }
  }

  /**
   * Over a selector populated from the catalog, the inferred topic is the
   * first matching course's topic, or nothing; the fallback at most picks
   * the "any" option when the catalog is empty.
   */
  lemma InferTopicOverCatalogOptions(cursos: seq<Course>, u: User)
    ensures var r := InferTopic(cursos, [""] + Topics(cursos), u);
      match CourseMatch(cursos, InterestNeedle(u))
      case Some(i) => r == Some(cursos[i].tema)
      case None => r == None || (r == Some("") && cursos == [])
  {
    if CourseMatch(cursos, InterestNeedle(u)).None? {
      FallbackFindsNothingNew(cursos, InterestNeedle(u));
    }
  }

  /** Whatever loadSelectedUser assigns is the value of an existing option of the selector. */
  lemma InferTopicIsOffered(cursos: seq<Course>, u: User)
    ensures InferTopic(cursos, [""] + Topics(cursos), u).Some? ==>
      InferTopic(cursos, [""] + Topics(cursos), u).value in [""] + Topics(cursos)
  {
    var m := CourseMatch(cursos, InterestNeedle(u));
    if m.Some? && cursos[m.value].tema != "" {
      TemaOffered(cursos, m.value);
    }
  }

  /**
   * With the selector populated from the catalog and showing `current`,
   * what loadSelectedUser assigns is an existing option: the first matching
   * course's topic, or, when no course matches, nothing new (the fallback
   * can only re-select the "any" option that an empty catalog already shows).
   */
  lemma InferredSelection(cursos: seq<Course>, u: User, current: string)
    requires current in [""] + Topics(cursos)
    ensures var r := InferTopic(cursos, [""] + Topics(cursos), u);
      (r.Some? ==> r.value in [""] + Topics(cursos)) &&
      match CourseMatch(cursos, InterestNeedle(u))
      case Some(i) => r == Some(cursos[i].tema)
      case None => r.None? || r.value == current
  {
    InferTopicIsOffered(cursos, u);
    InferTopicOverCatalogOptions(cursos, u);
    if cursos == [] {
      assert Topics(cursos) == [];
    }
  }
}
