/**
 * SearchEngine: the filter of buscarYMostrar (script.js:80-100). Both
 * selector values are trimmed; an empty value means "no constraint". The
 * level test is exact equality after normalization; the topic test is a
 * substring test over `tema`, `nombre` or, when present, `descripcion`.
 */
module SearchEngine {
  import opened Wrappers
  import opened Text
  import opened Catalog

  /**
   * The callback of `cursos.filter` (script.js:86-100), for an already
   * trimmed topic and level, branch by branch as the source has it.
   */
  predicate Keep(c: Course, topic: string, level: string)
    ensures Keep(c, topic, level) ==> LevelOk(c, level)
    ensures topic == "" ==> (Keep(c, topic, level) <==> LevelOk(c, level))
  {
    var normTopic := NormalizeText(Some(topic));
    if level != "" && !Truthy(c.nivel) then false
    else if level != "" && NormalizeText(c.nivel) != NormalizeText(Some(level)) then false
    else if topic == "" then true
    else if Includes(NormalizeText(Some(c.tema)), normTopic) then true
    else if Includes(NormalizeText(Some(c.nombre)), normTopic) then true
    else Truthy(c.descripcion) && Includes(NormalizeText(c.descripcion), normTopic)
  }

  /** `Array.prototype.filter`: the elements that satisfy p, in order. */
  function FilterBy<T>(s: seq<T>, p: T -> bool): (r: seq<T>)
    ensures |r| <= |s|
    ensures forall k :: 0 <= k < |r| ==> p(r[k]) && r[k] in s
  {
    if s == [] then []
    else
      var rest := FilterBy(s[1..], p);
      assert forall k :: 0 <= k < |rest| ==> rest[k] in s by {
        forall k | 0 <= k < |rest| ensures rest[k] in s { assert rest[k] in s[1..]; }
      }
      (if p(s[0]) then [s[0]] else []) + rest
  }

  /** `cursos.filter(...)` with the callback of script.js:86-100. */
  function Filter(cursos: seq<Course>, topic: string, level: string): (r: seq<Course>)
    ensures |r| <= |cursos|
    ensures forall k :: 0 <= k < |r| ==> Keep(r[k], topic, level) && r[k] in cursos
  {
    FilterBy(cursos, (c: Course) => Keep(c, topic, level))
  }

  /** The courses buscarYMostrar hands to renderResults (script.js:81-100). */
  function Search(cursos: seq<Course>, topicValue: string, levelValue: string): (r: seq<Course>)
    ensures forall k :: 0 <= k < |r| ==> Keep(r[k], Trim(topicValue), Trim(levelValue)) && r[k] in cursos
  {
    Filter(cursos, Trim(topicValue), Trim(levelValue))
  }

  // ---------------------------------------------------------------------
  // Lemmas
  // ---------------------------------------------------------------------

  /** The level condition: no level chosen, or a non-empty `nivel` equal to it after normalization. */
  predicate LevelOk(c: Course, level: string)
  {
    level == "" || (c.nivel.Some? && c.nivel.value != "" && NormalizeText(c.nivel) == NormalizeText(Some(level)))
  }

  /** needle occurs in field somewhere, at some offset. */
  ghost predicate Mentions(field: string, needle: string)
  {
    exists k :: OccursAt(NormalizeText(Some(field)), needle, k)
  }

  /** The topic condition: no topic chosen, or its normalization occurs in `tema`, `nombre` or a present `descripcion`. */
  ghost predicate TopicOk(c: Course, topic: string)
  {
    var n := NormalizeText(Some(topic));
    topic == "" || Mentions(c.tema, n) || Mentions(c.nombre, n) ||
    (c.descripcion.Some? && Mentions(c.descripcion.value, n))
  }

  /** A course is kept exactly when both conditions hold: level exact-match AND topic in any of three fields. */
  lemma KeepIff(c: Course, topic: string, level: string)
    ensures Keep(c, topic, level) <==> LevelOk(c, level) && TopicOk(c, topic)
  {
    var n := NormalizeText(Some(topic));
    IncludesIff(NormalizeText(Some(c.tema)), n);
    IncludesIff(NormalizeText(Some(c.nombre)), n);
    if c.descripcion.Some? {
      IncludesIff(NormalizeText(c.descripcion), n);
      if c.descripcion.value == "" {
        IncludesIff("", n);
        EmptyIncluded(NormalizeText(Some(c.tema)));
      }
    }
  }

  /** a is b with some elements left out, order kept. */
  ghost predicate IsSubsequence<T>(a: seq<T>, b: seq<T>)
    decreases |b|
  {
    a == [] || (b != [] && ((a[0] == b[0] && IsSubsequence(a[1..], b[1..])) || IsSubsequence(a, b[1..])))
  }

  /** The result of a filter is an order-preserving subsequence of its input. */
  lemma {:induction false} FilterBySubsequence<T>(s: seq<T>, p: T -> bool)
    ensures IsSubsequence(FilterBy(s, p), s)
  {
    if s != [] {
      FilterBySubsequence(s[1..], p);
      var rest := FilterBy(s[1..], p);
      if p(s[0]) {
        var r := [s[0]] + rest;
        assert r[0] == s[0] && r[1..] == rest;
      } else {
        assert FilterBy(s, p) == rest;
      }
    }
  }

  /** A filter keeps each selected element as often as its input has it, and nothing else. */
  lemma {:induction false} FilterByCount<T>(s: seq<T>, p: T -> bool)
    ensures forall x :: multiset(FilterBy(s, p))[x] == if p(x) then multiset(s)[x] else 0
  {
    if s != [] {
      FilterByCount(s[1..], p);
      var rest := FilterBy(s[1..], p);
      assert s == [s[0]] + s[1..];
      assert multiset(s) == multiset{s[0]} + multiset(s[1..]);
      if p(s[0]) {
        assert multiset(FilterBy(s, p)) == multiset{s[0]} + multiset(rest);
      } else {
        assert FilterBy(s, p) == rest;
      }
    }
  }

  lemma {:induction false} FilterByAppend<T>(a: seq<T>, b: seq<T>, p: T -> bool)
    ensures FilterBy(a + b, p) == FilterBy(a, p) + FilterBy(b, p)
  {
    if a != [] {
      assert (a + b)[0] == a[0];
      assert (a + b)[1..] == a[1..] + b;
      FilterByAppend(a[1..], b, p);
      var head := if p(a[0]) then [a[0]] else [];
      assert FilterBy(a + b, p) == head + FilterBy(a[1..] + b, p);
      assert FilterBy(a, p) == head + FilterBy(a[1..], p);
    } else {
      assert a + b == b;
    }
  }

  lemma {:induction false} FilterByIdempotent<T>(s: seq<T>, p: T -> bool)
    ensures FilterBy(FilterBy(s, p), p) == FilterBy(s, p)
  {
    if s != [] {
      FilterByIdempotent(s[1..], p);
      var rest := FilterBy(s[1..], p);
      if p(s[0]) {
        var r := [s[0]] + rest;
        assert r[0] == s[0] && r[1..] == rest;
        assert FilterBy(r, p) == [s[0]] + FilterBy(rest, p);
      } else {
        assert FilterBy(s, p) == rest;
      }
    }
  }

  lemma {:induction false} FilterByAll<T>(s: seq<T>, p: T -> bool)
    requires forall k :: 0 <= k < |s| ==> p(s[k])
    ensures FilterBy(s, p) == s
  {
    if s != [] {
      FilterByAll(s[1..], p);
      assert s == [s[0]] + s[1..];
    }
  }

  /**
   * The search result is an order-preserving subsequence of the catalog,
   * holding each course that passes the filter as often as the catalog
   * does and no other course.
   */
  lemma FilterSpec(cursos: seq<Course>, topic: string, level: string)
    ensures IsSubsequence(Filter(cursos, topic, level), cursos)
    ensures forall c :: multiset(Filter(cursos, topic, level))[c] == if Keep(c, topic, level) then multiset(cursos)[c] else 0
  {
    FilterBySubsequence(cursos, (c: Course) => Keep(c, topic, level));
    FilterByCount(cursos, (c: Course) => Keep(c, topic, level));
  }

  /** Filtering distributes over concatenation: each part of the catalog is filtered in place. */
  lemma FilterAppend(a: seq<Course>, b: seq<Course>, topic: string, level: string)
    ensures Filter(a + b, topic, level) == Filter(a, topic, level) + Filter(b, topic, level)
  {
    FilterByAppend(a, b, (c: Course) => Keep(c, topic, level));
  }

  /** Searching the result of a search with the same selector values returns it unchanged. */
  lemma SearchIdempotent(cursos: seq<Course>, topicValue: string, levelValue: string)
    ensures Search(Search(cursos, topicValue, levelValue), topicValue, levelValue) == Search(cursos, topicValue, levelValue)
  {
    FilterByIdempotent(cursos, (c: Course) => Keep(c, Trim(topicValue), Trim(levelValue)));
  }

  /** With both selectors blank (empty or white space only) the whole catalog is returned, in order. */
  lemma SearchWithoutFilters(cursos: seq<Course>, topicValue: string, levelValue: string)
    requires AllSpace(topicValue) && AllSpace(levelValue)
    ensures Search(cursos, topicValue, levelValue) == cursos
  {
    TrimSpec(topicValue);
    TrimSpec(levelValue);
    FilterByAll(cursos, (c: Course) => Keep(c, "", ""));
  }
}
