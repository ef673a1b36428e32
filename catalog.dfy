/**
 * CatalogIndex: the course and user records, and the distinct topic list
 * that populateSelectors offers in the topic selector (script.js:39-40).
 */
module Catalog {
  import opened Wrappers
  import Order

  /**
   * A record of cursos.json, reduced to the fields the engine reads.
   * `nivel` and `descripcion` may be absent.
   */
  datatype Course = Course(nombre: string, tema: string, nivel: Option<string>, descripcion: Option<string>)

  /** A record of usuarios.json: the selection key and the optional free-text interests. */
  datatype User = User(usuario: string, intereses: Option<string>)

  /** `cursos.map(c => c.tema)` */
  function Temas(cursos: seq<Course>): (r: seq<string>)
    ensures |r| == |cursos|
    ensures forall i :: 0 <= i < |cursos| ==> r[i] == cursos[i].tema
  {
    seq(|cursos|, i requires 0 <= i < |cursos| => cursos[i].tema)
  }

  /** `Array.from(new Set(s))`: each value once, at its first occurrence. */
  function Dedup(s: seq<string>): (r: seq<string>)
    ensures Order.Distinct(r)
    ensures forall x :: x in r <==> x in s
  {
    if s == [] then []
    else
      var init := s[..|s| - 1];
      assert s == init + [s[|s| - 1]];
      var d := Dedup(init);
      if s[|s| - 1] in d then d else d + [s[|s| - 1]]
  }

  /** `.filter(Boolean)` on strings: drops the empty string, the only falsy string. */
  function DropEmpty(s: seq<string>): (r: seq<string>)
    ensures forall x :: x in r <==> x in s && x != ""
    ensures Order.Distinct(s) ==> Order.Distinct(r)
  {
    if s == [] then []
    else
      var rest := DropEmpty(s[1..]);
      assert Order.Distinct(s) ==> s[0] !in s[1..] by {
        if Order.Distinct(s) {
          forall k | 0 <= k < |s[1..]| ensures s[1..][k] != s[0] { assert s[1..][k] == s[k + 1]; }
        }
      }
      assert Order.Distinct(s) ==> Order.Distinct(s[1..]) by {
        if Order.Distinct(s) {
          forall i, j | 0 <= i < j < |s[1..]| ensures s[1..][i] != s[1..][j] {
            assert s[1..][i] == s[i + 1] && s[1..][j] == s[j + 1];
          }
        }
      }
      if s[0] == "" then rest else [s[0]] + rest
  }

  /** The topic selector's entries: distinct non-empty `tema` values, sorted. */
  function Topics(cursos: seq<Course>): (r: seq<string>)
    ensures Order.Sorted(r) && Order.Distinct(r)
    ensures "" !in r
  {
    var u := DropEmpty(Dedup(Temas(cursos)));
    Order.SortDistinct(u);
    var r := Order.Sort(u);
    assert "" !in r by {
      assert "" !in u;
      assert "" !in multiset(u);
      assert "" !in multiset(r);
    }
    r
  }

  /** Some course of the catalog has this topic. */
  predicate HasTema(cursos: seq<Course>, t: string)
  {
    exists i :: 0 <= i < |cursos| && cursos[i].tema == t
  }

  /**
   * The topic list has no duplicates, no empty entry, is strictly ascending
   * in the default string order, and holds exactly the non-empty topics of
   * the catalog.
   */
  lemma TopicsSpec(cursos: seq<Course>)
    ensures Order.Distinct(Topics(cursos))
    ensures "" !in Topics(cursos)
    ensures Order.Sorted(Topics(cursos))
    ensures forall i, j :: 0 <= i < j < |Topics(cursos)| ==> !Order.LessEq(Topics(cursos)[j], Topics(cursos)[i])
    ensures forall t :: t in Topics(cursos) <==> t != "" && HasTema(cursos, t)
  {
    var temas := Temas(cursos);
    var u := DropEmpty(Dedup(temas));
    var r := Topics(cursos);
    Order.SortDistinct(u);
    forall i, j | 0 <= i < j < |r| ensures !Order.LessEq(r[j], r[i]) {
      Order.StrictlyAscending(r, i, j);
    }
    forall t ensures t in r <==> t != "" && HasTema(cursos, t) {
      assert t in r <==> t in multiset(u);
      if t in temas {
        var i :| 0 <= i < |temas| && temas[i] == t;
        assert cursos[i].tema == t;
      }
      if HasTema(cursos, t) {
        var i :| 0 <= i < |cursos| && cursos[i].tema == t;
        assert temas[i] == t;
      }
    }
  }

  /** Every non-empty topic of the catalog is offered. */
  lemma TemaOffered(cursos: seq<Course>, i: int)
    requires 0 <= i < |cursos| && cursos[i].tema != ""
    ensures cursos[i].tema in Topics(cursos)
  {
    TopicsSpec(cursos);
  }

  /** The topic list depends only on which topics occur, not on catalog order or repetition. */
  lemma TopicsDependOnlyOnTopicSet(c1: seq<Course>, c2: seq<Course>)
    requires forall t :: HasTema(c1, t) <==> HasTema(c2, t)
    ensures Topics(c1) == Topics(c2)
  {
    TopicsSpec(c1);
    TopicsSpec(c2);
    var a, b := Topics(c1), Topics(c2);
    assert forall t :: t in a <==> t in b;
    DistinctSameElements(a, b);
    Order.SortedUnique(a, b);
  }

  /** In a distinct sequence every element occurs once. */
  lemma {:induction false} DistinctCount(s: seq<string>, t: string)
    requires Order.Distinct(s)
    ensures multiset(s)[t] == if t in s then 1 else 0
  {
    if s != [] {
      var tail := s[1..];
      assert s == [s[0]] + tail;
      assert Order.Distinct(tail) by {
        forall i, j | 0 <= i < j < |tail| ensures tail[i] != tail[j] { assert tail[i] == s[i + 1] && tail[j] == s[j + 1]; }
      }
      assert s[0] !in tail by {
        forall k | 0 <= k < |tail| ensures tail[k] != s[0] { assert tail[k] == s[k + 1]; }
      }
      DistinctCount(tail, t);
      assert multiset(s) == multiset{s[0]} + multiset(tail);
    }
  }

  /** Two distinct sequences with the same elements have the same multiset. */
  lemma DistinctSameElements(a: seq<string>, b: seq<string>)
    requires Order.Distinct(a) && Order.Distinct(b)
    requires forall t :: t in a <==> t in b
    ensures multiset(a) == multiset(b)
  {
    forall t ensures multiset(a)[t] == multiset(b)[t] {
      DistinctCount(a, t);
      DistinctCount(b, t);
    }
  }
}
