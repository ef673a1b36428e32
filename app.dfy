/**
 * The page: the module-level collections `cursos` and `usuarios`
 * (script.js:2-3) and the state of the topic selector, with the handlers
 * that read and overwrite them. The topic selector starts with the page's
 * single "any" option, whose value is "".
 */
module App {
  import opened Wrappers
  import opened Text
  import opened Catalog
  import opened Matcher
  import opened SearchEngine

  /** The alert loadSelectedUser raises, if any (script.js:60, 62). */
  datatype Alert = NoAlert | SelectUserFirst | UserNotFound

  class Page {
    var cursos: seq<Course>
    var usuarios: seq<User>
    /** The values of topicSelect's options, in document order. */
    var topicOptions: seq<string>
    /** topicSelect.value */
    var topicValue: string

    /** The selector offers "any" and then the catalog's topics, and shows one of its options. */
    ghost predicate Valid()
      reads this
    {
      topicOptions == [""] + Topics(cursos) && topicValue in topicOptions
    }

    /** Before loading: empty collections, and the selector holding only "any". */
    constructor ()
      ensures Valid()
      ensures cursos == [] && usuarios == [] && topicOptions == [""] && topicValue == ""
    {
      cursos, usuarios := [], [];
      topicOptions, topicValue := [""], "";
    }

    /**
     * Assigning `topicSelect.value = v`: the option with value v becomes
     * selected; when no option has that value none is, and the value reads "".
     */
    method SetTopicValue(v: string)
      modifies this`topicValue
      ensures topicValue == if v in topicOptions then v else ""
    {
      if v in topicOptions {
        topicValue := v;
      } else {
        topicValue := "";
      }
    }

    /** The topic half of populateSelectors (script.js:39-46): one option per topic, appended in order. */
    method PopulateTopics()
      modifies this`topicOptions
      ensures topicOptions == old(topicOptions) + Topics(cursos)
    {
      var temas := Topics(cursos);
      var i := 0;
      while i < |temas|
        invariant 0 <= i <= |temas|
        invariant topicOptions == old(topicOptions) + temas[..i]
      {
        topicOptions := topicOptions + [temas[i]];
        i := i + 1;
      }
      assert temas[..i] == temas;
    }

    /**
     * The state changes of loadData (script.js:25-29), with the two fetched
     * collections as inputs; None stands for a response that is not ok,
     * which leaves everything as it was.
     */
    method LoadData(courses: Option<seq<Course>>, users: Option<seq<User>>)
      requires Valid() && topicOptions == [""]
      modifies this
      ensures Valid()
      ensures topicValue == old(topicValue)
      ensures courses.Some? && users.Some? ==> cursos == courses.value && usuarios == users.value
      ensures courses.None? || users.None? ==>
        cursos == old(cursos) && usuarios == old(usuarios) && topicOptions == old(topicOptions)
    {
      if courses.Some? && users.Some? {
        cursos := courses.value;
        usuarios := users.value;
        PopulateTopics();
      }
    }

    /**
     * loadSelectedUser (script.js:58-77) for the selected user id `uid`.
     * With no id, or an id no user has, it raises an alert and changes
     * nothing. Otherwise the topic becomes that of the first course whose
     * normalized topic contains the user's normalized interest; when no
     * course matches, the option scan finds no new topic and the topic
     * stays as it was. The value assigned is the one InferTopic picks.
     */
    method LoadSelectedUser(uid: string) returns (alert: Alert)
      requires Valid()
      modifies this`topicValue
      ensures Valid()
      ensures uid == "" ==> alert == SelectUserFirst && topicValue == old(topicValue)
      ensures uid != "" && FindUser(usuarios, uid).None? ==> alert == UserNotFound && topicValue == old(topicValue)
      ensures uid != "" && FindUser(usuarios, uid).Some? ==>
        alert == NoAlert &&
        topicValue == match CourseMatch(cursos, InterestNeedle(usuarios[FindUser(usuarios, uid).value]))
          case Some(i) => cursos[i].tema
          case None => old(topicValue)
      ensures uid != "" && FindUser(usuarios, uid).Some? ==>
        topicValue == match InferTopic(cursos, topicOptions, usuarios[FindUser(usuarios, uid).value])
          case Some(t) => t
          case None => old(topicValue)
    {
      if uid == "" {
        return SelectUserFirst;
      }
      var found := FindUser(usuarios, uid);
      if found.None? {
        return UserNotFound;
      }
      var u := usuarios[found.value];
      var inferred := InferTopic(cursos, topicOptions, u);
      InferredSelection(cursos, u, topicValue);
      if inferred.Some? {
        SetTopicValue(inferred.value);
      }
      alert := NoAlert;
    }

    /** The courses buscarYMostrar renders (script.js:80-103), for the level selector's value. */
    method BuscarYMostrar(levelValue: string) returns (shown: seq<Course>)
      ensures shown == Search(cursos, topicValue, levelValue)
      ensures forall k :: 0 <= k < |shown| ==> shown[k] in cursos
    {
      var topic := Trim(topicValue);
      var level := Trim(levelValue);
      shown := FilterBy(cursos, (c: Course) => Keep(c, topic, level));
    }
  }
}
