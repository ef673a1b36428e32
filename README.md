# Course recommendation page — verified model

This project models the logic of the course-recommendation page in
`script.js`. The page loads a course catalog (`cursos`) and a list of users
(`usuarios`). It offers the catalog's distinct topics in a topic selector.
Choosing a user pre-selects a topic from that user's free-text interests.
A search then filters the catalog by topic and level.

The model has these modules:

- `Wrappers`: the `Option` type. An absent JSON field is `None`.
- `Text`: `normalizeText`, with `toLowerCase`, NFD decomposition and mark
  removal written out concretely for Basic Latin and Latin-1.
  It also holds `String.prototype.includes` and `String.prototype.trim`.
- `Order`: the default order of `Array.prototype.sort` on strings. This is
  a lexicographic comparison of UTF-16 code units, proved to be a total
  order. An insertion sort stands for the library sort. `SortedUnique`
  proves that every sorted permutation equals its result.
- `Catalog`: the `Course` and `User` records, and the topic list
  (`new Set`, `.filter(Boolean)`, `.sort()`).
- `Matcher`: the decisions of `loadSelectedUser`. It finds the user, then
  scans courses, then falls back to scanning the selector's options.
- `SearchEngine`: the filter callback of `buscarYMostrar`, and the filter
  over the catalog.
- `App`: a `Page` class. It holds the module-level `cursos` and
  `usuarios`, plus the topic selector's option values and current value.
  Its methods model `loadData`, the topic half of `populateSelectors`,
  `loadSelectedUser` and `buscarYMostrar`.
- `Examples`: concrete scenarios. They cover accent- and case-insensitive
  matching, exact level matching, and the interest examples.

The matcher asks whether the normalized topic contains the normalized
interest, not the reverse (script.js:68). So an interest of "quantum
physics" selects nothing from the topics "Biology" and "Quantum Computing"
(`Examples.QuantumPhysicsFindsNoTopic`), while an interest of "computing"
selects "Quantum Computing" (`Examples.ComputingPicksQuantumComputing`).

The selector's value setter is modelled as the DOM defines it. Assigning a
value that no option has leaves no option selected, so the value reads "".
The topic selector starts with one "any" option whose value is "". That
option comes from the page markup, which is not part of this model.

## Model

| member | source | states |
|---|---|---|
| Text.NormalizeText | script.js:13-16 | A falsy input (absent or "") gives ""; the output never holds a U+0300..U+036F mark nor an upper-case letter |
| Text.LowerChar | script.js:15 | `toLowerCase` of one char: upper-case Basic Latin / Latin-1 letters move 0x20 code points, everything else is unchanged, and the result is never upper-case |
| Text.Lower | script.js:15 | `toLowerCase` keeps the length and lower-cases each char in place |
| Text.Decompose | script.js:15 | NFD of one char gives one or two chars |
| Text.DecompositionShape | script.js:15 | Each Latin-1 precomposed letter decomposes into an ASCII base letter followed by a combining mark |
| Text.DecomposeOutput | script.js:15 | Decomposing a non-upper-case char yields only settled chars and marks |
| Text.NfdKeepsNoUpper | script.js:15 | NFD of lower-cased text introduces no upper-case letter and yields only settled chars and marks |
| Text.StripMarksProps | script.js:15 | Removing U+0300..U+036F leaves no mark, never lengthens, keeps only chars of the input, and is the identity on mark-free text |
| Text.Nfd | script.js:15 | `normalize('NFD')` keeps every char and at most doubles the length; NfdKeepsNoUpper, NfdIdentity and NfdAppend state its other properties |
| Text.StripMarks | script.js:15 | Deleting U+0300..U+036F never lengthens and leaves no mark; StripMarksProps and StripMarksAppend state the rest |
| Text.NfdIdentity | script.js:15 | NFD leaves text of settled chars and marks unchanged |
| Text.NormalizeIdempotent | script.js:13-16 | Normalizing a normalized string changes nothing |
| Text.NormalizeIgnoresCase | script.js:15 | Lower-casing before normalizing changes nothing |
| Text.NormalizeStripsAccent | script.js:15 | An accented Latin-1 letter of either case normalizes to its bare ASCII letter |
| Text.NfdAppend | script.js:15 | NFD distributes over concatenation |
| Text.StripMarksAppend | script.js:15 | Mark removal distributes over concatenation |
| Text.NormalizeAppend | script.js:13-16 | Normalization of two strings joined is the join of their normalizations |
| Text.NormalizeSettled | script.js:13-16 | Text without upper-case letters, precomposed letters or marks normalizes to itself |
| Text.Includes | script.js:68 | `includes` fails for a needle longer than the text and holds for a prefix; IncludesIff characterises it fully |
| Text.IncludesIff | script.js:68 | `hay.includes(needle)` holds exactly when the needle occurs at some offset of hay |
| Text.EmptyIncluded | script.js:68 | The empty needle is included in every string |
| Text.OrEmpty | script.js:65 | `s \|\| ''` is non-empty exactly when s is truthy, and is then s |
| Text.LeadingSpaces | script.js:81-82 | Counts exactly the white space that starts the string |
| Text.TrailingSpaces | script.js:81-82 | Counts exactly the white space that ends the string |
| Text.Trim | script.js:81-82 | `trim()` never lengthens, and its result neither starts nor ends with white space; TrimSpec characterises it fully |
| Text.TrimSpec | script.js:81-82 | `trim()` returns a slice whose surroundings are all white space and whose borders are not; it is empty exactly for all-white-space input |
| Text.TrimIdempotent | script.js:81-82 | Trimming twice is trimming once |
| Order.CharUnits | script.js:40 | A char encodes to one UTF-16 unit, or to two starting with a high surrogate |
| Order.CharUnitsPrefixFree | script.js:40 | Encodings of distinct chars are prefix-free |
| Order.CodeUnitsInjective | script.js:40 | Different strings have different UTF-16 encodings |
| Order.UnitsReflexive | script.js:40 | The code-unit order is reflexive |
| Order.UnitsTotal | script.js:40 | The code-unit order is total |
| Order.UnitsTransitive | script.js:40 | The code-unit order is transitive |
| Order.UnitsAntisymmetric | script.js:40 | The code-unit order is antisymmetric |
| Order.LessEq | script.js:40 | The default comparison is reflexive and puts "" first; LessEqTotalOrder proves it a total order |
| Order.LessEqTotalOrder | script.js:40 | The default string comparison of `sort()` is a total order on strings |
| Order.Insert | script.js:40 | Insertion adds exactly one copy of the element; InsertSorted proves it keeps a sorted sequence sorted |
| Order.SortedCons | script.js:40 | A least head keeps a sorted sequence sorted |
| Order.InsertSorted | script.js:40 | Insertion keeps a sequence sorted and adds exactly one copy of the element |
| Order.Sort | script.js:40 | `temas.sort()` yields a sorted permutation of its input |
| Order.HeadIsLeast | script.js:40 | The head of a sorted sequence is no later than any of its elements |
| Order.SameHead | script.js:40 | Two sorted permutations of the same strings start alike |
| Order.TailMultiset | script.js:40 | The tail holds one occurrence of the head fewer |
| Order.SortedUnique | script.js:40 | Any two sorted permutations of the same strings are equal, so every correct sort agrees with `Sort` |
| Order.DistinctTail | script.js:39-40 | A distinct sequence's tail is distinct and lacks the head |
| Order.DistinctCons | script.js:39-40 | Prepending a new string keeps a sequence distinct |
| Order.InsertDistinct | script.js:39-40 | Inserting a new string keeps a sorted sequence distinct |
| Order.SortDistinct | script.js:39-40 | Sorting distinct strings yields distinct strings |
| Order.StrictlyAscending | script.js:39-40 | A sorted distinct sequence is strictly ascending |
| Order.SortDependsOnlyOnContents | script.js:40 | The sort result depends only on the multiset of its input |
| Catalog.Temas | script.js:39 | `cursos.map(c => c.tema)` keeps positions and takes each course's tema |
| Catalog.Dedup | script.js:39 | `Array.from(new Set(...))` is duplicate-free and has exactly the input's elements |
| Catalog.DropEmpty | script.js:39 | `.filter(Boolean)` keeps exactly the non-empty elements and keeps distinctness |
| Catalog.Topics | script.js:39-40 | The topic list is sorted, distinct and free of ""; TopicsSpec adds that it holds exactly the catalog's non-empty tema values |
| Catalog.TopicsSpec | script.js:39-40 | The topic list is distinct, has no "", is sorted and strictly ascending, and holds exactly the non-empty tema values of the catalog |
| Catalog.TemaOffered | script.js:39-45 | Every non-empty course topic is offered in the selector |
| Catalog.TopicsDependOnlyOnTopicSet | script.js:39-40 | Catalogs with the same set of topics give the same topic list |
| Catalog.DistinctCount | script.js:39 | In a distinct sequence each element occurs exactly once |
| Catalog.DistinctSameElements | script.js:39-40 | Distinct sequences with the same elements are permutations of each other |
| Matcher.FirstIndex | script.js:61-73 | `find` returns the first index satisfying the predicate, or none when no element does |
| Matcher.FindUser | script.js:61 | The user found has the given usuario and no earlier user has it; when none is found no user has it |
| Matcher.InterestNeedle | script.js:65-67 | The normalized interest is "" for a missing or empty interest, and holds no mark and no upper-case letter |
| Matcher.CourseMatch | script.js:68 | The course found is the first whose normalized tema contains the needle; none is found only when no tema does |
| Matcher.OptionMatch | script.js:73 | The option found is the first whose normalized value contains the needle; none is found only when no option does |
| Matcher.InferTopic | script.js:65-75 | A topic assigned is some course's tema or an option value; when none is assigned, no course's tema and no option contains the interest |
| Matcher.FindUserSpec | script.js:61-62 | The user found is the first with that usuario; none is found exactly when no user has it |
| Matcher.InferPicksFirstMatchingCourse | script.js:65-70 | With a user, the topic chosen is the tema of the first course whose normalized tema contains the normalized interest |
| Matcher.EmptyInterestPicksFirstCourse | script.js:65-70 | A missing or empty interest over a non-empty catalog picks the first course's tema |
| Matcher.IncludedInEmpty | script.js:73 | Only the empty needle is included in "" |
| Matcher.FallbackFindsNothingNew | script.js:39-74 | When no course matches, no non-empty option matches either; the option scan can only hit the "any" option, with an empty interest over an empty catalog |
| Matcher.InferTopicOverCatalogOptions | script.js:65-75 | Over the populated selector, the inferred topic is the first matching course's tema, or else nothing, or "" for an empty catalog |
| Matcher.InferTopicIsOffered | script.js:65-75 | Any topic the matcher assigns is the value of an existing option |
| Matcher.InferredSelection | script.js:65-75 | Over the populated selector, the assigned topic is an existing option: the first matching course's tema, or, when no course matches, nothing other than the value already shown |
| SearchEngine.Keep | script.js:86-100 | A kept course always meets the level condition, and with no topic chosen the level condition alone decides; KeepIff states both conditions |
| SearchEngine.Filter | script.js:86-100 | The filtered catalog is no longer than the catalog and holds only kept courses taken from it; FilterSpec gives order and multiplicities |
| SearchEngine.Search | script.js:81-100 | Every course found is in the catalog and kept for the trimmed topic and level; FilterSpec, SearchIdempotent and SearchWithoutFilters state the rest |
| SearchEngine.FilterBy | script.js:86 | `filter` returns no more elements than its input, each satisfying the predicate and taken from the input |
| SearchEngine.KeepIff | script.js:86-100 | A course is kept exactly when the level is empty or equals the course's non-empty nivel after normalization, and the topic is empty or occurs in normalized tema, nombre or a present descripcion |
| SearchEngine.FilterBySubsequence | script.js:86-100 | The result of a filter is an order-preserving subsequence of its input |
| SearchEngine.FilterByCount | script.js:86-100 | A filter keeps each accepted element as often as the input has it, and nothing else |
| SearchEngine.FilterByAppend | script.js:86-100 | A filter distributes over concatenation |
| SearchEngine.FilterByIdempotent | script.js:86-100 | Filtering twice is filtering once |
| SearchEngine.FilterByAll | script.js:86-100 | A filter whose predicate holds on every element is the identity |
| SearchEngine.FilterSpec | script.js:86-100 | The search result is an order-preserving subsequence of the catalog, holding exactly the kept courses with their multiplicities |
| SearchEngine.FilterAppend | script.js:86-100 | Each part of a catalog is filtered independently |
| SearchEngine.SearchIdempotent | script.js:81-100 | Searching a search result with the same selector values returns it unchanged |
| SearchEngine.SearchWithoutFilters | script.js:81-93 | With both selectors blank the whole catalog is returned in order |
| App.Page.constructor | script.js:2-3 | The page starts with empty collections and a selector holding only "any" |
| App.Page.SetTopicValue | script.js:70-74 | Assigning the selector's value selects that option, or none (value "") when no option has it |
| App.Page.PopulateTopics | script.js:39-46 | One option per topic is appended, in topic-list order |
| App.Page.LoadData | script.js:25-29 | When both loads succeed, the collections are replaced and the selector offers "any" plus the catalog's topics; when either fails, nothing changes |
| App.Page.LoadSelectedUser | script.js:58-77 | No user id, or an unknown one, raises the matching alert and leaves the topic alone; otherwise the topic becomes the value InferTopic picks: the first matching course's tema, or, when none matches, it stays as it was; the topic always remains an offered option |
| App.Page.BuscarYMostrar | script.js:80-103 | The courses shown are the catalog filtered by the trimmed topic and level values |
| Examples.AccentAndCaseInsensitive | script.js:13-16 | "Programación" and "programacion" normalize to the same text |
| Examples.KeptByLevelAndTopic | script.js:86-100 | A course of the chosen level whose topic normalizes like the chosen topic is kept |
| Examples.DroppedByLevel | script.js:88-91 | A course of a different level is dropped whatever its topic |
| Examples.BeginnerAiScenario | script.js:80-100 | Searching topic "ai" and level "beginner" keeps exactly the beginner course with tema "AI" of a small catalog |
| Examples.LevelIsExactNotSubstring | script.js:90 | Level "Advanced" does not keep a course whose nivel is "advanced course" |
| Examples.NameMatchSuffices | script.js:96 | A topic found only in the course name keeps the course |
| Examples.NoFiltersExamples | script.js:93 | With no filters a one-course catalog comes back unchanged, and an empty one gives nothing |
| Examples.TooLongNotIncluded | script.js:68 | A needle longer than the text is not included in it |
| Examples.QuantumPhysicsFindsNoTopic | script.js:65-75 | The interest "quantum physics" selects no topic of a catalog with "Biology" and "Quantum Computing" |
| Examples.ComputingPicksQuantumComputing | script.js:65-70 | The interest "computing" selects "Quantum Computing" |

## Left out

- The asynchronous `fetch`, `Promise.all` and `.json()` calls of `loadData` (script.js:19-34) are network I/O. `App.Page.LoadData` takes the two parsed collections as parameters, with `None` for a failed response. The error banner written to `results` is presentation and is not modelled.
- JSON parse errors are not modelled. If `.json()` fails on the courses (script.js:27) nothing changes, as with a failed response. If it fails on the users (script.js:28), `cursos` has already been replaced and `populateSelectors` never runs, so the topic selector no longer matches the catalog; `App.Page.LoadData` does not model that path, because its parameters are the parsed collections.
- The user half of `populateSelectors` (script.js:49-54) only builds display options. The user selector's value is the `uid` parameter of `App.Page.LoadSelectedUser`.
- Building `<option>` elements and their text (script.js:42-45) is reduced to appending their values.
- `renderResults` (script.js:106-155) is DOM presentation. This includes the empty-list message and the display defaults `'—'`, `'#'` and `''`. `App.Page.BuscarYMostrar` returns the list that would be rendered.
- The `alert` calls (script.js:60, 62) are user interface. They are modelled as the returned `Alert` value.
- The event listeners and the start-up call (script.js:158-162) are not modelled, because a browser event loop is outside the model.
- `Text.NormalizeText`: lower-casing and NFD are written out only for Basic Latin and Latin-1. Every other character is treated as unchanged by both, because the full Unicode tables are library data. Canonical reordering of several combining marks is also not modelled.
- `s.toString()` coercion of non-string values is left out. Every field is a string or absent.
- Strings are sequences of Unicode scalar values, so lone surrogates cannot be expressed.
- `Order.Sort` is a functional insertion sort standing for the engine's in-place `temas.sort()`. The in-place update of the array is not modelled. `Order.SortedUnique` shows that the order of elements in the result matches any correct sort.
- `Catalog.Dedup`: the first-occurrence order of `new Set` is modelled but not stated as a property, because the result is sorted at once.
- `Catalog.DropEmpty`: the order of the kept elements is modelled but not stated, because the result is sorted at once.
- Fields used only for display (`modulos`, `modalidad`, `enlace_pdf`) are not part of `Catalog.Course`.
- The level selector's option list belongs to the page markup, which is not part of this model. Its value is a parameter of `App.Page.BuscarYMostrar`.
