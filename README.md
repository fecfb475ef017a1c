# Quiz question browser — a Dafny model

`quiz.js` is the whole of a small browser quiz. It loads an array of question
records, normalises them, and fills three filter selects (category, role
focus, difficulty) with the distinct values found. On every filter change it
keeps the questions that pass the filters and a free-text search. It then
renders one card per question, or a placeholder when none is left. Each card
hides its correct answer behind a "Show answer" button.

This project models that pipeline and proves what it promises:

- `strings.dfy` (module `Strings`) models the JavaScript string operations
  the script relies on: `trim`, ASCII `toLowerCase`/`toUpperCase`,
  `includes`, `join`, and the decimal rendering of a count. It also states
  what the sort of facet values needs of its comparison (a strict total
  order, `StrictOrder`) and gives code-point order (`Less`) as one such order.
- `seqs.dfy` (module `Seqs`) models `Array.prototype.filter` and
  order-preserving subsequences.
- `questions.dfy` (module `Questions`) models the raw and normalised records,
  `toDifficultyLabel`, and the normalisation in `fetchQuestions`.
- `facets.dfy` (module `Facets`) models `getUniqueValues` as a loop method
  filling a set, followed by a sort.
- `filtering.dfy` (module `Filtering`) models the filter predicate of
  `applyFilters`.
- `render.dfy` (module `Render`) models what `renderQuestions` computes:
  - the count label;
  - the placeholder;
  - the option list;
  - the correct-answer line;
  - `escapeHtml` and its inverse;
  - the cards, and the render loop that builds them;
  - the reveal toggle of `initGlobalEvents`.
- `quiz.dfy` (module `Quiz`) models the module-level state as the class
  `QuizSession`. Its methods reassign the state the way `fetchQuestions`,
  `initFilters`, `applyFilters`, the reset button and the click handler do.

Inputs are modelled as follows:

- The parsed JSON arrives as a parameter: `None` for `null`, otherwise a
  sequence of entries, each `Null` or a record.
- A raw text field holds the `toString()` of its JSON value. `""` stands for
  every falsy value (see "## Left out" for truthy values whose text is empty).
- A raw `difficulty` is `Absent`, `Num(n, shown)` for a value whose
  `Number()` is the finite number `n`, or `Text(s)`.
- The filter controls arrive as a `Criteria` value.

Where the prose description of the program and the code differ, the model
follows the code:

- A stem made only of spaces is truthy, so its record is kept and its stem
  becomes `""` (`Questions.WhitespaceStemKept`).
- "N/A" is shown not only when there is no correct option, but also when the
  option is literally `n/a` (`Render.AnswerDisplayCases`).

## Model

| member | source | states |
|---|---|---|
| Strings.Trim | quiz.js:39-50 | `trim`: drops leading and trailing WhiteSpace and LineTerminator characters; its contract is `Strings.TrimSpec` |
| Strings.TrimBounds | quiz.js:39-50 | gives the bounds of what `trim` keeps: the text before them and after them is all whitespace |
| Strings.TrimSpec | quiz.js:39-50 | `trim` removes an all-whitespace prefix and suffix and keeps the middle; the result is trimmed and no longer than the input; it is empty exactly when the input is all whitespace; an already trimmed text is unchanged |
| Strings.TrimStartSpec | quiz.js:39-50 | leading whitespace is dropped: the result is a suffix, what was dropped is all whitespace, and the result does not start with whitespace |
| Strings.TrimEndSpec | quiz.js:39-50 | trailing whitespace is dropped: the result is a prefix, what was dropped is all whitespace, and the result does not end with whitespace |
| Strings.Lower | quiz.js:156 | `toLowerCase` on ASCII letters, character by character; used by `Strings.OccursAtLower` and `Strings.ContainsLower` |
| Strings.Upper | quiz.js:305 | `toUpperCase` on ASCII letters, character by character; used by `Strings.UpperOfLowerEqual` and `Render.CorrectLabel` |
| Strings.UpperOfLowerEqual | quiz.js:304-306 | texts equal up to ASCII case upper-case to the same text |
| Strings.Contains | quiz.js:174 | `includes`, scanning from the left; its contract is `Strings.ContainsIff` |
| Strings.ContainsIff | quiz.js:174 | `includes` holds exactly when the query occurs at some index |
| Strings.ContainsMiddle | quiz.js:253 | a text contains every middle piece of a concatenation, such as the terms in "Lexicon: " followed by the terms |
| Strings.OccursAtLower | quiz.js:173-174 | an occurrence survives lower-casing both texts |
| Strings.ContainsLower | quiz.js:173-174 | a contained query stays contained once both sides are lower-cased |
| Strings.ContainsTransitive | quiz.js:174 | a substring of a substring is a substring |
| Strings.Join | quiz.js:172 | `join`: the parts with the separator between consecutive ones; its contract is `Strings.JoinContainsPart` |
| Strings.JoinContainsPart | quiz.js:172 | every part occurs in the space-joined text |
| Strings.JoinHasPart | quiz.js:172 | every part occurs at some index of the joined text |
| Strings.NatToDecimal | quiz.js:195 | the rendering of a count is non-empty, made of decimal digits, and starts with 0 only for the count 0 (no leading zero) |
| Strings.DecimalRoundTrip | quiz.js:195 | reading the rendered digits back gives the count |
| Strings.NatToDecimalInjective | quiz.js:38 | different numbers render differently |
| Strings.Less | quiz.js:144 | lexicographic order by code point, one admissible comparison for the sort; `Strings.LessIsStrictOrder` shows it is one |
| Strings.LessIrreflexive | quiz.js:144 | the sort order is irreflexive |
| Strings.LessTransitive | quiz.js:144 | the sort order is transitive |
| Strings.LessTotal | quiz.js:144 | any two different texts are ordered one way or the other |
| Strings.LessIsStrictOrder | quiz.js:144 | code-point order is a strict total order, so it meets what the sort of facet values requires of its comparison |
| Seqs.Filter | quiz.js:35 | the result is no longer than the input, and every kept element passes the test |
| Seqs.SubseqRefl | quiz.js:53 | a list is a subsequence of itself, so `[...allQuestions]` keeps the invariant |
| Seqs.FilterIsSubseq | quiz.js:35 | filter keeps an order-preserving subsequence |
| Seqs.FilterCount | quiz.js:35 | filter keeps every occurrence of a passing element and none of a failing one |
| Seqs.FilterKeepsAll | quiz.js:158 | when everything passes, filter returns its input |
| Seqs.FilterThenFilter | quiz.js:158-177 | filtering by one test and then another equals filtering by both |
| Seqs.FilterIdempotent | quiz.js:158 | filtering twice by the same test equals filtering once |
| Questions.DifficultyLabel | quiz.js:61-71 | absent or `""` gives `""`; n <= 1 gives Beginner; n == 2 gives Intermediate; n >= 3 gives Advanced; any other number, and any non-numeric value, gives its trimmed text |
| Questions.IntegerDifficultyIsBucketed | quiz.js:66-68 | every integer difficulty lands in one of the three named buckets |
| Questions.FallbackId | quiz.js:38 | `Q_` followed by the 1-based position; its contracts are `Questions.FirstFallbackId` and `Questions.FallbackIdInjective` |
| Questions.FirstFallbackId | quiz.js:38 | the first fallback id is `Q_1` |
| Questions.FallbackIdInjective | quiz.js:38 | fallback ids of different positions differ |
| Questions.NormaliseRecord | quiz.js:36-50 | the object literal built for one kept record; its contract is `Questions.NormaliseRecordSpec` |
| Questions.NormaliseRecordSpec | quiz.js:36-50 | the record built is well formed; it keeps a truthy id and otherwise has `Q_` and its 1-based position; its difficulty is the label of the raw difficulty; every other field is the raw field trimmed |
| Questions.KeptEntries | quiz.js:34-35 | every kept entry is a record with a truthy stem |
| Questions.HasStem | quiz.js:35 | `q && q.stem`: a non-null record with a non-empty stem; `Questions.KeptEntriesExact` states what the filter keeps |
| Questions.Normalise | quiz.js:34-51 | one output question per kept record; the k-th is well formed, keeps its record's truthy id or else gets the fallback id of position k + 1, has the label of its raw difficulty, and has every other field trimmed from its record |
| Questions.KeptEntriesExact | quiz.js:34-35 | null data keeps nothing; otherwise the kept entries are an order-preserving subsequence holding each entry with a truthy stem as often as the input does, and no other entry |
| Questions.FallbackIdsDistinct | quiz.js:36-38 | two questions that both received a fallback id received different ones |
| Questions.WhitespaceStemKept | quiz.js:35-42 | a stem of spaces passes the truthiness test, so the record is kept, with an empty stem |
| Questions.FallbackCountsKeptOnly | quiz.js:35-38 | positions count kept records only: a null entry before a record does not shift its fallback id |
| Facets.FacetValue | quiz.js:141 | the trimmed text of one of the three facet fields, `""` when it is falsy |
| Facets.FacetValues | quiz.js:139-143 | the Set filled by the `forEach` loop; its contract is `Facets.FacetValuesExact` |
| Facets.FacetValuesStep | quiz.js:139-143 | one more item adds its facet value to the set when that value is non-empty |
| Facets.FacetValuesSound | quiz.js:139-143 | every value in the set is non-empty and is the trimmed field of some item |
| Facets.FacetValuesComplete | quiz.js:139-143 | every non-empty trimmed field of an item is in the set |
| Facets.FacetValuesExact | quiz.js:139-143 | the set holds exactly the non-empty trimmed field values of the list |
| Facets.FacetValuesOfWellFormed | quiz.js:139-143 | on normalised questions the set holds exactly the non-empty fields |
| Facets.FacetValuesAreFields | quiz.js:139-143 | on normalised questions the set of a facet holds exactly the non-empty values of that field |
| Facets.Insert | quiz.js:144 | for any strict total order, inserting into a strictly sorted list keeps it strictly sorted and adds exactly the new element |
| Facets.SortedUnique | quiz.js:144 | for any strict total order, two strictly sorted lists with the same elements are equal, so the result does not depend on set order |
| Facets.SortSet | quiz.js:144 | the sorted array holds exactly the elements of the set, strictly ascending under the given comparison |
| Facets.UniqueValues | quiz.js:138-145 | for any strict total order as the comparison, the result is strictly sorted by it (hence free of duplicates), has no empty value, and holds exactly the set of non-empty trimmed field values |
| Filtering.SearchKey | quiz.js:156 | the search box value lower-cased, then trimmed; `Filtering.BlankSearchMatchesAll` shows a blank box gives no constraint |
| Filtering.SearchFields | quiz.js:164-171 | stem, lexicon terms, category, role focus and type, in that order, without the empty ones; used by `Filtering.FieldIsSearched` |
| Filtering.Searchable | quiz.js:164-173 | the search fields joined by a space and lower-cased; `Filtering.MatchInOneField` and `Filtering.MatchAcrossFields` state what it lets a query find |
| Filtering.Matches | quiz.js:158-178 | the filter callback: each selected facet equals the question's field, and a non-empty search key occurs in the searchable text; its consequences are in `Filtering.FilterQuestionsExact` |
| Filtering.FilterQuestions | quiz.js:158-178 | `allQuestions.filter` by that callback; its contract is `Filtering.FilterQuestionsExact` |
| Filtering.FilterQuestionsExact | quiz.js:158-178 | the filtered list is an order-preserving subsequence; every kept question passes all four tests; every passing question is kept as often as it occurs |
| Filtering.BlankSearchMatchesAll | quiz.js:156-163 | a search box holding only whitespace constrains nothing |
| Filtering.EmptyCriteriaKeepAll | quiz.js:153-178 | with no facet selected and a blank search, the filtered list equals the full list |
| Filtering.FilterQuestionsIdempotent | quiz.js:158-178 | filtering the filtered list again with the same criteria changes nothing |
| Filtering.FacetsThenSearch | quiz.js:159-175 | the four tests combine by AND: facets first and then search equals all four at once |
| Filtering.FieldIsSearched | quiz.js:164-172 | every non-empty searchable field occurs in the joined search text |
| Filtering.MatchInOneField | quiz.js:156-174 | a query found, ignoring ASCII case, in one non-empty searchable field matches the question |
| Filtering.LowerCaseQueryFindsStem | quiz.js:156-174 | the query "hash" finds the stem "Hash Collisions" |
| Filtering.UpperCaseQueryFindsStem | quiz.js:156-174 | the query "COLLISION" finds the stem "Hash Collisions" |
| Filtering.MatchAcrossFields | quiz.js:164-174 | "heart attack" matches stem "heart" with lexicon terms "attack" through the joining space, though neither field contains it |
| Render.CountLabel | quiz.js:195-197 | the label starts with the count's digits and a space, and ends in "s" exactly when the count is not 1 |
| Render.OneQuestion | quiz.js:195-197 | a count of one reads "1 question" |
| Render.CountLabelPlural | quiz.js:195-197 | every other count reads "<n> questions" |
| Render.CountLabelInjective | quiz.js:195-197 | different counts give different labels |
| Render.IsListed | quiz.js:263 | `o.text && o.text.trim().length > 0`; `Render.OptionListed` states it as "not all whitespace" |
| Render.OptionItems | quiz.js:258-263 | the four A-D options filtered by that test; its contract is `Render.OptionItemsExact` |
| Render.OptionListed | quiz.js:258-263 | an option is listed exactly when it is one of the four and its text is not all whitespace |
| Render.OptionItemsExact | quiz.js:258-263 | the list keeps A-D order and holds exactly the options whose text is not blank |
| Render.OptionItemsOfWellFormed | quiz.js:258-263 | on a normalised question the listed options are exactly the non-empty ones |
| Render.ListedOption | quiz.js:258-263 | one of the four options that passes the test is listed |
| Render.ListedUnder | quiz.js:258-263 | a non-empty trimmed option is listed |
| Render.CorrectLabel | quiz.js:304-306 | the label is the trimmed, upper-cased correct option, whatever the guard |
| Render.TextFor | quiz.js:310-316 | the lookup of the label in the map from A-D to the options, `""` for any other label; its contracts are `Render.TextForIsListed` and `Render.ListedTextFor` |
| Render.CorrectText | quiz.js:308-317 | the answer text: the lookup of a non-empty label, else `""`; its contracts are `Render.CorrectTextIsListed`, `Render.ListedOptionResolves` and `Render.OutOfRangeHasNoText` |
| Render.AnswerDisplay | quiz.js:321 | the label, followed by "." when there is answer text, or "N/A" when there is no label; its contract is `Render.AnswerDisplayCases` |
| Render.AnswerLine | quiz.js:320-322 | the displayed label, a space and the answer text; `Render.OutOfRangeShownBare` and `Render.LowerCaseLetterResolves` give instances |
| Render.CorrectLabelIgnoresCase | quiz.js:304-306 | correct options that agree up to ASCII case and surrounding whitespace give the same label |
| Render.CorrectTextIsListed | quiz.js:308-317 | a non-empty answer text is the text of the listed option whose letter is the label |
| Render.TextForIsListed | quiz.js:308-317 | on a normalised question, a letter that resolves to a non-empty text is a single letter naming a listed option with that text |
| Render.ListedTextFor | quiz.js:308-317 | looking up a listed option's letter gives that option's text |
| Render.ListedOptionResolves | quiz.js:308-317 | when the label is the letter of a listed option, the answer text is that option's text |
| Render.OutOfRangeHasNoText | quiz.js:308-317 | a label outside A-D resolves to no text |
| Render.AnswerDisplayCases | quiz.js:320-321 | "N/A" is shown exactly when the label is empty or reads "N/A"; otherwise the label is followed by "." exactly when there is answer text |
| Render.OutOfRangeShownBare | quiz.js:304-322 | correct option "e" is shown as a bare "E" with no text |
| Render.LowerCaseLetterResolves | quiz.js:304-322 | correct option "b" with option B "Paris" reads "B. Paris" |
| Render.EscapeHtml | quiz.js:384-390 | the three global replaces, `&` first, then `<`, then `>`; its contracts are `Render.EscapeHtmlIsEscapeEach`, `Render.EscapeHtmlNoMarkup` and `Render.UnescapeEscape` |
| Render.ReplaceChar | quiz.js:387-389 | `.replace(/c/g, rep)` for one character c; its contracts are `Render.ReplaceCharAppend`, `Render.ReplaceCharAbsent` and `Render.ReplaceCharSingle` |
| Render.ReplaceCharAppend | quiz.js:387-389 | a global one-character replace distributes over concatenation |
| Render.ReplaceCharAbsent | quiz.js:387-389 | replacing a character that does not occur changes nothing |
| Render.ReplaceCharSingle | quiz.js:387-389 | on one character, a global replace gives the replacement when the character matches and the character otherwise |
| Render.EscapeHtmlChar | quiz.js:384-390 | the three passes applied to one character give its escape |
| Render.EscapeHtmlIsEscapeEach | quiz.js:384-390 | because `&` is replaced first, escapeHtml escapes every character exactly once: `&`, `<`, `>` become entities and every other character is unchanged |
| Render.WrongOrderDoubleEscapes | quiz.js:387-389 | with `&` replaced last, `<` would come out double-escaped as `&amp;lt;`; escapeHtml gives `&lt;` |
| Render.AmpOfLt | quiz.js:387 | replacing `&` in `&lt;` gives `&amp;lt;` |
| Render.EscapeEachNoMarkup | quiz.js:384-390 | no escape contains `<` or `>` |
| Render.EscapeHtmlNoMarkup | quiz.js:384-390 | the output of escapeHtml contains no `<` and no `>` |
| Render.EscapeEachPlain | quiz.js:384-390 | escaping each character of a text without `&`, `<` and `>` changes nothing |
| Render.EscapeHtmlPlain | quiz.js:384-390 | text without `&`, `<` and `>` passes through unchanged |
| Render.ReplaceStrHit | quiz.js:387-389 | an entity at the front is replaced and the scan resumes after it |
| Render.ReplaceStrPlain | quiz.js:387-389 | text without `&` holds no entity and is kept as it is |
| Render.ReplaceStrMiss | quiz.js:387-389 | a different entity at the front is kept as it is |
| Render.UndoLt | quiz.js:384-390 | undoing `&lt;` in escaped text leaves only `&` and `>` escaped |
| Render.UndoGt | quiz.js:384-390 | then undoing `&gt;` leaves only `&` escaped |
| Render.UndoAmp | quiz.js:384-390 | then undoing `&amp;` gives back the original text |
| Render.UnescapeEscape | quiz.js:384-390 | replacing `&lt;`, `&gt;` and then `&amp;` back recovers the input of escapeHtml |
| Render.EscapeHtmlInjective | quiz.js:384-390 | different texts escape differently |
| Render.AnswerHtmlAsWritten | quiz.js:319-322 | the answer line as the program inserts it into `innerHTML`, unescaped; `Render.AnswerMarkupInjected` shows it can carry markup |
| Render.AnswerMarkupInjected | quiz.js:319-322 | as written, an option text "<b>x</b>" reaches the answer markup with its `<` |
| Render.AnswerHtml | quiz.js:319-329 | the corrected answer markup: the answer line escaped like the author note; its contract is `Render.AnswerHtmlSafe` |
| Render.AnswerHtmlSafe | quiz.js:319-329 | the escaped answer line holds no `<` or `>` and unescapes to the answer line |
| Render.Tags | quiz.js:227-238 | the chips: category, role focus and difficulty, in that order, each when non-empty; its contract is in `Render.TagsExact` and `Render.CardShows` |
| Render.LexiconLine | quiz.js:250-255 | "Lexicon: " and the lexicon terms, when there are any |
| Render.NoteHtml | quiz.js:323-329 | the escaped author note, when there is one; its contract is in `Render.CardShows` |
| Render.TagsExact | quiz.js:227-234 | the chips are an order-preserving subsequence of category, role and difficulty, and each non-empty value appears as many times as among those three fields, an empty one never |
| Render.CardShows | quiz.js:227-329 | the chips are the non-empty category, role and difficulty in that order, one chip per non-empty field even when two fields hold the same value; the lexicon line is shown exactly when there are lexicon terms, and contains them; a note is shown exactly when there is one, and its markup holds no angle bracket and reads back as the note; the answer markup is stated for the corrected, escaped answer line (see Findings), not the unescaped line the program inserts |
| Render.ToggleCard | quiz.js:362-369 | a click flips whether the answer is hidden, leaves the button label in step with it, and changes nothing else on the card |
| Render.ToggleTwice | quiz.js:362-369 | two clicks restore a card whose button is in step |
| Render.ToggleParity | quiz.js:362-369 | after n clicks the card is as it was for even n and toggled once for odd n |
| Render.RevealedAfter | quiz.js:297-369 | a fresh card, hidden under "Show answer", shows its answer after n clicks exactly when n is odd, with the button reading "Hide answer" |
| Render.CardOf | quiz.js:293-302 | the card as first built: its question and index, the answer box hidden and the button reading "Show answer"; its contracts are `Render.RevealedAfter` and `Render.RenderCards` |
| Render.FreshCardsDisplay | quiz.js:210-337 | a freshly built container displays the filtered list, and every card in it has its answer hidden under "Show answer" |
| Render.RenderCards | quiz.js:200-337 | an empty list gives exactly one placeholder with the fixed message; otherwise there is one fresh card per question, in order, each hidden under "Show answer" |
| Quiz.QuizSession.constructor | quiz.js:10-11 | both lists start empty |
| Quiz.QuizSession.Load | quiz.js:34-53 | allQuestions becomes the normalisation of the data and filteredQuestions a copy of it; every loaded question is well formed and the filtered list is a subsequence |
| Quiz.QuizSession.LoadFailed | quiz.js:54-58 | a failed load empties both lists |
| Quiz.QuizSession.InitFilters | quiz.js:84-97 | each select is given the distinct values of its field, strictly sorted by the comparison passed in; its values are exactly the non-empty values of that field among the loaded questions; nothing else changes |
| Quiz.QuizSession.RenderQuestions | quiz.js:183-338 | the count element shows the count of the filtered list; the container is cleared and rebuilt: the placeholder, or one card per filtered question in order with every answer hidden under "Show answer"; the lists do not change |
| Quiz.QuizSession.ApplyFilters | quiz.js:153-181 | the filtered list becomes the questions passing the criteria, still a subsequence of the loaded list, and is rendered afresh with every answer hidden |
| Quiz.QuizSession.ResetFilters | quiz.js:108-116 | clearing the controls and filtering again shows every loaded question, each card with its answer hidden |
| Quiz.QuizSession.ToggleAnswer | quiz.js:353-371 | a click on a card's button flips that card alone; other positions and the placeholder are untouched; the container still shows the filtered list |

## Left out

- Fetching `questions.json`, `res.ok` and `res.json()` (quiz.js:25-31) are network I/O. The parsed value is a parameter of `Load`, and the catch branch is `LoadFailed`.
- The DOM is not modelled: element creation, class names, `populateSelect`, `createChip`, element lookups, missing-element early returns and listener wiring. The model keeps only the values they show. A select's option list is its sorted value list, without the "All …" entry.
- `debounce` (quiz.js:376-382) only delays re-filtering. It is timer behaviour and does not change any result.
- `Number()` coercion is not modelled; `DifficultyInput` carries its outcome. NaN and the infinities are not distinguished beyond what `Num` and `Text` express.
- `localeCompare` is not modelled: the sort takes its comparison as a parameter, assumed only to be a strict total order (`Strings.StrictOrder`). Code-point order (`Strings.Less`) is shown to be one; locale collation rules are not modelled.
- `toLowerCase` and `toUpperCase` are modelled on ASCII letters only. Other characters are left unchanged.
- A truthy JSON value whose `toString()` is empty (such as `[]`) is not distinguished from a falsy one: both arrive as `""`. The program keeps a record whose stem is such a value (it is truthy) and gives it the stem `""`; the model drops it, which also shifts the fallback ids of later records. Likewise an id such as `[]` is kept by the program as the id itself, while the model gives a fallback id.
- `toString()` of non-string JSON values is not modelled: raw fields arrive as strings, with `""` standing for every falsy value.
- Fields of a raw record other than the thirteen known ones are not modelled; the spread `...q` copies them through unchanged.
- Console logging is not modelled.
- Render.CardShows: a card records its question, position and reveal state. The id, chips, stem, lexicon line, option list and answer and note markup are functions of the question rather than stored copies of DOM text.
- Render.CardShows: its answer clause describes the corrected card, whose answer line is escaped (`Render.AnswerHtml`). The program inserts the line unescaped (`Render.AnswerHtmlAsWritten`, quiz.js:319-322), so the as-written card can carry markup from an option text; `Render.AnswerMarkupInjected` shows this.
- Uniqueness of the ids given in the data is not checked, by the program or by the model. Only fallback ids are shown to be distinct.

## Findings

| source | as written | input that shows it | evidently intended | confidence | as-written member | corrected member |
|---|---|---|---|---|---|---|
| quiz.js:319-322 | the correct label and answer text are put into `innerHTML` unescaped, while the author note beside them goes through `escapeHtml` | correct option "A" with option A `<b>x</b>` puts a `<b>` element into the answer box | the answer line escaped like the note, so it shows as text | not executed | Render.AnswerMarkupInjected | Render.AnswerHtmlSafe |

The model's cards use the escaped answer line (`Render.AnswerHtml`).
