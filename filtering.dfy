/** The filter engine of applyFilters: three exact-match facet tests and a
    case-insensitive substring search over a space-joined blob of fields. */
module Filtering {
  import opened Strings
  import opened Seqs
  import opened Questions

  /** The values of the category, role and difficulty selects and of the
      search box; "" means "no constraint" (it is also what a missing control gives). */
  datatype Criteria = Criteria(category: string, role: string, difficulty: string, searchInput: string)

  const NoCriteria := Criteria("", "", "", "")

  /** `searchInput.value.toLowerCase().trim()`. */
  function SearchKey(input: string): string {
    Trim(Lower(input))
  }

  /** `[stem, lexicon_terms, category, role_focus, type].filter(Boolean)`. */
  function SearchFields(q: Question): seq<string> {
    Filter([q.stem, q.lexiconTerms, q.category, q.roleFocus, q.questionType], IsNonEmpty)
  }

  /** `.join(" ").toLowerCase()`. */
  function Searchable(q: Question): string {
    Lower(Join(SearchFields(q), " "))
  }

  predicate MatchesSearch(q: Question, key: string) {
    key == "" || Contains(Searchable(q), key)
  }

  /** The callback passed to allQuestions.filter. */
  predicate Matches(q: Question, c: Criteria) {
    && (c.category == "" || q.category == c.category)
    && (c.role == "" || q.roleFocus == c.role)
    && (c.difficulty == "" || q.difficulty == c.difficulty)
    && MatchesSearch(q, SearchKey(c.searchInput))
  }

  /** filteredQuestions = allQuestions.filter(...). */
  function FilterQuestions(all: seq<Question>, c: Criteria): seq<Question> {
    Filter(all, q => Matches(q, c))
  }

  /** The result is an order-preserving subsequence of all, every kept question
      passes all four tests, and every question that passes them is kept
      (as many times as it occurs in all). */
  lemma FilterQuestionsExact(all: seq<Question>, c: Criteria)
    ensures IsSubseq(FilterQuestions(all, c), all)
    ensures forall i :: 0 <= i < |FilterQuestions(all, c)| ==> Matches(FilterQuestions(all, c)[i], c)
    ensures forall q :: multiset(FilterQuestions(all, c))[q] == (if Matches(q, c) then multiset(all)[q] else 0)
  {
    FilterIsSubseq(all, q => Matches(q, c));
    forall q ensures multiset(FilterQuestions(all, c))[q] == (if Matches(q, c) then multiset(all)[q] else 0) {
      FilterCount(all, q => Matches(q, c), q);
    }
  }

  /** A search box holding only spaces constrains nothing. */
  lemma BlankSearchMatchesAll(q: Question, input: string)
    requires AllSpace(input)
    ensures MatchesSearch(q, SearchKey(input))
  {
    assert AllSpace(Lower(input)) by {
      forall i | 0 <= i < |input| ensures IsSpace(Lower(input)[i]) {
        assert IsSpace(input[i]);
      }
    }
    TrimSpec(Lower(input));
  }

  /** With no category, role or difficulty and a blank search, every question is
      kept in its original order (the state after a reset). */
  lemma EmptyCriteriaKeepAll(all: seq<Question>, c: Criteria)
    requires c.category == "" && c.role == "" && c.difficulty == "" && AllSpace(c.searchInput)
    ensures FilterQuestions(all, c) == all
  {
    forall i | 0 <= i < |all| ensures Matches(all[i], c) {
      BlankSearchMatchesAll(all[i], c.searchInput);
    }
    FilterKeepsAll(all, q => Matches(q, c));
  }

  /** Filtering again with the same criteria changes nothing; filtering depends
      on nothing but its inputs. */
  lemma FilterQuestionsIdempotent(all: seq<Question>, c: Criteria)
    ensures FilterQuestions(FilterQuestions(all, c), c) == FilterQuestions(all, c)
  {
    FilterIdempotent(all, q => Matches(q, c));
  }

  /** The four tests combine by AND: filtering by the three facets and then by
      the search alone gives the same list as filtering by all four at once. */
  lemma FacetsThenSearch(all: seq<Question>, c: Criteria)
    ensures FilterQuestions(FilterQuestions(all, c.(searchInput := "")), Criteria("", "", "", c.searchInput))
         == FilterQuestions(all, c)
  {
    var facets := c.(searchInput := "");
    var search := Criteria("", "", "", c.searchInput);
    assert SearchKey("") == "";
    forall x ensures Matches(x, c) == (Matches(x, facets) && Matches(x, search)) {
      assert MatchesSearch(x, SearchKey(facets.searchInput));
    }
    FilterThenFilter(all, q => Matches(q, facets), q => Matches(q, search), q => Matches(q, c));
  }

  /** A non-empty searchable field is one of the joined parts. */
  lemma FieldIsSearched(q: Question, field: string)
    requires field in [q.stem, q.lexiconTerms, q.category, q.roleFocus, q.questionType]
    requires field != ""
    ensures Contains(Join(SearchFields(q), " "), field)
  {
    var fields := [q.stem, q.lexiconTerms, q.category, q.roleFocus, q.questionType];
    FilterCount(fields, IsNonEmpty, field);
    assert field in multiset(SearchFields(q));
    var k :| 0 <= k < |SearchFields(q)| && SearchFields(q)[k] == field;
    JoinContainsPart(SearchFields(q), " ", k);
  }

  /** A query found, ignoring ASCII case, inside one non-empty searchable field matches. */
  lemma MatchInOneField(q: Question, input: string, field: string)
    requires field in [q.stem, q.lexiconTerms, q.category, q.roleFocus, q.questionType]
    requires field != ""
    requires Contains(Lower(field), SearchKey(input))
    ensures MatchesSearch(q, SearchKey(input))
  {
    FieldIsSearched(q, field);
    ContainsLower(Join(SearchFields(q), " "), field);
    ContainsTransitive(Searchable(q), Lower(field), SearchKey(input));
  }

  lemma LowerHash()
    ensures Lower("hash") == "hash"
  {
  }

  lemma TrimHash()
    ensures Trim("hash") == "hash"
  {
    assert IsTrimmed("hash");
    TrimSpec("hash");
  }

  lemma HashKey()
    ensures SearchKey("hash") == "hash"
  {
    LowerHash();
    TrimHash();
  }

  lemma LowerCollision()
    ensures Lower("COLLISION") == "collision"
  {
  }

  lemma TrimCollision()
    ensures Trim("collision") == "collision"
  {
    assert IsTrimmed("collision");
    TrimSpec("collision");
  }

  lemma CollisionKey()
    ensures SearchKey("COLLISION") == "collision"
  {
    LowerCollision();
    TrimCollision();
  }

  lemma LowerHashCollisions()
    ensures Lower("Hash Collisions") == "hash collisions"
  {
  }

  lemma FindHash()
    ensures Contains("hash collisions", "hash")
  {
    assert OccursAt("hash collisions", "hash", 0);
    ContainsIff("hash collisions", "hash");
  }

  lemma FindCollision()
    ensures Contains("hash collisions", "collision")
  {
    assert OccursAt("hash collisions", "collision", 5);
    ContainsIff("hash collisions", "collision");
  }

  /** The search ignores case: "hash" finds the stem "Hash Collisions". */
  lemma LowerCaseQueryFindsStem(q: Question)
    requires q.stem == "Hash Collisions"
    ensures MatchesSearch(q, SearchKey("hash"))
  {
    HashKey();
    LowerHashCollisions();
    FindHash();
    assert Contains(Lower(q.stem), SearchKey("hash"));
    MatchInOneField(q, "hash", q.stem);
  }

  /** The search ignores case: "COLLISION" finds the stem "Hash Collisions". */
  lemma UpperCaseQueryFindsStem(q: Question)
    requires q.stem == "Hash Collisions"
    ensures MatchesSearch(q, SearchKey("COLLISION"))
  {
    CollisionKey();
    LowerHashCollisions();
    FindCollision();
    assert Contains(Lower(q.stem), SearchKey("COLLISION"));
    MatchInOneField(q, "COLLISION", q.stem);
  }

  lemma LowerHeartAttack()
    ensures Lower("heart attack") == "heart attack"
  {
  }

  lemma TrimHeartAttack()
    ensures Trim("heart attack") == "heart attack"
  {
    assert IsTrimmed("heart attack");
    TrimSpec("heart attack");
  }

  lemma HeartAttackKey()
    ensures SearchKey("heart attack") == "heart attack"
  {
    LowerHeartAttack();
    TrimHeartAttack();
  }

  lemma HeartAttackFields(q: Question)
    requires q.stem == "heart" && q.lexiconTerms == "attack"
    requires q.category == "" && q.roleFocus == "" && q.questionType == ""
    ensures Searchable(q) == "heart attack"
  {
    var fields := [q.stem, q.lexiconTerms, q.category, q.roleFocus, q.questionType];
    var empties: seq<string> := ["", "", ""];
    assert empties[1..][1..][1..] == [];
    assert Filter(empties, IsNonEmpty) == [];
    assert fields[1..][1..] == empties;
    assert Filter(fields[1..], IsNonEmpty) == ["attack"];
    assert SearchFields(q) == ["heart", "attack"];
    assert Join(["heart", "attack"], " ") == "heart attack";
    LowerHeartAttack();
  }

  /** Fields are joined with a space, so a query can match across two fields
      although neither field contains it. */
  lemma MatchAcrossFields(q: Question)
    requires q.stem == "heart" && q.lexiconTerms == "attack"
    requires q.category == "" && q.roleFocus == "" && q.questionType == ""
    ensures MatchesSearch(q, SearchKey("heart attack"))
    ensures !Contains(q.stem, "heart attack") && !Contains(q.lexiconTerms, "heart attack")
  {
    HeartAttackKey();
    HeartAttackFields(q);
    assert "heart attack"[..12] == "heart attack";
    ContainsIff(q.stem, "heart attack");
    ContainsIff(q.lexiconTerms, "heart attack");
  }
}
