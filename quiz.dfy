/** The page state of quiz.js: the two module-level question lists, the values
    offered by the three filter selects, the count element and the children of
    the questions container, with the operations that reassign them. */
module Quiz {
  import opened Strings
  import opened Seqs
  import opened Questions
  import opened Facets
  import opened Filtering
  import opened Render

  class QuizSession {
    var allQuestions: seq<Question>
    var filteredQuestions: seq<Question>
    var categoryValues: seq<string>
    var roleValues: seq<string>
    var difficultyValues: seq<string>
    var countLabel: string
    var container: seq<Node>

    /** Every loaded question is normalised, and the filtered list is drawn
        from the loaded one in order. */
    ghost predicate Valid()
      reads this
    {
      && (forall i :: 0 <= i < |allQuestions| ==> WellFormed(allQuestions[i]))
      && IsSubseq(filteredQuestions, allQuestions)
    }

    /** The count element and the container show the filtered list. */
    ghost predicate Shown()
      reads this
    {
      countLabel == CountLabel(|filteredQuestions|) && Displays(container, filteredQuestions)
    }

    /** The state before anything is loaded. */
    constructor ()
      ensures Valid()
      ensures allQuestions == [] && filteredQuestions == []
      ensures categoryValues == [] && roleValues == [] && difficultyValues == []
      ensures countLabel == "" && container == []
    {
      allQuestions := [];
      filteredQuestions := [];
      categoryValues := [];
      roleValues := [];
      difficultyValues := [];
      countLabel := "";
      container := [];
    }

    /** fetchQuestions after the parsed JSON arrives: normalise it and show all of it. */
    method Load(data: Option<seq<RawEntry>>)
      modifies this
      ensures Valid()
      ensures allQuestions == Normalise(data) && filteredQuestions == allQuestions
      ensures categoryValues == old(categoryValues) && roleValues == old(roleValues)
      ensures difficultyValues == old(difficultyValues)
      ensures countLabel == old(countLabel) && container == old(container)
    {
      allQuestions := Normalise(data);
      filteredQuestions := allQuestions;
      SubseqRefl(allQuestions);
    }

    /** The catch branch of fetchQuestions: both lists become empty. */
    method LoadFailed()
      modifies this
      ensures Valid()
      ensures allQuestions == [] && filteredQuestions == []
      ensures categoryValues == old(categoryValues) && roleValues == old(roleValues)
      ensures difficultyValues == old(difficultyValues)
      ensures countLabel == old(countLabel) && container == old(container)
    {
      allQuestions := [];
      filteredQuestions := [];
    }

    /** initFilters: the three selects offer the distinct values of their field,
        sorted by the comparison less (localeCompare in the program). */
    method InitFilters(less: (string, string) -> bool)
      requires Valid() && StrictOrder(less)
      modifies this
      ensures Valid()
      ensures StrictlySorted(categoryValues, less) && StrictlySorted(roleValues, less)
      ensures StrictlySorted(difficultyValues, less)
      ensures forall v :: v in categoryValues <==> v in FacetValues(allQuestions, Category)
      ensures forall v :: v in roleValues <==> v in FacetValues(allQuestions, RoleFocus)
      ensures forall v :: v in difficultyValues <==> v in FacetValues(allQuestions, Difficulty)
      ensures forall v :: v in categoryValues <==>
        v != "" && exists i :: 0 <= i < |allQuestions| && FieldOf(allQuestions[i], Category) == v
      ensures forall v :: v in roleValues <==>
        v != "" && exists i :: 0 <= i < |allQuestions| && FieldOf(allQuestions[i], RoleFocus) == v
      ensures forall v :: v in difficultyValues <==>
        v != "" && exists i :: 0 <= i < |allQuestions| && FieldOf(allQuestions[i], Difficulty) == v
      ensures allQuestions == old(allQuestions) && filteredQuestions == old(filteredQuestions)
      ensures countLabel == old(countLabel) && container == old(container)
    {
      categoryValues := UniqueValues(allQuestions, Category, less);
      roleValues := UniqueValues(allQuestions, RoleFocus, less);
      difficultyValues := UniqueValues(allQuestions, Difficulty, less);
      FacetValuesAreFields(allQuestions, Category);
      FacetValuesAreFields(allQuestions, RoleFocus);
      FacetValuesAreFields(allQuestions, Difficulty);
    }

    /** renderQuestions: the count label, then the placeholder or one card per question. */
    method RenderQuestions()
      requires Valid()
      modifies this
      ensures Valid() && Shown() && Fresh(container, filteredQuestions)
      ensures allQuestions == old(allQuestions) && filteredQuestions == old(filteredQuestions)
      ensures categoryValues == old(categoryValues) && roleValues == old(roleValues)
      ensures difficultyValues == old(difficultyValues)
    {
      countLabel := CountLabel(|filteredQuestions|);
      container := RenderCards(filteredQuestions);
    }

    /** applyFilters: keep the questions that pass all four tests, then render them. */
    method ApplyFilters(c: Criteria)
      requires Valid()
      modifies this
      ensures Valid() && Shown() && Fresh(container, filteredQuestions)
      ensures allQuestions == old(allQuestions)
      ensures filteredQuestions == FilterQuestions(allQuestions, c)
      ensures categoryValues == old(categoryValues) && roleValues == old(roleValues)
      ensures difficultyValues == old(difficultyValues)
    {
      filteredQuestions := FilterQuestions(allQuestions, c);
      FilterQuestionsExact(allQuestions, c);
      RenderQuestions();
    }

    /** The reset button: clear the four controls and filter again, which shows every question. */
    method ResetFilters()
      requires Valid()
      modifies this
      ensures Valid() && Shown() && Fresh(container, filteredQuestions)
      ensures allQuestions == old(allQuestions) && filteredQuestions == allQuestions
      ensures categoryValues == old(categoryValues) && roleValues == old(roleValues)
      ensures difficultyValues == old(difficultyValues)
    {
      ApplyFilters(NoCriteria);
      EmptyCriteriaKeepAll(allQuestions, NoCriteria);
    }

    /** A click on the button of the card at index i flips that card alone;
        anything else in the container is left as it is. */
    method ToggleAnswer(i: int)
      requires Valid() && Shown()
      modifies this
      ensures Valid() && Shown()
      ensures 0 <= i < |old(container)| && old(container)[i].CardNode? ==>
        container == old(container)[i := CardNode(ToggleCard(old(container)[i].card))]
      ensures !(0 <= i < |old(container)| && old(container)[i].CardNode?) ==> container == old(container)
      ensures allQuestions == old(allQuestions) && filteredQuestions == old(filteredQuestions)
      ensures categoryValues == old(categoryValues) && roleValues == old(roleValues)
      ensures difficultyValues == old(difficultyValues) && countLabel == old(countLabel)
    {
      if 0 <= i < |container| && container[i].CardNode? {
        container := container[i := CardNode(ToggleCard(container[i].card))];
      }
    }
  }
}
