/** getUniqueValues: the distinct, non-empty, trimmed values of one facet
    field across a question list, sorted; they fill the category, role and
    difficulty selects. */
module Facets {
  import opened Strings
  import opened Questions

  /** The three fields getUniqueValues is called with. */
  datatype Facet = Category | RoleFocus | Difficulty

  function FieldOf(q: Question, f: Facet): string {
    match f
    case Category => q.category
    case RoleFocus => q.roleFocus
    case Difficulty => q.difficulty
  }

  /** `(item[key] || "").toString().trim()`. */
  function FacetValue(q: Question, f: Facet): string {
    Trim(FieldOf(q, f))
  }

  /** The Set that getUniqueValues fills from list: each item's facet value,
      when it is non-empty. */
  function FacetValues(list: seq<Question>, f: Facet): set<string> {
    if list == [] then {}
    else
      var v := FacetValue(list[|list| - 1], f);
      FacetValues(list[..|list| - 1], f) + (if v != "" then {v} else {})
  }

  /** One more item adds its facet value, if non-empty. */
  lemma FacetValuesStep(list: seq<Question>, f: Facet, i: nat)
    requires i < |list|
    ensures var v := FacetValue(list[i], f);
      FacetValues(list[..i + 1], f) == FacetValues(list[..i], f) + (if v != "" then {v} else {})
  {
    assert list[..i + 1][..i] == list[..i];
  }

  /** Every element of the Set is the non-empty facet value of some item. */
  lemma {:induction false} FacetValuesSound(list: seq<Question>, f: Facet, v: string)
    requires v in FacetValues(list, f)
    ensures v != ""
    ensures exists i :: 0 <= i < |list| && FacetValue(list[i], f) == v
  {
    var init := list[..|list| - 1];
    var last := FacetValue(list[|list| - 1], f);
    assert FacetValues(list, f) == FacetValues(init, f) + (if last != "" then {last} else {});
    if v in FacetValues(init, f) {
      FacetValuesSound(init, f, v);
      var i :| 0 <= i < |init| && FacetValue(init[i], f) == v;
      assert list[i] == init[i];
    } else {
      assert v == last;
    }
  }

  /** Every non-empty facet value of an item is in the Set. */
  lemma {:induction false} FacetValuesComplete(list: seq<Question>, f: Facet, i: nat)
    requires i < |list| && FacetValue(list[i], f) != ""
    ensures FacetValue(list[i], f) in FacetValues(list, f)
  {
    if i < |list| - 1 {
      var init := list[..|list| - 1];
      assert init[i] == list[i];
      FacetValuesComplete(init, f, i);
    }
  }

  /** The Set holds exactly the non-empty facet values of the list. */
  lemma FacetValuesExact(list: seq<Question>, f: Facet, v: string)
    ensures v in FacetValues(list, f) <==>
      v != "" && exists i :: 0 <= i < |list| && FacetValue(list[i], f) == v
  {
    if v in FacetValues(list, f) {
      FacetValuesSound(list, f, v);
    } else if v != "" && exists i :: 0 <= i < |list| && FacetValue(list[i], f) == v {
      var i :| 0 <= i < |list| && FacetValue(list[i], f) == v;
      FacetValuesComplete(list, f, i);
    }
  }

  /** On normalised questions the facet values are the fields themselves. */
  lemma FacetValuesOfWellFormed(list: seq<Question>, f: Facet, v: string)
    requires forall i :: 0 <= i < |list| ==> WellFormed(list[i])
    ensures v in FacetValues(list, f) <==>
      v != "" && exists i :: 0 <= i < |list| && FieldOf(list[i], f) == v
  {
    FacetValuesExact(list, f, v);
    forall i | 0 <= i < |list| ensures FacetValue(list[i], f) == FieldOf(list[i], f) {
      assert WellFormed(list[i]);
      TrimSpec(FieldOf(list[i], f));
    }
  }

  /** On normalised questions, the Set of a facet holds exactly the non-empty
      values of that field. */
  lemma FacetValuesAreFields(list: seq<Question>, f: Facet)
    requires forall i :: 0 <= i < |list| ==> WellFormed(list[i])
    ensures forall v :: v in FacetValues(list, f) <==>
      v != "" && exists i :: 0 <= i < |list| && FieldOf(list[i], f) == v
  {
    forall v ensures v in FacetValues(list, f) <==>
      v != "" && exists i :: 0 <= i < |list| && FieldOf(list[i], f) == v
    {
      FacetValuesOfWellFormed(list, f, v);
    }
  }

  /** Strictly ascending under the order less: sorted and without duplicates. */
  predicate StrictlySorted(s: seq<string>, less: (string, string) -> bool) {
    forall i, j :: 0 <= i < j < |s| ==> less(s[i], s[j])
  }

  /** One insertion step of the sort. */
  function Insert(x: string, s: seq<string>, less: (string, string) -> bool): (r: seq<string>)
    requires StrictOrder(less)
    requires StrictlySorted(s, less) && x !in s
    ensures StrictlySorted(r, less)
    ensures |r| == |s| + 1
    ensures forall y :: y in r <==> y in s || y == x
  {
    if s == [] then [x]
    else if less(x, s[0]) then
      [x] + s
    else
      var rest := Insert(x, s[1..], less);
      assert forall y :: y in rest ==> less(s[0], y) by {
        forall y | y in rest ensures less(s[0], y) {
          if y != x {
            var j :| 1 <= j < |s| && s[j] == y;
          }
        }
      }
      [s[0]] + rest
  }

  /** Two strictly sorted sequences with the same elements are equal: the
      sorted output does not depend on the order the Set was filled in. */
  lemma {:induction false} SortedUnique(a: seq<string>, b: seq<string>, less: (string, string) -> bool)
    requires StrictOrder(less)
    requires StrictlySorted(a, less) && StrictlySorted(b, less)
    requires forall y :: y in a <==> y in b
    ensures a == b
  {
    assert a != [] ==> a[0] in b;
    assert b != [] ==> b[0] in a;
    if a != [] && b != [] {
      assert a[0] == b[0];
      forall y ensures y in a[1..] <==> y in b[1..] {
        if y in a[1..] {
          var i :| 1 <= i < |a| && a[i] == y;
          assert y in b;
        }
        if y in b[1..] {
          var i :| 1 <= i < |b| && b[i] == y;
          assert y in a;
        }
      }
      SortedUnique(a[1..], b[1..], less);
    }
  }

  /** `Array.from(set).sort(...)`: the elements of the Set in ascending order. */
  method SortSet(elements: set<string>, less: (string, string) -> bool) returns (values: seq<string>)
    requires StrictOrder(less)
    ensures StrictlySorted(values, less)
    ensures forall v :: v in values <==> v in elements
  {
    values := [];
    var rest := elements;
    while rest != {}
      invariant rest <= elements
      invariant StrictlySorted(values, less)
      invariant forall v :: v in values <==> v in elements && v !in rest
      decreases rest
    {
      var v :| v in rest;
      values := Insert(v, values, less);
      rest := rest - {v};
    }
  }

  /** getUniqueValues(list, key): fill a Set in a forEach loop, then sort it
      by the comparison less. */
  method UniqueValues(list: seq<Question>, f: Facet, less: (string, string) -> bool) returns (values: seq<string>)
    requires StrictOrder(less)
    ensures StrictlySorted(values, less)
    ensures forall v :: v in values <==> v in FacetValues(list, f)
    ensures forall i :: 0 <= i < |values| ==> values[i] != ""
  {
    var found: set<string> := {};
    for i := 0 to |list|
      invariant found == FacetValues(list[..i], f)
    {
      FacetValuesStep(list, f, i);
      var v := FacetValue(list[i], f);
      if v != "" {
        found := found + {v};
      }
    }
    assert list[..|list|] == list;
    values := SortSet(found, less);
    forall i | 0 <= i < |values| ensures values[i] != "" {
      FacetValuesExact(list, f, values[i]);
    }
  }
}
