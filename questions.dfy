/** The question record of quiz.js, the raw records it is loaded from, the
    difficulty bucketing of toDifficultyLabel, and the normalisation map and
    filter that fetchQuestions runs over the parsed JSON array. */
module Questions {
  import opened Strings
  import opened Seqs

  datatype Option<T> = None | Some(value: T)

  /** A raw `difficulty` value as the parsed JSON holds it. */
  datatype DifficultyInput =
    | Absent                       // null or undefined
    | Num(n: real, shown: string)  // a value that Number() maps to n (not NaN); shown is its toString()
    | Text(s: string)              // the empty string, or a value that Number() maps to NaN; s is its toString()

  /** A raw record. Each text field holds the toString() of the JSON value,
      and "" stands for every falsy value (missing, null, "", 0, false). */
  datatype RawRecord = RawRecord(
    id: string,
    category: string,
    difficulty: DifficultyInput,
    questionType: string,
    stem: string,
    optionA: string,
    optionB: string,
    optionC: string,
    optionD: string,
    correctOption: string,
    lexiconTerms: string,
    roleFocus: string,
    notesForAuthor: string)

  /** An element of the parsed JSON array: null, or an object. */
  datatype RawEntry = Null | Entry(fields: RawRecord)

  /** A normalised question (the objects held in allQuestions). */
  datatype Question = Question(
    id: string,
    category: string,
    difficulty: string,
    questionType: string,
    stem: string,
    optionA: string,
    optionB: string,
    optionC: string,
    optionD: string,
    correctOption: string,
    lexiconTerms: string,
    roleFocus: string,
    notesForAuthor: string)

  /** toDifficultyLabel: numbers are bucketed, anything else passes through trimmed. */
  function DifficultyLabel(v: DifficultyInput): (r: string)
    ensures IsTrimmed(r)
    ensures v.Absent? || v == Text("") ==> r == ""
    ensures v.Num? && v.n <= 1.0 ==> r == "Beginner"
    ensures v.Num? && v.n == 2.0 ==> r == "Intermediate"
    ensures v.Num? && v.n >= 3.0 ==> r == "Advanced"
    ensures v.Num? && (1.0 < v.n < 2.0 || 2.0 < v.n < 3.0) ==> r == Trim(v.shown)
    ensures v.Text? ==> r == Trim(v.s)
  {
    match v
    case Absent => ""
    case Text(s) => if s == "" then "" else TrimSpec(s); Trim(s)
    case Num(n, shown) =>
      if n <= 1.0 then "Beginner"
      else if n == 2.0 then "Intermediate"
      else if n >= 3.0 then "Advanced"
      else TrimSpec(shown); Trim(shown)
  }

  /** An integer difficulty always lands in one of the three buckets. */
  lemma IntegerDifficultyIsBucketed(k: int, shown: string)
    ensures DifficultyLabel(Num(k as real, shown)) in {"Beginner", "Intermediate", "Advanced"}
  {
    if k == 1 || k <= 0 {
    } else if k == 2 {
    } else {
      assert k >= 3;
    }
  }

  /** Every text field of a normalised question is trimmed (the id is not touched). */
  predicate WellFormed(q: Question) {
    && IsTrimmed(q.category) && IsTrimmed(q.difficulty) && IsTrimmed(q.questionType)
    && IsTrimmed(q.stem) && IsTrimmed(q.optionA) && IsTrimmed(q.optionB)
    && IsTrimmed(q.optionC) && IsTrimmed(q.optionD) && IsTrimmed(q.correctOption)
    && IsTrimmed(q.lexiconTerms) && IsTrimmed(q.roleFocus) && IsTrimmed(q.notesForAuthor)
  }

  /** The fallback id given to the record at 1-based position k among the kept ones. */
  function FallbackId(k: nat): string {
    "Q_" + NatToDecimal(k)
  }

  lemma FirstFallbackId()
    ensures FallbackId(1) == "Q_1"
  {
    assert NatToDecimal(1) == "1";
  }

  /** Fallback ids of different positions differ. */
  lemma FallbackIdInjective(j: nat, k: nat)
    requires FallbackId(j) == FallbackId(k)
    ensures j == k
  {
    assert NatToDecimal(j) == FallbackId(j)[2..];
    assert NatToDecimal(k) == FallbackId(k)[2..];
    NatToDecimalInjective(j, k);
  }

  /** Every text field of q but the id and the difficulty is the trimmed field of raw. */
  predicate TrimmedFields(raw: RawRecord, q: Question) {
    && q.category == Trim(raw.category) && q.questionType == Trim(raw.questionType)
    && q.stem == Trim(raw.stem) && q.optionA == Trim(raw.optionA) && q.optionB == Trim(raw.optionB)
    && q.optionC == Trim(raw.optionC) && q.optionD == Trim(raw.optionD)
    && q.correctOption == Trim(raw.correctOption) && q.lexiconTerms == Trim(raw.lexiconTerms)
    && q.roleFocus == Trim(raw.roleFocus) && q.notesForAuthor == Trim(raw.notesForAuthor)
  }

  /** The object literal built for one kept record; position is 1-based. */
  function NormaliseRecord(q: RawRecord, position: nat): Question {
    Question(
      id := if q.id == "" then FallbackId(position) else q.id,
      category := Trim(q.category),
      difficulty := DifficultyLabel(q.difficulty),
      questionType := Trim(q.questionType),
      stem := Trim(q.stem),
      optionA := Trim(q.optionA),
      optionB := Trim(q.optionB),
      optionC := Trim(q.optionC),
      optionD := Trim(q.optionD),
      correctOption := Trim(q.correctOption),
      lexiconTerms := Trim(q.lexiconTerms),
      roleFocus := Trim(q.roleFocus),
      notesForAuthor := Trim(q.notesForAuthor))
  }

  /** What normalisation promises of the question q made from raw at 1-based
      position: it is well formed; it keeps the id when that is truthy and
      otherwise has the fallback id of its position; its difficulty is the
      label of the raw difficulty; every other field is the raw field trimmed. */
  predicate NormalisedFrom(raw: RawRecord, position: nat, q: Question) {
    && WellFormed(q)
    && q.id == (if raw.id == "" then FallbackId(position) else raw.id)
    && q.difficulty == DifficultyLabel(raw.difficulty)
    && TrimmedFields(raw, q)
  }

  /** The object literal keeps every promise of normalisation. */
  lemma NormaliseRecordSpec(raw: RawRecord, position: nat)
    ensures NormalisedFrom(raw, position, NormaliseRecord(raw, position))
  {
    TrimSpec(raw.category);
    TrimSpec(raw.questionType);
    TrimSpec(raw.stem);
    TrimSpec(raw.optionA);
    TrimSpec(raw.optionB);
    TrimSpec(raw.optionC);
    TrimSpec(raw.optionD);
    TrimSpec(raw.correctOption);
    TrimSpec(raw.lexiconTerms);
    TrimSpec(raw.roleFocus);
    TrimSpec(raw.notesForAuthor);
  }

  /** The filter `q && q.stem`: a non-null record with a truthy (non-empty) stem. */
  predicate HasStem(e: RawEntry) {
    e.Entry? && e.fields.stem != ""
  }

  /** `data || []`, then the entries that pass the stem filter, in order. */
  function KeptEntries(data: Option<seq<RawEntry>>): (kept: seq<RawEntry>)
    ensures forall k :: 0 <= k < |kept| ==> HasStem(kept[k])
  {
    Filter(if data.Some? then data.value else [], HasStem)
  }

  /** The normalisation in fetchQuestions: one output question per kept
      record, the k-th (0-based) normalised at 1-based position k + 1. */
  function Normalise(data: Option<seq<RawEntry>>): (r: seq<Question>)
    ensures |r| == |KeptEntries(data)|
    ensures forall k :: 0 <= k < |r| ==> NormalisedFrom(KeptEntries(data)[k].fields, k + 1, r[k])
  {
    var kept := KeptEntries(data);
    var r := seq(|kept|, k requires 0 <= k < |kept| => NormaliseRecord(kept[k].fields, k + 1));
    assert forall k :: 0 <= k < |r| ==> NormalisedFrom(kept[k].fields, k + 1, r[k]) by {
      forall k | 0 <= k < |r| ensures NormalisedFrom(kept[k].fields, k + 1, r[k]) {
        NormaliseRecordSpec(kept[k].fields, k + 1);
      }
    }
    r
  }

  /** The kept entries are exactly the entries with a stem, in their original
      order, each as often as it occurs in the input; null data keeps nothing. */
  lemma KeptEntriesExact(data: Option<seq<RawEntry>>)
    ensures data.None? ==> KeptEntries(data) == []
    ensures data.Some? ==> IsSubseq(KeptEntries(data), data.value)
    ensures data.Some? ==> forall e :: multiset(KeptEntries(data))[e] == (if HasStem(e) then multiset(data.value)[e] else 0)
  {
    if data.Some? {
      FilterIsSubseq(data.value, HasStem);
      forall e ensures multiset(KeptEntries(data))[e] == if HasStem(e) then multiset(data.value)[e] else 0 {
        FilterCount(data.value, HasStem, e);
      }
    }
  }

  /** Two questions that both received a fallback id received different ones. */
  lemma FallbackIdsDistinct(data: Option<seq<RawEntry>>, j: nat, k: nat)
    requires j < k < |Normalise(data)|
    requires KeptEntries(data)[j].fields.id == "" && KeptEntries(data)[k].fields.id == ""
    ensures Normalise(data)[j].id != Normalise(data)[k].id
  {
    var r := Normalise(data);
    assert r[j].id == FallbackId(j + 1) && r[k].id == FallbackId(k + 1);
    if r[j].id == r[k].id {
      FallbackIdInjective(j + 1, k + 1);
    }
  }

  /** A stem of spaces only is truthy, so its record is kept, with an empty stem. */
  lemma WhitespaceStemKept(r: RawRecord)
    requires r.stem == "  "
    ensures |Normalise(Some([Entry(r)]))| == 1
    ensures Normalise(Some([Entry(r)]))[0].stem == ""
  {
    assert Filter([Entry(r)], HasStem) == [Entry(r)];
    TrimSpec(r.stem);
  }

  /** The fallback id counts kept records only: a null entry before a record
      does not shift its position. */
  lemma FallbackCountsKeptOnly(r: RawRecord)
    requires r.id == "" && r.stem != ""
    ensures |Normalise(Some([Null, Entry(r)]))| == 1
    ensures Normalise(Some([Null, Entry(r)]))[0].id == "Q_1"
  {
    var data := Some([Null, Entry(r)]);
    assert [Null, Entry(r)][1..] == [Entry(r)];
    assert Filter([Entry(r)], HasStem) == [Entry(r)];
    assert KeptEntries(data) == [Entry(r)];
    assert Normalise(data)[0].id == FallbackId(1);
    FirstFallbackId();
  }
}
