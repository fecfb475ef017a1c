/** What renderQuestions computes for the page, as values rather than DOM:
    the count label, the placeholder shown for an empty list, and for each
    question a card with its tags, option list, correct-answer line, escaped
    author note and the state of its reveal button. */
module Render {
  import opened Strings
  import opened Seqs
  import opened Questions

  // ---------------------------------------------------------------------
  // Count label

  /** `${n} question${n === 1 ? "" : "s"}`. */
  function CountLabel(n: nat): (r: string)
    ensures |r| > |NatToDecimal(n)| + 1
    ensures r[..|NatToDecimal(n)|] == NatToDecimal(n)
    ensures r[|NatToDecimal(n)|] == ' '
    ensures (r[|r| - 1] == 's') <==> n != 1
  {
    NatToDecimal(n) + " question" + (if n == 1 then "" else "s")
  }

  lemma OneQuestion()
    ensures CountLabel(1) == "1 question"
  {
    assert NatToDecimal(1) == "1";
  }

  /** Every count other than 1 takes the plural. */
  lemma CountLabelPlural(n: nat)
    requires n != 1
    ensures CountLabel(n) == NatToDecimal(n) + " questions"
  {
  }

  /** Different counts give different labels: the label states the count. */
  lemma CountLabelInjective(a: nat, b: nat)
    requires CountLabel(a) == CountLabel(b)
    ensures a == b
  {
    var da, db := NatToDecimal(a), NatToDecimal(b);
    if |da| == |db| {
      assert da == CountLabel(a)[..|da|];
      NatToDecimalInjective(a, b);
    }
  }

  // ---------------------------------------------------------------------
  // Option list

  datatype OptionItem = OptionItem(key: char, text: string)

  /** The four candidate options, in A-D order. */
  function AllOptions(q: Question): seq<OptionItem> {
    [OptionItem('A', q.optionA), OptionItem('B', q.optionB), OptionItem('C', q.optionC), OptionItem('D', q.optionD)]
  }

  /** `o.text && o.text.trim().length > 0`. */
  predicate IsListed(o: OptionItem) {
    o.text != "" && |Trim(o.text)| > 0
  }

  /** The options shown on a card. */
  function OptionItems(q: Question): seq<OptionItem> {
    Filter(AllOptions(q), IsListed)
  }

  /** An option is listed exactly when it is one of the four and its text is not blank. */
  lemma OptionListed(q: Question, o: OptionItem)
    ensures o in OptionItems(q) <==> o in AllOptions(q) && !AllSpace(o.text)
  {
    FilterCount(AllOptions(q), IsListed, o);
    TrimSpec(o.text);
    assert o in OptionItems(q) <==> o in multiset(OptionItems(q));
    assert o in AllOptions(q) <==> o in multiset(AllOptions(q));
  }

  /** The list keeps the A-D order and holds exactly the options whose text is
      not blank. */
  lemma OptionItemsExact(q: Question)
    ensures IsSubseq(OptionItems(q), AllOptions(q))
    ensures forall o :: o in OptionItems(q) <==> o in AllOptions(q) && !AllSpace(o.text)
  {
    FilterIsSubseq(AllOptions(q), IsListed);
    forall o ensures o in OptionItems(q) <==> o in AllOptions(q) && !AllSpace(o.text) {
      OptionListed(q, o);
    }
  }

  /** On a normalised question the listed options are exactly the non-empty ones. */
  lemma OptionItemsOfWellFormed(q: Question, o: OptionItem)
    requires WellFormed(q)
    ensures o in OptionItems(q) <==> o in AllOptions(q) && o.text != ""
  {
    OptionListed(q, o);
    if o in AllOptions(q) && o.text != "" {
      assert IsTrimmed(o.text);
      TrimSpec(o.text);
    }
  }

  // ---------------------------------------------------------------------
  // Correct answer

  /** `q.correct_option ? q.correct_option.toString().trim().toUpperCase() : ""`;
      the guard makes no difference, since an empty option trims to "". */
  function CorrectLabel(q: Question): (r: string)
    ensures r == Upper(Trim(q.correctOption))
  {
    if q.correctOption == "" then
      TrimSpec(q.correctOption);
      assert Trim(q.correctOption) == [];
      ""
    else Upper(Trim(q.correctOption))
  }

  /** `map[correctLabel] || ""` with map = {A: option_A, ..., D: option_D}. */
  function CorrectText(q: Question): string {
    var letter := CorrectLabel(q);
    if letter != "" then TextFor(q, letter) else ""
  }

  /** The lookup `map[letter] || ""`. */
  function TextFor(q: Question, letter: string): string {
    if letter == "A" then q.optionA
    else if letter == "B" then q.optionB
    else if letter == "C" then q.optionC
    else if letter == "D" then q.optionD
    else ""
  }

  /** `correctLabel ? correctLabel + (correctText ? "." : "") : "N/A"`. */
  function AnswerDisplay(letter: string, text: string): string {
    if letter != "" then letter + (if text != "" then "." else "") else "N/A"
  }

  /** The text after "Correct:" in the answer box: the display, a space, and the answer text. */
  function AnswerLine(q: Question): string {
    AnswerDisplay(CorrectLabel(q), CorrectText(q)) + " " + CorrectText(q)
  }

  /** Letter case and surrounding spaces of correct_option do not matter. */
  lemma CorrectLabelIgnoresCase(q: Question, q': Question)
    requires Lower(Trim(q.correctOption)) == Lower(Trim(q'.correctOption))
    ensures CorrectLabel(q) == CorrectLabel(q')
  {
    UpperOfLowerEqual(Trim(q.correctOption), Trim(q'.correctOption));
  }

  /** An option that is listed is found under its letter. */
  lemma ListedOption(q: Question, o: OptionItem)
    requires o in AllOptions(q) && IsListed(o)
    ensures o in OptionItems(q)
  {
    FilterCount(AllOptions(q), IsListed, o);
    assert o in multiset(OptionItems(q));
  }

  /** On a normalised question a non-empty answer text is the text of the
      listed option whose letter is the label. */
  lemma CorrectTextIsListed(q: Question)
    requires WellFormed(q)
    ensures CorrectText(q) != "" ==>
      |CorrectLabel(q)| == 1 && OptionItem(CorrectLabel(q)[0], CorrectText(q)) in OptionItems(q)
  {
    var letter := CorrectLabel(q);
    TextForIsListed(q, letter);
    assert CorrectText(q) != "" ==> CorrectText(q) == TextFor(q, letter);
  }

  lemma TextForIsListed(q: Question, letter: string)
    requires WellFormed(q)
    ensures TextFor(q, letter) != "" ==>
      |letter| == 1 && OptionItem(letter[0], TextFor(q, letter)) in OptionItems(q)
  {
    var all := AllOptions(q);
    if letter == "A" {
      ListedUnder(q, all[0]);
    } else if letter == "B" {
      ListedUnder(q, all[1]);
    } else if letter == "C" {
      ListedUnder(q, all[2]);
    } else if letter == "D" {
      ListedUnder(q, all[3]);
    }
  }

  /** A non-empty trimmed option is listed. */
  lemma ListedUnder(q: Question, o: OptionItem)
    requires o in AllOptions(q) && IsTrimmed(o.text)
    ensures o.text != "" ==> o in OptionItems(q)
  {
    if o.text != "" {
      TrimSpec(o.text);
      ListedOption(q, o);
    }
  }

  /** When the label is the letter of a listed option, the answer text is that option's text. */
  lemma ListedOptionResolves(q: Question, o: OptionItem)
    requires o in OptionItems(q) && CorrectLabel(q) == [o.key]
    ensures CorrectText(q) == o.text
  {
    ListedTextFor(q, o);
  }

  lemma ListedTextFor(q: Question, o: OptionItem)
    requires o in OptionItems(q)
    ensures TextFor(q, [o.key]) == o.text
  {
    OptionListed(q, o);
    var all := AllOptions(q);
    assert o == all[0] || o == all[1] || o == all[2] || o == all[3];
  }

  /** A label outside A-D resolves to no text. */
  lemma OutOfRangeHasNoText(q: Question)
    requires CorrectLabel(q) !in {"A", "B", "C", "D"}
    ensures CorrectText(q) == ""
  {
  }

  /** "N/A" is shown exactly when there is no label (or the label itself reads "N/A");
      a "." follows the label exactly when there is answer text. */
  lemma AnswerDisplayCases(q: Question)
    ensures AnswerDisplay(CorrectLabel(q), CorrectText(q)) == "N/A" <==>
      CorrectLabel(q) == "" || CorrectLabel(q) == "N/A"
    ensures CorrectLabel(q) != "" ==>
      AnswerDisplay(CorrectLabel(q), CorrectText(q)) == CorrectLabel(q) + (if CorrectText(q) != "" then "." else "")
  {
    var letter, text := CorrectLabel(q), CorrectText(q);
    if letter != "" && text != "" {
      assert |letter| == 1;
      assert |AnswerDisplay(letter, text)| == 2;
    }
  }

  /** An out-of-range option such as "e" is shown bare, as "E", with no text. */
  lemma OutOfRangeShownBare(q: Question)
    requires q.correctOption == "e"
    ensures CorrectLabel(q) == "E" && CorrectText(q) == ""
    ensures AnswerLine(q) == "E "
  {
    assert CorrectLabel(q) == "E" by {
      assert IsTrimmed("e");
      TrimSpec("e");
      assert Upper("e") == "E";
    }
  }

  /** A lower-case option letter resolves to its option: "b" with option B "Paris" reads "B. Paris". */
  lemma LowerCaseLetterResolves(q: Question)
    requires q.correctOption == "b" && q.optionB == "Paris"
    ensures CorrectLabel(q) == "B" && CorrectText(q) == "Paris"
    ensures AnswerLine(q) == "B. Paris"
  {
    assert CorrectLabel(q) == "B" by {
      assert IsTrimmed("b");
      TrimSpec("b");
      assert Upper("b") == "B";
    }
  }

  // ---------------------------------------------------------------------
  // escapeHtml

  /** `str.replace(/c/g, rep)` for a one-character pattern. */
  function ReplaceChar(s: string, c: char, rep: string): string {
    if s == [] then [] else (if s[0] == c then rep else [s[0]]) + ReplaceChar(s[1..], c, rep)
  }

  /** escapeHtml: `&` first, then `<`, then `>`. */
  function EscapeHtml(s: string): string {
    ReplaceChar(ReplaceChar(ReplaceChar(s, '&', "&amp;"), '<', "&lt;"), '>', "&gt;")
  }

  /** The escape of one character. */
  function EscapeChar(c: char): string {
    if c == '&' then "&amp;" else if c == '<' then "&lt;" else if c == '>' then "&gt;" else [c]
  }

  /** Each character escaped once, independently of the others. */
  function EscapeEach(s: string): string {
    if s == [] then [] else EscapeChar(s[0]) + EscapeEach(s[1..])
  }

  lemma {:induction false} ReplaceCharAppend(a: string, b: string, c: char, rep: string)
    ensures ReplaceChar(a + b, c, rep) == ReplaceChar(a, c, rep) + ReplaceChar(b, c, rep)
  {
    if a == [] {
      assert a + b == b;
    } else {
      assert (a + b)[1..] == a[1..] + b;
      ReplaceCharAppend(a[1..], b, c, rep);
    }
  }

  lemma {:induction false} ReplaceCharAbsent(s: string, c: char, rep: string)
    requires c !in s
    ensures ReplaceChar(s, c, rep) == s
  {
    if s != [] {
      assert s == [s[0]] + s[1..];
      ReplaceCharAbsent(s[1..], c, rep);
    }
  }

  lemma ReplaceCharSingle(c: char, d: char, rep: string)
    ensures ReplaceChar([c], d, rep) == if c == d then rep else [c]
  {
    assert [c][1..] == [];
  }

  /** The three passes on a single character give its escape. */
  lemma EscapeHtmlChar(c: char)
    ensures EscapeHtml([c]) == EscapeChar(c)
  {
    ReplaceCharSingle(c, '&', "&amp;");
    if c == '&' {
      ReplaceCharAbsent("&amp;", '<', "&lt;");
      ReplaceCharAbsent("&amp;", '>', "&gt;");
    } else if c == '<' {
      ReplaceCharSingle(c, '<', "&lt;");
      ReplaceCharAbsent("&lt;", '>', "&gt;");
    } else {
      ReplaceCharSingle(c, '<', "&lt;");
      ReplaceCharSingle(c, '>', "&gt;");
    }
  }

  /** Because `&` is replaced first, the later passes never touch the entities
      already inserted: escapeHtml escapes every character exactly once. */
  lemma {:induction false} EscapeHtmlIsEscapeEach(s: string)
    ensures EscapeHtml(s) == EscapeEach(s)
  {
    if s != [] {
      var h, t := [s[0]], s[1..];
      assert s == h + t;
      ReplaceCharAppend(h, t, '&', "&amp;");
      ReplaceCharAppend(ReplaceChar(h, '&', "&amp;"), ReplaceChar(t, '&', "&amp;"), '<', "&lt;");
      ReplaceCharAppend(ReplaceChar(ReplaceChar(h, '&', "&amp;"), '<', "&lt;"),
                        ReplaceChar(ReplaceChar(t, '&', "&amp;"), '<', "&lt;"), '>', "&gt;");
      EscapeHtmlChar(s[0]);
      EscapeHtmlIsEscapeEach(t);
    }
  }

  /** The passes in the other order escape the `&` of the `&lt;` just inserted. */
  lemma WrongOrderDoubleEscapes()
    ensures ReplaceChar(ReplaceChar(ReplaceChar("<", '<', "&lt;"), '>', "&gt;"), '&', "&amp;") == "&amp;lt;"
    ensures EscapeHtml("<") == "&lt;"
  {
    ReplaceCharSingle('<', '<', "&lt;");
    ReplaceCharAbsent("&lt;", '>', "&gt;");
    AmpOfLt();
    EscapeHtmlChar('<');
  }

  lemma AmpOfLt()
    ensures ReplaceChar("&lt;", '&', "&amp;") == "&amp;lt;"
  {
    assert "&lt;" == "&" + "lt;";
    ReplaceCharAppend("&", "lt;", '&', "&amp;");
    ReplaceCharSingle('&', '&', "&amp;");
    ReplaceCharAbsent("lt;", '&', "&amp;");
    assert "&amp;" + "lt;" == "&amp;lt;";
  }

  lemma {:induction false} EscapeEachNoMarkup(s: string)
    ensures '<' !in EscapeEach(s) && '>' !in EscapeEach(s)
  {
    if s != [] {
      EscapeEachNoMarkup(s[1..]);
    }
  }

  /** The output of escapeHtml contains no angle bracket. */
  lemma EscapeHtmlNoMarkup(s: string)
    ensures '<' !in EscapeHtml(s) && '>' !in EscapeHtml(s)
  {
    EscapeHtmlIsEscapeEach(s);
    EscapeEachNoMarkup(s);
  }

  lemma {:induction false} EscapeEachPlain(s: string)
    requires '&' !in s && '<' !in s && '>' !in s
    ensures EscapeEach(s) == s
  {
    if s != [] {
      assert s == [s[0]] + s[1..];
      EscapeEachPlain(s[1..]);
    }
  }

  /** Text without `&`, `<` and `>` passes through unchanged. */
  lemma EscapeHtmlPlain(s: string)
    requires '&' !in s && '<' !in s && '>' !in s
    ensures EscapeHtml(s) == s
  {
    EscapeHtmlIsEscapeEach(s);
    EscapeEachPlain(s);
  }

  /** `str.replace(/pat/g, rep)`: occurrences replaced left to right, without overlap. */
  function ReplaceStr(s: string, pat: string, rep: string): string
    requires pat != []
    decreases |s|
  {
    if |s| < |pat| then s
    else if s[..|pat|] == pat then rep + ReplaceStr(s[|pat|..], pat, rep)
    else [s[0]] + ReplaceStr(s[1..], pat, rep)
  }

  /** The inverse of escapeHtml: `&lt;`, then `&gt;`, then `&amp;` back to their characters. */
  function Unescape(s: string): string {
    ReplaceStr(ReplaceStr(ReplaceStr(s, "&lt;", "<"), "&gt;", ">"), "&amp;", "&")
  }

  lemma ReplaceStrHit(pat: string, x: string, rep: string)
    requires pat != []
    ensures ReplaceStr(pat + x, pat, rep) == rep + ReplaceStr(x, pat, rep)
  {
    assert (pat + x)[..|pat|] == pat;
    assert (pat + x)[|pat|..] == x;
  }

  /** Text without `&` cannot hold the start of an entity. */
  lemma {:induction false} ReplaceStrPlain(t: string, x: string, pat: string, rep: string)
    requires pat != [] && pat[0] == '&' && '&' !in t
    ensures ReplaceStr(t + x, pat, rep) == t + ReplaceStr(x, pat, rep)
  {
    var u := t + x;
    if t == [] {
      assert u == x;
    } else if |u| < |pat| {
      assert ReplaceStr(x, pat, rep) == x;
    } else {
      assert u[0] == t[0] != '&';
      assert u[..|pat|] != pat by {
        assert u[..|pat|][0] == u[0];
      }
      assert ReplaceStr(u, pat, rep) == [u[0]] + ReplaceStr(u[1..], pat, rep);
      assert u[1..] == t[1..] + x;
      assert '&' !in t[1..] by {
        assert t == [t[0]] + t[1..];
      }
      ReplaceStrPlain(t[1..], x, pat, rep);
      assert t == [t[0]] + t[1..];
    }
  }

  /** An entity that differs from pat in its second character is left alone. */
  lemma ReplaceStrMiss(e: string, x: string, pat: string, rep: string)
    requires |pat| >= 2 && pat[0] == '&'
    requires |e| >= 2 && e[0] == '&' && '&' !in e[1..] && e[1] != pat[1]
    ensures ReplaceStr(e + x, pat, rep) == e + ReplaceStr(x, pat, rep)
  {
    var u := e + x;
    if |u| >= |pat| {
      assert u[..|pat|][1] != pat[1];
      assert u[1..] == e[1..] + x;
      ReplaceStrPlain(e[1..], x, pat, rep);
      assert e == [e[0]] + e[1..];
    }
  }

  /** The text once `&lt;` is undone. */
  function AfterLt(s: string): string {
    if s == [] then []
    else (if s[0] == '&' then "&amp;" else if s[0] == '>' then "&gt;" else [s[0]]) + AfterLt(s[1..])
  }

  /** The text once `&lt;` and `&gt;` are undone. */
  function AfterGt(s: string): string {
    if s == [] then [] else (if s[0] == '&' then "&amp;" else [s[0]]) + AfterGt(s[1..])
  }

  lemma {:induction false} UndoLt(s: string)
    ensures ReplaceStr(EscapeEach(s), "&lt;", "<") == AfterLt(s)
  {
    if s != [] {
      var rest := EscapeEach(s[1..]);
      UndoLt(s[1..]);
      if s[0] == '<' {
        ReplaceStrHit("&lt;", rest, "<");
      } else if s[0] == '&' {
        assert '&' !in "&amp;"[1..];
        ReplaceStrMiss("&amp;", rest, "&lt;", "<");
      } else if s[0] == '>' {
        assert '&' !in "&gt;"[1..];
        ReplaceStrMiss("&gt;", rest, "&lt;", "<");
      } else {
        ReplaceStrPlain([s[0]], rest, "&lt;", "<");
      }
    }
  }

  lemma {:induction false} UndoGt(s: string)
    ensures ReplaceStr(AfterLt(s), "&gt;", ">") == AfterGt(s)
  {
    if s != [] {
      var rest := AfterLt(s[1..]);
      UndoGt(s[1..]);
      if s[0] == '>' {
        ReplaceStrHit("&gt;", rest, ">");
      } else if s[0] == '&' {
        assert '&' !in "&amp;"[1..];
        ReplaceStrMiss("&amp;", rest, "&gt;", ">");
      } else {
        ReplaceStrPlain([s[0]], rest, "&gt;", ">");
      }
    }
  }

  lemma {:induction false} UndoAmp(s: string)
    ensures ReplaceStr(AfterGt(s), "&amp;", "&") == s
  {
    if s != [] {
      var rest := AfterGt(s[1..]);
      UndoAmp(s[1..]);
      if s[0] == '&' {
        ReplaceStrHit("&amp;", rest, "&");
      } else {
        ReplaceStrPlain([s[0]], rest, "&amp;", "&");
      }
      assert s == [s[0]] + s[1..];
    }
  }

  /** Undoing the entities recovers the original text. */
  lemma UnescapeEscape(s: string)
    ensures Unescape(EscapeHtml(s)) == s
  {
    EscapeHtmlIsEscapeEach(s);
    UndoLt(s);
    UndoGt(s);
    UndoAmp(s);
  }

  /** escapeHtml loses nothing: different texts escape differently. */
  lemma EscapeHtmlInjective(s: string, t: string)
    requires EscapeHtml(s) == EscapeHtml(t)
    ensures s == t
  {
    UnescapeEscape(s);
    UnescapeEscape(t);
  }

  // ---------------------------------------------------------------------
  // Cards

  const ShowLabel := "Show answer"
  const HideLabel := "Hide answer"
  const EmptyMessage := "No questions match the current filters. Try changing or clearing filters."

  /** One rendered card: the question it shows, its data-question-index, and
      the state of its answer box and button. What the card displays (id, chips,
      stem, lexicon line, options, answer and note markup) is given by the
      functions of the question below. */
  datatype Card = Card(
    position: nat,
    question: Question,
    answerHidden: bool,
    buttonText: string)

  /** A child of the questions container. */
  datatype Node = Placeholder(message: string) | CardNode(card: Card)

  /** The chips, in category, role focus, difficulty order, each only when truthy. */
  function Tags(q: Question): seq<string> {
    Filter([q.category, q.roleFocus, q.difficulty], IsNonEmpty)
  }

  function LexiconLine(q: Question): Option<string> {
    if q.lexiconTerms != "" then Some("Lexicon: " + q.lexiconTerms) else None
  }

  function NoteHtml(q: Question): Option<string> {
    if q.notesForAuthor != "" then Some(EscapeHtml(q.notesForAuthor)) else None
  }

  /** The answer line as the code inserts it into innerHTML: unescaped. */
  function AnswerHtmlAsWritten(q: Question): string {
    AnswerLine(q)
  }

  /** The answer line escaped like the author note. */
  function AnswerHtml(q: Question): string {
    EscapeHtml(AnswerLine(q))
  }

  /** An option text holding markup reaches the page as markup. */
  lemma AnswerMarkupInjected(q: Question)
    requires q.correctOption == "A" && q.optionA == "<b>x</b>"
    ensures '<' in AnswerHtmlAsWritten(q)
  {
    assert CorrectLabel(q) == "A" by {
      assert IsTrimmed("A");
      TrimSpec("A");
      assert Upper("A") == "A";
    }
    var text := CorrectText(q);
    assert text == "<b>x</b>";
    assert AnswerLine(q) == "A." + " " + text;
    assert AnswerLine(q)[3] == text[0];
  }

  /** The escaped answer line holds no markup and reads back as the answer line. */
  lemma AnswerHtmlSafe(q: Question)
    ensures '<' !in AnswerHtml(q) && '>' !in AnswerHtml(q)
    ensures Unescape(AnswerHtml(q)) == AnswerLine(q)
  {
    EscapeHtmlNoMarkup(AnswerLine(q));
    UnescapeEscape(AnswerLine(q));
  }

  /** The card built for question q at index position, as first rendered. */
  function CardOf(q: Question, position: nat): Card {
    Card(position, q, true, ShowLabel)
  }

  /** The button reads "Show answer" exactly while the answer box is hidden. */
  predicate InSync(c: Card) {
    c.buttonText == (if c.answerHidden then ShowLabel else HideLabel)
  }

  /** The card with its reveal state put back to the initial one. */
  function Initial(c: Card): Card {
    c.(answerHidden := true, buttonText := ShowLabel)
  }

  /** The chips are the non-empty facet fields in order, each as often as it
      occurs among them. */
  lemma TagsExact(q: Question)
    ensures IsSubseq(Tags(q), [q.category, q.roleFocus, q.difficulty])
    ensures forall t :: multiset(Tags(q))[t] == if t != "" then multiset([q.category, q.roleFocus, q.difficulty])[t] else 0
    ensures forall t :: t in Tags(q) <==> t != "" && t in [q.category, q.roleFocus, q.difficulty]
  {
    var fields := [q.category, q.roleFocus, q.difficulty];
    FilterIsSubseq(fields, IsNonEmpty);
    forall t ensures multiset(Tags(q))[t] == if t != "" then multiset(fields)[t] else 0
      ensures t in Tags(q) <==> t != "" && t in fields
    {
      FilterCount(fields, IsNonEmpty, t);
    }
  }

  /** What a card shows of its question: the chips are the non-empty facet
      fields in order, one chip per field even when two fields agree; the lexicon line is shown exactly when there are
      lexicon terms, and holds them; the note markup, and the answer markup once escaped
      like the note (AnswerHtml), hold no angle bracket and read back as the
      plain text. */
  lemma CardShows(q: Question)
    ensures IsSubseq(Tags(q), [q.category, q.roleFocus, q.difficulty])
    ensures forall t :: t in Tags(q) <==> t != "" && t in [q.category, q.roleFocus, q.difficulty]
    ensures forall t :: multiset(Tags(q))[t] == if t != "" then multiset([q.category, q.roleFocus, q.difficulty])[t] else 0
    ensures '<' !in AnswerHtml(q) && '>' !in AnswerHtml(q) && Unescape(AnswerHtml(q)) == AnswerLine(q)
    ensures LexiconLine(q).Some? <==> q.lexiconTerms != ""
    ensures LexiconLine(q).Some? ==> Contains(LexiconLine(q).value, q.lexiconTerms)
    ensures NoteHtml(q).Some? <==> q.notesForAuthor != ""
    ensures NoteHtml(q).Some? ==>
      '<' !in NoteHtml(q).value && '>' !in NoteHtml(q).value && Unescape(NoteHtml(q).value) == q.notesForAuthor
  {
    TagsExact(q);
    if q.lexiconTerms != "" {
      ContainsMiddle("Lexicon: ", q.lexiconTerms, "");
      assert "Lexicon: " + q.lexiconTerms + "" == LexiconLine(q).value;
    }
    AnswerHtmlSafe(q);
    EscapeHtmlNoMarkup(q.notesForAuthor);
    UnescapeEscape(q.notesForAuthor);
  }

  // ---------------------------------------------------------------------
  // Reveal toggle

  /** The click handler: show a hidden answer and relabel the button, or the reverse. */
  function ToggleCard(c: Card): (r: Card)
    ensures r.answerHidden == !c.answerHidden
    ensures InSync(r)
    ensures Initial(r) == Initial(c)
  {
    if c.answerHidden then c.(answerHidden := false, buttonText := HideLabel)
    else c.(answerHidden := true, buttonText := ShowLabel)
  }

  function ToggleTimes(c: Card, n: nat): Card {
    if n == 0 then c else ToggleCard(ToggleTimes(c, n - 1))
  }

  /** Two clicks restore a card whose button was in sync. */
  lemma ToggleTwice(c: Card)
    requires InSync(c)
    ensures ToggleCard(ToggleCard(c)) == c
  {
  }

  /** After n clicks the card is as it was when n is even, toggled once when n is odd. */
  lemma {:induction false} ToggleParity(c: Card, n: nat)
    requires InSync(c)
    ensures ToggleTimes(c, n) == if n % 2 == 0 then c else ToggleCard(c)
  {
    if n > 0 {
      ToggleParity(c, n - 1);
      if n % 2 == 0 {
        ToggleTwice(c);
      }
    }
  }

  /** A fresh card's answer is visible after n clicks exactly when n is odd. */
  lemma RevealedAfter(q: Question, position: nat, n: nat)
    ensures ToggleTimes(CardOf(q, position), n).answerHidden <==> n % 2 == 0
    ensures ToggleTimes(CardOf(q, position), n).buttonText == (if n % 2 == 0 then ShowLabel else HideLabel)
  {
    ToggleParity(CardOf(q, position), n);
  }

  // ---------------------------------------------------------------------
  // The render loop

  /** The container shows filtered: one placeholder for an empty list, otherwise
      one card per question, in order, each in some reveal state. */
  predicate Displays(container: seq<Node>, filtered: seq<Question>) {
    if filtered == [] then container == [Placeholder(EmptyMessage)]
    else
      && |container| == |filtered|
      && forall i :: 0 <= i < |filtered| ==>
           container[i].CardNode? && InSync(container[i].card)
           && Initial(container[i].card) == CardOf(filtered[i], i)
  }

  /** A container just rebuilt from filtered: the placeholder for an empty
      list, otherwise one card per question, in order, with its answer hidden
      under "Show answer". */
  predicate Fresh(container: seq<Node>, filtered: seq<Question>) {
    if filtered == [] then container == [Placeholder(EmptyMessage)]
    else
      && |container| == |filtered|
      && forall i :: 0 <= i < |filtered| ==> container[i] == CardNode(CardOf(filtered[i], i))
  }

  /** Freshly rendered cards display the list they were built from, with
      every answer hidden. */
  lemma FreshCardsDisplay(nodes: seq<Node>, filtered: seq<Question>)
    requires Fresh(nodes, filtered)
    ensures Displays(nodes, filtered)
    ensures forall i :: 0 <= i < |nodes| && nodes[i].CardNode? ==>
      nodes[i].card.answerHidden && nodes[i].card.buttonText == ShowLabel
  {
  }

  /** The body of renderQuestions after the count: the placeholder, or a forEach
      appending one card per question. */
  method RenderCards(filtered: seq<Question>) returns (nodes: seq<Node>)
    ensures filtered == [] ==> nodes == [Placeholder(EmptyMessage)]
    ensures filtered != [] ==> |nodes| == |filtered|
    ensures filtered != [] ==> forall i :: 0 <= i < |filtered| ==> nodes[i] == CardNode(CardOf(filtered[i], i))
    ensures Fresh(nodes, filtered) && Displays(nodes, filtered)
  {
    if filtered == [] {
      return [Placeholder(EmptyMessage)];
    }
    nodes := [];
    for i := 0 to |filtered|
      invariant |nodes| == i
      invariant forall j :: 0 <= j < i ==> nodes[j] == CardNode(CardOf(filtered[j], j))
    {
      nodes := nodes + [CardNode(CardOf(filtered[i], i))];
    }
    FreshCardsDisplay(nodes, filtered);
  }
}
