/** The clue records of the board and the reveal state machine of one clue:
    hidden ("?"), then the question, then the answer, after which clicks are ignored. */
module Clues {
  import opened Wrappers

  const NUM_CATEGORIES: nat := 6
  const NUM_CLUES_PER_CAT: nat := 5

  /** The text a cell shows before it is first clicked. */
  const MASKED: string := "?"

  /** The `showing` property of a clue: null, "question" or "answer". */
  datatype Showing = Hidden | Question | Answer

  datatype Clue = Clue(question: string, answer: string, showing: Showing)

  datatype Category = Category(title: string, clues: seq<Clue>)

  /** A clue and a category as the trivia service returns them. */
  datatype ApiClue = ApiClue(question: string, answer: string)

  datatype ApiCategory = ApiCategory(title: string, clues: seq<ApiClue>)

  /** What a click leaves behind, and the text it writes into the clicked cell, if any. */
  datatype Clicked<S> = Clicked(after: S, msg: Option<string>)

  function Min(a: nat, b: nat): nat {
    if a <= b then a else b
  }

  /** What `_.sampleSize(pool, n)` promises: min(n, |pool|) elements of the pool,
      each drawn at most as often as it occurs there. */
  ghost predicate IsSample<T>(sample: seq<T>, pool: seq<T>, n: nat) {
    multiset(sample) <= multiset(pool) && |sample| == Min(n, |pool|)
  }

  /** How far a clue has been revealed. */
  function Rank(s: Showing): nat {
    match s
    case Hidden => 0
    case Question => 1
    case Answer => 2
  }

  /** The text a cell displays for its clue in each reveal state. */
  function CellText(c: Clue): string {
    match c.showing
    case Hidden => MASKED
    case Question => c.question
    case Answer => c.answer
  }

  /** The question and answer of each clue, without its reveal state. */
  function Strip(clues: seq<Clue>): (raw: seq<ApiClue>)
    ensures |raw| == |clues|
  {
    seq(|clues|, i requires 0 <= i < |clues| => ApiClue(clues[i].question, clues[i].answer))
  }

  /** The clue records built from sampled service clues, one per clue and in order. */
  function FreshClues(raw: seq<ApiClue>): (clues: seq<Clue>)
    ensures |clues| == |raw|
    ensures forall i :: 0 <= i < |raw| ==> clues[i] == Clue(raw[i].question, raw[i].answer, Hidden)
  {
    if raw == [] then [] else [Clue(raw[0].question, raw[0].answer, Hidden)] + FreshClues(raw[1..])
  }

  /** `getCategory`, given the service's reply and the clues sampled from it: the title is
      kept, every sampled question and answer is kept in order, nothing is revealed yet,
      and a proper sample yields at most NUM_CLUES_PER_CAT clues, drawn from the reply. */
  function GetCategory(response: ApiCategory, randClues: seq<ApiClue>): (c: Category)
    ensures c.title == response.title
    ensures Strip(c.clues) == randClues
    ensures forall i :: 0 <= i < |c.clues| ==> c.clues[i].showing == Hidden
    ensures IsSample(randClues, response.clues, NUM_CLUES_PER_CAT) ==>
      |c.clues| <= NUM_CLUES_PER_CAT && multiset(Strip(c.clues)) <= multiset(response.clues)
    ensures IsSample(randClues, response.clues, NUM_CLUES_PER_CAT) ==>
      (|c.clues| == NUM_CLUES_PER_CAT <==> |response.clues| >= NUM_CLUES_PER_CAT)
  {
    Category(response.title, FreshClues(randClues))
  }

  /** One click on a clue. Only the reveal state changes; a clue not yet fully revealed
      moves exactly one step forward and its cell then shows the text of the new state;
      a fully revealed clue ignores the click and writes nothing. */
  function Click(c: Clue): (r: Clicked<Clue>)
    ensures r.after.question == c.question && r.after.answer == c.answer
    ensures c.showing != Answer ==>
      Rank(r.after.showing) == Rank(c.showing) + 1 && r.msg == Some(CellText(r.after))
    ensures c.showing == Answer ==> r == Clicked(c, None)
  {
    match c.showing
    case Hidden => Clicked(c.(showing := Question), Some(c.question))
    case Question => Clicked(c.(showing := Answer), Some(c.answer))
    case Answer => Clicked(c, None)
  }

  function Written(msg: Option<string>): seq<string> {
    match msg
    case Some(text) => [text]
    case None => []
  }

  /** The clue after n successive clicks. */
  function AfterClicks(c: Clue, n: nat): Clue
    decreases n
  {
    if n == 0 then c else AfterClicks(Click(c).after, n - 1)
  }

  /** The texts written into the cell by n successive clicks, in order. */
  function Texts(c: Clue, n: nat): seq<string>
    decreases n
  {
    if n == 0 then [] else Written(Click(c).msg) + Texts(Click(c).after, n - 1)
  }

  /** Once the answer shows, any number of clicks changes nothing and writes nothing. */
  lemma {:induction false} AnsweredClueIgnoresClicks(c: Clue, n: nat)
    requires c.showing == Answer
    ensures AfterClicks(c, n) == c && Texts(c, n) == []
    decreases n
  {
    if n > 0 {
      AnsweredClueIgnoresClicks(c, n - 1);
    }
  }

  /** From a fresh clue, clicks write the question, then the answer, then nothing: the
      answer never appears before the question and no step is skipped. */
  lemma ClicksFromHidden(c: Clue, n: nat)
    requires c.showing == Hidden
    ensures Texts(c, n) == [c.question, c.answer][..Min(n, 2)]
    ensures AfterClicks(c, n).showing == [Hidden, Question, Answer][Min(n, 2)]
  {
    if n >= 2 {
      var q := Click(c).after;
      var a := Click(q).after;
      assert a.showing == Answer;
      AnsweredClueIgnoresClicks(a, n - 2);
      assert Texts(c, n) == [c.question] + Texts(q, n - 1);
      assert Texts(q, n - 1) == [c.answer] + Texts(a, n - 2);
    } else if n == 1 {
      assert Texts(c, 1) == [c.question] + Texts(Click(c).after, 0);
    }
  }

  /** The reveal state never goes back: more clicks never reveal less, and a clicked
      clue is never hidden again. */
  lemma {:induction false} ClicksAreMonotonic(c: Clue, m: nat, n: nat)
    requires m <= n
    ensures Rank(AfterClicks(c, m).showing) <= Rank(AfterClicks(c, n).showing)
    ensures n > 0 ==> AfterClicks(c, n).showing != Hidden
    decreases n
  {
    if m > 0 {
      ClicksAreMonotonic(Click(c).after, m - 1, n - 1);
    } else if n > 0 {
      ClicksAreMonotonic(Click(c).after, 0, n - 1);
    }
  }
}
