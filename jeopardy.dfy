/** The game: the `categories` list that the page keeps, the click handler that reveals a
    clue in place, the start-up that empties and refills the list, and the table drawing. */
module Jeopardy {
  import opened Wrappers
  import opened CellIds
  import opened Clues
  import opened Board

  class Game {
    /** The board every handler reads and updates. */
    var categories: seq<Category>

    /** The page starts with an empty board. */
    constructor ()
      ensures categories == []
    {
      categories := [];
    }

    /** The body of `handleClick` once the cell is located: a hidden clue shows its
        question, a clue showing its question shows its answer, and a clue showing its
        answer ignores the click. Returns the text written into the cell, if any. */
    method Reveal(catIdx: nat, clueIdx: nat) returns (msg: Option<string>)
      requires ValidCell(categories, catIdx, clueIdx)
      modifies this
      ensures Clicked(categories, msg) == ClickAt(old(categories), catIdx, clueIdx)
      ensures WellFormed(old(categories)) ==> WellFormed(categories)
    {
      if WellFormed(categories) {
        ClickKeepsWellFormed(categories, catIdx, clueIdx);
      }
      var cat := categories[catIdx];
      var clue := cat.clues[clueIdx];
      if clue.showing == Hidden {
        msg := Some(clue.question);
        clue := clue.(showing := Question);
      } else if clue.showing == Question {
        msg := Some(clue.answer);
        clue := clue.(showing := Answer);
      } else {
        assert cat.clues[clueIdx := clue] == cat.clues;
        assert categories[catIdx := cat] == categories;
        return None;
      }
      categories := categories[catIdx := cat.(clues := cat.clues[clueIdx := clue])];
    }

    /** `handleClick`: find the clicked clue from the cell's id, then reveal it. */
    method HandleClick(id: string) returns (msg: Option<string>)
      requires Clickable(categories, id)
      modifies this
      ensures DecodeId(id).Some?
      ensures Clicked(categories, msg) == ClickAt(old(categories), DecodeId(id).value.0, DecodeId(id).value.1)
      ensures WellFormed(old(categories)) ==> WellFormed(categories)
    {
      var cell := DecodeId(id).value;
      msg := Reveal(cell.0, cell.1);
    }

    /** `categories = []`. */
    method Reset()
      modifies this
      ensures categories == []
    {
      categories := [];
    }

    /** `categories.push(category)`. */
    method Append(category: Category)
      modifies this
      ensures categories == old(categories) + [category]
    {
      categories := categories + [category];
    }

    /** `fillTable`: the header row of titles and NUM_CLUES_PER_CAT rows of masked cells,
        each carrying the id of its clue. */
    method FillTable() returns (t: Table)
      requires |categories| >= NUM_CATEGORIES
      ensures IsInitialTable(t, categories)
    {
      var header: seq<string> := [];
      for catIdx := 0 to NUM_CATEGORIES
        invariant |header| == catIdx
        invariant forall c :: 0 <= c < catIdx ==> header[c] == categories[c].title
      {
        header := header + [categories[catIdx].title];
      }
      var body: seq<seq<Cell>> := [];
      for clueIdx := 0 to NUM_CLUES_PER_CAT
        invariant |body| == clueIdx
        invariant forall r :: 0 <= r < clueIdx ==> |body[r]| == NUM_CATEGORIES
        invariant forall r, c :: 0 <= r < clueIdx && 0 <= c < NUM_CATEGORIES ==> body[r][c] == Cell(CellId(c, r), MASKED)
      {
        var row: seq<Cell> := [];
        for catIdx := 0 to NUM_CATEGORIES
          invariant |row| == catIdx
          invariant forall c :: 0 <= c < catIdx ==> row[c] == Cell(CellId(c, clueIdx), MASKED)
        {
          row := row + [Cell(CellId(catIdx, clueIdx), MASKED)];
        }
        body := body + [row];
      }
      t := Table(header, body);
    }

    /** `setupAndStart`: empty the board, append one category per sampled id in order,
        then draw the table. The service's replies and lodash's samples are parameters:
        `categoryIds` is the sample of the listed ids `allIds`, `responses[i]` is the reply
        for `categoryIds[i]`, and `samples[i]` the clues sampled from it. The table is None
        when fewer than NUM_CATEGORIES categories were loaded, where `fillTable` throws
        reading the title of a missing category. */
    method SetupAndStart(allIds: seq<int>, categoryIds: seq<int>, responses: seq<ApiCategory>,
                         samples: seq<seq<ApiClue>>) returns (table: Option<Table>)
      requires IsSample(categoryIds, allIds, NUM_CATEGORIES)
      requires |responses| == |categoryIds| && |samples| == |categoryIds|
      requires forall i :: 0 <= i < |categoryIds| ==> IsSample(samples[i], responses[i].clues, NUM_CLUES_PER_CAT)
      modifies this
      ensures |categories| == |categoryIds|
      ensures forall i :: 0 <= i < |categories| ==> categories[i] == GetCategory(responses[i], samples[i])
      ensures WellFormed(categories) && AllHidden(categories)
      ensures table.Some? <==> |allIds| >= NUM_CATEGORIES
      ensures table.Some? ==> IsInitialTable(table.value, categories)
    {
      Reset();
      for i := 0 to |categoryIds|
        invariant |categories| == i
        invariant forall k :: 0 <= k < i ==> categories[k] == GetCategory(responses[k], samples[k])
      {
        Append(GetCategory(responses[i], samples[i]));
      }
      if |categories| >= NUM_CATEGORIES {
        var t := FillTable();
        table := Some(t);
      } else {
        table := None;
      }
    }
  }

  /** Three clicks on the cell of a hidden clue: the first shows the question, the
      second the answer, the third nothing; the clue ends fully revealed and no other
      clue changes. */
  method PlayOneClue(game: Game, catIdx: nat, clueIdx: nat)
      returns (first: Option<string>, second: Option<string>, third: Option<string>)
    requires ValidCell(game.categories, catIdx, clueIdx)
    requires game.categories[catIdx].clues[clueIdx].showing == Hidden
    modifies game
    ensures first == Some(old(game.categories)[catIdx].clues[clueIdx].question)
    ensures second == Some(old(game.categories)[catIdx].clues[clueIdx].answer)
    ensures third == None
    ensures SameShape(game.categories, old(game.categories))
    ensures game.categories[catIdx].clues[clueIdx] == old(game.categories)[catIdx].clues[clueIdx].(showing := Answer)
    ensures forall i, j ::
      0 <= i < |old(game.categories)| && 0 <= j < |old(game.categories)[i].clues| && (i, j) != (catIdx, clueIdx) ==>
      game.categories[i].clues[j] == old(game.categories)[i].clues[j]
  {
    var id := CellId(catIdx, clueIdx);
    first := game.HandleClick(id);
    second := game.HandleClick(id);
    third := game.HandleClick(id);
  }
}
