/** The board: the list of categories, what a click does to it, and the table of cells
    that `fillTable` draws for it. */
module Board {
  import opened Wrappers
  import opened CellIds
  import opened Clues

  /** (catIdx, clueIdx) names a clue that exists on the board. */
  predicate ValidCell(cats: seq<Category>, catIdx: nat, clueIdx: nat) {
    catIdx < |cats| && clueIdx < |cats[catIdx].clues|
  }

  /** A board as loading builds it: at most NUM_CATEGORIES categories of at most
      NUM_CLUES_PER_CAT clues. */
  ghost predicate WellFormed(cats: seq<Category>) {
    |cats| <= NUM_CATEGORIES && forall i :: 0 <= i < |cats| ==> |cats[i].clues| <= NUM_CLUES_PER_CAT
  }

  /** Nothing on the board has been revealed. */
  ghost predicate AllHidden(cats: seq<Category>) {
    forall i, j :: 0 <= i < |cats| && 0 <= j < |cats[i].clues| ==> cats[i].clues[j].showing == Hidden
  }

  /** Same number of categories, same titles, same number of clues in each. */
  ghost predicate SameShape(a: seq<Category>, b: seq<Category>) {
    |a| == |b| && forall i :: 0 <= i < |a| ==> a[i].title == b[i].title && |a[i].clues| == |b[i].clues|
  }

  /** A click on the clue at (catIdx, clueIdx): that clue takes one `Click` step, and
      every other clue, every title and the shape of the board stay as they were. */
  function ClickAt(cats: seq<Category>, catIdx: nat, clueIdx: nat): (r: Clicked<seq<Category>>)
    requires ValidCell(cats, catIdx, clueIdx)
    ensures SameShape(r.after, cats)
    ensures Clicked(r.after[catIdx].clues[clueIdx], r.msg) == Click(cats[catIdx].clues[clueIdx])
    ensures forall i, j :: 0 <= i < |cats| && 0 <= j < |cats[i].clues| && (i, j) != (catIdx, clueIdx) ==>
      r.after[i].clues[j] == cats[i].clues[j]
  {
    var cat := cats[catIdx];
    var clicked := Click(cat.clues[clueIdx]);
    Clicked(cats[catIdx := cat.(clues := cat.clues[clueIdx := clicked.after])], clicked.msg)
  }

  /** A click keeps a loaded board well formed. */
  lemma ClickKeepsWellFormed(cats: seq<Category>, catIdx: nat, clueIdx: nat)
    requires ValidCell(cats, catIdx, clueIdx) && WellFormed(cats)
    ensures WellFormed(ClickAt(cats, catIdx, clueIdx).after)
  {
  }

  /** Clicks on two different cells do not interfere: in either order they leave the
      same board and write the same text into each cell. */
  lemma ClicksOnDistinctCellsCommute(cats: seq<Category>, c1: nat, r1: nat, c2: nat, r2: nat)
    requires ValidCell(cats, c1, r1) && ValidCell(cats, c2, r2) && (c1, r1) != (c2, r2)
    ensures ValidCell(ClickAt(cats, c1, r1).after, c2, r2) && ValidCell(ClickAt(cats, c2, r2).after, c1, r1)
    ensures ClickAt(ClickAt(cats, c1, r1).after, c2, r2).after == ClickAt(ClickAt(cats, c2, r2).after, c1, r1).after
    ensures ClickAt(ClickAt(cats, c1, r1).after, c2, r2).msg == ClickAt(cats, c2, r2).msg
    ensures ClickAt(ClickAt(cats, c2, r2).after, c1, r1).msg == ClickAt(cats, c1, r1).msg
  {
    var a := ClickAt(cats, c1, r1).after;
    var b := ClickAt(cats, c2, r2).after;
    var ab := ClickAt(a, c2, r2).after;
    var ba := ClickAt(b, c1, r1).after;
    forall i | 0 <= i < |cats|
      ensures ab[i] == ba[i]
    {
      assert ab[i].title == ba[i].title;
      assert |ab[i].clues| == |ba[i].clues|;
      forall j | 0 <= j < |cats[i].clues|
        ensures ab[i].clues[j] == ba[i].clues[j]
      {
      }
    }
  }

  /** The id `handleClick` reads names a clue on the board; any other click throws. */
  ghost predicate Clickable(cats: seq<Category>, id: string) {
    match DecodeId(id)
    case Some((catIdx, clueIdx)) => ValidCell(cats, catIdx, clueIdx)
    case None => false
  }

  /** A cell of the drawn table: its DOM id and its text. */
  datatype Cell = Cell(id: string, text: string)

  /** The drawn table: the header row of titles, and the body rows of cells. */
  datatype Table = Table(header: seq<string>, body: seq<seq<Cell>>)

  /** The table `fillTable` draws for a board of at least NUM_CATEGORIES categories: one
      header cell per category with its title, then NUM_CLUES_PER_CAT rows of
      NUM_CATEGORIES masked cells, the cell in row r and column c carrying the id of
      clue r of category c. */
  ghost predicate IsInitialTable(t: Table, cats: seq<Category>) {
    && |cats| >= NUM_CATEGORIES
    && |t.header| == NUM_CATEGORIES
    && (forall c :: 0 <= c < NUM_CATEGORIES ==> t.header[c] == cats[c].title)
    && |t.body| == NUM_CLUES_PER_CAT
    && (forall r :: 0 <= r < NUM_CLUES_PER_CAT ==> |t.body[r]| == NUM_CATEGORIES)
    && (forall r, c :: 0 <= r < NUM_CLUES_PER_CAT && 0 <= c < NUM_CATEGORIES ==>
          t.body[r][c] == Cell(CellId(c, r), MASKED))
  }

  /** Every cell of the drawn table has its own id. */
  lemma TableIdsDistinct(t: Table, cats: seq<Category>, r1: nat, c1: nat, r2: nat, c2: nat)
    requires IsInitialTable(t, cats)
    requires r1 < NUM_CLUES_PER_CAT && c1 < NUM_CATEGORIES && r2 < NUM_CLUES_PER_CAT && c2 < NUM_CATEGORIES
    requires t.body[r1][c1].id == t.body[r2][c2].id
    ensures r1 == r2 && c1 == c2
  {
  }

  /** A freshly drawn table shows each existing clue as its reveal state requires. */
  lemma InitialTableShowsBoard(t: Table, cats: seq<Category>, r: nat, c: nat)
    requires IsInitialTable(t, cats) && AllHidden(cats)
    requires r < NUM_CLUES_PER_CAT && c < NUM_CATEGORIES && ValidCell(cats, c, r)
    ensures DecodeId(t.body[r][c].id) == Some((c, r))
    ensures t.body[r][c].text == CellText(cats[c].clues[r])
  {
  }

  /** The table always has NUM_CLUES_PER_CAT rows, so every one of its cells can be
      clicked exactly when each of the first NUM_CATEGORIES categories has at least
      NUM_CLUES_PER_CAT clues; a cell below a shorter category names no clue. */
  lemma TableCellsClickable(t: Table, cats: seq<Category>)
    requires IsInitialTable(t, cats)
    ensures (forall r, c :: 0 <= r < NUM_CLUES_PER_CAT && 0 <= c < NUM_CATEGORIES ==> Clickable(cats, t.body[r][c].id))
        <==> (forall c :: 0 <= c < NUM_CATEGORIES ==> |cats[c].clues| >= NUM_CLUES_PER_CAT)
  {
    forall r, c | 0 <= r < NUM_CLUES_PER_CAT && 0 <= c < NUM_CATEGORIES
      ensures Clickable(cats, t.body[r][c].id) <==> r < |cats[c].clues|
    {
    }
    if forall r, c :: 0 <= r < NUM_CLUES_PER_CAT && 0 <= c < NUM_CATEGORIES ==> Clickable(cats, t.body[r][c].id) {
      forall c | 0 <= c < NUM_CATEGORIES
        ensures |cats[c].clues| >= NUM_CLUES_PER_CAT
      {
        assert Clickable(cats, t.body[NUM_CLUES_PER_CAT - 1][c].id);
      }
    }
    if forall c :: 0 <= c < NUM_CATEGORIES ==> |cats[c].clues| >= NUM_CLUES_PER_CAT {
      forall r, c | 0 <= r < NUM_CLUES_PER_CAT && 0 <= c < NUM_CATEGORIES
        ensures Clickable(cats, t.body[r][c].id)
      {
        assert r < |cats[c].clues|;
      }
    }
  }
}
