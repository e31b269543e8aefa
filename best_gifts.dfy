/**
 * `find_best_gifts` (app.py:65-78): the selected characters' rows, ordered by
 * how many of those rows mention the same gift (descending), then effect
 * (descending), then gift name (ascending).
 */
module BestGifts {
  import opened Order
  import opened Seqs
  import opened Sorting
  import opened Catalog

  /**
   * The result table. `Blank` is the column-less `pd.DataFrame()` returned
   * for an empty relation or an empty selection (app.py:66-67); `Table` is a
   * table with the relation's columns, possibly without rows.
   */
  datatype Frame = Blank | Table(rows: seq<Row>)

  /** The row test `df['character'].isin(selected)` (app.py:69, 84). */
  function InSelection(selected: seq<string>): Row -> bool {
    (r: Row) => r.character in selected
  }

  /** The rows of the selected characters, each as often as in the relation (app.py:69, 84). */
  function SelectRows(rows: seq<Row>, selected: seq<string>): (f: seq<Row>)
    ensures forall r :: multiset(f)[r] == if r.character in selected then multiset(rows)[r] else 0
    ensures forall r :: r in f <==> r in rows && r.character in selected
  {
    Filter(rows, InSelection(selected))
  }

  function HasGift(g: string): Row -> bool {
    (r: Row) => r.gift == g
  }

  /** `groupby('gift')['character'].transform('count')`: rows of `f` for gift `g`, duplicates included (app.py:72). */
  function RowsForGift(f: seq<Row>, g: string): (n: nat)
    ensures n <= |f|
    ensures n > 0 <==> exists r :: r in f && r.gift == g
  {
    var h := Filter(f, HasGift(g));
    assert h != [] ==> h[0] in h;
    assert forall r :: r in f && r.gift == g ==> r in h;
    |h|
  }

  /**
   * The tag counts rows, not characters: one more row for the gift, even a
   * repeated row of a character already counted, adds one (app.py:72).
   */
  lemma RowsForGiftCountsRows(f: seq<Row>, r: Row, g: string)
    ensures RowsForGift(f + [r], g) == RowsForGift(f, g) + (if r.gift == g then 1 else 0)
  {
    FilterSnoc(f, r, HasGift(g));
  }

  /** The sort key of app.py:73-77: (num_chars descending, effect descending, gift ascending). */
  function BestGiftsOrder(f: seq<Row>): Row -> seq<int> {
    (r: Row) => [-(RowsForGift(f, r.gift) as int), -(Rank(r.effect) as int)] + Codes(r.gift)
  }

  /**
   * `find_best_gifts`: every row of a selected character, each as often as in
   * the relation, and no other row, sorted by the key above.
   */
  function FindBestGifts(rows: seq<Row>, selected: seq<string>): (t: Frame)
    ensures t.Blank? <==> rows == [] || selected == []
    ensures t.Table? ==> forall r :: multiset(t.rows)[r] == if r.character in selected then multiset(rows)[r] else 0
    ensures t.Table? ==> Sorted(t.rows, BestGiftsOrder(SelectRows(rows, selected)))
  {
    if rows == [] || selected == [] then Blank
    else
      var f := SelectRows(rows, selected);
      if f != [] then Table(SortBy(f, BestGiftsOrder(f))) else Table(f)
  }

  /**
   * The order of `FindBestGifts` spelled out: of two rows, the earlier one's
   * gift has at least as many selected rows; with equal counts its effect is
   * at least as strong; with equal effects too its gift name is not greater.
   */
  lemma BestGiftsOrderSpelledOut(f: seq<Row>, t: seq<Row>, i: int, j: int)
    requires Sorted(t, BestGiftsOrder(f)) && 0 <= i < j < |t|
    ensures RowsForGift(f, t[i].gift) >= RowsForGift(f, t[j].gift)
    ensures RowsForGift(f, t[i].gift) == RowsForGift(f, t[j].gift) ==> Rank(t[i].effect) >= Rank(t[j].effect)
    ensures RowsForGift(f, t[i].gift) == RowsForGift(f, t[j].gift) && t[i].effect == t[j].effect
            ==> StrLe(t[i].gift, t[j].gift)
  {
    var key := BestGiftsOrder(f);
    var x, y := t[i], t[j];
    assert LexLe(key(x), key(y));
    LexLeTwoColumns(-(RowsForGift(f, x.gift) as int), -(Rank(x.effect) as int), Codes(x.gift),
                    -(RowsForGift(f, y.gift) as int), -(Rank(y.effect) as int), Codes(y.gift));
  }

  /** Empty relation or empty selection: the column-less frame, whatever else is passed (app.py:66-67). */
  lemma FindBestGiftsEmpty(rows: seq<Row>, selected: seq<string>)
    requires rows == [] || selected == []
    ensures FindBestGifts(rows, selected) == Blank
  {
  }
}
