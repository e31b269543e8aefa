/**
 * The result page's gift lists outside the per-character table: the border a
 * gift icon gets (app.py:31-36), the gifts the selected characters want, and
 * the useless gifts split into a common list and a rare list (app.py:270-278,
 * 302).
 */
module UselessGifts {
  import opened Order
  import opened Seqs
  import opened Sorting
  import opened Catalog
  import opened BestGifts

  /** The two borders of a gift icon: violet for the rare tier, amber otherwise (app.py:31-36). */
  datatype Border = RareBorder | CommonBorder

  /** `get_rarity_border_style`: the violet border exactly for a gift listed with rarity 1. */
  function BorderStyle(g: string, rarity: map<string, int>): (b: Border)
    ensures b == RareBorder <==> g in rarity && rarity[g] == 1
  {
    if Rarity(rarity, g) == 1 then RareBorder else CommonBorder
  }

  /** A gift missing from the lookup gets the amber border, like a listed gift of any rarity but 1. */
  lemma UnlistedGiftsLookCommon(g: string, rarity: map<string, int>)
    requires g !in rarity
    ensures BorderStyle(g, rarity) == CommonBorder
    ensures BorderStyle(g, rarity) == BorderStyle(g, rarity[g := 0])
  {
  }

  // ---------------------------------------------------------------------------
  // The selected characters' gifts
  // ---------------------------------------------------------------------------

  /** The gifts a table mentions. */
  function GiftSet(rows: seq<Row>): set<string> {
    set x | x in rows :: x.gift
  }

  /** The gifts the rows of the selected characters mention. */
  function SelectedGifts(rows: seq<Row>, selected: seq<string>): set<string> {
    set r | r in rows && r.character in selected :: r.gift
  }

  /**
   * `set(result_df['gift'].unique())` as app.py:270 evaluates it: the gift
   * column of a table, or None where the expression raises KeyError, which is
   * on the column-less frame.
   */
  function FavoriteGiftsAsWritten(t: Frame): (r: Option<set<string>>)
    ensures r.None? <==> t.Blank?
    ensures r.Some? ==> forall g :: g in r.value <==> exists x :: x in t.rows && x.gift == g
  {
    match t
    case Blank => None
    case Table(rows) => Some(GiftSet(rows))
  }

  /** The favourites with the column-less frame read as a table without rows. */
  function FavoriteGifts(t: Frame): (r: set<string>)
    ensures t.Blank? ==> r == {}
    ensures t.Table? ==> forall g :: g in r <==> exists x :: x in t.rows && x.gift == g
  {
    match t
    case Blank => {}
    case Table(rows) => GiftSet(rows)
  }

  /** Where app.py:270 does not raise, the corrected reading gives the same set. */
  lemma FavoriteGiftsAgree(t: Frame)
    requires FavoriteGiftsAsWritten(t).Some?
    ensures FavoriteGifts(t) == FavoriteGiftsAsWritten(t).value
  {
  }

  /** The favourites are the gifts of the selected characters' rows. */
  lemma FavoritesOfSelection(rows: seq<Row>, selected: seq<string>)
    ensures FavoriteGifts(FindBestGifts(rows, selected)) == SelectedGifts(rows, selected)
  {
    var t := FindBestGifts(rows, selected);
    if t.Table? {
      SameGifts(t.rows, rows, selected);
    }
  }

  /** A table holding the selected rows, with any multiplicities, has their gifts. */
  lemma SameGifts(xs: seq<Row>, rows: seq<Row>, selected: seq<string>)
    requires forall r :: multiset(xs)[r] == if r.character in selected then multiset(rows)[r] else 0
    ensures GiftSet(xs) == SelectedGifts(rows, selected)
  {
    forall g | g in GiftSet(xs) ensures g in SelectedGifts(rows, selected) {
      var x :| x in xs && x.gift == g;
      assert multiset(xs)[x] > 0;
    }
    forall g | g in SelectedGifts(rows, selected) ensures g in GiftSet(xs) {
      var x :| x in rows && x.character in selected && x.gift == g;
      assert multiset(xs)[x] > 0;
    }
  }

  /**
   * With a selection and no row of a valid effect, `find_best_gifts` returns
   * the column-less frame and app.py:270 raises.
   */
  lemma NoValidRowRaises(raw: seq<RawRow>, selected: seq<string>)
    requires forall r :: r in raw ==> !HasValidEffect(r)
    requires selected != []
    ensures FavoriteGiftsAsWritten(FindBestGifts(LoadData(raw).rows, selected)).None?
  {
    var t := LoadData(raw);
    FilterNone(raw, HasValidEffect);
    assert |MapSeq(t.rows, Unparse)| == 0;
  }

  /**
   * The case is reachable from the page: one row whose effect cell is empty
   * offers its character for selection, and selecting it raises.
   */
  lemma EmptyEffectCellRaises()
    ensures var t := LoadData([RawRow("A", "X", "")]);
      && "A" in t.characters
      && FavoriteGiftsAsWritten(FindBestGifts(t.rows, ["A"])).None?
  {
    var raw := [RawRow("A", "X", "")];
    assert raw[0] in raw;
    assert !HasValidEffect(raw[0]);
    NoValidRowRaises(raw, ["A"]);
  }

  // ---------------------------------------------------------------------------
  // The useless gifts
  // ---------------------------------------------------------------------------

  function IsRareIn(rarity: map<string, int>): string -> bool {
    (g: string) => IsRare(rarity, g)
  }

  function IsCommonIn(rarity: map<string, int>): string -> bool {
    (g: string) => !IsRare(rarity, g)
  }

  /** The common list's order: rarity descending, then name (app.py:276-277). */
  function CommonOrder(rarity: map<string, int>): string -> seq<int> {
    (g: string) => [-Rarity(rarity, g)] + Codes(g)
  }

  /**
   * What the two useless lists hold: every gift of the universe that no
   * selected character wants, each once, the rare tier in `rare` sorted by name
   * and the rest in `common` sorted by rarity descending and then name.
   */
  ghost predicate UselessSpec(allGifts: set<string>, favorites: set<string>, rarity: map<string, int>,
                        common: seq<string>, rare: seq<string>)
  {
    && (forall g :: g in common <==> g in allGifts && g !in favorites && !IsRare(rarity, g))
    && (forall g :: g in rare <==> g in allGifts && g !in favorites && IsRare(rarity, g))
    && Distinct(common) && Distinct(rare)
    && Sorted(common, CommonOrder(rarity))
    && Sorted(rare, Codes)
  }

  /** The two useless lists: `common_useless_gifts` and `rare_useless_gifts` once sorted. */
  datatype UselessLists = UselessLists(common: seq<string>, rare: seq<string>)

  /**
   * The useless-gift block (app.py:271-278, 302) on `useless`, the list
   * `list(all_gifts - favorite_gifts)` in whatever order the set yields: its
   * rare-tier gifts sorted by name, and the others by rarity descending and
   * then name.
   */
  function SplitUseless(useless: seq<string>, rarity: map<string, int>): (r: UselessLists)
    ensures forall g :: g in r.common <==> g in useless && !IsRare(rarity, g)
    ensures forall g :: g in r.rare <==> g in useless && IsRare(rarity, g)
    ensures Sorted(r.common, CommonOrder(rarity)) && Sorted(r.rare, Codes)
    ensures Distinct(useless) ==> Distinct(r.common) && Distinct(r.rare)
  {
    SortedSelection(useless, IsCommonIn(rarity), CommonOrder(rarity));
    SortedSelection(useless, IsRareIn(rarity), Codes);
    UselessLists(SortBy(Filter(useless, IsCommonIn(rarity)), CommonOrder(rarity)),
                 SortBy(Filter(useless, IsRareIn(rarity)), Codes))
  }

  /** Sorting a selection keeps exactly the selected elements, and keeps a list free of repetitions. */
  lemma SortedSelection(xs: seq<string>, p: string -> bool, key: string -> seq<int>)
    ensures forall g :: g in SortBy(Filter(xs, p), key) <==> g in xs && p(g)
    ensures Distinct(xs) ==> Distinct(SortBy(Filter(xs, p), key))
  {
    var sel := Filter(xs, p);
    if Distinct(xs) {
      FilterDistinct(xs, p);
    }
    forall g ensures g in SortBy(sel, key) <==> g in xs && p(g) {
      assert g in SortBy(sel, key) <==> g in multiset(sel);
      assert g in multiset(sel) <==> g in sel;
    }
  }

  /**
   * Whatever order the set enumeration takes, the split of the useless gifts
   * of the frame `t` meets `UselessSpec` (app.py:270-278, 302).
   */
  lemma UselessGiftsMeetSpec(allGifts: set<string>, t: Frame, rarity: map<string, int>, useless: seq<string>)
    requires forall g :: g in useless <==> g in allGifts - FavoriteGifts(t)
    requires Distinct(useless)
    ensures UselessSpec(allGifts, FavoriteGifts(t), rarity,
                        SplitUseless(useless, rarity).common, SplitUseless(useless, rarity).rare)
  {
  }

  /** A list without repetitions holding exactly the elements of another such list is a permutation of it. */
  lemma {:induction false} SameElementsPermutation(a: seq<string>, b: seq<string>)
    requires Distinct(a) && Distinct(b)
    requires forall x :: x in a <==> x in b
    ensures multiset(a) == multiset(b)
  {
    forall x ensures multiset(a)[x] == multiset(b)[x] {
      if x in a {
        assert x in multiset(a) && x in multiset(b);
      } else {
        assert x !in multiset(a) && x !in multiset(b);
      }
    }
  }

  /** The name orders of the two lists tell gifts apart. */
  lemma UselessOrdersSeparateNames(rarity: map<string, int>, x: string, y: string)
    ensures CommonOrder(rarity)(x) == CommonOrder(rarity)(y) ==> x == y
    ensures Codes(x) == Codes(y) ==> x == y
  {
    if Codes(x) == Codes(y) {
      CodesInjective(x, y);
    }
    var cx, cy := CommonOrder(rarity)(x), CommonOrder(rarity)(y);
    if cx == cy {
      assert cx[1..] == Codes(x) && cy[1..] == Codes(y);
      CodesInjective(x, y);
    }
  }

  /**
   * The page shows the same lists whatever order the set iteration at
   * app.py:271 produced: `UselessSpec` fixes both lists, order included.
   */
  lemma UselessListsDetermined(allGifts: set<string>, favorites: set<string>, rarity: map<string, int>,
                               c1: seq<string>, r1: seq<string>, c2: seq<string>, r2: seq<string>)
    requires UselessSpec(allGifts, favorites, rarity, c1, r1)
    requires UselessSpec(allGifts, favorites, rarity, c2, r2)
    ensures c1 == c2 && r1 == r2
  {
    SameElementsPermutation(c1, c2);
    SameElementsPermutation(r1, r2);
    forall x, y | x in c1 && y in c1 && CommonOrder(rarity)(x) == CommonOrder(rarity)(y) ensures x == y {
      UselessOrdersSeparateNames(rarity, x, y);
    }
    forall x, y | x in r1 && y in r1 && Codes(x) == Codes(y) ensures x == y {
      UselessOrdersSeparateNames(rarity, x, y);
    }
    SortedPermutationsEqual(c1, c2, CommonOrder(rarity));
    SortedPermutationsEqual(r1, r2, Codes);
  }

  /** The page's lists do not depend on the order in which the set at app.py:271 is enumerated. */
  lemma UselessIndependentOfOrder(allGifts: set<string>, t: Frame, rarity: map<string, int>,
                                  u1: seq<string>, u2: seq<string>)
    requires forall g :: g in u1 <==> g in allGifts - FavoriteGifts(t)
    requires forall g :: g in u2 <==> g in allGifts - FavoriteGifts(t)
    requires Distinct(u1) && Distinct(u2)
    ensures SplitUseless(u1, rarity) == SplitUseless(u2, rarity)
  {
    var s1, s2 := SplitUseless(u1, rarity), SplitUseless(u2, rarity);
    UselessGiftsMeetSpec(allGifts, t, rarity, u1);
    UselessGiftsMeetSpec(allGifts, t, rarity, u2);
    UselessListsDetermined(allGifts, FavoriteGifts(t), rarity, s1.common, s1.rare, s2.common, s2.rare);
  }

  /**
   * On the page, the useless lists are the universe's gifts that no row of a
   * selected character mentions: each such gift is listed, in the list of its
   * tier, and no wanted gift is.
   */
  lemma UselessMeansUnwanted(rows: seq<Row>, selected: seq<string>, allGifts: set<string>,
                             rarity: map<string, int>, common: seq<string>, rare: seq<string>, g: string)
    requires UselessSpec(allGifts, FavoriteGifts(FindBestGifts(rows, selected)), rarity, common, rare)
    ensures g in common || g in rare <==>
            g in allGifts && forall r :: r in rows && r.character in selected ==> r.gift != g
    ensures g in rare ==> IsRare(rarity, g)
    ensures g in common ==> !IsRare(rarity, g)
  {
    FavoritesOfSelection(rows, selected);
    if g in allGifts && !(g in common || g in rare) {
      assert g in FavoriteGifts(FindBestGifts(rows, selected));
      var r :| r in rows && r.character in selected && r.gift == g;
    }
  }
}
