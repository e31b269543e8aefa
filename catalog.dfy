/**
 * The gift catalog: the (character, gift, effect) relation, the effect tiers,
 * the gift rarity lookup, and the normalisation `load_data` applies to parsed
 * rows (app.py:51-58).
 */
module Catalog {
  import opened Order
  import opened Seqs
  import opened Sorting

  /** The effect tiers 中 < 大 < 特大 (app.py:54, 57-58). */
  datatype Effect = Medium | Large | Huge

  /** Position of an effect in the ordered categorical: 中 = 0, 大 = 1, 特大 = 2. */
  function Rank(e: Effect): (r: nat)
    ensures r < 3
  {
    match e
    case Medium => 0
    case Large => 1
    case Huge => 2
  }

  /** The text of an effect in the gift table. */
  function EffectName(e: Effect): string {
    match e
    case Medium => "中"
    case Large => "大"
    case Huge => "特大"
  }

  /** The effect an effect cell names, or None when the cell holds anything else. */
  function ParseEffect(s: string): (r: Option<Effect>)
    ensures r.Some? <==> s in {"中", "大", "特大"}
  {
    if s == "中" then Some(Medium)
    else if s == "大" then Some(Large)
    else if s == "特大" then Some(Huge)
    else None
  }

  datatype Option<T> = None | Some(value: T)

  lemma ParseEffectName(e: Effect, s: string)
    ensures ParseEffect(EffectName(e)) == Some(e)
    ensures ParseEffect(s) == Some(e) ==> s == EffectName(e)
  {
  }

  /** One parsed row of the gift table, its cells already stripped. */
  datatype RawRow = RawRow(character: string, gift: string, effect: string)

  /** One row of the validated relation. */
  datatype Row = Row(character: string, gift: string, effect: Effect)

  /** A validated row written back as a parsed row. */
  function Unparse(r: Row): RawRow {
    RawRow(r.character, r.gift, EffectName(r.effect))
  }

  function GiftOf(r: Row): string {
    r.gift
  }

  /** The gift column of a table. */
  function Gifts(rows: seq<Row>): (gs: seq<string>)
    ensures |gs| == |rows|
  {
    MapSeq(rows, GiftOf)
  }

  lemma GiftsMembership(rows: seq<Row>, g: string)
    ensures g in Gifts(rows) <==> exists r :: r in rows && r.gift == g
  {
    if g in Gifts(rows) {
      var i :| 0 <= i < |rows| && Gifts(rows)[i] == g;
      assert rows[i] in rows;
    }
    if r :| r in rows && r.gift == g {
      var i :| 0 <= i < |rows| && rows[i] == r;
      assert Gifts(rows)[i] == g;
    }
  }

  /** The result of `load_data`: the validated relation and the character and gift universes. */
  datatype Tables = Tables(rows: seq<Row>, characters: seq<string>, gifts: set<string>)

  predicate HasValidEffect(r: RawRow) {
    ParseEffect(r.effect).Some?
  }

  /** The rows whose effect is one of the three tiers, with the effect parsed (app.py:54-58). */
  function ValidRows(raw: seq<RawRow>): (rows: seq<Row>)
    ensures |rows| <= |raw|
  {
    if raw == [] then []
    else
      match ParseEffect(raw[0].effect)
      case Some(e) => [Row(raw[0].character, raw[0].gift, e)] + ValidRows(raw[1..])
      case None => ValidRows(raw[1..])
  }

  /**
   * The validated relation is exactly the parsed rows with a valid effect, in
   * order: writing its rows back gives the filtered input (app.py:55).
   */
  lemma {:induction false} ValidRowsExact(raw: seq<RawRow>)
    ensures MapSeq(ValidRows(raw), Unparse) == Filter(raw, HasValidEffect)
  {
    if raw != [] {
      ValidRowsExact(raw[1..]);
      match ParseEffect(raw[0].effect)
      case Some(e) =>
        ParseEffectName(e, raw[0].effect);
        var rows := ValidRows(raw);
        assert rows[1..] == ValidRows(raw[1..]);
        assert MapSeq(rows, Unparse)[1..] == MapSeq(ValidRows(raw[1..]), Unparse);
      case None =>
    }
  }

  /** Each name once (pandas `unique`); the order is left open, since app.py:51 sorts the result. */
  function FirstOccurrences(s: seq<string>): (r: seq<string>)
    ensures forall x :: x in r <==> x in s
    ensures Distinct(r)
  {
    if s == [] then []
    else
      var t := FirstOccurrences(s[..|s| - 1]);
      assert s == s[..|s| - 1] + [s[|s| - 1]];
      if s[|s| - 1] in t then t else t + [s[|s| - 1]]
  }

  predicate NamedCharacter(r: RawRow) {
    r.character != ""
  }

  function CharacterOf(r: RawRow): string {
    r.character
  }

  /**
   * `load_data` on already parsed and stripped rows (app.py:51-58): the sorted
   * distinct non-empty character names, the non-empty gift names of every row
   * (before the effect filter), and the rows with a valid effect.
   */
  function LoadData(raw: seq<RawRow>): (t: Tables)
    ensures forall c :: c in t.characters <==> c != "" && exists r :: r in raw && r.character == c
    ensures Distinct(t.characters) && Sorted(t.characters, Codes)
    ensures forall g :: g in t.gifts <==> g != "" && exists r :: r in raw && r.gift == g
    ensures MapSeq(t.rows, Unparse) == Filter(raw, HasValidEffect)
  {
    var named := MapSeq(Filter(raw, NamedCharacter), CharacterOf);
    var distinct := FirstOccurrences(named);
    var characters := SortBy(distinct, Codes);
    assert forall c :: c in named <==> c != "" && exists r :: r in raw && r.character == c by {
      forall c ensures c in named <==> c != "" && exists r :: r in raw && r.character == c {
        var f := Filter(raw, NamedCharacter);
        if c in named {
          var i :| 0 <= i < |named| && named[i] == c;
          assert f[i] in f;
        }
        if c != "" && exists r :: r in raw && r.character == c {
          var r :| r in raw && r.character == c;
          assert r in f;
          var i :| 0 <= i < |f| && f[i] == r;
          assert named[i] == c;
        }
      }
    }
    assert forall c :: c in characters <==> c in distinct by {
      forall c ensures c in characters <==> c in distinct {
        assert c in characters <==> c in multiset(characters);
      }
    }
    ValidRowsExact(raw);
    Tables(ValidRows(raw), characters, set r | r in raw && r.gift != "" :: r.gift)
  }

  /**
   * The gift universe keeps gifts whose only rows are dropped for an invalid
   * effect, and the relation keeps no row of the dropped kind (app.py:52-55).
   */
  lemma UniverseIncludesDroppedRows(raw: seq<RawRow>, r: RawRow)
    requires r in raw && r.gift != ""
    ensures r.gift in LoadData(raw).gifts
    ensures !HasValidEffect(r) ==> r !in MapSeq(LoadData(raw).rows, Unparse)
  {
  }

  /** The names in `LoadData(raw).characters` rise strictly (app.py:51: sorted and unique). */
  lemma CharactersStrictlyIncreasing(raw: seq<RawRow>, i: int, j: int)
    requires 0 <= i < j < |LoadData(raw).characters|
    ensures StrLe(LoadData(raw).characters[i], LoadData(raw).characters[j])
    ensures LoadData(raw).characters[i] != LoadData(raw).characters[j]
  {
    DistinctAt(LoadData(raw).characters, i, j);
  }

  /** The rarity of a gift; a gift missing from the lookup has rarity 0 (app.py:32, 99, 273). */
  function Rarity(rarity: map<string, int>, g: string): (n: int)
    ensures g !in rarity ==> n == 0
    ensures g in rarity ==> n == rarity[g]
  {
    if g in rarity then rarity[g] else 0
  }

  /** The rare tier test of `get_rarity_border_style` and the useless-gift split (app.py:33, 273-274). */
  predicate IsRare(rarity: map<string, int>, g: string) {
    Rarity(rarity, g) == 1
  }

  lemma IsRareExact(rarity: map<string, int>, g: string)
    ensures IsRare(rarity, g) <==> g in rarity && rarity[g] == 1
  {
  }
}
