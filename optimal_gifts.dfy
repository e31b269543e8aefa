/**
 * `get_optimal_gifts_per_character` (app.py:80-121).
 *
 * For the selected characters' rows, every gift keeps only the rows at its
 * peak effect; the number of distinct characters left for a gift is its
 * competition. Each selected character's surviving gifts are split into
 * `unique` (competition 1) and `shared` (competition above 1), each sorted by
 * its own key.
 *
 * The first half of the module follows the code step by step; the second half
 * states declaratively what a character's lists must be (`BucketsSpec`) and
 * proves what the lists then mean.
 */
module OptimalGifts {
  import opened Order
  import opened Seqs
  import opened Sorting
  import opened Catalog
  import opened BestGifts

  /** One character's entry: `{'unique': [...], 'shared': [...]}` (app.py:114-117, 119). */
  datatype Buckets = Buckets(unique: seq<string>, shared: seq<string>)

  // ---------------------------------------------------------------------------
  // The computation as app.py:84-119 performs it
  // ---------------------------------------------------------------------------

  /**
   * The highest effect rank among the rows of `f` for gift `g`, or -1 when `f`
   * has no row for `g`: `x.max()` of the gift's group (app.py:88).
   */
  function PeakRank(f: seq<Row>, g: string): (m: int)
    ensures -1 <= m < 3
    ensures forall r :: r in f && r.gift == g ==> Rank(r.effect) <= m
    ensures m >= 0 ==> exists r :: r in f && r.gift == g && Rank(r.effect) == m
  {
    if f == [] then -1
    else
      assert f == [f[0]] + f[1..];
      var rest := PeakRank(f[1..], g);
      if f[0].gift == g && Rank(f[0].effect) > rest then Rank(f[0].effect) else rest
  }

  /** The row test `x == x.max()` within the row's gift group (app.py:88). */
  function IsPeakRow(f: seq<Row>): Row -> bool {
    (r: Row) => Rank(r.effect) == PeakRank(f, r.gift)
  }

  /** `best_use_df`: the rows of `f` at their gift's peak effect (app.py:88-89). */
  function BestUse(f: seq<Row>): seq<Row> {
    Filter(f, IsPeakRow(f))
  }

  /** The characters with a row for `g` in `best`; their number is `nunique` (app.py:91). */
  function CharactersFor(best: seq<Row>, g: string): set<string> {
    set r | r in best && r.gift == g :: r.character
  }

  /** A row of `char_gifts_df` with its `competition` and `rarity` columns (app.py:92, 99). */
  datatype Candidate = Candidate(gift: string, effect: Effect, competition: nat, rarity: int)

  function ToCandidate(best: seq<Row>, rarity: map<string, int>): Row -> Candidate {
    (r: Row) => Candidate(r.gift, r.effect, |CharactersFor(best, r.gift)|, Rarity(rarity, r.gift))
  }

  function OfCharacter(c: string): Row -> bool {
    (r: Row) => r.character == c
  }

  /** `char_gifts_df`: the best-use rows of character `c` with the added columns (app.py:96, 99). */
  function CharacterTable(best: seq<Row>, c: string, rarity: map<string, int>): seq<Candidate> {
    MapSeq(Filter(best, OfCharacter(c)), ToCandidate(best, rarity))
  }

  /** `competition == 1` (app.py:101). */
  predicate IsUniqueCandidate(x: Candidate) {
    x.competition == 1
  }

  /** `competition > 1` (app.py:102). */
  predicate IsSharedCandidate(x: Candidate) {
    x.competition > 1
  }

  /** The `unique` sort: rarity descending, effect descending, gift ascending (app.py:104-107). */
  function UniqueCandidateKey(x: Candidate): seq<int> {
    [-x.rarity, -(Rank(x.effect) as int)] + Codes(x.gift)
  }

  /** The `shared` sort: rarity descending, competition ascending, effect descending, gift ascending (app.py:109-112). */
  function SharedCandidateKey(x: Candidate): seq<int> {
    [-x.rarity, x.competition as int, -(Rank(x.effect) as int)] + Codes(x.gift)
  }

  function CandidateGift(x: Candidate): string {
    x.gift
  }

  /** The gift column of the sorted `unique` part of a character's table (app.py:101, 104-107, 115). */
  function UniqueList(table: seq<Candidate>): seq<string> {
    MapSeq(SortBy(Filter(table, IsUniqueCandidate), UniqueCandidateKey), CandidateGift)
  }

  /** The gift column of the sorted `shared` part of a character's table (app.py:102, 109-112, 116). */
  function SharedList(table: seq<Candidate>): seq<string> {
    MapSeq(SortBy(Filter(table, IsSharedCandidate), SharedCandidateKey), CandidateGift)
  }

  // ---------------------------------------------------------------------------
  // What a character's lists must be
  // ---------------------------------------------------------------------------

  /** No selected row reaches a higher effect for the same gift than `r` does. */
  predicate AtPeak(f: seq<Row>, r: Row) {
    forall s :: s in f && s.gift == r.gift ==> Rank(s.effect) <= Rank(r.effect)
  }

  /** The characters that reach the peak effect for gift `g`. */
  function Contenders(f: seq<Row>, g: string): set<string> {
    set r | r in f && r.gift == g && AtPeak(f, r) :: r.character
  }

  /** The competition for gift `g`: how many distinct characters reach its peak. */
  function Competition(f: seq<Row>, g: string): nat {
    |Contenders(f, g)|
  }

  /** Character `c` has a row that reaches the peak effect for gift `g`. */
  predicate HasPeakRow(f: seq<Row>, c: string, g: string) {
    exists r :: r in f && r.character == c && r.gift == g && AtPeak(f, r)
  }

  function IsUniquePeakRowOf(f: seq<Row>, c: string): Row -> bool {
    (r: Row) => r.character == c && AtPeak(f, r) && Competition(f, r.gift) == 1
  }

  function IsSharedPeakRowOf(f: seq<Row>, c: string): Row -> bool {
    (r: Row) => r.character == c && AtPeak(f, r) && Competition(f, r.gift) > 1
  }

  /** The rows of `c` at their gift's peak, for gifts nobody else reaches the peak of. */
  function UniquePeakRows(f: seq<Row>, c: string): seq<Row> {
    Filter(f, IsUniquePeakRowOf(f, c))
  }

  /** The rows of `c` at their gift's peak, for gifts other characters reach the peak of too. */
  function SharedPeakRows(f: seq<Row>, c: string): seq<Row> {
    Filter(f, IsSharedPeakRowOf(f, c))
  }

  /** The `unique` order on gift names: rarity descending, peak effect descending, name ascending. */
  function UniqueOrder(f: seq<Row>, rarity: map<string, int>): string -> seq<int> {
    (g: string) => [-Rarity(rarity, g), -PeakRank(f, g)] + Codes(g)
  }

  /** The `shared` order on gift names: rarity descending, competition ascending, peak effect descending, name ascending. */
  function SharedOrder(f: seq<Row>, rarity: map<string, int>): string -> seq<int> {
    (g: string) => [-Rarity(rarity, g), Competition(f, g) as int, -PeakRank(f, g)] + Codes(g)
  }

  /**
   * The entry of character `c` for the selected rows `f`: `unique` holds the
   * gifts of c's exclusive peak rows and `shared` those of c's shared
   * peak rows, each gift as often as such a row occurs, in their orders.
   */
  predicate BucketsSpec(f: seq<Row>, rarity: map<string, int>, c: string, b: Buckets) {
    && multiset(b.unique) == multiset(Gifts(UniquePeakRows(f, c)))
    && Sorted(b.unique, UniqueOrder(f, rarity))
    && multiset(b.shared) == multiset(Gifts(SharedPeakRows(f, c)))
    && Sorted(b.shared, SharedOrder(f, rarity))
  }

  // ---------------------------------------------------------------------------
  // The computation meets the specification
  // ---------------------------------------------------------------------------

  /** The `x == x.max()` test picks exactly the rows at their gift's peak. */
  lemma PeakRowExact(f: seq<Row>, r: Row)
    requires r in f
    ensures IsPeakRow(f)(r) <==> AtPeak(f, r)
  {
    var m := PeakRank(f, r.gift);
    if AtPeak(f, r) {
      var s :| s in f && s.gift == r.gift && Rank(s.effect) == m;
    }
  }

  /** `nunique` over the best-use rows counts exactly the contenders (app.py:91). */
  lemma BestUseCharacters(f: seq<Row>, g: string)
    ensures CharactersFor(BestUse(f), g) == Contenders(f, g)
  {
    var best := BestUse(f);
    forall x | x in CharactersFor(best, g) ensures x in Contenders(f, g) {
      var r :| r in best && r.gift == g && r.character == x;
      PeakRowExact(f, r);
    }
    forall x | x in Contenders(f, g) ensures x in CharactersFor(best, g) {
      var r :| r in f && r.gift == g && AtPeak(f, r) && r.character == x;
      PeakRowExact(f, r);
      assert r in best;
    }
  }

  /** The candidates of one kind are the chosen rows of `f`, with their columns. */
  lemma {:induction false} CandidatesAreRows(f: seq<Row>, c: string, rarity: map<string, int>,
                                             isKind: Candidate -> bool, spec: Row -> bool, wanted: nat -> bool)
    requires forall x :: isKind(x) == wanted(x.competition)
    requires forall r :: r in f ==> spec(r) == (r.character == c && AtPeak(f, r) && wanted(Competition(f, r.gift)))
    ensures Filter(CharacterTable(BestUse(f), c, rarity), isKind) == MapSeq(Filter(f, spec), ToCandidate(BestUse(f), rarity))
  {
    var best := BestUse(f);
    var tc := ToCandidate(best, rarity);
    var byKind := (r: Row) => wanted(|CharactersFor(best, r.gift)|);
    var ofC := (r: Row) => r.character == c && wanted(|CharactersFor(best, r.gift)|);
    var all := (r: Row) => IsPeakRow(f)(r) && r.character == c && wanted(|CharactersFor(best, r.gift)|);
    FilterMap(Filter(best, OfCharacter(c)), tc, isKind, byKind);
    FilterConj(best, OfCharacter(c), byKind, ofC);
    FilterConj(f, IsPeakRow(f), ofC, all);
    forall r | r in f ensures all(r) == spec(r) {
      PeakRowExact(f, r);
      BestUseCharacters(f, r.gift);
    }
    FilterSame(f, all, spec);
  }

  /** A candidate built from a peak row carries its gift's rarity and peak effect. */
  lemma CandidateRarityAndPeak(f: seq<Row>, rarity: map<string, int>, r: Row)
    requires r in f && AtPeak(f, r)
    ensures ToCandidate(BestUse(f), rarity)(r).rarity == Rarity(rarity, r.gift)
    ensures Rank(ToCandidate(BestUse(f), rarity)(r).effect) as int == PeakRank(f, r.gift)
  {
    PeakRowExact(f, r);
  }

  /** A candidate built from a row carries its gift's competition. */
  lemma CandidateCompetition(f: seq<Row>, rarity: map<string, int>, r: Row)
    ensures ToCandidate(BestUse(f), rarity)(r).competition == Competition(f, r.gift)
  {
    BestUseCharacters(f, r.gift);
  }

  /** The keys of a candidate, from its columns. */
  lemma CandidateKeysOf(x: Candidate, g: string, ra: int, co: int, pk: int)
    requires x.gift == g && x.rarity == ra && x.competition as int == co && Rank(x.effect) as int == pk
    ensures UniqueCandidateKey(x) == [-ra, -pk] + Codes(g)
    ensures SharedCandidateKey(x) == [-ra, co, -pk] + Codes(g)
  {
  }

  /** A candidate built from a peak row has the keys its gift has in the two orders. */
  lemma KeysAgree(f: seq<Row>, rarity: map<string, int>, r: Row)
    requires r in f && AtPeak(f, r)
    ensures UniqueCandidateKey(ToCandidate(BestUse(f), rarity)(r)) == UniqueOrder(f, rarity)(r.gift)
    ensures SharedCandidateKey(ToCandidate(BestUse(f), rarity)(r)) == SharedOrder(f, rarity)(r.gift)
  {
    // The gift's keys are fixed first, while the context holds nothing about candidates.
    var ra, co, pk := Rarity(rarity, r.gift), Competition(f, r.gift) as int, PeakRank(f, r.gift);
    assert UniqueOrder(f, rarity)(r.gift) == [-ra, -pk] + Codes(r.gift);
    assert SharedOrder(f, rarity)(r.gift) == [-ra, co, -pk] + Codes(r.gift);
    CandidateRarityAndPeak(f, rarity, r);
    CandidateCompetition(f, rarity, r);
    CandidateKeysOf(ToCandidate(BestUse(f), rarity)(r), r.gift, ra, co, pk);
  }

  /** The computed `unique` list is c's exclusive peak gifts in the `unique` order. */
  lemma UniqueListMeetsSpec(f: seq<Row>, c: string, rarity: map<string, int>)
    ensures UniqueList(CharacterTable(BestUse(f), c, rarity))
            == SortBy(Gifts(UniquePeakRows(f, c)), UniqueOrder(f, rarity))
  {
    var tc := ToCandidate(BestUse(f), rarity);
    var rows := UniquePeakRows(f, c);
    CandidatesAreRows(f, c, rarity, IsUniqueCandidate, IsUniquePeakRowOf(f, c), (n: nat) => n == 1);
    var u := MapSeq(rows, tc);
    forall y | y in u ensures UniqueCandidateKey(y) == UniqueOrder(f, rarity)(CandidateGift(y)) {
      var i :| 0 <= i < |u| && u[i] == y;
      assert rows[i] in rows && IsUniquePeakRowOf(f, c)(rows[i]);
      KeysAgree(f, rarity, rows[i]);
    }
    SortByMap(u, CandidateGift, UniqueCandidateKey, UniqueOrder(f, rarity));
    forall r | r in rows ensures GiftOf(r) == CandidateGift(tc(r)) {
    }
    MapMap(rows, tc, CandidateGift, GiftOf);
  }

  /** The computed `shared` list is c's shared peak gifts in the `shared` order. */
  lemma SharedListMeetsSpec(f: seq<Row>, c: string, rarity: map<string, int>)
    ensures SharedList(CharacterTable(BestUse(f), c, rarity))
            == SortBy(Gifts(SharedPeakRows(f, c)), SharedOrder(f, rarity))
  {
    var tc := ToCandidate(BestUse(f), rarity);
    var rows := SharedPeakRows(f, c);
    CandidatesAreRows(f, c, rarity, IsSharedCandidate, IsSharedPeakRowOf(f, c), (n: nat) => n > 1);
    var u := MapSeq(rows, tc);
    forall y | y in u ensures SharedCandidateKey(y) == SharedOrder(f, rarity)(CandidateGift(y)) {
      var i :| 0 <= i < |u| && u[i] == y;
      assert rows[i] in rows && IsSharedPeakRowOf(f, c)(rows[i]);
      KeysAgree(f, rarity, rows[i]);
    }
    SortByMap(u, CandidateGift, SharedCandidateKey, SharedOrder(f, rarity));
    forall r | r in rows ensures GiftOf(r) == CandidateGift(tc(r)) {
    }
    MapMap(rows, tc, CandidateGift, GiftOf);
  }

  /** The entry the loop body stores for `c`, on either branch, meets `BucketsSpec` (app.py:96-119). */
  lemma EntryMeetsSpec(f: seq<Row>, c: string, rarity: map<string, int>, table: seq<Candidate>, b: Buckets)
    requires table == CharacterTable(BestUse(f), c, rarity)
    requires b == if table != [] then Buckets(UniqueList(table), SharedList(table)) else Buckets([], [])
    ensures BucketsSpec(f, rarity, c, b)
  {
    UniqueListMeetsSpec(f, c, rarity);
    SharedListMeetsSpec(f, c, rarity);
    if table == [] {
      assert Filter(table, IsUniqueCandidate) == [] && Filter(table, IsSharedCandidate) == [];
      assert UniqueList(table) == [] && SharedList(table) == [];
    }
  }

  /** With no selected rows every character's entry is empty (app.py:84-85, 96-98, 118-119). */
  lemma NoRowsNoGifts(f: seq<Row>, rarity: map<string, int>, c: string)
    requires f == []
    ensures BucketsSpec(f, rarity, c, Buckets([], []))
  {
    assert UniquePeakRows(f, c) == [] && SharedPeakRows(f, c) == [];
  }

  /**
   * `get_optimal_gifts_per_character` (app.py:80-121): no entries for an empty
   * relation or selection; otherwise exactly one entry per selected character,
   * each meeting `BucketsSpec` for the selected rows.
   */
  method OptimalGiftsPerCharacter(rows: seq<Row>, selected: seq<string>, rarity: map<string, int>)
    returns (result: map<string, Buckets>)
    ensures rows == [] || selected == [] ==> result == map[]
    ensures rows != [] && selected != [] ==> result.Keys == set c | c in selected
    ensures forall c :: c in result ==> BucketsSpec(SelectRows(rows, selected), rarity, c, result[c])
  {
    if rows == [] || selected == [] {
      return map[];
    }
    var f := SelectRows(rows, selected);
    if f == [] {
      result := map c | c in selected :: Buckets([], []);
      forall c | c in result ensures BucketsSpec(f, rarity, c, result[c]) {
        NoRowsNoGifts(f, rarity, c);
      }
      return;
    }
    result := CharacterEntries(f, selected, rarity);
  }

  lemma PrefixNamesGrow(s: seq<string>, i: int)
    requires 0 <= i < |s|
    ensures s[..i + 1] == s[..i] + [s[i]]
  {
  }

  lemma PrefixNamesAll(s: seq<string>)
    ensures s[..|s|] == s
  {
  }

  /** The loop over the selected characters (app.py:94-121), for the non-empty selected rows `f`. */
  method CharacterEntries(f: seq<Row>, selected: seq<string>, rarity: map<string, int>)
    returns (result: map<string, Buckets>)
    ensures result.Keys == set c | c in selected
    ensures forall c :: c in result ==> BucketsSpec(f, rarity, c, result[c])
  {
    var best := BestUse(f);
    result := map[];
    for i := 0 to |selected|
      invariant result.Keys == set c | c in selected[..i]
      invariant forall c :: c in result ==> BucketsSpec(f, rarity, c, result[c])
    {
      var c := selected[i];
      PrefixNamesGrow(selected, i);
      var table := CharacterTable(best, c, rarity);
      var entry;
      if table != [] {
        entry := Buckets(UniqueList(table), SharedList(table));
      } else {
        entry := Buckets([], []);
      }
      EntryMeetsSpec(f, c, rarity, table, entry);
      result := result[c := entry];
    }
    PrefixNamesAll(selected);
  }

  // ---------------------------------------------------------------------------
  // What the lists mean
  // ---------------------------------------------------------------------------

  /** A gift is in c's `unique` list exactly when c reaches its peak and nobody else does. */
  lemma UniqueMembership(f: seq<Row>, rarity: map<string, int>, c: string, b: Buckets, g: string)
    requires BucketsSpec(f, rarity, c, b)
    ensures g in b.unique <==> HasPeakRow(f, c, g) && Competition(f, g) == 1
  {
    var rows := UniquePeakRows(f, c);
    assert g in b.unique <==> g in multiset(Gifts(rows));
    GiftsMembership(rows, g);
  }

  /** A gift is in c's `shared` list exactly when c and at least one other character reach its peak. */
  lemma SharedMembership(f: seq<Row>, rarity: map<string, int>, c: string, b: Buckets, g: string)
    requires BucketsSpec(f, rarity, c, b)
    ensures g in b.shared <==> HasPeakRow(f, c, g) && Competition(f, g) > 1
  {
    var rows := SharedPeakRows(f, c);
    assert g in b.shared <==> g in multiset(Gifts(rows));
    GiftsMembership(rows, g);
  }

  /** No gift is both unique and shared for a character. */
  lemma BucketsDisjoint(f: seq<Row>, rarity: map<string, int>, c: string, b: Buckets, g: string)
    requires BucketsSpec(f, rarity, c, b)
    ensures !(g in b.unique && g in b.shared)
  {
    UniqueMembership(f, rarity, c, b, g);
    SharedMembership(f, rarity, c, b, g);
  }

  /** Every gift c reaches the peak of is listed for c, in one of the two lists. */
  lemma PeakGiftsListed(f: seq<Row>, rarity: map<string, int>, c: string, b: Buckets, g: string)
    requires BucketsSpec(f, rarity, c, b)
    requires HasPeakRow(f, c, g)
    ensures g in b.unique || g in b.shared
  {
    var r :| r in f && r.character == c && r.gift == g && AtPeak(f, r);
    assert c in Contenders(f, g);
    UniqueMembership(f, rarity, c, b, g);
    SharedMembership(f, rarity, c, b, g);
  }

  /** Two characters that both reach a gift's peak make it shared. */
  lemma TwoContenders(f: seq<Row>, g: string, c: string, d: string)
    requires c != d
    ensures HasPeakRow(f, c, g) && HasPeakRow(f, d, g) ==> Competition(f, g) >= 2
  {
    if HasPeakRow(f, c, g) && HasPeakRow(f, d, g) {
      var rc :| rc in f && rc.character == c && rc.gift == g && AtPeak(f, rc);
      var rd :| rd in f && rd.character == d && rd.gift == g && AtPeak(f, rd);
      var k := Contenders(f, g);
      assert c in k && d in k;
      assert d in k - {c};
      assert |k - {c}| >= 1;
      assert k == (k - {c}) + {c};
    }
  }

  /** A character's unique gift is listed for no other character. */
  lemma UniqueGiftIsExclusive(f: seq<Row>, rarity: map<string, int>, c: string, bc: Buckets,
                              d: string, bd: Buckets, g: string)
    requires BucketsSpec(f, rarity, c, bc) && BucketsSpec(f, rarity, d, bd)
    requires c != d && g in bc.unique
    ensures g !in bd.unique && g !in bd.shared
  {
    TwoContenders(f, g, c, d);
    UniqueMembership(f, rarity, c, bc, g);
    UniqueMembership(f, rarity, d, bd, g);
    SharedMembership(f, rarity, d, bd, g);
  }

  /** A shared gift is in the `shared` list of every character that reaches its peak. */
  lemma SharedGiftListedForEveryContender(f: seq<Row>, rarity: map<string, int>, c: string, bc: Buckets,
                                           d: string, bd: Buckets, g: string)
    requires BucketsSpec(f, rarity, c, bc) && BucketsSpec(f, rarity, d, bd)
    requires g in bc.shared && d in Contenders(f, g)
    ensures g in bd.shared
  {
    SharedMembership(f, rarity, c, bc, g);
    SharedMembership(f, rarity, d, bd, g);
    var r :| r in f && r.gift == g && AtPeak(f, r) && r.character == d;
  }

  /** A contender has a row at the gift's peak. */
  lemma ContenderHasPeakRow(f: seq<Row>, g: string, x: string)
    requires x in Contenders(f, g)
    ensures HasPeakRow(f, x, g)
  {
    var r :| r in f && r.gift == g && AtPeak(f, r) && r.character == x;
  }

  /** The only member of a one-element set. */
  lemma OnlyContender(k: set<string>, c: string)
    requires c in k && |k| == 1
    ensures k == {c}
  {
    var rest := k - {c};
    assert k == rest + {c};
  }

  /** A set made of two different names has two members. */
  lemma PairOfContenders(k: set<string>, c: string, d: string)
    requires k == {c} + {d} && c != d
    ensures |k| == 2 && c in k && d in k
  {
  }

  /** Adding a character to the selection adds exactly that character's rows. */
  lemma SelectJoin(rows: seq<Row>, selected: seq<string>, d: string)
    ensures forall r :: r in SelectRows(rows, selected + [d]) <==>
                        r in SelectRows(rows, selected) || (r in rows && r.character == d)
  {
    assert forall x :: x in selected + [d] <==> x in selected || x == d;
  }

  /**
   * When the rows `f2` are the rows `f` plus the rows of `d`, and `d` reaches
   * the peak `f` has for `g` but does not pass it, the contenders for `g` are
   * those of `f` and `d`.
   */
  lemma ContendersAfterJoin(f: seq<Row>, f2: seq<Row>, rows: seq<Row>, g: string, d: string, rd: Row)
    requires forall r :: r in f2 <==> r in f || (r in rows && r.character == d)
    requires PeakRank(f, g) >= 0
    requires rd in rows && rd.character == d && rd.gift == g && Rank(rd.effect) == PeakRank(f, g)
    requires forall r :: r in rows && r.character == d && r.gift == g ==> Rank(r.effect) <= PeakRank(f, g)
    ensures Contenders(f2, g) == Contenders(f, g) + {d}
  {
    var m := PeakRank(f, g);
    assert below: forall r :: r in f2 && r.gift == g ==> Rank(r.effect) <= m;
    var w :| w in f && w.gift == g && Rank(w.effect) == m;
    assert w in f2;
    forall x | x in Contenders(f2, g) ensures x in Contenders(f, g) + {d} {
      var r :| r in f2 && r.gift == g && AtPeak(f2, r) && r.character == x;
      if r in f {
        assert Rank(w.effect) <= Rank(r.effect);
        assert AtPeak(f, r);
      }
    }
    forall x | x in Contenders(f, g) + {d} ensures x in Contenders(f2, g) {
      if x == d {
        assert rd in f2 && AtPeak(f2, rd);
      } else {
        var r :| r in f && r.gift == g && AtPeak(f, r) && r.character == x;
        assert Rank(w.effect) <= Rank(r.effect);
        assert r in f2 && AtPeak(f2, r);
      }
    }
  }

  /**
   * A unique gift becomes shared when a second character who reaches its peak
   * joins the selection: `c`'s gift `g` leaves `c`'s `unique` list and is in
   * the `shared` lists of both `c` and `d`, with competition 2.
   */
  lemma JoiningContenderSharesGift(rows: seq<Row>, selected: seq<string>, rarity: map<string, int>,
                                   c: string, bc: Buckets, d: string, g: string, bc2: Buckets, bd2: Buckets)
    requires c in selected && d !in selected
    requires BucketsSpec(SelectRows(rows, selected), rarity, c, bc) && g in bc.unique
    requires exists r :: r in rows && r.character == d && r.gift == g
                         && Rank(r.effect) == PeakRank(SelectRows(rows, selected), g)
    requires forall r :: r in rows && r.character == d && r.gift == g
                         ==> Rank(r.effect) <= PeakRank(SelectRows(rows, selected), g)
    requires BucketsSpec(SelectRows(rows, selected + [d]), rarity, c, bc2)
    requires BucketsSpec(SelectRows(rows, selected + [d]), rarity, d, bd2)
    ensures Competition(SelectRows(rows, selected + [d]), g) == 2
    ensures g !in bc2.unique && g in bc2.shared && g in bd2.shared
  {
    var f, f2 := SelectRows(rows, selected), SelectRows(rows, selected + [d]);
    UniqueMembership(f, rarity, c, bc, g);
    var rc :| rc in f && rc.character == c && rc.gift == g && AtPeak(f, rc);
    assert c in Contenders(f, g);
    OnlyContender(Contenders(f, g), c);
    var rd :| rd in rows && rd.character == d && rd.gift == g && Rank(rd.effect) == PeakRank(f, g);
    SelectJoin(rows, selected, d);
    ContendersAfterJoin(f, f2, rows, g, d, rd);
    assert c != d;
    PairOfContenders(Contenders(f2, g), c, d);
    ContenderHasPeakRow(f2, g, c);
    ContenderHasPeakRow(f2, g, d);
    SharedMembership(f2, rarity, c, bc2, g);
    SharedMembership(f2, rarity, d, bd2, g);
    BucketsDisjoint(f2, rarity, c, bc2, g);
  }

  /** The name orders tell different gifts apart: only equal names have equal keys. */
  lemma OrdersSeparateNames(f: seq<Row>, rarity: map<string, int>, x: string, y: string)
    ensures UniqueOrder(f, rarity)(x) == UniqueOrder(f, rarity)(y) ==> x == y
    ensures SharedOrder(f, rarity)(x) == SharedOrder(f, rarity)(y) ==> x == y
  {
    var ux, uy := UniqueOrder(f, rarity)(x), UniqueOrder(f, rarity)(y);
    if ux == uy {
      assert ux[2..] == Codes(x) && uy[2..] == Codes(y);
      CodesInjective(x, y);
    }
    var sx, sy := SharedOrder(f, rarity)(x), SharedOrder(f, rarity)(y);
    if sx == sy {
      assert sx[3..] == Codes(x) && sy[3..] == Codes(y);
      CodesInjective(x, y);
    }
  }

  /** `BucketsSpec` leaves no freedom: it fixes both lists, order included. */
  lemma BucketsDetermined(f: seq<Row>, rarity: map<string, int>, c: string, b1: Buckets, b2: Buckets)
    requires BucketsSpec(f, rarity, c, b1) && BucketsSpec(f, rarity, c, b2)
    ensures b1 == b2
  {
    forall x, y | x in b1.unique && y in b1.unique && UniqueOrder(f, rarity)(x) == UniqueOrder(f, rarity)(y)
      ensures x == y
    {
      OrdersSeparateNames(f, rarity, x, y);
    }
    forall x, y | x in b1.shared && y in b1.shared && SharedOrder(f, rarity)(x) == SharedOrder(f, rarity)(y)
      ensures x == y
    {
      OrdersSeparateNames(f, rarity, x, y);
    }
    SortedPermutationsEqual(b1.unique, b2.unique, UniqueOrder(f, rarity));
    SortedPermutationsEqual(b1.shared, b2.shared, SharedOrder(f, rarity));
  }

  /** The rows (A, X, 大), (B, X, 特大) and (A, Y, 中). */
  function ScenarioRows(): seq<Row> {
    [Row("A", "X", Large), Row("B", "X", Huge), Row("A", "Y", Medium)]
  }

  lemma ScenarioPeaks()
    ensures !AtPeak(ScenarioRows(), ScenarioRows()[0])
    ensures AtPeak(ScenarioRows(), ScenarioRows()[1]) && AtPeak(ScenarioRows(), ScenarioRows()[2])
    ensures Contenders(ScenarioRows(), "X") == {"B"} && Contenders(ScenarioRows(), "Y") == {"A"}
  {
    var f := ScenarioRows();
    assert f[1] in f;
    assert forall r :: r in f <==> r == f[0] || r == f[1] || r == f[2];
    assert f[1] in f && f[2] in f;
  }

  lemma ScenarioFilter(p: Row -> bool, keep: Row)
    requires keep == ScenarioRows()[1] || keep == ScenarioRows()[2]
    requires forall r :: r in ScenarioRows() ==> (p(r) <==> r == keep)
    ensures Filter(ScenarioRows(), p) == [keep]
  {
    var f := ScenarioRows();
    assert f[0] in f && f[1] in f && f[2] in f;
    assert f[1..] == [f[1], f[2]] && f[1..][1..] == [f[2]] && f[1..][1..][1..] == [];
  }

  lemma ScenarioPeakRows()
    ensures UniquePeakRows(ScenarioRows(), "A") == [ScenarioRows()[2]]
    ensures UniquePeakRows(ScenarioRows(), "B") == [ScenarioRows()[1]]
    ensures SharedPeakRows(ScenarioRows(), "A") == [] && SharedPeakRows(ScenarioRows(), "B") == []
  {
    var f := ScenarioRows();
    ScenarioPeaks();
    assert forall r :: r in f <==> r == f[0] || r == f[1] || r == f[2];
    ScenarioFilter(IsUniquePeakRowOf(f, "A"), f[2]);
    ScenarioFilter(IsUniquePeakRowOf(f, "B"), f[1]);
    FilterNone(f, IsSharedPeakRowOf(f, "A"));
    FilterNone(f, IsSharedPeakRowOf(f, "B"));
  }

  /**
   * A lower effect loses the gift: with rows (A, X, 大), (B, X, 特大) and
   * (A, Y, 中) selected, X is B's alone and A keeps only Y.
   */
  lemma PeakScenario(bA: Buckets, bB: Buckets)
    requires BucketsSpec(ScenarioRows(), map[], "A", bA)
    requires BucketsSpec(ScenarioRows(), map[], "B", bB)
    ensures bA == Buckets(["Y"], []) && bB == Buckets(["X"], [])
  {
    var f := ScenarioRows();
    ScenarioPeakRows();
    assert Gifts([f[2]]) == ["Y"] && Gifts([f[1]]) == ["X"];
    SingletonList(bA.unique, "Y");
    SingletonList(bB.unique, "X");
  }

  lemma SingletonList(s: seq<string>, x: string)
    requires multiset(s) == multiset{x}
    ensures s == [x]
  {
    assert |s| == 1;
    assert s[0] in multiset(s);
  }
}
