/**
  The aura-rolling game (rng-game/main.js): a fixed table of auras, each found
  "1 in prob", the bookkeeping of a roll, and a shop that trades coins for
  items. Which aura a roll finds (a draw weighted by `1000 / prob`) is an input.
 */
module RngGame {

  import opened Wrappers

  datatype Aura = Aura(name: string, prob: int)

  /** The names in `auras`, in table order. */
  const Names: seq<string> := [
    "common", "uncommon", "nice", "good", "yellow",
    "blue", "pink", "rare", "amazing", "bronze",
    "creative", "THE GREATEST (mutated)great", "even", "well", "invisible",
    "devil", "nonexistent", "jackpot", "extra", "ODD (mutated)even",
    "pixel", "green", "perfect", "failure", "Super Rare (Mutated) Rare"
  ]

  /** The `prob` of each aura, in the same order. */
  const Probs: seq<int> := [
    2, 4, 5, 7, 10, 16, 27, 35, 50,
    99, 100, 170, 200, 450, 600, 666, 700, 777,
    800, 801, 998, 999, 999, 999, 1000
  ]

  /**
    A string's length and first character. The names differ already in these,
    which is how `AurasWellFormed` proves the names distinct.
   */
  function Key(s: string): int {
    if |s| == 0 then 0 else |s| * 256 + s[0] as int
  }

  const Keys: seq<int> := [
    1635, 2165, 1134, 1127, 1657, 1122, 1136, 1138, 1889,
    1634, 2147, 6996, 1125, 1143, 2409, 1380, 2926, 1898,
    1381, 4431, 1392, 1383, 1904, 1894, 6483
  ]

  lemma {:induction false} KeysMatch(i: int)
    requires 0 <= i < |Names|
    ensures Key(Names[i]) == Keys[i]
  {
  }

  lemma {:induction false} KeysDistinct()
    ensures |Keys| == |Names|
    ensures forall i, j :: 0 <= i < j < |Keys| ==> Keys[i] != Keys[j]
  {
  }

  /** No two auras share a name. */
  lemma {:induction false} NamesDistinct()
    ensures forall i, j :: 0 <= i < j < |Names| ==> Names[i] != Names[j]
  {
    KeysDistinct();
    forall i, j | 0 <= i < j < |Names|
      ensures Names[i] != Names[j]
    {
      KeysMatch(i);
      KeysMatch(j);
    }
  }

  predicate IsAura(i: int) {
    0 <= i < 25
  }

  /** Every aura is found "1 in prob" for a positive `prob`. */
  lemma {:induction false} ProbPositive(i: int)
    requires IsAura(i)
    ensures Auras(i).prob > 0
  {
  }

  /** `auras[i]`. */
  function Auras(i: int): Aura
    requires IsAura(i)
  {
    Aura(Names[i], Probs[i])
  }

  /** `Object.fromEntries(auras.map(a => [a.name, 0]))`. */
  function InitialTable(): (t: map<string, int>)
    ensures forall i :: 0 <= i < 25 ==> Auras(i).name in t && t[Auras(i).name] == 0
    ensures forall name :: name in t ==> exists i :: 0 <= i < 25 && Auras(i).name == name
  {
    map i | 0 <= i < 25 :: Auras(i).name := 0
  }

  /** Every entry of a roll history is the index of an aura. */
  predicate AllAuras(h: seq<int>) {
    forall j :: 0 <= j < |h| ==> IsAura(h[j])
  }

  /** The table holds, under each aura's name, how many times the history rolled it. */
  ghost predicate Tallies(table: map<string, int>, h: seq<int>) {
    forall i :: 0 <= i < 25 ==> Auras(i).name in table && table[Auras(i).name] == Occurrences(h, i)
  }

  /** `gameState.table[aura.name]++` for aura i, whose name the table always holds. */
  function Record(table: map<string, int>, i: int): (t: map<string, int>)
    requires IsAura(i) && Auras(i).name in table
    ensures t.Keys == table.Keys
  {
    table[Auras(i).name := table[Auras(i).name] + 1]
  }

  /** Rolling aura i adds one to its own table entry and leaves the others as they were. */
  lemma {:induction false} TalliesAfterRoll(table: map<string, int>, h: seq<int>, i: int)
    requires Tallies(table, h) && IsAura(i)
    ensures Tallies(Record(table, i), h + [i])
  {
    NamesDistinct();
    assert multiset(h + [i]) == multiset(h) + multiset{i};
  }

  /** How many times aura i occurs in a roll history. */
  function Occurrences(h: seq<int>, i: int): nat {
    multiset(h)[i]
  }

  /** The counts of auras 0 .. k-1 in a history, added up. */
  function CountUpTo(h: seq<int>, k: nat): nat {
    if k == 0 then 0 else CountUpTo(h, k - 1) + Occurrences(h, k - 1)
  }

  /** When every entry names an aura, the per-aura counts add up to the length of the history. */
  lemma {:induction false} CountsAddUp(h: seq<int>)
    requires AllAuras(h)
    ensures CountUpTo(h, 25) == |h|
  {
    if h != [] {
      var front, x := h[..|h| - 1], h[|h| - 1];
      assert h == front + [x];
      assert IsAura(x);
      CountsAddUp(front);
      CountsAppend(front, x, 25);
    } else {
      CountsOfEmpty(25);
    }
  }

  lemma {:induction false} CountsOfEmpty(k: nat)
    ensures CountUpTo([], k) == 0
  {
    if k > 0 {
      CountsOfEmpty(k - 1);
    }
  }

  /** Appending aura x raises the count of auras below k by one exactly when x is below k. */
  lemma {:induction false} CountsAppend(h: seq<int>, x: int, k: nat)
    ensures CountUpTo(h + [x], k) == CountUpTo(h, k) + (if 0 <= x < k then 1 else 0)
  {
    assert multiset(h + [x]) == multiset(h) + multiset{x};
    if k > 0 {
      CountsAppend(h, x, k - 1);
    }
  }

  /**
    `best` after the rolls in `h`: none before the first roll; otherwise an aura
    that was rolled, with no rolled aura rarer, and rolled at the earliest
    position where that rarity was reached.
   */
  ghost predicate IsBest(h: seq<int>, best: Option<Aura>)
    requires AllAuras(h)
  {
    && (best.None? <==> h == [])
    && (best.Some? ==>
          && (forall j :: 0 <= j < |h| ==> Auras(h[j]).prob <= best.value.prob)
          && exists k :: 0 <= k < |h| && Auras(h[k]) == best.value &&
               forall j :: 0 <= j < k ==> Auras(h[j]).prob < best.value.prob)
  }

  /** The update at lines 62-64: a strictly rarer aura replaces the best, a tie keeps the old one. */
  function NextBest(best: Option<Aura>, a: Aura): Option<Aura> {
    if best.None? || a.prob > best.value.prob then Some(a) else best
  }

  /** The update keeps `IsBest` true as the history grows by one roll. */
  lemma {:induction false} BestAfterRoll(h: seq<int>, best: Option<Aura>, i: int)
    requires AllAuras(h)
    requires IsBest(h, best) && IsAura(i)
    ensures IsBest(h + [i], NextBest(best, Auras(i)))
  {
    var h' := h + [i];
    var b := NextBest(best, Auras(i));
    if best.None? {
      assert Auras(h'[0]) == b.value;
    } else if Auras(i).prob > best.value.prob {
      assert Auras(h'[|h|]) == b.value;
    } else {
      var k :| 0 <= k < |h| && Auras(h[k]) == best.value &&
        forall j :: 0 <= j < k ==> Auras(h[j]).prob < best.value.prob;
      assert Auras(h'[k]) == b.value;
    }
  }

  /**
    The roll bookkeeping agrees with a history of rolls: every roll is of an
    aura, `tries` counts them, the table counts each aura's rolls, and `best` is
    the rarest aura rolled, the earliest one on ties.
   */
  ghost predicate Booked(tries: int, table: map<string, int>, best: Option<Aura>, h: seq<int>) {
    AllAuras(h) && tries == |h| && Tallies(table, h) && IsBest(h, best)
  }

  /** Booking a roll of aura i keeps the bookkeeping in agreement with the history extended by i. */
  lemma {:induction false} BookingRoll(tries: int, table: map<string, int>, best: Option<Aura>, h: seq<int>, i: int)
    requires Booked(tries, table, best, h) && IsAura(i)
    ensures Booked(tries + 1, Record(table, i), NextBest(best, Auras(i)), h + [i])
  {
    BestAfterRoll(h, best, i);
    TalliesAfterRoll(table, h, i);
    assert AllAuras(h + [i]);
  }

  /** What the message line says. */
  datatype Message = NoMessage | Found(aura: Aura) | Enjoy(item: Item) | InsufficientFunds

  /** The three shop items, named `luck`, `gauntlet` and `dirty` in `gameState`. */
  datatype Item = Luck | Gauntlet | Dirty

  /** `costs[type]`. */
  function Cost(item: Item): (c: int)
    ensures c in {500, 1000, 3500}
  {
    match item
    case Luck => 500
    case Gauntlet => 1000
    case Dirty => 3500
  }

  /** `gameState`. `history` records, for the proofs, the aura of every successful roll. */
  class Game {
    var coins: int
    var tries: int
    var best: Option<Aura>
    var luck: int
    var dirty: int
    var gauntlet: int
    var message: Message
    var table: map<string, int>
    ghost var history: seq<int>

    /**
      Coins and item counts are never negative; every roll is of an aura; the
      table counts each aura's rolls, `tries` counts all of them, and `best` is
      the rarest aura rolled, the earliest one on ties.
     */
    ghost predicate Valid()
      reads this
    {
      && coins >= 0 && luck >= 0 && dirty >= 0 && gauntlet >= 0
      && Booked(tries, table, best, history)
    }

    /** The initial `gameState`. */
    constructor ()
      ensures Valid()
      ensures coins == 0 && tries == 0 && best.None? && luck == 0 && dirty == 0 && gauntlet == 0
      ensures message == NoMessage && table == InitialTable() && history == []
    {
      coins, tries, best := 0, 0, None;
      luck, dirty, gauntlet := 0, 0, 0;
      message := NoMessage;
      table := InitialTable();
      history := [];
    }

    /**
      `roll()` once the draw has stopped at aura i (lines 56-64): its `prob` is
      added to the coins, `tries` and the aura's table entry go up by one, and
      the aura becomes the best when it is strictly rarer than the best so far.
     */
    method Roll(i: int)
      requires Valid() && IsAura(i)
      modifies this
      ensures Valid()
      ensures coins == old(coins) + Auras(i).prob && tries == old(tries) + 1
      ensures table == Record(old(table), i)
      ensures best == NextBest(old(best), Auras(i)) && message == Found(Auras(i))
      ensures history == old(history) + [i]
      ensures luck == old(luck) && dirty == old(dirty) && gauntlet == old(gauntlet)
    {
      var a := Auras(i);
      ProbPositive(i);
      BookingRoll(tries, table, best, history, i);
      coins, tries, table := coins + a.prob, tries + 1, Record(table, i);
      message := Found(a);
      best := NextBest(best, a);
      history := history + [i];
    }

    /**
      `buyItem(type)`: with enough coins for a priced item, the price is paid and
      that item's count goes up by one; otherwise only the message changes.
     */
    method BuyItem(item: Item)
      requires Valid()
      modifies this
      ensures Valid()
      ensures tries == old(tries) && best == old(best) && table == old(table) && history == old(history)
      ensures if old(coins) >= Cost(item) then
          && coins == old(coins) - Cost(item) && message == Enjoy(item)
          && luck == old(luck) + (if item == Luck then 1 else 0)
          && gauntlet == old(gauntlet) + (if item == Gauntlet then 1 else 0)
          && dirty == old(dirty) + (if item == Dirty then 1 else 0)
        else
          && coins == old(coins) && message == InsufficientFunds
          && luck == old(luck) && gauntlet == old(gauntlet) && dirty == old(dirty)
    {
      if coins >= Cost(item) {
        coins := coins - Cost(item);
        match item {
          case Luck => luck := luck + 1;
          case Gauntlet => gauntlet := gauntlet + 1;
          case Dirty => dirty := dirty + 1;
        }
        message := Enjoy(item);
      } else {
        message := InsufficientFunds;
      }
    }
  }

  /** In a valid game, `tries` equals the sum of the table's counts. */
  lemma {:induction false} TriesIsTableTotal(history: seq<int>, table: map<string, int>, tries: int)
    requires AllAuras(history)
    requires tries == |history|
    requires Tallies(table, history)
    ensures tries == TableTotal(table, 25)
  {
    CountsAddUp(history);
    TableTotalIsCount(history, table, 25);
  }

  /** The table's counts for the first k auras, added up. */
  function TableTotal(table: map<string, int>, k: nat): int
    requires k <= 25 && forall i :: 0 <= i < k ==> Auras(i).name in table
  {
    if k == 0 then 0 else TableTotal(table, k - 1) + table[Auras(k - 1).name]
  }

  lemma {:induction false} TableTotalIsCount(history: seq<int>, table: map<string, int>, k: nat)
    requires k <= 25
    requires Tallies(table, history)
    ensures TableTotal(table, k) == CountUpTo(history, k)
  {
    if k > 0 {
      TableTotalIsCount(history, table, k - 1);
    }
  }
}
