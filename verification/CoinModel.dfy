/** Coins, cache entries and the plain map of unspent coins that a stack of
    caches stands for. */
module CoinModel {
  import opened Bytes
  import opened MapSums

  datatype OutPoint = OutPoint(hash: nat, n: nat)

  datatype TxOut = TxOut(nValue: int, scriptPubKey: seq<Byte>)
  {
    predicate IsNull() { nValue == -1 }

    predicate IsEmpty() { nValue == 0 && scriptPubKey == [] }
  }

  const OP_RETURN: Byte := 0x6a

  predicate IsUnspendable(script: seq<Byte>) {
    |script| > 0 && script[0] == OP_RETURN
  }

  /** Heights are 31-bit fields. */
  type Height = h: int | 0 <= h < 0x8000_0000

  datatype Coin = Coin(out: TxOut, fCoinBase: bool, fCoinStake: bool, nHeight: Height, nTime: nat)
  {
    predicate IsSpent() { out.IsNull() }
  }

  /** What Coin::Clear leaves behind. */
  const CLEARED := Coin(TxOut(-1, []), false, false, 0, 0)

  /** Bytes malloc hands out for a request, on a 64-bit machine. */
  function MallocUsage(alloc: nat): nat {
    if alloc == 0 then 0 else (alloc + 31) / 16 * 16
  }

  /** Heap bytes behind a coin: scripts of up to 28 bytes are stored in place. */
  function CoinUsage(coin: Coin): nat {
    if |coin.out.scriptPubKey| <= 28 then 0 else MallocUsage(|coin.out.scriptPubKey|)
  }

  /** A script of up to 28 bytes costs nothing; a longer one the least multiple of 16 that holds
      it and 16 bytes more. */
  lemma CoinUsageIs(coin: Coin)
    ensures |coin.out.scriptPubKey| <= 28 ==> CoinUsage(coin) == 0
    ensures |coin.out.scriptPubKey| >= 29 ==>
              CoinUsage(coin) % 16 == 0 && 16 <= CoinUsage(coin) - |coin.out.scriptPubKey| < 32
  {
  }

  datatype Entry = Entry(coin: Coin, isDirty: bool, isFresh: bool)
  {
    predicate NoFlags() { !isDirty && !isFresh }
  }

  function EntryUsage(e: Entry): int { CoinUsage(e.coin) }

  type Entries = map<OutPoint, Entry>

  /** The unspent set: each outpoint with an unspent coin, and that coin. */
  type View = map<OutPoint, Coin>

  predicate AllUnspent(v: View) {
    forall o | o in v :: !v[o].IsSpent()
  }

  /** The unspent set seen through cache entries lying over `base`. */
  function Overlay(entries: Entries, base: View): (v: View) {
    map o | o in entries.Keys + base.Keys && (o in entries ==> !entries[o].coin.IsSpent())
      :: if o in entries then entries[o].coin else base[o]
  }

  /** What one cache entry may claim about the view below it: an entry that is
      not DIRTY agrees with it, a FRESH entry has no unspent coin below, and a
      spent coin has been cleared. */
  ghost predicate EntryOk(o: OutPoint, e: Entry, base: View) {
    && (!e.isDirty ==> (if e.coin.IsSpent() then o !in base else o in base && base[o] == e.coin))
    && (e.isFresh ==> o !in base)
    && (e.coin.IsSpent() ==> e.coin == CLEARED)
  }

  ghost predicate FlagsOk(entries: Entries, base: View) {
    forall o | o in entries :: EntryOk(o, entries[o], base)
  }

  lemma FlagsOkAt(entries: Entries, base: View, o: OutPoint)
    requires FlagsOk(entries, base) && o in entries
    ensures EntryOk(o, entries[o], base)
  {
  }

  ghost predicate HeightsBounded(entries: Entries, height: Height) {
    forall o | o in entries :: entries[o].coin.nHeight <= height
  }

  /** The view below a cache after `o` has been written through to it. */
  function WriteThrough(below: View, o: OutPoint, coin: Coin): View {
    if coin.IsSpent() then below - {o} else below[o := coin]
  }

  lemma ShownUnspent(v: View, o: OutPoint)
    requires AllUnspent(v)
    ensures o in v ==> !v[o].IsSpent()
  {
  }

  lemma OverlayUnspent(entries: Entries, base: View)
    requires AllUnspent(base)
    ensures AllUnspent(Overlay(entries, base))
  {
  }

  // ---------------------------------------------------------------- Reading

  /** The coin a lookup answers with: the unspent one, or a cleared one. */
  function CoinAt(v: View, o: OutPoint): Coin {
    if o in v then v[o] else CLEARED
  }

  /** The entry FetchCoin makes of what the view below answered. */
  function FetchedEntry(coin: Coin): Entry {
    Entry(coin, false, coin.IsSpent())
  }

  /** Caching what lies below changes nothing visible. */
  lemma FetchKeeps(entries: Entries, base: View, o: OutPoint)
    requires FlagsOk(entries, base) && AllUnspent(base) && o !in entries
    ensures FlagsOk(entries[o := FetchedEntry(CoinAt(base, o))], base)
    ensures Overlay(entries[o := FetchedEntry(CoinAt(base, o))], base) == Overlay(entries, base)
  {
    assert EntryOk(o, FetchedEntry(CoinAt(base, o)), base);
  }

  /** A cached entry holds the visible coin; without one, the view below decides. */
  lemma LookupMeaning(entries: Entries, base: View, o: OutPoint)
    requires FlagsOk(entries, base)
    ensures CoinAt(Overlay(entries, base), o) == if o in entries then entries[o].coin else CoinAt(base, o)
    ensures o in Overlay(entries, base) ==> o in entries || o in base
  {
    if o in entries {
      assert EntryOk(o, entries[o], base);
    }
  }

  // ---------------------------------------------------------------- AddCoin

  /** The entry AddCoin leaves behind; `prior` is the entry it found, or a
      flagless spent one if it had to insert. */
  function AddedEntry(prior: Entry, coin: Coin, possibleOverwrite: bool): Entry {
    Entry(coin, true, prior.isFresh || (!possibleOverwrite && !prior.isDirty))
  }

  const BLANK := Entry(CLEARED, false, false)

  function PriorEntry(entries: Entries, o: OutPoint): Entry {
    if o in entries then entries[o] else BLANK
  }

  /** The caller's duty when it rules an overwrite out: the coin it would
      silently replace is not hidden below the cache. */
  ghost predicate NoHiddenCoin(entries: Entries, base: View, o: OutPoint) {
    o in entries || o !in base
  }

  lemma NotVisibleNotHidden(entries: Entries, base: View, o: OutPoint)
    ensures o !in Overlay(entries, base) ==> NoHiddenCoin(entries, base, o)
  {
  }

  /** Adding a coin keeps the flag claims exactly when the caller either allowed
      an overwrite or had no coin hidden below the cache. */
  lemma AddKeepsFlagsIff(entries: Entries, base: View, o: OutPoint, coin: Coin, possibleOverwrite: bool)
    requires FlagsOk(entries, base) && !coin.IsSpent()
    requires possibleOverwrite || PriorEntry(entries, o).coin.IsSpent()
    ensures FlagsOk(entries[o := AddedEntry(PriorEntry(entries, o), coin, possibleOverwrite)], base)
            <==> possibleOverwrite || NoHiddenCoin(entries, base, o)
  {
    var after := entries[o := AddedEntry(PriorEntry(entries, o), coin, possibleOverwrite)];
    if FlagsOk(after, base) {
      assert EntryOk(o, after[o], base);
    } else {
      var x :| x in after && !EntryOk(x, after[x], base);
    }
  }

  lemma OverlayUpdate(entries: Entries, base: View, o: OutPoint, e: Entry)
    ensures Overlay(entries[o := e], base)
            == WriteThrough(Overlay(entries, base), o, e.coin)
  {
  }

  lemma OverlayErase(entries: Entries, base: View, o: OutPoint)
    ensures Overlay(entries - {o}, base)
            == if o in base then Overlay(entries, base)[o := base[o]] else Overlay(entries, base) - {o}
  {
  }

  // -------------------------------------------------------------- SpendCoin

  /** The entries after spending the cached coin at `o`. */
  function Spend(entries: Entries, o: OutPoint): Entries
    requires o in entries
  {
    if entries[o].isFresh then entries - {o} else entries[o := Entry(CLEARED, true, false)]
  }

  /** Spending removes exactly that coin from what is visible. */
  lemma SpendRemoves(entries: Entries, base: View, o: OutPoint)
    requires FlagsOk(entries, base) && o in entries
    ensures FlagsOk(Spend(entries, o), base)
    ensures Overlay(Spend(entries, o), base) == Overlay(entries, base) - {o}
  {
    assert EntryOk(o, entries[o], base);
    if entries[o].isFresh {
      OverlayErase(entries, base, o);
    } else {
      OverlayUpdate(entries, base, o, Entry(CLEARED, true, false));
    }
    hide Overlay;
  }

  lemma SpendUsage(entries: Entries, o: OutPoint)
    requires o in entries
    ensures Sum(Spend(entries, o), EntryUsage) == Sum(entries, EntryUsage) - CoinUsage(entries[o].coin)
  {
    SumSplit(entries, EntryUsage, o);
    SumUpdate(entries, EntryUsage, o, Entry(CLEARED, true, false));
  }

  /** The family AddKeepsFlagsIff shuts out is not empty: over an empty cache, a
      coin hidden below is overwritten and the new entry wrongly marked FRESH, so
      that spending it brings the hidden coin back. */
  lemma HiddenCoinComesBack(o: OutPoint, hidden: Coin, coin: Coin)
    requires !hidden.IsSpent() && !coin.IsSpent()
    ensures var base := map[o := hidden];
            var added := map[o := AddedEntry(BLANK, coin, false)];
            && Overlay(map[], base) == map[o := hidden] && Overlay(added, base) == map[o := coin]
            && Overlay(Spend(added, o), base) == map[o := hidden]
  {
    assert map[o := AddedEntry(BLANK, coin, false)] - {o} == map[];
  }

  // ------------------------------------------------------------- BatchWrite

  /** Whether a child's entry is simply dropped on its way into the parent. */
  predicate Vanishes(parent: Entries, o: OutPoint, child: Entry) {
    child.coin.IsSpent() && (if o in parent then parent[o].isFresh else child.isFresh)
  }

  /** The parent's entries after one DIRTY entry of the child has been merged. */
  function Merge(parent: Entries, o: OutPoint, child: Entry): Entries {
    if Vanishes(parent, o, child) then parent - {o}
    else parent[o := Entry(child.coin, true, if o in parent then parent[o].isFresh else child.isFresh)]
  }

  /** One merged entry writes exactly the child's coin into the parent's view and
      leaves the parent's claims about the view below it true, even though FRESH
      was earned relative to the parent and is inherited relative to what lies below. */
  lemma MergeStep(parent: Entries, base: View, o: OutPoint, child: Entry)
    requires FlagsOk(parent, base)
    requires child.isDirty && EntryOk(o, child, Overlay(parent, base))
    ensures FlagsOk(Merge(parent, o, child), base)
    ensures Overlay(Merge(parent, o, child), base)
            == WriteThrough(Overlay(parent, base), o, child.coin)
    ensures !(o in parent && child.isFresh && !parent[o].coin.IsSpent())
  {
    var after := Merge(parent, o, child);
    assert o in parent ==> EntryOk(o, parent[o], base);
    if Vanishes(parent, o, child) {
      OverlayErase(parent, base, o);
      assert o !in base;
    } else {
      OverlayUpdate(parent, base, o, after[o]);
      assert EntryOk(o, after[o], base);
    }
  }

  /** What is left of a child when all but `todo` has been handed over. */
  ghost function Left(child: Entries, todo: set<OutPoint>): Entries {
    map o | o in child && (o in todo || !child[o].isDirty) :: child[o]
  }

  lemma LeftEnds(child: Entries)
    ensures Left(child, child.Keys) == child
    ensures Left(child, {}) == map o | o in child && !child[o].isDirty :: child[o]
    ensures forall o | o in Left(child, {}) :: !Left(child, {})[o].isDirty
  {
  }

  lemma LeftWithout(child: Entries, todo: set<OutPoint>, o: OutPoint)
    requires todo <= child.Keys && o in todo
    ensures o in Left(child, todo) && Left(child, todo)[o] == child[o]
    ensures Left(child, todo - {o}) == if child[o].isDirty then Left(child, todo) - {o} else Left(child, todo)
  {
  }

  lemma MergeUsage(parent: Entries, o: OutPoint, child: Entry)
    ensures Sum(Merge(parent, o, child), EntryUsage)
            == Sum(parent, EntryUsage) - (if o in parent then EntryUsage(parent[o]) else 0)
               + (if Vanishes(parent, o, child) then 0 else EntryUsage(child))
  {
    if Vanishes(parent, o, child) {
      if o in parent {
        SumSplit(parent, EntryUsage, o);
      } else {
        assert parent - {o} == parent;
      }
    } else {
      SumUpdate(parent, EntryUsage, o, Merge(parent, o, child)[o]);
    }
  }

  /** Writing one DIRTY entry through and dropping it from the child changes
      neither what the child shows nor the truth of its remaining claims. */
  lemma WriteThroughDrop(child: Entries, below: View, o: OutPoint)
    requires FlagsOk(child, below) && o in child
    ensures FlagsOk(child - {o}, WriteThrough(below, o, child[o].coin))
    ensures Overlay(child - {o}, WriteThrough(below, o, child[o].coin)) == Overlay(child, below)
  {
    forall x | x in child - {o}
      ensures EntryOk(x, (child - {o})[x], WriteThrough(below, o, child[o].coin))
    {
      assert EntryOk(x, child[x], below);
    }
  }

  /** The database keeps an unspent coin it was handed in the child, without flags. */
  lemma WriteThroughKeep(child: Entries, below: View, o: OutPoint)
    requires FlagsOk(child, below) && o in child && !child[o].coin.IsSpent()
    ensures FlagsOk(child[o := Entry(child[o].coin, false, false)], below[o := child[o].coin])
    ensures Overlay(child[o := Entry(child[o].coin, false, false)], below[o := child[o].coin]) == Overlay(child, below)
  {
    forall x | x in child && x != o
      ensures EntryOk(x, child[x], below[o := child[o].coin])
    {
      assert EntryOk(x, child[x], below);
    }
  }

  /** A cache without DIRTY entries shows exactly the view below it. */
  lemma CleanOverlay(entries: Entries, below: View)
    requires FlagsOk(entries, below)
    requires forall o | o in entries :: !entries[o].isDirty
    ensures Overlay(entries, below) == below
  {
    forall o | o in entries
      ensures if entries[o].coin.IsSpent() then o !in below else o in below && below[o] == entries[o].coin
    {
      assert EntryOk(o, entries[o], below);
    }
  }

  /** Dropping an entry without flags changes nothing that is visible. */
  lemma DropUnflagged(entries: Entries, below: View, o: OutPoint)
    requires FlagsOk(entries, below) && o in entries && !entries[o].isDirty
    ensures FlagsOk(entries - {o}, below)
    ensures Overlay(entries - {o}, below) == Overlay(entries, below)
  {
    assert EntryOk(o, entries[o], below);
    OverlayErase(entries, below, o);
  }

}
