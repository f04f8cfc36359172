/** The write-back cache of unspent coins, stacked to any depth over a database. */
module CoinsCache {
  import opened MapSums
  import opened CoinModel

  /** A block hash; 0 is the null hash. */
  type BlockHash = nat

  const NULL_HASH: BlockHash := 0

  function Higher(a: Height, b: Height): Height { if a < b then b else a }

  /** The coin database: a map of unspent coins and the best block it stands for. */
  class CoinsViewDB {
    var coins: View
    var bestBlock: BlockHash

    constructor (initial: View)
      ensures coins == initial && bestBlock == NULL_HASH
    {
      coins, bestBlock := initial, NULL_HASH;
    }

    method GetCoin(o: OutPoint) returns (found: bool, coin: Coin)
      ensures found == (o in coins)
      ensures coin == if found then coins[o] else CLEARED
    {
      found := o in coins;
      coin := if found then coins[o] else CLEARED;
    }

    /** Writes a child's DIRTY entries. Spent ones leave the child, unspent ones
        stay in it without flags. */
    method BatchWrite(child: Entries, hashBlock: BlockHash, childUsage: int)
      returns (rest: Entries, restUsage: int)
      requires FlagsOk(child, coins) && AllUnspent(coins)
      requires childUsage == Sum(child, EntryUsage)
      modifies this
      ensures AllUnspent(coins)
      ensures coins == Overlay(child, old(coins))
      ensures FlagsOk(rest, coins) && Overlay(rest, coins) == coins
      ensures rest.Keys == set o | o in child && (child[o].isDirty ==> !child[o].coin.IsSpent())
      ensures forall o | o in rest ::
                rest[o] == if child[o].isDirty then Entry(child[o].coin, false, false) else child[o]
      ensures restUsage == Sum(rest, EntryUsage)
      ensures bestBlock == if hashBlock == NULL_HASH then old(bestBlock) else hashBlock
    {
      hide Overlay, Sum, FlagsOk;
      rest, restUsage := child, childUsage;
      var todo := child.Keys;
      while todo != {}
        invariant todo <= child.Keys
        invariant AllUnspent(coins) && bestBlock == old(bestBlock)
        invariant FlagsOk(rest, coins) && Overlay(rest, coins) == Overlay(child, old(coins))
        invariant restUsage == Sum(rest, EntryUsage)
        invariant rest.Keys == set o | o in child && (o !in todo && child[o].isDirty ==> !child[o].coin.IsSpent())
        invariant forall o | o in rest ::
                    rest[o] == if o !in todo && child[o].isDirty then Entry(child[o].coin, false, false) else child[o]
        decreases todo
      {
        var o :| o in todo;
        if rest[o].isDirty {
          if rest[o].coin.IsSpent() {
            WriteThroughDrop(rest, coins, o);
            SumSplit(rest, EntryUsage, o);
            coins := coins - {o};
            restUsage := restUsage - CoinUsage(rest[o].coin);
            rest := rest - {o};
          } else {
            WriteThroughKeep(rest, coins, o);
            SumUpdate(rest, EntryUsage, o, Entry(rest[o].coin, false, false));
            coins := coins[o := rest[o].coin];
            rest := rest[o := Entry(rest[o].coin, false, false)];
          }
        }
        todo := todo - {o};
      }
      CleanOverlay(rest, coins);
      if hashBlock != NULL_HASH {
        bestBlock := hashBlock;
      }
    }
  }

  /** What a cache lies on. */
  datatype Base = Database(db: CoinsViewDB) | Parent(cache: CoinsViewCache)

  class CoinsViewCache {
    const base: Base
    var hashBlock: BlockHash
    var nBestCoinHeight: Height
    var cacheCoins: Entries
    var cachedCoinsUsage: int

    /** Number of caches below this one, and every object of the stack from here down. */
    ghost const depth: nat
    ghost const Repr: set<object>

    /** The shape of the stack, fixed at construction. */
    ghost predicate Linked()
      decreases depth
    {
      match base
      case Database(db) => depth == 0 && Repr == {this, db}
      case Parent(p) => depth == p.depth + 1 && p in p.Repr && this !in p.Repr && Repr == {this} + p.Repr && p.Linked()
    }

    /** The unspent set below this cache. */
    ghost function BaseView(): View
      requires Linked()
      reads Repr
      decreases depth, 0
    {
      match base
      case Database(db) => db.coins
      case Parent(p) => p.View()
    }

    /** The unspent set this cache shows. */
    ghost function View(): View
      requires Linked()
      reads Repr
      decreases depth, 1
    {
      Overlay(cacheCoins, BaseView())
    }

    ghost function BaseBest(): BlockHash
      requires Linked()
      reads Repr
      decreases depth, 0
    {
      match base
      case Database(db) => db.bestBlock
      case Parent(p) => p.Best()
    }

    /** The best block this cache reports. */
    ghost function Best(): BlockHash
      requires Linked()
      reads Repr
      decreases depth, 1
    {
      if hashBlock != NULL_HASH then hashBlock else BaseBest()
    }

    /** This cache makes only true claims about what lies below it and has exact
        memory accounting. */
    ghost predicate Accurate()
      requires Linked()
      reads Repr
    {
      && AllUnspent(BaseView())
      && FlagsOk(cacheCoins, BaseView())
      && cachedCoinsUsage == Sum(cacheCoins, EntryUsage)
    }

    /** Every cache of the stack is accurate and bounds the heights of its coins. */
    ghost predicate Valid()
      reads this, Repr
      decreases depth
    {
      && Linked()
      && (base.Parent? ==> base.cache.Valid())
      && Accurate()
      && HeightsBounded(cacheCoins, nBestCoinHeight)
    }

    /** Valid, except that coins higher than the bound may just have arrived. */
    ghost predicate Sound()
      reads this, Repr
    {
      && Linked()
      && (base.Parent? ==> base.cache.Valid())
      && Accurate()
    }

    /** What every level of the stack shows, the database first, this cache last. */
    ghost function Levels(): (levels: seq<View>)
      requires Linked()
      reads Repr
      ensures |levels| == depth + 2 && levels[depth] == BaseView() && levels[depth + 1] == View()
      decreases depth
    {
      match base
      case Database(db) => [db.coins, View()]
      case Parent(p) => p.Levels() + [View()]
    }

    constructor (baseIn: Base)
      requires baseIn.Parent? ==> baseIn.cache.Valid()
      requires baseIn.Database? ==> AllUnspent(baseIn.db.coins)
      ensures base == baseIn && cacheCoins == map[] && hashBlock == NULL_HASH && nBestCoinHeight == 0
      ensures Valid() && View() == BaseView()
      ensures Repr == {this} + (match baseIn case Database(db) => {db} case Parent(p) => p.Repr)
    {
      base := baseIn;
      hashBlock, nBestCoinHeight, cacheCoins, cachedCoinsUsage := NULL_HASH, 0, map[], 0;
      depth := match baseIn case Database(_) => 0 case Parent(p) => p.depth + 1;
      Repr := {this} + (match baseIn case Database(db) => {db} case Parent(p) => p.Repr);
      new;
      assert Linked();
    }

    /** Asks the view below for a coin. */
    method GetCoinBelow(o: OutPoint) returns (found: bool, coin: Coin)
      requires Valid()
      modifies Repr - {this}
      ensures Valid() && Levels() == old(Levels()) && Best() == old(Best())
      ensures coin == CoinAt(BaseView(), o) && (o in BaseView() ==> found)
      decreases depth, 0
    {
      match base {
        case Database(db) => found, coin := db.GetCoin(o);
        case Parent(p) => found, coin := p.GetCoin(o);
      }
    }

    /** Finds the entry for `o`, reading it from below if the cache lacks it.
        Nothing visible changes anywhere in the stack. */
    method FetchCoin(o: OutPoint) returns (found: bool)
      requires Valid()
      modifies Repr
      ensures Valid() && Levels() == old(Levels()) && Best() == old(Best())
      ensures found == (o in cacheCoins) && (!found ==> o !in BaseView())
      ensures hashBlock == old(hashBlock) && nBestCoinHeight >= old(nBestCoinHeight)
      ensures cacheCoins == if o in old(cacheCoins) || !found then old(cacheCoins)
                            else old(cacheCoins)[o := FetchedEntry(CoinAt(BaseView(), o))]
      decreases depth, 1
    {
      hide Overlay, Sum, FlagsOk, AllUnspent;
      if o in cacheCoins {
        return true;
      }
      var tmp;
      found, tmp := GetCoinBelow(o);
      if !found {
        return;
      }
      Emplace(o, tmp);
    }

    /** FetchCoin's tail: caches what the view below answered. */
    method Emplace(o: OutPoint, tmp: Coin)
      requires Valid() && o !in cacheCoins && tmp == CoinAt(BaseView(), o)
      modifies this
      ensures Valid() && Levels() == old(Levels()) && Best() == old(Best())
      ensures cacheCoins == old(cacheCoins)[o := FetchedEntry(tmp)]
      ensures hashBlock == old(hashBlock) && nBestCoinHeight >= old(nBestCoinHeight)
    {
      hide Overlay, Sum, FlagsOk, AllUnspent;
      FetchKeeps(cacheCoins, BaseView(), o);
      SumUpdate(cacheCoins, EntryUsage, o, FetchedEntry(tmp));
      cacheCoins := cacheCoins[o := Entry(tmp, false, tmp.IsSpent())];
      cachedCoinsUsage := cachedCoinsUsage + CoinUsage(tmp);
      if nBestCoinHeight < tmp.nHeight {
        nBestCoinHeight := tmp.nHeight;
      }
    }

    /** Reads a coin. A cache may answer with a cleared coin instead of "none". */
    method GetCoin(o: OutPoint) returns (found: bool, coin: Coin)
      requires Valid()
      modifies Repr
      ensures Valid() && Levels() == old(Levels()) && Best() == old(Best())
      ensures coin == CoinAt(View(), o) && (o in View() ==> found)
      decreases depth, 2
    {
      hide Overlay, Sum;
      found := FetchCoin(o);
      LookupMeaning(cacheCoins, BaseView(), o);
      if found {
        coin := cacheCoins[o].coin;
      } else {
        coin := CLEARED;
      }
    }

    method AccessCoin(o: OutPoint) returns (coin: Coin)
      requires Valid()
      modifies Repr
      ensures Valid() && Levels() == old(Levels()) && Best() == old(Best())
      ensures coin == CoinAt(View(), o)
    {
      hide Overlay, Sum;
      var found := FetchCoin(o);
      LookupMeaning(cacheCoins, BaseView(), o);
      coin := if found then cacheCoins[o].coin else CLEARED;
    }

    method HaveCoin(o: OutPoint) returns (have: bool)
      requires Valid()
      modifies Repr
      ensures Valid() && Levels() == old(Levels()) && Best() == old(Best())
      ensures have == (o in View())
    {
      var found := FetchCoin(o);
      have := found && !cacheCoins[o].coin.IsSpent();
    }

    method GetBestBlock() returns (hash: BlockHash)
      requires Valid()
      modifies Repr
      ensures Valid() && Levels() == old(Levels()) && Best() == old(Best())
      ensures hash == Best() && hashBlock == Best()
      decreases depth
    {
      hide Overlay, Sum;
      if hashBlock == NULL_HASH {
        var below;
        match base {
          case Database(db) => below := db.bestBlock;
          case Parent(p) => below := p.GetBestBlock();
        }
        hashBlock := below;
      }
      hash := hashBlock;
    }

    method SetBestBlock(hash: BlockHash)
      requires Valid()
      modifies this`hashBlock
      ensures Valid() && View() == old(View()) && BaseView() == old(BaseView())
      ensures hashBlock == hash && BaseBest() == old(BaseBest())
      ensures Best() == if hash == NULL_HASH then BaseBest() else hash
    {
      hide Overlay, Sum;
      hashBlock := hash;
    }

    /** Adds a coin. It throws, without touching the entries but with the coin's
        usage already deducted, when an overwrite was ruled out and the cache
        holds an unspent coin there. The cache stays valid exactly if no usage was
        lost in that way and no coin below was hidden from it. */
    method AddCoin(o: OutPoint, coin: Coin, possibleOverwrite: bool) returns (threw: bool)
      requires Valid() && !coin.IsSpent()
      modifies this
      ensures BaseView() == old(BaseView()) && Best() == old(Best()) && hashBlock == old(hashBlock)
      ensures threw <==>
                && !possibleOverwrite && !IsUnspendable(coin.out.scriptPubKey)
                && o in old(View()) && NoHiddenCoin(old(cacheCoins), old(BaseView()), o)
      ensures threw ==>
                && cacheCoins == old(cacheCoins) && nBestCoinHeight == old(nBestCoinHeight)
                && cachedCoinsUsage == old(cachedCoinsUsage) - CoinUsage(old(View())[o])
                && (Valid() <==> CoinUsage(old(View())[o]) == 0)
      ensures IsUnspendable(coin.out.scriptPubKey) ==> unchanged(this) && Valid()
      ensures !threw && !IsUnspendable(coin.out.scriptPubKey) ==>
                var prior := PriorEntry(old(cacheCoins), o);
                && View() == old(View())[o := coin]
                && cacheCoins == old(cacheCoins)[o := AddedEntry(prior, coin, possibleOverwrite)]
                && cachedCoinsUsage == Sum(cacheCoins, EntryUsage)
                && nBestCoinHeight == Higher(old(nBestCoinHeight), coin.nHeight)
                && (Valid() <==> possibleOverwrite || NoHiddenCoin(old(cacheCoins), old(BaseView()), o))
    {
      hide Overlay, Sum, AllUnspent, FlagsOk;
      if IsUnspendable(coin.out.scriptPubKey) {
        return false;
      }
      LookupMeaning(cacheCoins, BaseView(), o);
      OverlayUnspent(cacheCoins, BaseView());
      ShownUnspent(View(), o);
      var inserted := o !in cacheCoins;
      var entry := if inserted then Entry(CLEARED, false, false) else cacheCoins[o];
      var isFresh := false;
      var usage := cachedCoinsUsage;
      if !inserted {
        usage := usage - CoinUsage(entry.coin);
      }
      if !possibleOverwrite {
        if !entry.coin.IsSpent() {
          cachedCoinsUsage := usage;
          return true;
        }
        isFresh := !entry.isDirty;
      }
      Store(o, coin, possibleOverwrite, Entry(coin, true, entry.isFresh || isFresh), usage);
      threw := false;
    }

    /** AddCoin's tail: puts the new entry in its place. */
    method Store(o: OutPoint, coin: Coin, ghost possibleOverwrite: bool, entry: Entry, usage: int)
      requires Valid() && !coin.IsSpent() && (possibleOverwrite || PriorEntry(cacheCoins, o).coin.IsSpent())
      requires entry == AddedEntry(PriorEntry(cacheCoins, o), coin, possibleOverwrite)
      requires usage == cachedCoinsUsage - if o in cacheCoins then CoinUsage(cacheCoins[o].coin) else 0
      modifies this
      ensures BaseView() == old(BaseView()) && BaseBest() == old(BaseBest()) && hashBlock == old(hashBlock)
      ensures View() == old(View())[o := coin] && cacheCoins == old(cacheCoins)[o := entry]
      ensures cachedCoinsUsage == Sum(cacheCoins, EntryUsage)
      ensures nBestCoinHeight == Higher(old(nBestCoinHeight), coin.nHeight)
      ensures Valid() <==> possibleOverwrite || NoHiddenCoin(old(cacheCoins), old(BaseView()), o)
    {
      hide Overlay, Sum, AllUnspent, FlagsOk;
      AddKeepsFlagsIff(cacheCoins, BaseView(), o, coin, possibleOverwrite);
      OverlayUpdate(cacheCoins, BaseView(), o, entry);
      SumUpdate(cacheCoins, EntryUsage, o, entry);
      cacheCoins := cacheCoins[o := entry];
      cachedCoinsUsage := usage + CoinUsage(coin);
      if nBestCoinHeight < coin.nHeight {
        nBestCoinHeight := coin.nHeight;
      }
    }

    /** Spends a coin and moves it out; where there is none, nothing visible
        changes and a cleared coin comes out. */
    method SpendCoin(o: OutPoint) returns (moveout: Coin)
      requires Valid()
      modifies Repr
      ensures Valid() && Levels() == old(Levels())[depth + 1 := old(View()) - {o}]
      ensures Best() == old(Best()) && hashBlock == old(hashBlock)
      ensures moveout == CoinAt(old(View()), o)
    {
      hide Overlay, Sum, FlagsOk, AllUnspent;
      var found := FetchCoin(o);
      LookupMeaning(cacheCoins, BaseView(), o);
      if !found {
        assert View() - {o} == View();
        return CLEARED;
      }
      moveout := SpendCached(o);
    }

    /** SpendCoin's tail: erases a FRESH entry, clears any other. */
    method SpendCached(o: OutPoint) returns (moveout: Coin)
      requires Valid() && o in cacheCoins
      modifies this
      ensures Valid() && BaseView() == old(BaseView()) && Best() == old(Best()) && hashBlock == old(hashBlock)
      ensures View() == old(View()) - {o} && cacheCoins == Spend(old(cacheCoins), o)
      ensures moveout == old(cacheCoins)[o].coin
    {
      hide Overlay, Sum, FlagsOk, AllUnspent;
      SpendRemoves(cacheCoins, BaseView(), o);
      SpendUsage(cacheCoins, o);
      cachedCoinsUsage := cachedCoinsUsage - CoinUsage(cacheCoins[o].coin);
      moveout := cacheCoins[o].coin;
      if cacheCoins[o].isFresh {
        cacheCoins := cacheCoins - {o};
      } else {
        cacheCoins := cacheCoins[o := Entry(CLEARED, true, false)];
      }
    }

    /** Forgets an entry that carries no flags. */
    method Uncache(o: OutPoint)
      requires Valid()
      modifies this
      ensures Valid() && View() == old(View()) && BaseView() == old(BaseView())
      ensures Best() == old(Best()) && hashBlock == old(hashBlock)
      ensures cacheCoins == if o in old(cacheCoins) && old(cacheCoins)[o].NoFlags() then old(cacheCoins) - {o}
                            else old(cacheCoins)
    {
      hide Overlay, Sum;
      if o in cacheCoins && cacheCoins[o].NoFlags() {
        DropUnflagged(cacheCoins, BaseView(), o);
        SumSplit(cacheCoins, EntryUsage, o);
        cachedCoinsUsage := cachedCoinsUsage - CoinUsage(cacheCoins[o].coin);
        cacheCoins := cacheCoins - {o};
      }
    }

    /** Merges a child's DIRTY entries into this cache, whatever order they come
        in, and takes them out of the child. The throw for a misapplied FRESH flag
        is never reached. */
    method BatchWrite(child: Entries, hashBlockIn: BlockHash, nBestCoinHeightIn: Height, childUsage: int)
      returns (rest: Entries, restUsage: int)
      requires Valid() && FlagsOk(child, View()) && HeightsBounded(child, nBestCoinHeightIn)
      requires childUsage == Sum(child, EntryUsage)
      modifies this
      ensures Valid() && BaseView() == old(BaseView()) && BaseBest() == old(BaseBest())
      ensures View() == Overlay(child, old(View()))
      ensures FlagsOk(rest, View()) && Overlay(rest, View()) == View()
      ensures rest == map o | o in child && !child[o].isDirty :: child[o]
      ensures restUsage == Sum(rest, EntryUsage)
      ensures hashBlock == hashBlockIn
      ensures nBestCoinHeight == Higher(old(nBestCoinHeight), nBestCoinHeightIn)
    {
      hide Overlay, Sum, Merge, FlagsOk, AllUnspent, Left;
      rest, restUsage := child, childUsage;
      LeftEnds(child);
      ghost var height := if nBestCoinHeightIn > nBestCoinHeight then nBestCoinHeightIn else nBestCoinHeight;
      var todo := child.Keys;
      while todo != {}
        invariant todo <= child.Keys
        invariant Sound() && BaseView() == old(BaseView()) && nBestCoinHeight == old(nBestCoinHeight)
        invariant HeightsBounded(cacheCoins, height)
        invariant FlagsOk(rest, View()) && Overlay(rest, View()) == Overlay(child, old(View()))
        invariant restUsage == Sum(rest, EntryUsage)
        invariant rest == Left(child, todo)
        decreases todo
      {
        var o :| o in todo;
        LeftWithout(child, todo, o);
        if rest[o].isDirty {
          rest, restUsage := MergeEntry(rest, restUsage, o);
        }
        todo := todo - {o};
      }
      CleanOverlay(rest, View());
      hashBlock := hashBlockIn;
      if nBestCoinHeightIn > nBestCoinHeight {
        nBestCoinHeight := nBestCoinHeightIn;
      }
    }

    /** One turn of BatchWrite's loop. */
    method MergeEntry(child: Entries, childUsage: int, o: OutPoint)
      returns (rest: Entries, restUsage: int)
      requires Sound() && FlagsOk(child, View())
      requires childUsage == Sum(child, EntryUsage)
      requires o in child && child[o].isDirty
      modifies this
      ensures Sound() && BaseView() == old(BaseView()) && unchanged(this`hashBlock, this`nBestCoinHeight)
      ensures cacheCoins == Merge(old(cacheCoins), o, child[o])
      ensures forall h: Height | HeightsBounded(old(cacheCoins), h) && child[o].coin.nHeight <= h ::
                HeightsBounded(cacheCoins, h)
      ensures FlagsOk(rest, View()) && Overlay(rest, View()) == Overlay(child, old(View()))
      ensures rest == child - {o} && restUsage == Sum(rest, EntryUsage)
    {
      hide Overlay, Sum, FlagsOk, AllUnspent;
      FlagsOkAt(child, View(), o);
      MergeStep(cacheCoins, BaseView(), o, child[o]);
      MergeUsage(cacheCoins, o, child[o]);
      WriteThroughDrop(child, View(), o);
      SumSplit(child, EntryUsage, o);
      var it := child[o];
      restUsage := childUsage - CoinUsage(it.coin);
      if o !in cacheCoins {
        if !(it.isFresh && it.coin.IsSpent()) {
          cachedCoinsUsage := cachedCoinsUsage + CoinUsage(it.coin);
          cacheCoins := cacheCoins[o := Entry(it.coin, true, it.isFresh)];
        }
      } else {
        var us := cacheCoins[o];
        if it.isFresh && !us.coin.IsSpent() {
          assert false;
        }
        if us.isFresh && it.coin.IsSpent() {
          cachedCoinsUsage := cachedCoinsUsage - CoinUsage(us.coin);
          cacheCoins := cacheCoins - {o};
        } else {
          cachedCoinsUsage := cachedCoinsUsage - CoinUsage(us.coin) + CoinUsage(it.coin);
          cacheCoins := cacheCoins[o := Entry(it.coin, true, us.isFresh)];
        }
      }
      rest := child - {o};
    }

    /** Pushes every modification into the view below, which then shows what this
        cache showed before; this cache goes on showing the same. The best block
        follows too, unless this cache has none of its own and hands the null hash
        to a parent whose own best block differs from the one below it. */
    method Flush()
      requires Valid()
      modifies this, match base case Database(db) => {db as object} case Parent(p) => {p as object}
      ensures Valid()
      ensures View() == old(View()) && BaseView() == old(View()) && Levels() == old(Levels())[depth := old(View())]
      ensures forall o | o in cacheCoins :: !cacheCoins[o].isDirty
      ensures base.Parent? ==>
                cacheCoins == map o | o in old(cacheCoins) && !old(cacheCoins)[o].isDirty :: old(cacheCoins)[o]
      ensures base.Parent? ==> base.cache.BaseView() == old(base.cache.BaseView())
      ensures hashBlock == old(hashBlock)
      ensures BaseBest() == if hashBlock != NULL_HASH then hashBlock
                            else if base.Database? then old(BaseBest())
                            else old(base.cache.BaseBest())
      ensures BaseBest() == old(Best()) <==>
              hashBlock != NULL_HASH || base.Database? || old(base.cache.Best()) == old(base.cache.BaseBest())
    {
      hide Overlay, Sum, FlagsOk, AllUnspent, HeightsBounded;
      match base {
        case Database(db) => FlushToDatabase();
        case Parent(p) => FlushToParent();
      }
    }

    method FlushToDatabase()
      requires Valid() && base.Database?
      modifies this, base.db
      ensures Valid() && View() == old(View()) && BaseView() == old(View()) && hashBlock == old(hashBlock)
      ensures forall o | o in cacheCoins :: !cacheCoins[o].isDirty
      ensures BaseBest() == if hashBlock != NULL_HASH then hashBlock else old(BaseBest())
    {
      hide Overlay, Sum;
      cacheCoins, cachedCoinsUsage := base.db.BatchWrite(cacheCoins, hashBlock, cachedCoinsUsage);
    }

    method FlushToParent()
      requires Valid() && base.Parent?
      modifies this, base.cache
      ensures Valid() && View() == old(View()) && BaseView() == old(View()) && hashBlock == old(hashBlock)
      ensures Levels() == old(Levels())[depth := old(View())]
      ensures cacheCoins == map o | o in old(cacheCoins) && !old(cacheCoins)[o].isDirty :: old(cacheCoins)[o]
      ensures base.cache.BaseView() == old(base.cache.BaseView())
      ensures BaseBest() == if hashBlock != NULL_HASH then hashBlock else old(base.cache.BaseBest())
    {
      hide Overlay, Sum, FlagsOk, AllUnspent;
      cacheCoins, cachedCoinsUsage :=
        base.cache.BatchWrite(cacheCoins, hashBlock, nBestCoinHeight, cachedCoinsUsage);
      OverlayUnspent(base.cache.cacheCoins, base.cache.BaseView());
    }

    // ------------------------------------------------------------------ Trim

    /** Heap bytes of the map's nodes and buckets plus those of the coins. */
    function DynamicMemoryUsage(nodeBytes: nat, bucketBytes: nat): int
      reads this
    {
      nodeBytes * |cacheCoins| + bucketBytes + cachedCoinsUsage
    }

    /** What is reported is what nodes, buckets and coins take. */
    lemma UsageIs(nodeBytes: nat, bucketBytes: nat)
      requires Valid()
      ensures DynamicMemoryUsage(nodeBytes, bucketBytes) ==
                |cacheCoins| * nodeBytes + bucketBytes + Sum(cacheCoins, EntryUsage)
    {
    }

    /** Erases an entry that has no flags. */
    method EraseClean(o: OutPoint)
      requires Valid() && o in cacheCoins && cacheCoins[o].NoFlags()
      modifies this
      ensures Valid() && View() == old(View()) && BaseView() == old(BaseView())
      ensures unchanged(this`hashBlock, this`nBestCoinHeight) && cacheCoins == old(cacheCoins) - {o}
    {
      hide Overlay, Sum, FlagsOk, AllUnspent;
      DropUnflagged(cacheCoins, BaseView(), o);
      SumSplit(cacheCoins, EntryUsage, o);
      cachedCoinsUsage := cachedCoinsUsage - CoinUsage(cacheCoins[o].coin);
      cacheCoins := cacheCoins - {o};
    }

    /** One walk over the entries, erasing those without flags and below the
        given height, until the usage fits or the end is reached. */
    method TrimPass(nTrimSize: nat, maxHeight: int, anyHeight: bool, nodeBytes: nat, bucketBytes: nat)
      returns (atEnd: bool, nTrimmed: nat)
      requires Valid()
      modifies this
      ensures Valid() && View() == old(View()) && BaseView() == old(BaseView())
      ensures unchanged(this`hashBlock, this`nBestCoinHeight)
      ensures Shrunk(old(cacheCoins), cacheCoins, nTrimmed)
      ensures old(DynamicMemoryUsage(nodeBytes, bucketBytes)) <= nTrimSize ==> nTrimmed == 0
      ensures !anyHeight ==> ErasedBelow(old(cacheCoins), cacheCoins, maxHeight)
      ensures !atEnd ==> DynamicMemoryUsage(nodeBytes, bucketBytes) <= nTrimSize
      ensures atEnd ==> if anyHeight then AllFlagged(cacheCoins) else NoneBelow(cacheCoins, maxHeight)
    {
      hide Overlay, Sum, DynamicMemoryUsage, FlagsOk, AllUnspent, Shrunk, ErasedBelow, Passed;
      atEnd, nTrimmed := false, 0;
      var todo := cacheCoins.Keys;
      ShrunkNot(cacheCoins, maxHeight);
      NothingPassed(cacheCoins, maxHeight, anyHeight);
      while DynamicMemoryUsage(nodeBytes, bucketBytes) > nTrimSize
        invariant todo <= cacheCoins.Keys
        invariant Valid() && View() == old(View()) && BaseView() == old(BaseView())
        invariant unchanged(this`hashBlock, this`nBestCoinHeight)
        invariant nTrimmed == 0 ==>
                    DynamicMemoryUsage(nodeBytes, bucketBytes) == old(DynamicMemoryUsage(nodeBytes, bucketBytes))
        invariant nTrimmed > 0 ==> old(DynamicMemoryUsage(nodeBytes, bucketBytes)) > nTrimSize
        invariant Shrunk(old(cacheCoins), cacheCoins, nTrimmed)
        invariant !anyHeight ==> ErasedBelow(old(cacheCoins), cacheCoins, maxHeight)
        invariant Passed(cacheCoins, todo, maxHeight, anyHeight)
        decreases todo
      {
        if todo == {} {
          atEnd := true;
          AllPassed(cacheCoins, maxHeight, anyHeight);
          break;
        }
        var o :| o in todo;
        PassedStep(cacheCoins, todo, o, maxHeight, anyHeight);
        todo := todo - {o};
        if cacheCoins[o].NoFlags() && (anyHeight || cacheCoins[o].coin.nHeight < maxHeight) {
          ShrunkStep(old(cacheCoins), cacheCoins, nTrimmed, o, maxHeight, anyHeight);
          EraseClean(o);
          nTrimmed := nTrimmed + 1;
        }
      }
    }

    /** How far the trim height is moved towards the tip when too little was trimmed. */
    static function NextDelta(delta: nat): (next: nat)
      requires delta > 50
      ensures next < delta
    {
      if delta <= 5000 then (if delta > 100 then delta - 100 else 0)
      else if delta <= 20000 then delta - 500
      else delta - 10000
    }

    static method MoveDelta(delta: nat) returns (nTrimHeightDelta: nat)
      requires delta > 50
      ensures nTrimHeightDelta == NextDelta(delta) < delta
    {
      var nSmallestDelta := 50;
      if delta <= nSmallestDelta * 100 {
        nTrimHeightDelta := if delta > nSmallestDelta * 2 then delta - nSmallestDelta * 2 else 0;
      } else if delta <= nSmallestDelta * 400 {
        nTrimHeightDelta := delta - nSmallestDelta * 10;
      } else {
        nTrimHeightDelta := delta - nSmallestDelta * 200;
      }
    }

    /** The delta after a number of moves. */
    static function Moved(delta: nat, moves: nat): nat {
      if moves == 0 then delta
      else
        var d := Moved(delta, moves - 1);
        if d > 50 then NextDelta(d) else d
    }

    /** The height below which coins are erased after a number of moves. At first it wraps if the
        delta is greater than the tip's height. */
    static function TrimHeight(best: Height, delta: nat, moves: nat): nat {
      if moves == 0 then (best - delta) % 0x1_0000_0000_0000_0000
      else if best > Moved(delta, moves) then best - Moved(delta, moves) else 0
    }

    static lemma TrimHeightStart(best: Height, delta: nat)
      ensures Moved(delta, 0) == delta && TrimHeight(best, delta, 0) == (best - delta) % 0x1_0000_0000_0000_0000
    {
    }

    static lemma TrimHeightStep(best: Height, delta: nat, moves: nat)
      requires Moved(delta, moves) <= delta
      ensures var d := Moved(delta, moves);
              && (d > 50 ==> Moved(delta, moves + 1) == NextDelta(d) < d)
              && TrimHeight(best, delta, moves + 1) ==
                   (if best > Moved(delta, moves + 1) then best - Moved(delta, moves + 1) else 0)
              && (delta <= best ==> TrimHeight(best, delta, moves) <= TrimHeight(best, delta, moves + 1))
    {
      hide NextDelta;
    }

    /** The first loop: walks over the entries with a trim height that moves towards the tip, until
        the usage fits or the height can be moved no more. */
    method TrimByHeight(nTrimSize: nat, delta: nat, nodeBytes: nat, bucketBytes: nat)
      returns (nTrimHeightDelta: nat, nTrimmed: nat, ghost moves: nat)
      requires Valid()
      modifies this
      ensures Valid() && View() == old(View()) && BaseView() == old(BaseView())
      ensures unchanged(this`hashBlock, this`nBestCoinHeight)
      ensures Shrunk(old(cacheCoins), cacheCoins, nTrimmed)
      ensures nTrimHeightDelta == Moved(delta, moves) <= delta
      ensures delta <= nBestCoinHeight ==>
                ErasedBelow(old(cacheCoins), cacheCoins, TrimHeight(nBestCoinHeight, delta, moves))
      ensures DynamicMemoryUsage(nodeBytes, bucketBytes) > nTrimSize ==>
                nTrimHeightDelta <= 50 && NoneBelow(cacheCoins, TrimHeight(nBestCoinHeight, delta, moves))
      ensures old(DynamicMemoryUsage(nodeBytes, bucketBytes)) <= nTrimSize ==>
                nTrimmed == 0 && DynamicMemoryUsage(nodeBytes, bucketBytes) <= nTrimSize
    {
      hide Overlay, Sum, NextDelta, Shrunk, FlagsOk, AllUnspent, DynamicMemoryUsage, NoneBelow, ErasedBelow;
      hide Moved, TrimHeight, Linked, Accurate, HeightsBounded, Levels, View, BaseView;
      nTrimHeightDelta, nTrimmed, moves := delta, 0, 0;
      TrimHeightStart(nBestCoinHeight, delta);
      var nTrimHeight := (nBestCoinHeight - nTrimHeightDelta) % 0x1_0000_0000_0000_0000;
      var fDone, trimmed := false, 0;
      ShrunkNot(cacheCoins, nTrimHeight);
      while !fDone && DynamicMemoryUsage(nodeBytes, bucketBytes) > nTrimSize
        invariant Valid() && View() == old(View()) && BaseView() == old(BaseView())
        invariant unchanged(this`hashBlock, this`nBestCoinHeight)
        invariant Shrunk(old(cacheCoins), cacheCoins, nTrimmed)
        invariant nTrimHeightDelta == Moved(delta, moves) <= delta
        invariant nTrimHeight == TrimHeight(nBestCoinHeight, delta, moves)
        invariant delta <= nBestCoinHeight ==> ErasedBelow(old(cacheCoins), cacheCoins, nTrimHeight)
        invariant fDone && DynamicMemoryUsage(nodeBytes, bucketBytes) > nTrimSize ==>
                    nTrimHeightDelta <= 50 && NoneBelow(cacheCoins, nTrimHeight)
        invariant old(DynamicMemoryUsage(nodeBytes, bucketBytes)) <= nTrimSize ==>
                    nTrimmed == 0 && DynamicMemoryUsage(nodeBytes, bucketBytes) <= nTrimSize
        decreases if !fDone && DynamicMemoryUsage(nodeBytes, bucketBytes) > nTrimSize then nTrimHeightDelta + 1 else 0
      {
        ghost var before := cacheCoins;
        fDone, trimmed := TrimPass(nTrimSize, nTrimHeight, false, nodeBytes, bucketBytes);
        ShrunkMore(old(cacheCoins), before, cacheCoins, nTrimmed, trimmed);
        if delta <= nBestCoinHeight {
          BelowMore(old(cacheCoins), before, cacheCoins, nTrimmed, nTrimHeight);
        }
        nTrimmed := nTrimmed + trimmed;
        if fDone && DynamicMemoryUsage(nodeBytes, bucketBytes) > nTrimSize && nTrimHeightDelta > 50 {
          nTrimHeightDelta := MoveDelta(nTrimHeightDelta);
          TrimHeightStep(nBestCoinHeight, delta, moves);
          moves := moves + 1;
          ghost var height := nTrimHeight;
          nTrimHeight := if nBestCoinHeight > nTrimHeightDelta then nBestCoinHeight - nTrimHeightDelta else 0;
          if delta <= nBestCoinHeight {
            BelowHigher(old(cacheCoins), cacheCoins, height, nTrimHeight);
          }
          fDone := false;
        }
      }
    }

    /** Shrinks the cache to a target size. It terminates, shows the same coins
        afterwards, erases only entries without flags, and ends within the target
        or with nothing but flagged entries left. The delta is shared by all
        caches, so it comes in as a parameter and goes out as a result: moved towards
        the tip, and 50 back but not beyond the tip's height if nothing was erased.
        Unless the first height wraps, coins go in the order of age: one above the last
        trim height only when none without flags is left below it. */
    method Trim(nTrimSize: nat, delta: nat, nodeBytes: nat, bucketBytes: nat)
      returns (nTrimHeightDelta: nat, ghost moves: nat)
      requires Valid() && delta < 0x1_0000_0000_0000_0000
      modifies this
      ensures Valid() && View() == old(View()) && BaseView() == old(BaseView())
      ensures unchanged(this`hashBlock, this`nBestCoinHeight)
      ensures DynamicMemoryUsage(nodeBytes, bucketBytes) <= nTrimSize || AllFlagged(cacheCoins)
      ensures Shrunk(old(cacheCoins), cacheCoins, |old(cacheCoins)| - |cacheCoins|)
      ensures old(DynamicMemoryUsage(nodeBytes, bucketBytes)) <= nTrimSize ==> cacheCoins == old(cacheCoins)
      ensures delta <= nBestCoinHeight ==>
                var height := TrimHeight(nBestCoinHeight, delta, moves);
                ErasedBelow(old(cacheCoins), cacheCoins, height) || NoneBelow(cacheCoins, height)
      ensures Moved(delta, moves) <= delta
      ensures nTrimHeightDelta == if cacheCoins != old(cacheCoins) then Moved(delta, moves)
                                  else if Moved(delta, moves) + 50 <= nBestCoinHeight then Moved(delta, moves) + 50
                                  else nBestCoinHeight
    {
      hide Overlay, Sum, NextDelta, FlagsOk, AllUnspent, DynamicMemoryUsage, ErasedBelow, NoneBelow, AllFlagged;
      hide Shrunk, TrimHeight;
      nTrimHeightDelta, moves := delta, 0;
      ShrunkNot(cacheCoins, TrimHeight(nBestCoinHeight, delta, 0));
      var nTrimHeight := (nBestCoinHeight - nTrimHeightDelta) % 0x1_0000_0000_0000_0000;
      if nTrimHeight == 0 && DynamicMemoryUsage(nodeBytes, bucketBytes) <= nTrimSize {
        return;
      }
      var nTrimmed;
      nTrimHeightDelta, nTrimmed, moves := TrimByHeight(nTrimSize, delta, nodeBytes, bucketBytes);
      ghost var before := cacheCoins;
      var atEnd, trimmed := TrimPass(nTrimSize, 0, true, nodeBytes, bucketBytes);
      ShrunkMore(old(cacheCoins), before, cacheCoins, nTrimmed, trimmed);
      if trimmed != 0 {
        NoneBelowStill(before, cacheCoins, trimmed, TrimHeight(nBestCoinHeight, delta, moves));
      }
      nTrimmed := nTrimmed + trimmed;
      ShrunkIs(old(cacheCoins), cacheCoins, nTrimmed);
      ShrunkIs(before, cacheCoins, trimmed);
      if nTrimmed == 0 {
        nTrimHeightDelta := nTrimHeightDelta + 50;
        if nTrimHeightDelta > nBestCoinHeight {
          nTrimHeightDelta := nBestCoinHeight;
        }
      }
    }
  }

  /** n entries, none of them with flags, have been erased. */
  ghost predicate Shrunk(before: Entries, after: Entries, n: int) {
    && after.Keys <= before.Keys && (n == 0 <==> after == before) && n == |before| - |after|
    && forall o | o in before :: if o in after then after[o] == before[o] else before[o].NoFlags()
  }

  /** All that was erased is below the height. */
  ghost predicate ErasedBelow(before: Entries, after: Entries, height: int) {
    forall o | o in before && o !in after :: before[o].coin.nHeight < height
  }

  /** Nothing without flags is left below the height. */
  ghost predicate NoneBelow(entries: Entries, height: int) {
    forall o | o in entries :: entries[o].NoFlags() ==> entries[o].coin.nHeight >= height
  }

  ghost predicate AllFlagged(entries: Entries) {
    forall o | o in entries :: !entries[o].NoFlags()
  }

  lemma BelowMore(first: Entries, before: Entries, after: Entries, n: nat, height: int)
    requires Shrunk(first, before, n) && ErasedBelow(first, before, height) && ErasedBelow(before, after, height)
    ensures ErasedBelow(first, after, height)
  {
  }

  lemma BelowHigher(before: Entries, after: Entries, height: int, higher: int)
    requires ErasedBelow(before, after, height) && height <= higher
    ensures ErasedBelow(before, after, higher)
  {
  }

  lemma NoneBelowStill(before: Entries, after: Entries, n: nat, height: int)
    requires Shrunk(before, after, n) && NoneBelow(before, height)
    ensures NoneBelow(after, height)
  {
  }

  lemma ShrunkNot(entries: Entries, height: int)
    ensures Shrunk(entries, entries, 0) && ErasedBelow(entries, entries, height)
  {
  }

  /** What is not in `todo` has flags, or is not below the height that counts. */
  ghost predicate Passed(entries: Entries, todo: set<OutPoint>, height: int, anyHeight: bool) {
    forall o | o in entries && o !in todo ::
      entries[o].NoFlags() ==> !anyHeight && entries[o].coin.nHeight >= height
  }

  lemma NothingPassed(entries: Entries, height: int, anyHeight: bool)
    ensures Passed(entries, entries.Keys, height, anyHeight)
  {
  }

  lemma AllPassed(entries: Entries, height: int, anyHeight: bool)
    requires Passed(entries, {}, height, anyHeight)
    ensures if anyHeight then AllFlagged(entries) else NoneBelow(entries, height)
  {
  }

  lemma PassedStep(entries: Entries, todo: set<OutPoint>, o: OutPoint, height: int, anyHeight: bool)
    requires Passed(entries, todo, height, anyHeight) && o in entries
    ensures if entries[o].NoFlags() && (anyHeight || entries[o].coin.nHeight < height)
            then Passed(entries - {o}, todo - {o}, height, anyHeight)
            else Passed(entries, todo - {o}, height, anyHeight)
  {
  }

  lemma ShrunkStep(before: Entries, entries: Entries, n: nat, o: OutPoint, height: int, anyHeight: bool)
    requires Shrunk(before, entries, n) && o in entries && entries[o].NoFlags()
    requires !anyHeight ==> ErasedBelow(before, entries, height) && entries[o].coin.nHeight < height
    ensures Shrunk(before, entries - {o}, n + 1)
    ensures !anyHeight ==> ErasedBelow(before, entries - {o}, height)
  {
    var after := entries - {o};
    assert after.Keys == entries.Keys - {o};
  }

  lemma ShrunkIs(before: Entries, after: Entries, n: nat)
    requires Shrunk(before, after, n)
    ensures n == |before| - |after| && (n == 0 <==> after == before)
  {
  }

  lemma ShrunkMore(first: Entries, before: Entries, after: Entries, n: nat, k: nat)
    requires Shrunk(first, before, n) && Shrunk(before, after, k)
    ensures Shrunk(first, after, n + k)
  {
  }

  // -------------------------------------------------------- where promises end

  /** A coin whose script is too long to be stored in place. */
  function LongCoin(nValue: nat): (coin: Coin)
    ensures !coin.IsSpent() && !IsUnspendable(coin.out.scriptPubKey) && CoinUsage(coin) == 48
  {
    Coin(TxOut(nValue, seq(29, _ => 0)), false, false, 0, 0)
  }

  /** A rejected coin leaves the accounting wrong. */
  method ThrowLosesUsage(o: OutPoint) returns (cache: CoinsViewCache, threw: bool)
    ensures threw && cache.Linked() && !cache.Valid()
    ensures cache.View() == map[o := LongCoin(1)] && cache.cachedCoinsUsage == 0
  {
    var db := new CoinsViewDB(map[]);
    cache := new CoinsViewCache(Database(db));
    var _ := cache.AddCoin(o, LongCoin(1), false);
    threw := cache.AddCoin(o, LongCoin(2), false);
  }

  /** A coin that was never read up from below is replaced without a throw. */
  method HiddenCoinReplaced(o: OutPoint) returns (cache: CoinsViewCache, threw: bool)
    ensures !threw && cache.Linked() && !cache.Valid() && cache.cacheCoins.Keys == {o} && cache.cacheCoins[o].isFresh
  {
    var db := new CoinsViewDB(map[o := LongCoin(1)]);
    cache := new CoinsViewCache(Database(db));
    threw := cache.AddCoin(o, LongCoin(2), false);
  }

  /** Flushing a cache that has no best block of its own makes its parent forget one. */
  method FlushForgetsBest(hash: BlockHash) returns (parent: CoinsViewCache)
    requires hash != NULL_HASH
    ensures parent.Valid() && parent.Best() == NULL_HASH
  {
    var db := new CoinsViewDB(map[]);
    parent := new CoinsViewCache(Database(db));
    parent.SetBestBlock(hash);
    assert parent.Best() == hash;
    var child := new CoinsViewCache(Parent(parent));
    child.Flush();
  }
}
