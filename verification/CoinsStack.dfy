/** Whole runs over a stack of caches, compared with a stack of plain maps. */
module CoinsStack {
  import opened MapSums
  import opened CoinModel
  import opened CoinsCache

  /** One operation of a run. Level 0 is the database, level k the k-th cache. */
  datatype Op =
    | Push
    | Pop
    | Fetch(level: nat, o: OutPoint)
    | Add(o: OutPoint, coin: Coin, possibleOverwrite: bool)
    | Spend(o: OutPoint)
    | Uncache(level: nat, o: OutPoint)
    | Trim(level: nat, size: nat, delta: nat)
    | Flush(level: nat)

  /** What a caller must respect: caches are named by level, coins are written at
      the top only, and no unspent coin is replaced unless that was announced. */
  predicate Legal(views: seq<View>, op: Op) {
    match op
    case Push => |views| > 0
    case Pop => |views| > 1
    case Fetch(k, _) => 0 < k < |views|
    case Add(o, coin, overwrite) => |views| > 1 && !coin.IsSpent() && (overwrite || o !in views[|views| - 1])
    case Spend(_) => |views| > 1
    case Uncache(k, _) => 0 < k < |views|
    case Trim(k, _, delta) => 0 < k < |views| && delta < 0x1_0000_0000_0000_0000
    case Flush(k) => 0 < k < |views|
  }

  /** The same operation on a stack of plain maps: caching is invisible. */
  function Step(views: seq<View>, op: Op): (after: seq<View>)
    requires Legal(views, op)
    ensures |after| == |views| + (if op.Push? then 1 else if op.Pop? then -1 else 0)
  {
    var top := |views| - 1;
    match op
    case Push => views + [views[top]]
    case Pop => views[..top]
    case Add(o, coin, _) => if IsUnspendable(coin.out.scriptPubKey) then views else views[top := views[top][o := coin]]
    case Spend(o) => views[top := views[top] - {o}]
    case Flush(k) => views[k - 1 := views[k]]
    case _ => views
  }

  predicate LegalRun(views: seq<View>, ops: seq<Op>)
    decreases |ops|
  {
    ops == [] || (Legal(views, ops[0]) && LegalRun(Step(views, ops[0]), ops[1..]))
  }

  function Run(views: seq<View>, ops: seq<Op>): seq<View>
    requires LegalRun(views, ops)
    decreases |ops|
  {
    if ops == [] then views else Run(Step(views, ops[0]), ops[1..])
  }

  /** The caches are stacked on the database one on the other. */
  ghost predicate Chain(db: CoinsViewDB, caches: seq<CoinsViewCache>) {
    forall k: nat | k < |caches| :: Link(db, caches, k)
  }

  ghost predicate Link(db: CoinsViewDB, caches: seq<CoinsViewCache>, k: nat)
    requires k < |caches|
  {
    && caches[k].Linked()
    && caches[k].depth == k
    && caches[k].base == (if k == 0 then Database(db) else Parent(caches[k - 1]))
    && (forall j: nat | j < k :: caches[j].Repr <= caches[k].Repr && caches[k] !in caches[j].Repr)
  }

  /** Every object of the stack. */
  ghost function Objects(db: CoinsViewDB, caches: seq<CoinsViewCache>): set<object> {
    if caches == [] then {db} else caches[|caches| - 1].Repr
  }

  /** One cache, lying on `below`, is accurate and shows `shown`. */
  ghost predicate LevelOk(cache: CoinsViewCache, below: View, shown: View)
    reads cache
  {
    && AllUnspent(below)
    && FlagsOk(cache.cacheCoins, below)
    && cache.cachedCoinsUsage == Sum(cache.cacheCoins, EntryUsage)
    && HeightsBounded(cache.cacheCoins, cache.nBestCoinHeight)
    && Overlay(cache.cacheCoins, below) == shown
  }

  /** The stack shows `views`, level by level. */
  ghost predicate Shows(db: CoinsViewDB, caches: seq<CoinsViewCache>, views: seq<View>)
    reads db, caches
  {
    && Chain(db, caches)
    && |views| == |caches| + 1
    && db.coins == views[0] && AllUnspent(db.coins)
    && forall k: nat | k < |caches| :: LevelOk(caches[k], views[k], views[k + 1])
  }

  /** Level by level correctness is validity of the cache above. */
  lemma {:induction false} Assemble(db: CoinsViewDB, caches: seq<CoinsViewCache>, views: seq<View>, k: nat)
    requires Shows(db, caches, views) && k < |caches|
    ensures caches[k].Valid() && caches[k].Levels() == views[..k + 2]
  {
    hide Overlay, Sum, FlagsOk, HeightsBounded, AllUnspent;
    assert Link(db, caches, k) && LevelOk(caches[k], views[k], views[k + 1]);
    if k > 0 {
      Assemble(db, caches, views, k - 1);
      assert Link(db, caches, k - 1);
      assert views[..k + 2] == views[..k + 1] + [views[k + 1]];
    } else {
      assert views[..2] == [views[0], views[1]];
    }
  }

  /** ... and back. */
  lemma {:induction false} Disassemble(db: CoinsViewDB, caches: seq<CoinsViewCache>, views: seq<View>, k: nat)
    requires Chain(db, caches) && k < |caches| && k + 2 <= |views|
    requires caches[k].Valid() && caches[k].Levels() == views[..k + 2]
    ensures db.coins == views[0] && AllUnspent(db.coins)
    ensures forall j: nat | j <= k :: LevelOk(caches[j], views[j], views[j + 1])
  {
    hide Overlay, Sum, FlagsOk, HeightsBounded, AllUnspent;
    assert Link(db, caches, k);
    assert caches[k].BaseView() == views[..k + 2][k] && caches[k].View() == views[..k + 2][k + 1];
    if k > 0 {
      assert caches[k - 1].Levels() == caches[k].Levels()[..k + 1] == views[..k + 1];
      Disassemble(db, caches, views, k - 1);
    } else {
      assert views[..2][0] == views[0];
    }
  }

  /** If the stack up to level `k` shows what is announced, and so does each level
      above, then the whole stack does. */
  lemma Reassemble(db: CoinsViewDB, caches: seq<CoinsViewCache>, views: seq<View>, k: nat)
    requires Chain(db, caches) && k < |caches| && |views| == |caches| + 1
    requires caches[k].Valid() && caches[k].Levels() == views[..k + 2]
    requires forall j: nat | k < j < |caches| :: LevelOk(caches[j], views[j], views[j + 1])
    ensures Shows(db, caches, views)
  {
    Disassemble(db, caches, views, k);
  }

  lemma Below(db: CoinsViewDB, caches: seq<CoinsViewCache>, k: nat)
    requires Chain(db, caches) && k < |caches|
    ensures caches[k].Repr <= Objects(db, caches)
    ensures forall j: nat | k < j < |caches| :: caches[j] !in caches[k].Repr
  {
    assert Link(db, caches, |caches| - 1);
    forall j: nat | k < j < |caches|
      ensures caches[j] !in caches[k].Repr
    {
      assert Link(db, caches, j);
    }
  }

  /** A new cache on top of the stack. */
  method PushCache(db: CoinsViewDB, caches: seq<CoinsViewCache>, ghost views: seq<View>)
    returns (after: seq<CoinsViewCache>)
    requires Shows(db, caches, views)
    ensures Shows(db, after, views + [views[|views| - 1]])
    ensures |after| == |caches| + 1 && after[..|caches|] == caches && fresh(after[|caches|])
    ensures Objects(db, after) == Objects(db, caches) + {after[|caches|]}
  {
    hide Overlay, Sum, FlagsOk, AllUnspent, HeightsBounded, LevelOk;
    var n := |caches|;
    var base := Database(db);
    if n > 0 {
      base := Parent(caches[n - 1]);
      Assemble(db, caches, views, n - 1);
      OverlayUnspent(caches[n - 1].cacheCoins, caches[n - 1].BaseView());
    }
    assert forall j: nat | j < n :: LevelOk(caches[j], views[j], views[j + 1]);
    var cache := new CoinsViewCache(base);
    after := caches + [cache];
    ghost var shown := views + [views[n]];
    ChainPush(db, caches, cache);
    if n > 0 {
      assert cache.Levels() == caches[n - 1].Levels() + [cache.View()];
      assert shown[..n + 2] == views[..n + 1] + [views[n]];
    }
    assert cache.Levels() == shown[..n + 2];
    Reassemble(db, after, shown, n);
  }

  lemma ChainPush(db: CoinsViewDB, caches: seq<CoinsViewCache>, cache: CoinsViewCache)
    requires Chain(db, caches) && cache.Linked()
    requires cache.base == if caches == [] then Database(db) else Parent(caches[|caches| - 1])
    requires forall c | c in caches :: cache !in c.Repr
    ensures Chain(db, caches + [cache])
  {
    var after := caches + [cache];
    forall k: nat | k < |after| ensures Link(db, after, k) {
      if k < |caches| {
        assert Link(db, caches, k);
      } else if k > 0 {
        assert Link(db, caches, k - 1);
      }
    }
  }

  method Read(db: CoinsViewDB, caches: seq<CoinsViewCache>, k: nat, o: OutPoint, ghost views: seq<View>)
    requires Shows(db, caches, views) && k < |caches|
    modifies Objects(db, caches)
    ensures Shows(db, caches, views)
  {
    hide Overlay, Sum, FlagsOk, AllUnspent, HeightsBounded, LevelOk;
    Assemble(db, caches, views, k);
    Below(db, caches, k);
    assert forall j: nat | k < j < |caches| :: LevelOk(caches[j], views[j], views[j + 1]);
    var found, coin := caches[k].GetCoin(o);
    Reassemble(db, caches, views, k);
  }

  method Write(db: CoinsViewDB, caches: seq<CoinsViewCache>, o: OutPoint, coin: Coin, possibleOverwrite: bool,
               ghost views: seq<View>)
    requires Shows(db, caches, views) && Legal(views, Add(o, coin, possibleOverwrite))
    modifies Objects(db, caches)
    ensures Shows(db, caches, Step(views, Add(o, coin, possibleOverwrite)))
  {
    hide Overlay, Sum, FlagsOk, AllUnspent, HeightsBounded, LevelOk;
    var k := |caches| - 1;
    Assemble(db, caches, views, k);
    Below(db, caches, k);
    assert caches[k].View() == caches[k].Levels()[k + 1] == views[k + 1];
    NotVisibleNotHidden(caches[k].cacheCoins, caches[k].BaseView(), o);
    var threw := caches[k].AddCoin(o, coin, possibleOverwrite);
    Reassemble(db, caches, Step(views, Add(o, coin, possibleOverwrite)), k);
  }

  method Remove(db: CoinsViewDB, caches: seq<CoinsViewCache>, o: OutPoint, ghost views: seq<View>)
    requires Shows(db, caches, views) && Legal(views, Spend(o))
    modifies Objects(db, caches)
    ensures Shows(db, caches, Step(views, Spend(o)))
  {
    hide Overlay, Sum, FlagsOk, AllUnspent, HeightsBounded, LevelOk;
    var k := |caches| - 1;
    Assemble(db, caches, views, k);
    Below(db, caches, k);
    var moveout := caches[k].SpendCoin(o);
    Reassemble(db, caches, Step(views, Spend(o)), k);
  }

  method Shrink(db: CoinsViewDB, caches: seq<CoinsViewCache>, op: Op, nodeBytes: nat, bucketBytes: nat,
                ghost views: seq<View>)
    requires Shows(db, caches, views) && Legal(views, op) && (op.Uncache? || op.Trim?)
    modifies Objects(db, caches)
    ensures Shows(db, caches, views)
  {
    hide Overlay, Sum, FlagsOk, AllUnspent, HeightsBounded, LevelOk;
    var k := op.level - 1;
    Assemble(db, caches, views, k);
    Below(db, caches, k);
    assert forall j: nat | k < j < |caches| :: LevelOk(caches[j], views[j], views[j + 1]);
    match op {
      case Uncache(_, o) => caches[k].Uncache(o);
      case Trim(_, size, delta) => var next, moves := caches[k].Trim(size, delta, nodeBytes, bucketBytes);
    }
    Reassemble(db, caches, views, k);
  }

  lemma ShownAfterFlush(views: seq<View>, k: nat)
    requires k + 1 < |views|
    ensures Step(views, Flush(k + 1))[..k + 2] == views[..k + 2][k := views[k + 1]]
    ensures forall j | k < j < |views| :: Step(views, Flush(k + 1))[j] == views[j]
  {
  }

  method FlushAt(db: CoinsViewDB, caches: seq<CoinsViewCache>, k: nat, ghost views: seq<View>)
    requires Shows(db, caches, views) && k < |caches|
    modifies Objects(db, caches)
    ensures Shows(db, caches, Step(views, Flush(k + 1)))
  {
    hide Overlay, Sum, FlagsOk, AllUnspent, HeightsBounded, LevelOk;
    Assemble(db, caches, views, k);
    Below(db, caches, k);
    assert forall j: nat | k < j < |caches| :: LevelOk(caches[j], views[j], views[j + 1]);
    caches[k].Flush();
    ghost var shown := Step(views, Flush(k + 1));
    ShownAfterFlush(views, k);
    assert forall j: nat | k < j < |caches| :: LevelOk(caches[j], shown[j], shown[j + 1]);
    Reassemble(db, caches, shown, k);
  }

  /** Carries out any legal run. What the caches show afterwards, level by level, is
      what the plain maps hold after the same run. */
  method Replay(db: CoinsViewDB, ops: seq<Op>, nodeBytes: nat, bucketBytes: nat) returns (caches: seq<CoinsViewCache>)
    requires AllUnspent(db.coins) && LegalRun([db.coins], ops)
    modifies db
    ensures Shows(db, caches, Run([old(db.coins)], ops))
  {
    caches := [];
    ghost var views := [db.coins];
    for i := 0 to |ops|
      invariant Shows(db, caches, views)
      invariant fresh(Objects(db, caches) - {db})
      invariant LegalRun(views, ops[i..]) && Run(views, ops[i..]) == Run([old(db.coins)], ops)
    {
      hide Overlay, Sum, FlagsOk, AllUnspent, HeightsBounded, LevelOk;
      var op := ops[i];
      assert ops[i..][0] == op && ops[i..][1..] == ops[i + 1..];
      match op {
        case Push => caches := PushCache(db, caches, views);
        case Pop => caches := PopCache(db, caches, views);
        case Fetch(k, o) => Read(db, caches, k - 1, o, views);
        case Add(o, coin, overwrite) => Write(db, caches, o, coin, overwrite, views);
        case Spend(o) => Remove(db, caches, o, views);
        case Flush(k) => FlushAt(db, caches, k - 1, views);
        case _ => Shrink(db, caches, op, nodeBytes, bucketBytes, views);
      }
      views := Step(views, op);
    }
    assert ops[|ops|..] == [];
  }

  /** Dropping the top cache forgets what was not flushed. */
  method PopCache(db: CoinsViewDB, caches: seq<CoinsViewCache>, ghost views: seq<View>)
    returns (after: seq<CoinsViewCache>)
    requires Shows(db, caches, views) && |caches| > 0
    ensures after == caches[..|caches| - 1] && Objects(db, after) <= Objects(db, caches)
    ensures Shows(db, after, views[..|views| - 1])
  {
    hide Overlay, Sum, FlagsOk, AllUnspent, HeightsBounded, LevelOk;
    after := caches[..|caches| - 1];
    assert Link(db, caches, |caches| - 1);
    forall k: nat | k < |after|
      ensures Link(db, after, k) && LevelOk(after[k], views[k], views[k + 1])
    {
      assert Link(db, caches, k) && LevelOk(caches[k], views[k], views[k + 1]);
    }
  }
}
