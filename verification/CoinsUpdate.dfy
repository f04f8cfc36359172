/** Applying a transaction to the unspent set through a cache. */
module CoinsUpdate {
  import opened Sequences
  import opened MapSums
  import opened CoinModel
  import opened CoinsCache

  datatype Transaction = Transaction(txid: nat, nTime: nat, vin: seq<OutPoint>, vout: seq<TxOut>)
  {
    predicate IsCoinBase() { |vin| == 1 && vin[0] == NULL_OUTPOINT }

    predicate IsCoinStake() { |vin| > 0 && vin[0] != NULL_OUTPOINT && |vout| >= 2 && vout[0].IsEmpty() }

    function OutputCoin(i: nat, nHeight: Height): Coin
      requires i < |vout|
    {
      Coin(vout[i], IsCoinBase(), IsCoinStake(), nHeight, nTime)
    }

    predicate Spendable(i: nat)
      requires i < |vout|
    {
      !IsUnspendable(vout[i].scriptPubKey)
    }
  }

  const NULL_OUTPOINT := OutPoint(0, 0xffff_ffff)

  function CoinValue(c: Coin): int { c.out.nValue }

  /** The total value of an unspent set. */
  ghost function TotalValue(v: View): int { Sum(v, CoinValue) }

  ghost function SumCoins(coins: seq<Coin>): int {
    if coins == [] then 0 else SumCoins(coins[..|coins| - 1]) + CoinValue(coins[|coins| - 1])
  }

  /** The spendable ones among the first `n` outputs. */
  function Outputs(tx: Transaction, nHeight: Height, n: nat): View
    requires n <= |tx.vout|
  {
    if n == 0 then map[]
    else
      var outs := Outputs(tx, nHeight, n - 1);
      if tx.Spendable(n - 1) then outs[OutPoint(tx.txid, n - 1) := tx.OutputCoin(n - 1, nHeight)] else outs
  }

  ghost function OutputValue(tx: Transaction, n: nat): int
    requires n <= |tx.vout|
  {
    if n == 0 then 0 else OutputValue(tx, n - 1) + (if tx.Spendable(n - 1) then tx.vout[n - 1].nValue else 0)
  }

  /** Puts the coins of an undo record back at the outpoints they came from, last one first. */
  function Restore(v: View, ins: seq<OutPoint>, undo: seq<Coin>): View
    requires |ins| == |undo|
    decreases |ins|
  {
    if ins == [] then v
    else Restore(v[ins[|ins| - 1] := undo[|ins| - 1]], ins[..|ins| - 1], undo[..|ins| - 1])
  }

  /** Spending the inputs one after another; a second spend finds nothing. */
  function SpendAll(v: View, ins: seq<OutPoint>): View {
    if ins == [] then v else SpendAll(v, ins[..|ins| - 1]) - {ins[|ins| - 1]}
  }

  /** What the spends hand back, in input order. */
  function SpentCoins(v: View, ins: seq<OutPoint>): (undo: seq<Coin>)
    ensures |undo| == |ins|
  {
    if ins == [] then []
    else SpentCoins(v, ins[..|ins| - 1]) + [CoinAt(SpendAll(v, ins[..|ins| - 1]), ins[|ins| - 1])]
  }

  lemma {:induction false} SpendAllIsDifference(v: View, ins: seq<OutPoint>)
    ensures SpendAll(v, ins) == v - (set o | o in ins)
  {
    if ins != [] {
      SpendAllIsDifference(v, ins[..|ins| - 1]);
      assert ins == ins[..|ins| - 1] + [ins[|ins| - 1]];
    }
  }

  /** Distinct unspent inputs come back exactly, in input order. */
  lemma {:induction false} SpentCoinsExact(v: View, ins: seq<OutPoint>)
    requires Distinct(ins) && forall o | o in ins :: o in v
    ensures forall i | 0 <= i < |ins| :: SpentCoins(v, ins)[i] == v[ins[i]]
  {
    if ins != [] {
      var front, last := ins[..|ins| - 1], ins[|ins| - 1];
      SpentCoinsExact(v, front);
      SpendAllIsDifference(v, front);
      assert last !in front;
    }
  }

  /** The undo record recovers the spent coins: restoring undoes spending. */
  lemma {:induction false} RestoreUndoesSpend(v: View, ins: seq<OutPoint>)
    requires Distinct(ins) && forall o | o in ins :: o in v
    ensures Restore(SpendAll(v, ins), ins, SpentCoins(v, ins)) == v
  {
    if ins != [] {
      var front, last := ins[..|ins| - 1], ins[|ins| - 1];
      SpendAllIsDifference(v, front);
      assert last !in front;
      assert SpendAll(v, ins)[last := SpentCoins(v, ins)[|front|]] == SpendAll(v, front);
      assert SpentCoins(v, ins)[..|front|] == SpentCoins(v, front);
      RestoreUndoesSpend(v, front);
    }
  }

  /** Spending distinct unspent inputs lowers the total by exactly their value. */
  lemma {:induction false} SpendValue(v: View, ins: seq<OutPoint>)
    requires Distinct(ins) && forall o | o in ins :: o in v
    ensures TotalValue(SpendAll(v, ins)) == TotalValue(v) - SumCoins(SpentCoins(v, ins))
  {
    if ins != [] {
      var front, last := ins[..|ins| - 1], ins[|ins| - 1];
      SpendValue(v, front);
      SpendAllIsDifference(v, front);
      assert last !in front;
      SumSplit(SpendAll(v, front), CoinValue, last);
      assert SpentCoins(v, ins)[..|ins| - 1] == SpentCoins(v, front);
    }
  }

  /** Outputs holds exactly the spendable outputs, each at its own outpoint. */
  lemma {:induction false} OutputsMeaning(tx: Transaction, nHeight: Height, n: nat, o: OutPoint)
    requires n <= |tx.vout|
    ensures o in Outputs(tx, nHeight, n) <==> o.hash == tx.txid && o.n < n && tx.Spendable(o.n)
    ensures o in Outputs(tx, nHeight, n) ==> Outputs(tx, nHeight, n)[o] == tx.OutputCoin(o.n, nHeight)
  {
    if n > 0 {
      OutputsMeaning(tx, nHeight, n - 1, o);
    }
  }

  /** The coin of the i-th output, field by field: it is marked as a coinbase's if the only input
      is the null outpoint, and as a stake's if the first input is not and the first of at least
      two outputs is empty. */
  ghost predicate CoinOf(c: Coin, tx: Transaction, nHeight: Height, i: nat)
    requires i < |tx.vout|
  {
    && c.out == tx.vout[i] && c.nHeight == nHeight && c.nTime == tx.nTime
    && (c.fCoinBase <==> tx.vin == [OutPoint(0, 0xffff_ffff)])
    && (c.fCoinStake <==>
          && tx.vin != [] && tx.vin[0] != OutPoint(0, 0xffff_ffff)
          && |tx.vout| >= 2 && tx.vout[0].nValue == 0 && tx.vout[0].scriptPubKey == [])
  }

  /** Of the outpoints of a transaction, the view has those whose script does not begin with
      OP_RETURN; of the others nothing that was not there before. */
  ghost predicate Minted(before: View, v: View, tx: Transaction, nHeight: Height) {
    forall i | 0 <= i < |tx.vout| ::
      var o, script := OutPoint(tx.txid, i), tx.vout[i].scriptPubKey;
      if script == [] || script[0] != 0x6a then o in v && CoinOf(v[o], tx, nHeight, i)
      else o in v <==> o in before
  }

  lemma OutputsMinted(before: View, v: View, tx: Transaction, nHeight: Height)
    requires v == before + Outputs(tx, nHeight, |tx.vout|)
    ensures Minted(before, v, tx, nHeight)
  {
    hide Outputs;
    forall i | 0 <= i < |tx.vout|
      ensures var o, script := OutPoint(tx.txid, i), tx.vout[i].scriptPubKey;
              if script == [] || script[0] != 0x6a then o in v && CoinOf(v[o], tx, nHeight, i)
              else o in v <==> o in before
    {
      OutputsMeaning(tx, nHeight, |tx.vout|, OutPoint(tx.txid, i));
    }
  }

  /** Adding outputs at unoccupied outpoints raises the total by exactly their value. */
  lemma {:induction false} AddValue(v: View, tx: Transaction, nHeight: Height, n: nat)
    requires n <= |tx.vout|
    requires forall o | o in Outputs(tx, nHeight, n) :: o !in v
    ensures TotalValue(v + Outputs(tx, nHeight, n)) == TotalValue(v) + OutputValue(tx, n)
  {
    hide Sum;
    if n == 0 {
      assert v + Outputs(tx, nHeight, 0) == v;
    } else {
      AddValue(v, tx, nHeight, n - 1);
      if tx.Spendable(n - 1) {
        var o := OutPoint(tx.txid, n - 1);
        OutputsMeaning(tx, nHeight, n - 1, o);
        assert o in Outputs(tx, nHeight, n);
        SumUpdate(v + Outputs(tx, nHeight, n - 1), CoinValue, o, tx.OutputCoin(n - 1, nHeight));
        assert v + Outputs(tx, nHeight, n) == (v + Outputs(tx, nHeight, n - 1))[o := tx.OutputCoin(n - 1, nHeight)];
      }
    }
  }

  /** Conservation: what a transaction does to the total is outputs minus inputs. */
  lemma ValueConserved(v: View, tx: Transaction, nHeight: Height)
    requires Distinct(tx.vin) && forall o | o in tx.vin :: o in v
    requires forall o | o in Outputs(tx, nHeight, |tx.vout|) :: o !in SpendAll(v, tx.vin)
    ensures TotalValue(SpendAll(v, tx.vin) + Outputs(tx, nHeight, |tx.vout|))
            == TotalValue(v) - SumCoins(SpentCoins(v, tx.vin)) + OutputValue(tx, |tx.vout|)
  {
    SpendValue(v, tx.vin);
    AddValue(SpendAll(v, tx.vin), tx, nHeight, |tx.vout|);
  }

  /** The whole transaction is undone by dropping its outputs and restoring the undo record. */
  lemma UndoRecoversView(v: View, tx: Transaction, nHeight: Height)
    requires Distinct(tx.vin) && forall o | o in tx.vin :: o in v
    requires forall o | o in Outputs(tx, nHeight, |tx.vout|) :: o !in SpendAll(v, tx.vin)
    ensures var outs := Outputs(tx, nHeight, |tx.vout|);
            Restore(SpendAll(v, tx.vin) + outs - outs.Keys, tx.vin, SpentCoins(v, tx.vin)) == v
  {
    var outs := Outputs(tx, nHeight, |tx.vout|);
    assert SpendAll(v, tx.vin) + outs - outs.Keys == SpendAll(v, tx.vin);
    RestoreUndoesSpend(v, tx.vin);
  }

  /** Adds a transaction's outputs. Only a coinbase may replace unspent coins. */
  method AddCoins(cache: CoinsViewCache, tx: Transaction, nHeight: Height)
    requires cache.Valid()
    requires forall out | out in tx.vout :: !out.IsNull()
    requires tx.IsCoinBase() || forall o | o in Outputs(tx, nHeight, |tx.vout|) :: o !in cache.View()
    modifies cache
    ensures cache.Valid() && cache.BaseView() == old(cache.BaseView())
    ensures cache.View() == old(cache.View()) + Outputs(tx, nHeight, |tx.vout|)
    ensures Minted(old(cache.View()), cache.View(), tx, nHeight)
  {
    hide Minted;
    hide Overlay, Sum, CoinsViewCache.Accurate, HeightsBounded, AddedEntry, PriorEntry, NoHiddenCoin;
    for i := 0 to |tx.vout|
      invariant cache.Valid() && cache.BaseView() == old(cache.BaseView())
      invariant cache.View() == old(cache.View()) + Outputs(tx, nHeight, i)
    {
      var o := OutPoint(tx.txid, i);
      OutputsMeaning(tx, nHeight, i, o);
      OutputsMeaning(tx, nHeight, |tx.vout|, o);
      NotVisibleNotHidden(cache.cacheCoins, cache.BaseView(), o);
      assert !tx.IsCoinBase() && tx.Spendable(i) ==> o !in cache.View();
      var threw := cache.AddCoin(o, tx.OutputCoin(i, nHeight), tx.IsCoinBase());
    }
    OutputsMinted(old(cache.View()), cache.View(), tx, nHeight);
  }

  /** Applies a transaction and records what it spent. */
  method UpdateCoins(tx: Transaction, inputs: CoinsViewCache, nHeight: Height) returns (vprevout: seq<Coin>)
    requires inputs.Valid()
    requires forall out | out in tx.vout :: !out.IsNull()
    requires tx.IsCoinBase() || forall o | o in Outputs(tx, nHeight, |tx.vout|) :: o !in SpendAll(inputs.View(), tx.vin)
    modifies inputs.Repr
    ensures inputs.Valid() && inputs.BaseView() == old(inputs.BaseView())
    ensures tx.IsCoinBase() ==> vprevout == [] && inputs.View() == old(inputs.View()) + Outputs(tx, nHeight, |tx.vout|)
    ensures !tx.IsCoinBase() ==>
              && vprevout == SpentCoins(old(inputs.View()), tx.vin)
              && inputs.View() == SpendAll(old(inputs.View()), tx.vin) + Outputs(tx, nHeight, |tx.vout|)
    ensures var before := if tx.IsCoinBase() then old(inputs.View()) else SpendAll(old(inputs.View()), tx.vin);
            Minted(before, inputs.View(), tx, nHeight)
  {
    hide Overlay, Sum, Minted;
    vprevout := [];
    if !tx.IsCoinBase() {
      for i := 0 to |tx.vin|
        invariant inputs.Valid() && inputs.BaseView() == old(inputs.BaseView())
        invariant inputs.View() == SpendAll(old(inputs.View()), tx.vin[..i])
        invariant vprevout == SpentCoins(old(inputs.View()), tx.vin[..i])
      {
        assert tx.vin[..i + 1][..i] == tx.vin[..i];
        var moveout := inputs.SpendCoin(tx.vin[i]);
        vprevout := vprevout + [moveout];
      }
      assert tx.vin[..|tx.vin|] == tx.vin;
    }
    AddCoins(inputs, tx, nHeight);
  }
}
