/** Fee and gas refunds applied to a stored transaction, one record after another. */
module Refunds {
  import opened Wrappers
  import opened ElasticIndex
  import opened TransactionScripts

  /** Records that carry a refund; fees are amounts, so they are not negative. */
  predicate AreRefunds(refunds: seq<FeeData>) {
    forall f :: f in refunds ==> f.gasRefunded != 0 && f.fee >= 0
  }

  function TotalFee(refunds: seq<FeeData>): int {
    if refunds == [] then 0 else TotalFee(refunds[..|refunds| - 1]) + refunds[|refunds| - 1].fee
  }

  function TotalGas(refunds: seq<FeeData>): nat {
    if refunds == [] then 0 else TotalGas(refunds[..|refunds| - 1]) + refunds[|refunds| - 1].gasRefunded
  }

  function AfterRefunds(doc: TxDoc, refunds: seq<FeeData>): Option<TxDoc> {
    Run(Some(doc), FeeAction, refunds)
  }

  /** What every refund of a sequence keeps, stated for the document it leaves. */
  ghost predicate Refunded(doc: TxDoc, refunds: seq<FeeData>, after: TxDoc) {
    && HasFees(doc) && HasFees(after)
    && after.initialPaidFee == doc.initialPaidFee
    && (refunds != [] ==> after.hadRefund == Some(true))
    && (refunds == [] ==> after == doc)
    && (refunds != [] && TotalFee(refunds) < doc.initialPaidFee.value ==>
          after.fee.value == doc.initialPaidFee.value - TotalFee(refunds))
    && (TotalGas(refunds) < doc.gasUsed ==> after.gasUsed == doc.gasUsed - TotalGas(refunds))
    && (doc.fee.value > 0 ==> after.fee.value > 0)
    && (doc.gasUsed > 0 ==> after.gasUsed > 0)
  }

  lemma {:induction false} RefundedAfterAll(doc: TxDoc, refunds: seq<FeeData>)
    requires AreRefunds(refunds) && HasFees(doc) && doc.hadRefund != Some(true)
    ensures AfterRefunds(doc, refunds).Some? && Refunded(doc, refunds, AfterRefunds(doc, refunds).value)
    ensures TotalFee(refunds) >= 0
  {
    if refunds != [] {
      var init, f := refunds[..|refunds| - 1], refunds[|refunds| - 1];
      RefundedAfterAll(doc, init);
      assert f in refunds;
    }
  }

  /**
   * Conservation: the fee left after refunding a transaction is what was paid minus everything
   * refunded exactly when the refunds stay below what was paid; the gas likewise while the refunded
   * gas stays below the gas used. A positive fee and positive gas stay positive whatever is refunded.
   */
  lemma RefundConservation(doc: TxDoc, refunds: seq<FeeData>)
    requires refunds != [] && forall f :: f in refunds ==> f.gasRefunded != 0 && f.fee >= 0
    requires HasFees(doc) && doc.hadRefund != Some(true) && doc.fee.value > 0 && doc.gasUsed > 0
    ensures AfterRefunds(doc, refunds).Some?
    ensures var after := AfterRefunds(doc, refunds).value;
      && after.fee.Some?
      && (after.fee == Some(doc.initialPaidFee.value - TotalFee(refunds)) <==> TotalFee(refunds) < doc.initialPaidFee.value)
      && (after.gasUsed == doc.gasUsed - TotalGas(refunds) <==> TotalGas(refunds) < doc.gasUsed)
      && after.fee.value > 0 && after.gasUsed > 0
      && after.hadRefund == Some(true)
  {
    RefundedAfterAll(doc, refunds);
  }

  function TotalFeeNum(refunds: seq<FeeData>): real {
    if refunds == [] then 0.0 else TotalFeeNum(refunds[..|refunds| - 1]) + refunds[|refunds| - 1].feeNum
  }

  lemma {:induction false} FeeNumAfterAll(doc: TxDoc, refunds: seq<FeeData>)
    requires AreRefunds(refunds) && HasFees(doc) && forall f :: f in refunds ==> f.feeNum >= 0.0
    ensures TotalFeeNum(refunds) >= 0.0 && AfterRefunds(doc, refunds).Some? && HasFees(AfterRefunds(doc, refunds).value)
    ensures var after := AfterRefunds(doc, refunds).value;
      && (TotalFeeNum(refunds) < doc.feeNum ==> after.feeNum == doc.feeNum - TotalFeeNum(refunds))
      && (doc.feeNum > 0.0 ==> after.feeNum > 0.0)
  {
    if refunds != [] {
      assert refunds[|refunds| - 1] in refunds;
      FeeNumAfterAll(doc, refunds[..|refunds| - 1]);
    }
  }

  /** The fee as a number is conserved in the same way, with or without a refund before. */
  lemma FeeNumConservation(doc: TxDoc, refunds: seq<FeeData>)
    requires AreRefunds(refunds) && HasFees(doc) && doc.feeNum > 0.0 && forall f :: f in refunds ==> f.feeNum >= 0.0
    ensures AfterRefunds(doc, refunds).Some?
    ensures AfterRefunds(doc, refunds).value.feeNum == doc.feeNum - TotalFeeNum(refunds) <==> TotalFeeNum(refunds) < doc.feeNum
  {
    FeeNumAfterAll(doc, refunds);
  }

  lemma {:induction false} TotalsAppend(a: seq<FeeData>, b: seq<FeeData>)
    ensures TotalFee(a + b) == TotalFee(a) + TotalFee(b)
    ensures TotalGas(a + b) == TotalGas(a) + TotalGas(b)
  {
    if b == [] {
      assert a + b == a;
    } else {
      assert (a + b)[..|a + b| - 1] == a + b[..|b| - 1];
      TotalsAppend(a, b[..|b| - 1]);
    }
  }

  lemma TotalsOfOne(f: FeeData)
    ensures TotalFee([f]) == f.fee && TotalGas([f]) == f.gasRefunded
  {
    assert [f][..0] == [];
  }

  lemma TotalsWithout(refunds: seq<FeeData>, k: nat)
    requires k < |refunds|
    ensures var rest := refunds[..k] + refunds[k + 1..];
      && TotalFee(refunds) == TotalFee(rest) + refunds[k].fee
      && TotalGas(refunds) == TotalGas(rest) + refunds[k].gasRefunded
      && multiset(refunds) == multiset(rest) + multiset{refunds[k]}
  {
    var before, f, after := refunds[..k], refunds[k], refunds[k + 1..];
    assert refunds == before + ([f] + after);
    TotalsAppend(before, after);
    TotalsAppend(before, [f] + after);
    TotalsAppend([f], after);
    TotalsOfOne(f);
  }

  lemma {:induction false} TotalsOfPermutation(refunds: seq<FeeData>, reordered: seq<FeeData>)
    requires multiset(refunds) == multiset(reordered)
    ensures TotalFee(refunds) == TotalFee(reordered) && TotalGas(refunds) == TotalGas(reordered)
    decreases |refunds|
  {
    if refunds == [] {
      assert |multiset(reordered)| == 0;
    } else {
      var f := refunds[|refunds| - 1];
      var init := refunds[..|refunds| - 1];
      assert refunds == init + [f];
      assert f in multiset(reordered);
      var k :| 0 <= k < |reordered| && reordered[k] == f;
      TotalsWithout(reordered, k);
      var rest := reordered[..k] + reordered[k + 1..];
      assert multiset(init) + multiset{f} == multiset(rest) + multiset{f};
      assert multiset(init) == (multiset(init) + multiset{f}) - multiset{f};
      assert multiset(rest) == (multiset(rest) + multiset{f}) - multiset{f};
      TotalsOfPermutation(init, rest);
    }
  }

  /** Refunds that stay below what was paid may arrive in any order. */
  lemma RefundOrder(doc: TxDoc, refunds: seq<FeeData>, reordered: seq<FeeData>)
    requires AreRefunds(refunds) && multiset(refunds) == multiset(reordered)
    requires HasFees(doc) && doc.hadRefund != Some(true)
    requires TotalFee(refunds) < doc.initialPaidFee.value && TotalGas(refunds) < doc.gasUsed
    ensures AfterRefunds(doc, refunds).Some? && AfterRefunds(doc, reordered).Some?
    ensures AfterRefunds(doc, refunds).value.fee == AfterRefunds(doc, reordered).value.fee
    ensures AfterRefunds(doc, refunds).value.gasUsed == AfterRefunds(doc, reordered).value.gasUsed
  {
    forall f | f in reordered
      ensures f in refunds
    {
      assert f in multiset(reordered);
    }
    TotalsOfPermutation(refunds, reordered);
    RefundedAfterAll(doc, refunds);
    RefundedAfterAll(doc, reordered);
    assert |refunds| == |multiset(refunds)| == |multiset(reordered)| == |reordered|;
  }

  /** Refunds that reach what was paid do depend on their order: 6 then 5 out of 10 leaves 4, 5 then 6 leaves 5. */
  lemma RefundOrderMattersAbove(doc: TxDoc)
    requires doc.initialPaidFee == Some(10) && doc.fee.Some? && doc.hadRefund.None?
    ensures var six, five := FeeData(6, 0, 0.0, 1), FeeData(5, 0, 0.0, 1);
      && AfterRefunds(doc, [six, five]).Some? && AfterRefunds(doc, [five, six]).Some?
      && AfterRefunds(doc, [six, five]).value.fee == Some(4)
      && AfterRefunds(doc, [five, six]).value.fee == Some(5)
  {
    var six, five := FeeData(6, 0, 0.0, 1), FeeData(5, 0, 0.0, 1);
    RunTwo(Some(doc), FeeAction, six, five);
    RunTwo(Some(doc), FeeAction, five, six);
  }

  /** The fee of a transaction after one refund, given the amount it is taken from. */
  function FeeLeft(paid: int, kept: int, refund: int): int {
    if paid > refund then paid - refund else kept
  }

  lemma FeeAfterTwo(doc: TxDoc, f: FeeData, g: FeeData)
    requires HasFees(doc) && doc.fee == doc.initialPaidFee && doc.hadRefund != Some(true)
    requires f.gasRefunded != 0 && g.gasRefunded != 0
    ensures AfterRefunds(doc, [f, g]).Some?
    ensures var left := FeeLeft(doc.fee.value, doc.fee.value, f.fee);
      AfterRefunds(doc, [f, g]).value.fee == Some(FeeLeft(left, left, g.fee))
  {
    RunTwo(Some(doc), FeeAction, f, g);
  }

  /** Two refunds of a transaction leave the same fee in both orders exactly here. */
  lemma TwoRefundsCommuteExactly(doc: TxDoc, f: FeeData, g: FeeData)
    requires HasFees(doc) && doc.fee == doc.initialPaidFee && doc.fee.value > 0 && doc.hadRefund != Some(true)
    requires f.gasRefunded != 0 && g.gasRefunded != 0 && f.fee > 0 && g.fee > 0
    ensures AfterRefunds(doc, [f, g]).Some? && AfterRefunds(doc, [g, f]).Some?
    ensures var paid := doc.initialPaidFee.value;
      AfterRefunds(doc, [f, g]).value.fee == AfterRefunds(doc, [g, f]).value.fee <==>
      f.fee == g.fee || f.fee + g.fee < paid || f.fee >= paid || g.fee >= paid
  {
    FeeAfterTwo(doc, f, g);
    FeeAfterTwo(doc, g, f);
  }

  /** Without a stored transaction, or without both amounts, no refund changes anything. */
  lemma {:induction false} RefundsWithoutFees(stored: Option<TxDoc>, refunds: seq<FeeData>)
    requires AreRefunds(refunds) && (stored.Some? ==> !HasFees(stored.value))
    ensures Run(stored, FeeAction, refunds) == stored
  {
    if refunds != [] {
      assert refunds[|refunds| - 1] in refunds;
      RefundsWithoutFees(stored, refunds[..|refunds| - 1]);
    }
  }

  // ---------------------------------------------------------------- together with overwrites

  /** No fee record, refund or overwrite, creates a document or changes anything but fee, gas and the flag. */
  lemma {:induction false} OnlyFeesChange(stored: Option<TxDoc>, records: seq<FeeData>)
    ensures var after := Run(stored, FeeAction, records);
      && (stored.Some? <==> after.Some?)
      && (stored.Some? ==> var doc := after.value;
            doc == stored.value.(fee := doc.fee, feeNum := doc.feeNum, gasUsed := doc.gasUsed, hadRefund := doc.hadRefund))
  {
    if records != [] {
      OnlyFeesChange(stored, records[..|records| - 1]);
    }
  }

  /** A record that overwrites decides fee and gas, whatever refunds and overwrites came before it. */
  lemma OverwriteDecides(doc: TxDoc, records: seq<FeeData>, f: FeeData)
    requires f.gasRefunded == 0
    ensures AfterRefunds(doc, records + [f]).Some?
    ensures var after := AfterRefunds(doc, records + [f]).value;
      after == doc.(fee := Some(f.fee), feeNum := f.feeNum, gasUsed := f.gasUsed, hadRefund := after.hadRefund)
  {
    OnlyFeesChange(Some(doc), records);
    RunLast(Some(doc), FeeAction, records, f);
  }

  // ---------------------------------------------------------------- fee records among other events

  function FeeRecords(events: seq<TxEvent>): seq<FeeData> {
    if events == [] then []
    else
      var before, e := FeeRecords(events[..|events| - 1]), events[|events| - 1];
      if e.FeeWrite? then before + [e.feeData] else before
  }

  lemma {:induction false} NoFeeRecords(events: seq<TxEvent>)
    ensures FeeRecords(events) == [] <==> forall e :: e in events ==> !e.FeeWrite?
  {
    if events != [] {
      var init, e := events[..|events| - 1], events[|events| - 1];
      assert events == init + [e];
      NoFeeRecords(init);
    }
  }

  lemma {:induction false} EveryRefundCounts(refunds: seq<FeeData>)
    requires AreRefunds(refunds)
    ensures TotalGas(refunds) == 0 <==> refunds == []
  {
    if refunds != [] {
      assert refunds[|refunds| - 1] in refunds;
    }
  }

  lemma {:induction false} NonNegativeFees(refunds: seq<FeeData>)
    requires AreRefunds(refunds)
    ensures TotalFee(refunds) >= 0
  {
    if refunds != [] {
      assert refunds[|refunds| - 1] in refunds;
      NonNegativeFees(refunds[..|refunds| - 1]);
    }
  }

  lemma {:induction false} FeesIgnoreStatus(doc: TxDoc, info: StatusInfo, records: seq<FeeData>)
    ensures AfterRefunds(doc, records).Some?
    ensures AfterRefunds(WithStatus(doc, info), records) == Some(WithStatus(AfterRefunds(doc, records).value, info))
  {
    if records != [] {
      FeesIgnoreStatus(doc, info, records[..|records| - 1]);
    }
  }
}
