/** `find_association_rules`: the rows of the input table are cleaned into
    transactions, the transactions are handed to the Apriori miner, and the
    miner's results are flattened into one rule record per ordered statistic.
    The miner itself is a parameter: only the shape of what it returns is
    modelled, never how it searches. */
module Mining {
  import opened Lists
  import opened Text
  import opened Numbers

  /** A cell of the input table: missing (NaN or None), or present text. */
  datatype Cell = Missing | Present(text: string)

  type Row = seq<Cell>

  /** A transaction is the list of item labels of one row, in column order. */
  type Transaction = seq<string>

  /** One ordered statistic of a miner result: the rule
      itemsBase -> itemsAdd and its confidence. */
  datatype OrderedStatistic = OrderedStatistic(itemsBase: seq<string>, itemsAdd: seq<string>, confidence: real)

  /** One miner result: the support of a frequent itemset and the ordered
      statistics of the rules drawn from it. */
  datatype RelationRecord = RelationRecord(support: real, orderedStatistics: seq<OrderedStatistic>)

  /** The Apriori miner, given the transactions, the minimum support and the
      minimum confidence. */
  type Miner = (seq<Transaction>, real, real) -> seq<RelationRecord>

  /** One rule record: antecedent text, consequent text, the support of the
      itemset, the confidence as a whole percentage followed by "%", and the
      support times the confidence as a percentage rounded to hundredths. */
  datatype Rule = Rule(lhs: string, rhs: string, support: real, confidence: string, totalPercent: real)

  // ---------------------------------------------------------------- cleaning

  /** `transaction.dropna().astype(str).tolist()`: the texts of the present
      cells of a row, in column order. */
  function CleanRow(row: Row): (t: Transaction)
    ensures |t| <= |row|
  {
    if row == [] then []
    else (if row[0].Present? then [row[0].text] else []) + CleanRow(row[1..])
  }

  /** The transactions the cleaning loop keeps: the cleaned rows that are not
      empty, in row order. */
  function CleanRows(rows: seq<Row>): (ts: seq<Transaction>)
    ensures |ts| <= |rows|
    ensures forall k :: 0 <= k < |ts| ==> ts[k] != []
  {
    if rows == [] then []
    else
      var kept := CleanRows(rows[..|rows| - 1]);
      var t := CleanRow(rows[|rows| - 1]);
      if t == [] then kept else kept + [t]
  }

  /** Cleaning a row works cell by cell: cleaning two runs of cells one after
      the other gives the two cleaned runs one after the other, so present
      cells keep their column order. */
  lemma {:induction false} CleanRowConcat(a: Row, b: Row)
    ensures CleanRow(a + b) == CleanRow(a) + CleanRow(b)
  {
    if a != [] {
      assert (a + b)[0] == a[0];
      assert (a + b)[1..] == a[1..] + b;
      CleanRowConcat(a[1..], b);
    } else {
      assert a + b == b;
    }
  }

  /** No item is deduplicated, dropped or invented: an item occurs in the
      cleaned row exactly as often as a present cell holds it. */
  lemma {:induction false} CleanRowCounts(row: Row, x: string)
    ensures multiset(CleanRow(row))[x] == multiset(row)[Present(x)]
  {
    if row != [] {
      var head: Transaction := if row[0].Present? then [row[0].text] else [];
      CleanRowCounts(row[1..], x);
      assert CleanRow(row) == head + CleanRow(row[1..]);
      assert multiset(CleanRow(row)) == multiset(head) + multiset(CleanRow(row[1..]));
      assert row == [row[0]] + row[1..];
      assert multiset(row) == multiset{row[0]} + multiset(row[1..]);
      if row[0] == Present(x) {
        assert head == [x];
      } else if row[0].Present? {
        assert head == [row[0].text] && row[0].text != x;
      } else {
        assert head == [];
      }
      assert multiset(head)[x] == multiset{row[0]}[Present(x)];
    }
  }

  /** A row cleans to nothing exactly when all its cells are missing. */
  lemma {:induction false} CleanRowEmpty(row: Row)
    ensures CleanRow(row) == [] <==> forall j :: 0 <= j < |row| ==> row[j] == Missing
  {
    if row != [] {
      CleanRowEmpty(row[1..]);
      assert forall j :: 1 <= j < |row| ==> row[j] == row[1..][j - 1];
    }
  }

  /** Cleaning works row by row. */
  lemma {:induction false} CleanRowsConcat(a: seq<Row>, b: seq<Row>)
    ensures CleanRows(a + b) == CleanRows(a) + CleanRows(b)
  {
    if b == [] {
      assert a + b == a;
    } else {
      var ab := a + b;
      assert ab[..|ab| - 1] == a + b[..|b| - 1];
      assert ab[|ab| - 1] == b[|b| - 1];
      CleanRowsConcat(a, b[..|b| - 1]);
    }
  }

  /** The positions of the rows that survive cleaning: valid row positions,
      in strictly increasing order. */
  function KeptPositions(rows: seq<Row>): (ps: seq<nat>)
    ensures forall k :: 0 <= k < |ps| ==> ps[k] < |rows|
    ensures forall k, l :: 0 <= k < l < |ps| ==> ps[k] < ps[l]
  {
    if rows == [] then []
    else
      KeptPositions(rows[..|rows| - 1]) +
      (if CleanRow(rows[|rows| - 1]) == [] then [] else [|rows| - 1])
  }

  /** The kept transactions are the cleaned rows at the kept positions, in
      the order of those positions. */
  lemma {:induction false} SurvivorsInOrder(rows: seq<Row>)
    ensures |KeptPositions(rows)| == |CleanRows(rows)|
    ensures forall k :: 0 <= k < |KeptPositions(rows)| ==>
              CleanRows(rows)[k] == CleanRow(rows[KeptPositions(rows)[k]])
  {
    if rows != [] {
      var n := |rows|;
      var init := rows[..n - 1];
      SurvivorsInOrder(init);
      var kept, cleaned := KeptPositions(init), CleanRows(init);
      forall k | 0 <= k < |kept|
        ensures CleanRows(init)[k] == CleanRow(rows[kept[k]])
      {
        assert init[kept[k]] == rows[kept[k]];
      }
    }
  }

  /** Every row that does not clean to nothing is kept. */
  lemma {:induction false} NoSurvivorMissed(rows: seq<Row>, i: nat)
    requires i < |rows| && CleanRow(rows[i]) != []
    ensures i in KeptPositions(rows)
  {
    var n := |rows|;
    if i < n - 1 {
      var init := rows[..n - 1];
      assert init[i] == rows[i];
      NoSurvivorMissed(init, i);
    }
  }

  /** Cleaning leaves nothing exactly when every cell of every row is
      missing. */
  lemma {:induction false} CleanRowsEmpty(rows: seq<Row>)
    ensures CleanRows(rows) == [] <==>
            forall i, j :: 0 <= i < |rows| && 0 <= j < |rows[i]| ==> rows[i][j] == Missing
  {
    if rows != [] {
      var init := rows[..|rows| - 1];
      CleanRowsEmpty(init);
      CleanRowEmpty(rows[|rows| - 1]);
      assert forall i :: 0 <= i < |init| ==> init[i] == rows[i];
    }
  }

  /** The cleaning loop of `find_association_rules`. */
  method CleanTransactions(rows: seq<Row>) returns (transactions: seq<Transaction>)
    ensures transactions == CleanRows(rows)
  {
    transactions := [];
    for i := 0 to |rows|
      invariant transactions == CleanRows(rows[..i])
    {
      var cleaned := CleanRow(rows[i]);
      if cleaned != [] {
        transactions := transactions + [cleaned];
      }
      assert rows[..i + 1][..i] == rows[..i];
    }
    assert rows[..|rows|] == rows;
  }

  // ---------------------------------------------------------------- rules

  /** `f"{round(confidence * 100)}%"`: the confidence as a whole percentage. */
  function ConfidenceText(confidence: real): (text: string)
    ensures |text| >= 2 && text[|text| - 1] == '%'
    ensures (text[0] == '-') == (RoundHalfEven(confidence * 100.0) < 0)
  {
    IntToDecimal(RoundHalfEven(confidence * 100.0)) + "%"
  }

  /** For a non-negative confidence the text is the digits of the nearest
      whole percentage, halves going to the even neighbour, then "%". */
  lemma ConfidenceTextReadsBack(confidence: real)
    requires confidence >= 0.0
    ensures var text := ConfidenceText(confidence);
            |text| >= 2 && text[|text| - 1] == '%' &&
            (forall k :: 0 <= k < |text| - 1 ==> IsDigit(text[k])) &&
            DecimalValue(text[..|text| - 1]) == RoundHalfEven(confidence * 100.0)
  {
    var n := RoundHalfEven(confidence * 100.0);
    assert n >= 0;
    var digits := NatToDecimal(n);
    assert ConfidenceText(confidence) == digits + "%";
    assert (digits + "%")[..|digits|] == digits;
    DecimalRoundTrip(n);
  }

  /** `round((support * confidence) * 100, 2)`: support times confidence as a
      percentage, rounded to hundredths. */
  function TotalPercent(support: real, confidence: real): (r: real)
    ensures support * confidence * 100.0 - 0.005 <= r <= support * confidence * 100.0 + 0.005
    ensures (r * 100.0).Floor as real == r * 100.0
    ensures (r == support * confidence * 100.0 - 0.005 || r == support * confidence * 100.0 + 0.005) ==>
              (r * 100.0).Floor % 2 == 0
  {
    RoundHundredths(support * confidence * 100.0)
  }

  /** The rule record the flattening loop appends for one ordered statistic
      of a result whose support is `support`. */
  function RuleFor(support: real, stat: OrderedStatistic): (rule: Rule)
    ensures rule.support == support
    ensures |rule.confidence| >= 2 && rule.confidence[|rule.confidence| - 1] == '%'
    ensures (rule.totalPercent * 100.0).Floor as real == rule.totalPercent * 100.0
  {
    Rule(Join(stat.itemsBase, ", "), Join(stat.itemsAdd, ", "), support,
         ConfidenceText(stat.confidence), TotalPercent(support, stat.confidence))
  }

  /** The records for one result: one per ordered statistic, in order, each
      rendered from that statistic with the result's support. */
  function RulesFrom(support: real, stats: seq<OrderedStatistic>): (rules: seq<Rule>)
  {
    seq(|stats|, k requires 0 <= k < |stats| => RuleFor(support, stats[k]))
  }

  /** The records of each result, result by result. */
  function RuleGroups(results: seq<RelationRecord>): seq<seq<Rule>>
  {
    seq(|results|, i requires 0 <= i < |results| => RulesFrom(results[i].support, results[i].orderedStatistics))
  }

  /** The ordered statistics of each result, result by result. */
  function StatisticGroups(results: seq<RelationRecord>): seq<seq<OrderedStatistic>>
  {
    seq(|results|, i requires 0 <= i < |results| => results[i].orderedStatistics)
  }

  /** Number of ordered statistics over all results. */
  function TotalStatistics(results: seq<RelationRecord>): nat
  {
    TotalLength(StatisticGroups(results))
  }

  /** The records of all results, result after result. */
  function FlattenRules(results: seq<RelationRecord>): (rules: seq<Rule>)
    ensures |rules| == TotalStatistics(results)
  {
    TotalLengthByShape(RuleGroups(results), StatisticGroups(results));
    Concat(RuleGroups(results))
  }

  /** Flattening one more result appends that result's records. */
  lemma FlattenAppend(results: seq<RelationRecord>, r: RelationRecord)
    ensures FlattenRules(results + [r]) == FlattenRules(results) + RulesFrom(r.support, r.orderedStatistics)
  {
    var g := RulesFrom(r.support, r.orderedStatistics);
    assert RuleGroups(results + [r]) == RuleGroups(results) + [g];
    ConcatAppend(RuleGroups(results), [g]);
    assert [g][..0] == [];
  }

  /** Flattening works result by result. */
  lemma FlattenConcat(a: seq<RelationRecord>, b: seq<RelationRecord>)
    ensures FlattenRules(a + b) == FlattenRules(a) + FlattenRules(b)
  {
    assert RuleGroups(a + b) == RuleGroups(a) + RuleGroups(b);
    ConcatAppend(RuleGroups(a), RuleGroups(b));
  }

  /** The record for statistic `j` of result `i` sits after the records of
      all earlier results, at offset `j` among those of result `i`; it is
      rendered from that statistic and carries result `i`'s support. */
  lemma FlattenAt(results: seq<RelationRecord>, i: nat, j: nat)
    requires i < |results| && j < |results[i].orderedStatistics|
    ensures TotalStatistics(results[..i]) + j < |FlattenRules(results)|
    ensures FlattenRules(results)[TotalStatistics(results[..i]) + j] ==
            RuleFor(results[i].support, results[i].orderedStatistics[j])
    ensures FlattenRules(results)[TotalStatistics(results[..i]) + j].support == results[i].support
  {
    var groups := RuleGroups(results);
    ConcatAt(groups, i, j);
    TotalLengthByShape(groups[..i], StatisticGroups(results[..i]));
  }

  /** Records are ordered by result first: every record of an earlier result
      precedes every record of a later one. */
  lemma ResultOrder(results: seq<RelationRecord>, i: nat, i': nat, j: nat)
    requires i < i' <= |results| && j < |results[i].orderedStatistics|
    ensures TotalStatistics(results[..i]) + j < TotalStatistics(results[..i'])
  {
    var groups := StatisticGroups(results);
    GroupOrder(groups, i, i', j);
    assert groups[..i] == StatisticGroups(results[..i]);
    assert groups[..i'] == StatisticGroups(results[..i']);
  }

  /** The result and statistic a record position comes from. */
  function Origin(results: seq<RelationRecord>, n: nat): (p: (nat, nat))
    requires n < TotalStatistics(results)
    ensures p.0 < |results| && p.1 < |results[p.0].orderedStatistics|
    ensures n == TotalStatistics(results[..p.0]) + p.1
  {
    var groups := StatisticGroups(results);
    var p := Locate(groups, n);
    assert groups[..p.0] == StatisticGroups(results[..p.0]);
    p
  }

  /** Every record is the rendering of the ordered statistic it comes from,
      with the support of that statistic's result. */
  lemma EveryRuleHasOrigin(results: seq<RelationRecord>, n: nat)
    requires n < |FlattenRules(results)|
    ensures var p := Origin(results, n);
            FlattenRules(results)[n] == RuleFor(results[p.0].support, results[p.0].orderedStatistics[p.1])
  {
    var p := Origin(results, n);
    FlattenAt(results, p.0, p.1);
  }

  /** The flattening loop of `find_association_rules`. */
  method CollectRules(results: seq<RelationRecord>) returns (rules: seq<Rule>)
    ensures rules == FlattenRules(results)
  {
    rules := [];
    for i := 0 to |results|
      invariant rules == FlattenRules(results[..i])
    {
      var support := results[i].support;
      var stats := results[i].orderedStatistics;
      for j := 0 to |stats|
        invariant rules == FlattenRules(results[..i]) + RulesFrom(support, stats)[..j]
      {
        var lhs := Join(stats[j].itemsBase, ", ");
        var rhs := Join(stats[j].itemsAdd, ", ");
        var confidence := ConfidenceText(stats[j].confidence);
        var totalPercent := TotalPercent(support, stats[j].confidence);
        rules := rules + [Rule(lhs, rhs, support, confidence, totalPercent)];
        assert RulesFrom(support, stats)[..j + 1] == RulesFrom(support, stats)[..j] + [RuleFor(support, stats[j])];
      }
      assert results[..i + 1] == results[..i] + [results[i]];
      FlattenAppend(results[..i], results[i]);
    }
    assert results[..|results|] == results;
  }

  // ---------------------------------------------------------------- whole

  /** What `find_association_rules` returns: no rules when nothing survives
      cleaning, otherwise the flattened results of the miner run on the
      cleaned transactions with the thresholds as given. */
  function AssociationRules(rows: seq<Row>, minSupport: real, minConfidence: real, apriori: Miner): (rules: seq<Rule>)
    ensures CleanRows(rows) != [] ==> |rules| == TotalStatistics(apriori(CleanRows(rows), minSupport, minConfidence))
  {
    var transactions := CleanRows(rows);
    if transactions == [] then []
    else FlattenRules(apriori(transactions, minSupport, minConfidence))
  }

  /** When every cell is missing there are no rules, whatever the miner would
      have answered: the miner is not consulted. */
  lemma NoRulesWithoutItems(rows: seq<Row>, minSupport: real, minConfidence: real, apriori: Miner, other: Miner)
    requires forall i, j :: 0 <= i < |rows| && 0 <= j < |rows[i]| ==> rows[i][j] == Missing
    ensures AssociationRules(rows, minSupport, minConfidence, apriori) == []
    ensures AssociationRules(rows, minSupport, minConfidence, apriori) ==
            AssociationRules(rows, minSupport, minConfidence, other)
  {
    CleanRowsEmpty(rows);
  }

  /** When some cell is present the miner is consulted, and the rules are one
      record per ordered statistic of its results. */
  lemma MinerSeesCleanedRows(rows: seq<Row>, minSupport: real, minConfidence: real, apriori: Miner, i: nat, j: nat)
    requires i < |rows| && j < |rows[i]| && rows[i][j].Present?
    ensures CleanRows(rows) != []
    ensures |AssociationRules(rows, minSupport, minConfidence, apriori)| ==
            TotalStatistics(apriori(CleanRows(rows), minSupport, minConfidence))
  {
    CleanRowsEmpty(rows);
  }

  /** `find_association_rules`. */
  method FindAssociationRules(rows: seq<Row>, minSupport: real, minConfidence: real, apriori: Miner)
    returns (rules: seq<Rule>)
    ensures rules == AssociationRules(rows, minSupport, minConfidence, apriori)
  {
    var transactions := CleanTransactions(rows);
    if transactions != [] {
      var results := apriori(transactions, minSupport, minConfidence);
      rules := CollectRules(results);
    } else {
      rules := [];
    }
  }
}
