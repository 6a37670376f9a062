/** The manual-entry form: a typed line of comma-separated items becomes one
    transaction appended to the list kept in the session, and that list is
    turned into the table that `find_association_rules` cleans. */
module ManualEntry {
  import opened Text
  import opened Mining

  /** `[item.strip() for item in line.split(',')]`: one item per
      comma-separated piece, with the surrounding whitespace of each piece
      removed. Empty pieces stay, as empty items. */
  function ParseTransaction(line: string): (items: Transaction)
    ensures |items| == Count(line, ',') + 1
    ensures forall k :: 0 <= k < |items| ==> ',' !in items[k] && IsStripped(items[k])
    ensures forall k :: 0 <= k < |items| ==> items[k] == Strip(Split(line, ',')[k])
  {
    var pieces := Split(line, ',');
    seq(|pieces|, k requires 0 <= k < |pieces| => Strip(pieces[k]))
  }

  /** The item lists with a space put in front of each item. */
  function Indented(items: seq<string>): (r: seq<string>)
    ensures |r| == |items|
  {
    seq(|items|, k requires 0 <= k < |items| => " " + items[k])
  }

  /** Putting a prefix in front of the first item puts it in front of the
      joined text. */
  lemma JoinPrefixFirst(p: string, items: seq<string>, sep: string)
    requires items != []
    ensures Join([p + items[0]] + items[1..], sep) == p + Join(items, sep)
  {
    var moved := [p + items[0]] + items[1..];
    assert moved[1..] == items[1..];
  }

  /** Joining with ", " is joining with "," after indenting every item but the
      first. */
  lemma {:induction false} JoinCommaSpace(items: seq<string>)
    requires items != []
    ensures Join(items, ", ") == Join([items[0]] + Indented(items[1..]), ",")
  {
    var spaced := [items[0]] + Indented(items[1..]);
    if |items| == 1 {
      assert spaced == [items[0]];
    } else {
      var rest := items[1..];
      JoinCommaSpace(rest);
      assert rest[1..] == items[2..];
      var restSpaced := [rest[0]] + Indented(rest[1..]);
      assert Indented(rest) == [" " + rest[0]] + restSpaced[1..];
      JoinPrefixFirst(" ", restSpaced, ",");
      assert spaced[1..] == Indented(rest);
      assert Join(spaced, ",") == items[0] + "," + Join(Indented(rest), ",");
    }
  }

  /** The comma-separated pieces of a rendered item list are the items, each
      after the first with the space the separator left in front of it. */
  lemma SplitRendered(items: seq<string>)
    requires items != []
    requires forall k :: 0 <= k < |items| ==> ',' !in items[k]
    ensures Split(Join(items, ", "), ',') == [items[0]] + Indented(items[1..])
  {
    var spaced := [items[0]] + Indented(items[1..]);
    JoinCommaSpace(items);
    forall k | 0 <= k < |spaced|
      ensures ',' !in spaced[k]
    {
      if k > 0 {
        assert spaced[k] == " " + items[k];
      }
    }
    SplitJoin(spaced, ',');
  }

  /** Stripping the pieces of a rendered item list gives the items back. */
  lemma StripRenderedPieces(items: seq<string>)
    requires items != []
    requires forall k :: 0 <= k < |items| ==> IsStripped(items[k])
    ensures forall k :: 0 <= k < |items| ==> Strip(([items[0]] + Indented(items[1..]))[k]) == items[k]
  {
    var pieces := [items[0]] + Indented(items[1..]);
    forall k | 0 <= k < |items|
      ensures Strip(pieces[k]) == items[k]
    {
      if k == 0 {
        assert "" + items[0] == items[0];
        StripAfterSpaces("", items[0]);
      } else {
        assert pieces[k] == " " + items[k];
        StripAfterSpaces(" ", items[k]);
      }
    }
  }

  /** A line whose pieces strip to `items` parses to `items`. */
  lemma ParseFromPieces(line: string, pieces: seq<string>, items: seq<string>)
    requires Split(line, ',') == pieces && |pieces| == |items|
    requires forall k :: 0 <= k < |items| ==> Strip(pieces[k]) == items[k]
    ensures ParseTransaction(line) == items
  {
  }

  /** Items written out as a rule side is ("a, b, c") are read back by the
      manual-entry form as the same items, as long as none of them holds a
      comma or surrounding whitespace. */
  lemma RenderedItemsParseBack(items: seq<string>)
    requires items != []
    requires forall k :: 0 <= k < |items| ==> ',' !in items[k] && IsStripped(items[k])
    ensures ParseTransaction(Join(items, ", ")) == items
  {
    SplitRendered(items);
    StripRenderedPieces(items);
    ParseFromPieces(Join(items, ", "), [items[0]] + Indented(items[1..]), items);
  }

  /** Rule sides are read back by the manual-entry form as the antecedent and
      consequent items they were written from. */
  lemma RuleSidesParseBack(support: real, stat: OrderedStatistic)
    requires stat.itemsBase != [] && stat.itemsAdd != []
    requires forall k :: 0 <= k < |stat.itemsBase| ==> ',' !in stat.itemsBase[k] && IsStripped(stat.itemsBase[k])
    requires forall k :: 0 <= k < |stat.itemsAdd| ==> ',' !in stat.itemsAdd[k] && IsStripped(stat.itemsAdd[k])
    ensures ParseTransaction(RuleFor(support, stat).lhs) == stat.itemsBase
    ensures ParseTransaction(RuleFor(support, stat).rhs) == stat.itemsAdd
  {
    RenderedItemsParseBack(stat.itemsBase);
    RenderedItemsParseBack(stat.itemsAdd);
  }

  /** The list of manually entered transactions kept in the session state. */
  class TransactionLog {
    var transactions: seq<Transaction>

    /** Every stored transaction has at least one item. */
    ghost predicate Valid()
      reads this
    {
      forall k :: 0 <= k < |transactions| ==> transactions[k] != []
    }

    /** The session starts with an empty list. */
    constructor ()
      ensures Valid() && transactions == []
    {
      transactions := [];
    }

    /** Pressing "Tambah Transaksi" with `line` in the text box: a non-empty
        line appends its parsed items as one new transaction after all
        earlier ones; an empty line changes nothing. */
    method Add(line: string)
      requires Valid()
      modifies this
      ensures Valid()
      ensures line == [] ==> transactions == old(transactions)
      ensures line != [] ==> transactions == old(transactions) + [ParseTransaction(line)]
    {
      if line != [] {
        transactions := transactions + [ParseTransaction(line)];
      }
    }
  }

  // ---------------------------------------------------------------- frame

  /** The number of columns of the table built from `ts`: the length of its
      longest transaction. */
  function Width(ts: seq<Transaction>): (w: nat)
    ensures forall k :: 0 <= k < |ts| ==> |ts[k]| <= w
    ensures ts == [] ==> w == 0
    ensures ts != [] ==> exists k :: 0 <= k < |ts| && |ts[k]| == w
  {
    if ts == [] then 0
    else
      var w := Width(ts[1..]);
      if |ts[0]| > w then |ts[0]| else w
  }

  /** One row of that table: the items as present cells, filled up with
      missing cells to `width` columns. */
  function PadRow(t: Transaction, width: nat): (row: Row)
    requires |t| <= width
    ensures |row| == width
    ensures forall j :: 0 <= j < |t| ==> row[j] == Present(t[j])
    ensures forall j :: |t| <= j < width ==> row[j] == Missing
  {
    seq(width, j requires 0 <= j < width => if j < |t| then Present(t[j]) else Missing)
  }

  /** `pd.DataFrame(transactions)` for a list of item lists. */
  function Frame(ts: seq<Transaction>): (rows: seq<Row>)
    ensures |rows| == |ts|
    ensures forall i :: 0 <= i < |rows| ==> |rows[i]| == Width(ts)
    ensures forall i, j :: 0 <= i < |rows| && 0 <= j < |ts[i]| ==> j < |rows[i]| && rows[i][j] == Present(ts[i][j])
    ensures forall i, j :: 0 <= i < |rows| && |ts[i]| <= j < Width(ts) ==> rows[i][j] == Missing
  {
    var w := Width(ts);
    seq(|ts|, i requires 0 <= i < |ts| => PadRow(ts[i], w))
  }

  /** Cleaning a padded row gives back its items. */
  lemma {:induction false} CleanPadRow(t: Transaction, width: nat)
    requires |t| <= width
    ensures CleanRow(PadRow(t, width)) == t
  {
    var row := PadRow(t, width);
    if t == [] {
      CleanRowEmpty(row);
    } else {
      assert row == [Present(t[0])] + PadRow(t[1..], width - 1);
      CleanRowConcat([Present(t[0])], PadRow(t[1..], width - 1));
      CleanPadRow(t[1..], width - 1);
      assert t == [t[0]] + t[1..];
    }
  }

  /** Rows that clean one by one to the non-empty transactions `ts` clean to
      `ts` as a whole. */
  lemma {:induction false} CleanRowsExactly(rows: seq<Row>, ts: seq<Transaction>)
    requires |rows| == |ts|
    requires forall i :: 0 <= i < |ts| ==> ts[i] != [] && CleanRow(rows[i]) == ts[i]
    ensures CleanRows(rows) == ts
  {
    if rows != [] {
      var n := |rows|;
      CleanRowsExactly(rows[..n - 1], ts[..n - 1]);
      assert ts == ts[..n - 1] + [ts[n - 1]];
    }
  }

  /** Every manually entered transaction reaches the miner unchanged, in the
      order it was entered: the rules are the flattened results of the miner
      run on exactly the logged transactions. */
  lemma LoggedTransactionsReachMiner(ts: seq<Transaction>, minSupport: real, minConfidence: real, apriori: Miner)
    requires ts != []
    requires forall k :: 0 <= k < |ts| ==> ts[k] != []
    ensures CleanRows(Frame(ts)) == ts
    ensures AssociationRules(Frame(ts), minSupport, minConfidence, apriori) ==
            FlattenRules(apriori(ts, minSupport, minConfidence))
  {
    var rows := Frame(ts);
    forall i | 0 <= i < |ts|
      ensures CleanRow(rows[i]) == ts[i]
    {
      CleanPadRow(ts[i], Width(ts));
    }
    CleanRowsExactly(rows, ts);
  }

  /** What the session's list holds after any sequence of additions reaches
      the miner unchanged once the list has an entry. */
  lemma LogReachesMiner(log: TransactionLog, minSupport: real, minConfidence: real, apriori: Miner)
    requires log.Valid() && log.transactions != []
    ensures CleanRows(Frame(log.transactions)) == log.transactions
    ensures AssociationRules(Frame(log.transactions), minSupport, minConfidence, apriori) ==
            FlattenRules(apriori(log.transactions, minSupport, minConfidence))
  {
    LoggedTransactionsReachMiner(log.transactions, minSupport, minConfidence, apriori);
  }
}
