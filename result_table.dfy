/** The table of results shown after "Proses": one numbered row per rule
    record, in the order `find_association_rules` returned them. */
module ResultTable {
  import opened Text
  import opened Mining

  /** One row of the results table: its name, the rule written as
      "lhs -> rhs", and the record's support, confidence and total. */
  datatype TableRow = TableRow(name: string, rule: string, support: real, confidence: string, totalPercent: real)

  /** `f"Aturan {n}"`. */
  function Label(n: nat): (name: string)
    ensures |name| > 7 && name[..7] == "Aturan "
    ensures forall k :: 7 <= k < |name| ==> IsDigit(name[k])
  {
    "Aturan " + NatToDecimal(n)
  }

  /** The table-building loop: row `i` is labelled with the number `i + 1`,
      shows rule `i` as its antecedent, " -> " and its consequent, and carries
      that rule's support, confidence and total unchanged. */
  method BuildTable(rules: seq<Rule>) returns (table: seq<TableRow>)
    ensures |table| == |rules|
    ensures forall i :: 0 <= i < |rules| ==>
              table[i] == TableRow(Label(i + 1), rules[i].lhs + " -> " + rules[i].rhs,
                                   rules[i].support, rules[i].confidence, rules[i].totalPercent)
  {
    table := [];
    for idx := 0 to |rules|
      invariant |table| == idx
      invariant forall i :: 0 <= i < idx ==>
                  table[i] == TableRow(Label(i + 1), rules[i].lhs + " -> " + rules[i].rhs,
                                       rules[i].support, rules[i].confidence, rules[i].totalPercent)
    {
      var r := rules[idx];
      table := table + [TableRow("Aturan " + NatToDecimal(idx + 1), r.lhs + " -> " + r.rhs,
                                 r.support, r.confidence, r.totalPercent)];
    }
  }

  /** The number after "Aturan " reads back as the number the label was made
      from. */
  lemma LabelNumber(n: nat)
    ensures |Label(n)| > 7 && Label(n)[..7] == "Aturan "
    ensures forall k :: 7 <= k < |Label(n)| ==> IsDigit(Label(n)[k])
    ensures DecimalValue(Label(n)[7..]) == n
  {
    assert Label(n)[7..] == NatToDecimal(n);
    DecimalRoundTrip(n);
  }

  /** No two rows carry the same label. */
  lemma LabelsDistinct(m: nat, n: nat)
    requires m != n
    ensures Label(m) != Label(n)
  {
    LabelNumber(m);
    LabelNumber(n);
  }
}
