# Association-rule evaluation app: the glue around the Apriori miner

The application takes a table of transactions, either uploaded as CSV or typed in line by line, and mines it for association rules. The mining itself is done by the `apyori` library. The application's own code does four things around that call, and this Dafny project models them:

- **Cleaning** (module `Mining`). Each table row becomes a transaction. Missing cells are dropped and present cells keep their column order. Rows left empty are discarded. When nothing survives, no rules come back and the miner is not consulted.
- **Rule flattening** (module `Mining`). Each ordered statistic of each miner result becomes one rule record. The record holds the antecedent and consequent joined with `", "`, the result's support, the confidence as a whole percentage with `%`, and support × confidence as a percentage rounded to hundredths.
- **Manual entry** (module `ManualEntry`). A typed line is split on every comma and each piece is stripped. The pieces are appended as one transaction to the session's list. The list becomes a table padded with missing cells, and that table is what gets cleaned.
- **Result table** (module `ResultTable`). Each rule becomes one row, labelled `Aturan 1`, `Aturan 2`, …, with its rule written as `lhs -> rhs`.

The miner is a parameter of type `Mining.Miner`. It is a function from the transactions and the two thresholds to a list of `RelationRecord`s. Each record is a support plus a list of ordered statistics (items_base, items_add, confidence). Nothing is assumed about how the miner searches. "The miner is not invoked" is stated as: the result is the empty list whatever the miner would return.

Module `Text` holds the Python string operations the code relies on: `str.join`, `str.split(',')`, `str.strip()` and `str(int)`. Module `Numbers` holds Python's `round`, which rounds halves to the even neighbour.

Cleaning does not deduplicate. `transaction.dropna().astype(str).tolist()` keeps every present cell, duplicates included, in column order, and `Mining.CleanRowCounts` states this.

## Model

| member | source | states |
|---|---|---|
| `Mining.AssociationRules` | App.py:7-32 | When some row survives cleaning there are exactly as many rules as ordered statistics in the miner's results on the cleaned transactions |
| `Mining.FindAssociationRules` | App.py:7-32 | The rules returned are `AssociationRules`: none when cleaning leaves nothing, otherwise the flattened results of the miner run on the cleaned transactions with the thresholds unchanged |
| `Mining.CleanTransactions` | App.py:8-12 | The cleaning loop returns exactly `CleanRows(rows)` |
| `Mining.CleanRows` | App.py:9-12 | Every kept transaction is non-empty, and there are never more transactions than input rows |
| `Mining.KeptPositions` | App.py:9-12 | The positions of the rows that survive cleaning are row indices in strictly increasing order |
| `Mining.SurvivorsInOrder` | App.py:9-12 | There is one kept transaction per surviving position, and the k-th kept transaction is the cleaned row at the k-th surviving position, so row order is kept |
| `Mining.NoSurvivorMissed` | App.py:9-12 | Every row whose cleaned form is non-empty is among the surviving positions |
| `Mining.CleanRowsConcat` | App.py:9-12 | Cleaning works row by row: cleaning a concatenation of row lists concatenates the results |
| `Mining.CleanRowsEmpty` | App.py:10-11 | Cleaning leaves nothing exactly when every cell of every row is missing |
| `Mining.CleanRowConcat` | App.py:10 | Cleaning a row works cell by cell, so present cells keep their column order |
| `Mining.CleanRowCounts` | App.py:10 | Each item occurs in the cleaned row exactly as often as a present cell holds it: nothing is deduplicated, dropped or invented |
| `Mining.CleanRowEmpty` | App.py:10-11 | A row cleans to the empty list exactly when all its cells are missing |
| `Mining.CleanRow` | App.py:10 | A cleaned row is never longer than the row |
| `Mining.NoRulesWithoutItems` | App.py:31-32 | With every cell missing the result is `[]` and does not depend on the miner, so the miner is not consulted |
| `Mining.MinerSeesCleanedRows` | App.py:15-16 | With some cell present the miner is consulted on the cleaned transactions, and the number of rules is the total number of ordered statistics it returns |
| `Mining.CollectRules` | App.py:19-30 | The nested flattening loop returns exactly `FlattenRules(results)` |
| `Mining.FlattenRules` | App.py:19-28 | There are exactly as many records as ordered statistics across all results |
| `Mining.FlattenAppend` | App.py:20-28 | One more miner result appends exactly the records of its ordered statistics, in their order, after all earlier records |
| `Mining.FlattenConcat` | App.py:20-22 | Flattening works result by result |
| `Mining.FlattenAt` | App.py:20-28 | The record for statistic j of result i sits after all records of earlier results, at offset j. It is rendered from that statistic and carries result i's support unchanged |
| `Mining.ResultOrder` | App.py:20-22 | Every record of an earlier result comes before every record of a later one |
| `Mining.Origin` | App.py:20-22 | Every record position belongs to one result and one statistic within it |
| `Mining.EveryRuleHasOrigin` | App.py:20-28 | Every record is the rendering of the statistic it comes from, with that result's support |
| `Mining.ConfidenceText` | App.py:25-28 | The confidence text ends with `%`, has at least one character before it, and starts with `-` exactly when the rounded percentage is negative |
| `Mining.RuleFor` | App.py:23-28 | The record for one ordered statistic carries its result's support unchanged, a confidence text ending in `%`, and a total that is a whole number of hundredths |
| `Mining.ConfidenceTextReadsBack` | App.py:25-28 | The confidence text is the decimal digits of round(confidence × 100) followed by `%` |
| `Mining.TotalPercent` | App.py:26-27 | The total is a whole number of hundredths within 0.005 of support × confidence × 100, and on an exact tie its last digit is even. By `Numbers.RoundHundredthsUnique` no other number has these properties |
| `Text.Join` | App.py:23-24 | `sep.join(items)` of a non-empty list starts with the first item |
| `Text.JoinShape` | App.py:23-24 | Joining `[]` gives `""`, one item gives that item with no separator, and appending an item appends one separator and the item |
| `Text.JoinLength` | App.py:23-24 | The joined text is as long as all items plus one separator between each pair of neighbours |
| `ManualEntry.RuleSidesParseBack` | App.py:23-24 | When items_base and items_add are non-empty and their items hold no comma and no surrounding whitespace, reading a rule's lhs or rhs text back on the manual-entry form gives back items_base or items_add |
| `ManualEntry.RenderedItemsParseBack` | App.py:59 | Parsing a non-empty item list joined with `", "` gives back the items, if none holds a comma or surrounding whitespace |
| `Numbers.RoundHalfEven` | App.py:25 | `round(x)` is within ½ of x, and on a tie it is the even neighbour |
| `Numbers.RoundHalfEvenUnique` | App.py:25 | Only one integer satisfies `RoundHalfEven`'s contract |
| `Numbers.RoundHundredths` | App.py:26-27 | `round(x, 2)` is a whole number of hundredths within 0.005 of x; exactly halfway between two hundredths it takes the one with an even last digit |
| `Numbers.RoundHundredthsUnique` | App.py:26-27 | Only one number satisfies `RoundHundredths`'s contract |
| `Text.IntToDecimal` | App.py:28 | `str(i)` starts with `-` exactly when i is negative; the rest is a non-empty run of decimal digits whose value is the magnitude of i |
| `Text.Split` | App.py:59 | `line.split(',')` gives one more piece than there are commas, and no piece holds a comma |
| `Text.JoinSplit` | App.py:59 | Joining the pieces of a split with the separator gives back the line |
| `Text.SplitJoin` | App.py:59 | Splitting the join of comma-free items gives back the items |
| `Text.IsSpace` | App.py:59 | Blank, tab, newline and carriage return count as whitespace for `strip()`; the comma and the decimal digits do not |
| `Text.Strip` | App.py:59 | `strip()` returns a contiguous stretch of the text. Everything removed is whitespace, and what is left neither starts nor ends with whitespace |
| `Text.StripStart` | App.py:59 | Leading whitespace is removed up to the first non-space character |
| `Text.StripEnd` | App.py:59 | Trailing whitespace is removed back to the last non-space character |
| `Text.StripAfterSpaces` | App.py:59 | Stripping whitespace followed by a stripped text gives that text |
| `Text.StripIdempotent` | App.py:59 | Stripping twice is the same as stripping once |
| `ManualEntry.ParseTransaction` | App.py:59 | A line gives (number of commas + 1) items, empty ones kept. Item k is the k-th comma-separated piece of the line with its surrounding whitespace removed, so it is comma-free and stripped |
| `ManualEntry.TransactionLog.constructor` | App.py:54-55 | The session's list starts empty |
| `ManualEntry.TransactionLog.Add` | App.py:57-59 | A non-empty line appends exactly one transaction, its parsed items, after the unchanged earlier ones. An empty line leaves the list unchanged. Every stored transaction stays non-empty |
| `ManualEntry.Width` | App.py:62 | The table built from the list is as wide as its longest transaction: every transaction fits, and one of them has exactly that length (0 for an empty list) |
| `ManualEntry.PadRow` | App.py:62 | A table row holds the transaction's items as present cells in order, followed by missing cells up to the table width |
| `ManualEntry.Frame` | App.py:62 | The table has one row per transaction. Every row is as wide as the table, item j of transaction i is the present cell (i, j), and the cells after the items are missing |
| `ManualEntry.LogReachesMiner` | App.py:57-62 | For the session's list object with at least one entry, the table built from it cleans back to the list, and the rules are the miner's flattened results on exactly those transactions |
| `ManualEntry.LoggedTransactionsReachMiner` | App.py:62 | Cleaning the table built from the manually entered list gives back that list, so the miner sees exactly those transactions in entry order |
| `ResultTable.BuildTable` | App.py:87-89 | There is one row per rule, in rule order. Row i is labelled `"Aturan " + str(i+1)`, its rule column is `lhs + " -> " + rhs`, and support, confidence and total are copied from the rule |
| `ResultTable.Label` | App.py:89 | `f"Aturan {n}"` starts with `Aturan ` followed by at least one digit and nothing but digits |
| `ResultTable.LabelNumber` | App.py:89 | A label is `"Aturan "` followed by decimal digits that read back as the row number |
| `ResultTable.LabelsDistinct` | App.py:89 | No two rows share a label |
| `Text.NatToDecimal` | App.py:89 | `str(n)` is non-empty, all decimal digits, with no leading zero |
| `Text.DecimalRoundTrip` | App.py:89 | Reading back the decimal text of n gives n |
| `Text.DecimalInjective` | App.py:89 | Different numbers have different decimal texts |

## Left out

- The Apriori search (App.py:3, App.py:16) is in the `apyori` library, which is not part of this model. It is the parameter `Miner`, and nothing is assumed about its output beyond its shape.
- Floating point. Supports and confidences are exact `real`s. `round(x)` is round-half-to-even on the exact value. `round(x, 2)` is half-to-even at hundredths of the exact value, whereas Python rounds the binary float. Results can differ where the float's representation error matters.
- Text of floats. `f"{total_percent}%"` (App.py:28) and `f"{support:.2f}"` (App.py:89) render floats. `Rule.totalPercent` and `TableRow.support` hold the numbers, not that text.
- The percentage-to-fraction conversion `min_confidence / 100` (App.py:79) is float arithmetic on a UI input. The model passes whatever thresholds it is given straight to the miner.
- pandas: `read_csv` (App.py:48) and the text `astype(str)` produces for numeric cells (App.py:10). Cells are modelled as already-textual `Present(text)` or `Missing`. `pd.DataFrame` of the manual list (App.py:62) is modelled only as padding shorter rows with missing cells.
- `list(frozenset)` order. The items of items_base and items_add arrive as a sequence in whatever order the miner gives them.
- Streamlit: widgets, buttons, the session_state mechanism, `st.table`/`st.write` output, the emptiness guards on the DataFrame before display and processing (App.py:64, App.py:73), the "no rules" message (App.py:82-83) and the reset link (App.py:93). `TransactionLog.Add` stands for one press of the add button with the current text-box content.
