/** csvtransform.py: the bank-statement row loop that splits the signed amount into separate
    debit and credit columns according to the indicator column. */
module CsvTransform {
  import opened Wrappers

  /** An input row as `csv.DictReader` gives it. */
  type Row = map<string, string>

  const IndicatorColumn := "Credit Debit Indicator"

  /** The output header, in column order. */
  const Fieldnames: seq<string> := ["Booking Date", "Check Serial Number", "Description", "Debit", "Credit", "Category"]

  /** An output row; an amount that is None is written as an empty cell. */
  datatype BankRow = BankRow(bookingDate: string, checkSerialNumber: string, description: string,
                             debit: Option<string>, credit: Option<string>, category: string)

  /** The values of the loop's `debit` and `credit` locals once they have been assigned. */
  datatype Amounts = Amounts(debit: Option<string>, credit: Option<string>)

  /** The exceptions the loop can raise: a missing column, or reading `debit` before any row
      assigned it. */
  datatype TransformError = KeyError(column: string) | UnboundLocal

  /** What the loop has written when it ends, and the exception that ended it, if any. */
  datatype Outcome = Outcome(written: seq<BankRow>, error: Option<TransformError>)

  /** The output cells of a row, in header order. */
  function Cells(r: BankRow): (cells: seq<string>)
    ensures |cells| == |Fieldnames|
  {
    [r.bookingDate, r.checkSerialNumber, r.description, r.debit.GetOr(""), r.credit.GetOr(""), r.category]
  }

  function CellRows(rows: seq<BankRow>): (t: seq<seq<string>>)
    ensures |t| == |rows|
    ensures forall i :: 0 <= i < |rows| ==> t[i] == Cells(rows[i])
  {
    seq(|rows|, i requires 0 <= i < |rows| => Cells(rows[i]))
  }

  /** The amounts after the indicator has been read: "Debit" or "Credit" (compared
      case-sensitively) assigns both locals from the amount column; any other indicator leaves
      the carried amounts (None while `debit` and `credit` are still unbound). */
  function StepAmounts(row: Row, carried: Option<Amounts>): (r: Result<Option<Amounts>, TransformError>)
    ensures r.Success? <==> IndicatorColumn in row && (row[IndicatorColumn] in {"Debit", "Credit"} ==> "Amount" in row)
    ensures r.Failure? ==> r.error == (if IndicatorColumn !in row then KeyError(IndicatorColumn) else KeyError("Amount"))
    ensures r.Success? && row[IndicatorColumn] == "Debit" ==> r.value == Some(Amounts(Some(row["Amount"]), None))
    ensures r.Success? && row[IndicatorColumn] == "Credit" ==> r.value == Some(Amounts(None, Some(row["Amount"])))
    ensures r.Success? && row[IndicatorColumn] !in {"Debit", "Credit"} ==> r.value == carried
  {
    if IndicatorColumn !in row then Failure(KeyError(IndicatorColumn))
    else
      var indicator := row[IndicatorColumn];
      if indicator == "Debit" || indicator == "Credit" then
        if "Amount" !in row then Failure(KeyError("Amount"))
        else if indicator == "Debit" then Success(Some(Amounts(Some(row["Amount"]), None)))
        else Success(Some(Amounts(None, Some(row["Amount"]))))
      else Success(carried)
  }

  /** Building the output row once the amounts are known: the copied columns are read in the
      order the row is built, and `debit` is read between the description and the category. */
  function BuildRow(row: Row, amounts: Option<Amounts>): (r: Result<(BankRow, Amounts), TransformError>)
    ensures r.Success? <==>
              && amounts.Some?
              && "Booking Date" in row && "Check Serial Number" in row && "Description" in row && "Category" in row
    ensures r.Success? ==>
              && r.value.1 == amounts.value
              && Cells(r.value.0) == [row["Booking Date"], row["Check Serial Number"], row["Description"],
                                      amounts.value.debit.GetOr(""), amounts.value.credit.GetOr(""), row["Category"]]
    ensures r.Failure? && "Booking Date" in row && "Check Serial Number" in row && "Description" in row ==>
              r.error == (if amounts.None? then UnboundLocal else KeyError("Category"))
    ensures r.Failure? && r.error.KeyError? ==> r.error.column !in row
  {
    if "Booking Date" !in row then Failure(KeyError("Booking Date"))
    else if "Check Serial Number" !in row then Failure(KeyError("Check Serial Number"))
    else if "Description" !in row then Failure(KeyError("Description"))
    else if amounts.None? then Failure(UnboundLocal)
    else if "Category" !in row then Failure(KeyError("Category"))
    else
      var out := BankRow(row["Booking Date"], row["Check Serial Number"], row["Description"],
                         amounts.value.debit, amounts.value.credit, row["Category"]);
      Success((out, amounts.value))
  }

  /** One pass of the loop body: the indicator step, then the output row; the amounts
      carried to the next row are the ones just written. */
  function Step(row: Row, carried: Option<Amounts>): (r: Result<(BankRow, Amounts), TransformError>)
    ensures StepAmounts(row, carried).Failure? ==> r == Failure(StepAmounts(row, carried).error)
    ensures StepAmounts(row, carried).Success? ==> r == BuildRow(row, StepAmounts(row, carried).value)
    ensures r.Success? ==> r.value.1 == Amounts(r.value.0.debit, r.value.0.credit)
  {
    match StepAmounts(row, carried)
    case Failure(e) => Failure(e)
    case Success(amounts) => BuildRow(row, amounts)
  }

  /** The loop from row `i` on, with the amounts carried into it. */
  function TransformFrom(rows: seq<Row>, i: nat, carried: Option<Amounts>): (o: Outcome)
    requires i <= |rows|
    ensures i + |o.written| <= |rows|
    decreases |rows| - i
  {
    if i == |rows| then Outcome([], None)
    else
      match Step(rows[i], carried)
      case Failure(e) => Outcome([], Some(e))
      case Success((out, amounts)) =>
        var rest := TransformFrom(rows, i + 1, Some(amounts));
        Outcome([out] + rest.written, rest.error)
  }

  /** The loop, split after the rows already written: when row `i` raises, the outcome is
      what has been written so far and that exception. */
  lemma LoopRaises(rows: seq<Row>, i: nat, carried: Option<Amounts>, written: seq<BankRow>, whole: Outcome)
    requires i < |rows| && Step(rows[i], carried).Failure?
    requires whole == Outcome(written + TransformFrom(rows, i, carried).written, TransformFrom(rows, i, carried).error)
    ensures whole == Outcome(written, Some(Step(rows[i], carried).error))
  {
    assert written + [] == written;
  }

  /** When row `i` is written, the split moves past it. */
  lemma LoopContinues(rows: seq<Row>, i: nat, carried: Option<Amounts>, written: seq<BankRow>, whole: Outcome)
    requires i < |rows| && Step(rows[i], carried).Success?
    requires whole == Outcome(written + TransformFrom(rows, i, carried).written, TransformFrom(rows, i, carried).error)
    ensures var (out, amounts) := Step(rows[i], carried).value;
            whole == Outcome((written + [out]) + TransformFrom(rows, i + 1, Some(amounts)).written,
                             TransformFrom(rows, i + 1, Some(amounts)).error)
  {
    var (out, amounts) := Step(rows[i], carried).value;
    assert written + ([out] + TransformFrom(rows, i + 1, Some(amounts)).written)
           == (written + [out]) + TransformFrom(rows, i + 1, Some(amounts)).written;
  }

  function Transform(rows: seq<Row>): (o: Outcome)
    ensures |o.written| <= |rows|
  {
    TransformFrom(rows, 0, None)
  }

  /** `transform_csv` on already-read rows: the header row, then one written row per input row
      until a row raises; the rows written before that stay written. */
  method TransformCsv(rows: seq<Row>) returns (table: seq<seq<string>>, error: Option<TransformError>)
    ensures table == [Fieldnames] + CellRows(Transform(rows).written)
    ensures error == Transform(rows).error
    ensures |table| == |Transform(rows).written| + 1 && table[0] == Fieldnames
    ensures rows != [] && HasColumns(rows[0])
            && rows[0][IndicatorColumn] != "Debit" && rows[0][IndicatorColumn] != "Credit" ==>
              table == [Fieldnames] && error == Some(UnboundLocal)
  {
    table := [Fieldnames];
    error := None;
    ghost var written: seq<BankRow> := [];
    var bound := false;
    var debit: Option<string> := None;
    var credit: Option<string> := None;
    for i := 0 to |rows|
      invariant table == [Fieldnames] + CellRows(written)
      invariant Transform(rows) ==
                Outcome(written + TransformFrom(rows, i, if bound then Some(Amounts(debit, credit)) else None).written,
                        TransformFrom(rows, i, if bound then Some(Amounts(debit, credit)) else None).error)
    {
      var row := rows[i];
      ghost var carried := if bound then Some(Amounts(debit, credit)) else None;
      if IndicatorColumn !in row {
        error := Some(KeyError(IndicatorColumn));
        assert Step(row, carried) == Failure(error.value);
        LoopRaises(rows, i, carried, written, Transform(rows));
        return;
      }
      if row[IndicatorColumn] == "Debit" {
        credit := None;
        if "Amount" !in row {
          error := Some(KeyError("Amount"));
          assert Step(row, carried) == Failure(error.value);
          LoopRaises(rows, i, carried, written, Transform(rows));
          return;
        }
        debit := Some(row["Amount"]);
        bound := true;
      } else if row[IndicatorColumn] == "Credit" {
        if "Amount" !in row {
          error := Some(KeyError("Amount"));
          assert Step(row, carried) == Failure(error.value);
          LoopRaises(rows, i, carried, written, Transform(rows));
          return;
        }
        credit := Some(row["Amount"]);
        debit := None;
        bound := true;
      }
      ghost var amounts := if bound then Some(Amounts(debit, credit)) else None;
      assert StepAmounts(row, carried) == Success(amounts);
      if "Booking Date" !in row {
        error := Some(KeyError("Booking Date"));
        LoopRaises(rows, i, carried, written, Transform(rows));
        return;
      }
      if "Check Serial Number" !in row {
        error := Some(KeyError("Check Serial Number"));
        LoopRaises(rows, i, carried, written, Transform(rows));
        return;
      }
      if "Description" !in row {
        error := Some(KeyError("Description"));
        LoopRaises(rows, i, carried, written, Transform(rows));
        return;
      }
      if !bound {
        error := Some(UnboundLocal);
        LoopRaises(rows, i, carried, written, Transform(rows));
        return;
      }
      if "Category" !in row {
        error := Some(KeyError("Category"));
        LoopRaises(rows, i, carried, written, Transform(rows));
        return;
      }
      var out := BankRow(row["Booking Date"], row["Check Serial Number"], row["Description"], debit, credit, row["Category"]);
      assert Step(row, carried) == Success((out, Amounts(debit, credit)));
      LoopContinues(rows, i, carried, written, Transform(rows));
      assert CellRows(written + [out]) == CellRows(written) + [Cells(out)];
      table := table + [Cells(out)];
      written := written + [out];
    }
  }

  // ---------------------------------------------------------------------------
  // The loop described without the loop
  // ---------------------------------------------------------------------------

  /** The row assigns the amounts: its indicator is exactly "Debit" or "Credit" and it has
      an amount. */
  predicate Assigns(row: Row) {
    IndicatorColumn in row && (row[IndicatorColumn] == "Debit" || row[IndicatorColumn] == "Credit") && "Amount" in row
  }

  function AmountsOf(row: Row): Amounts
    requires Assigns(row)
  {
    if row[IndicatorColumn] == "Debit" then Amounts(Some(row["Amount"]), None) else Amounts(None, Some(row["Amount"]))
  }

  /** The amounts of the last of the first `n` rows that assigns them. */
  function LastAmounts(rows: seq<Row>, n: nat): Option<Amounts>
    requires n <= |rows|
  {
    if n == 0 then None
    else if Assigns(rows[n - 1]) then Some(AmountsOf(rows[n - 1]))
    else LastAmounts(rows, n - 1)
  }

  /** The row has every column the loop reads besides the amount. */
  predicate HasColumns(row: Row) {
    IndicatorColumn in row && "Booking Date" in row && "Check Serial Number" in row
    && "Description" in row && "Category" in row
  }

  /** A row the loop can write: it has every column read, and an amount when its indicator
      is "Debit" or "Credit". */
  predicate Writable(row: Row) {
    HasColumns(row)
    && (row[IndicatorColumn] == "Debit" || row[IndicatorColumn] == "Credit" ==> "Amount" in row)
  }

  /** The output row for input row `j`: its copied columns and the amounts of the last row
      up to and including it that assigns them. */
  function Expected(rows: seq<Row>, j: nat): BankRow
    requires j < |rows| && HasColumns(rows[j]) && LastAmounts(rows, j + 1).Some?
  {
    var row := rows[j];
    var a := LastAmounts(rows, j + 1).value;
    BankRow(row["Booking Date"], row["Check Serial Number"], row["Description"], a.debit, a.credit, row["Category"])
  }

  /** One step with the carried amounts equal to those of the last assigning row. */
  lemma StepFromLast(rows: seq<Row>, i: nat)
    requires i < |rows|
    ensures Step(rows[i], LastAmounts(rows, i)).Success? ==>
              && Writable(rows[i])
              && LastAmounts(rows, i + 1).Some?
              && Step(rows[i], LastAmounts(rows, i)).value == (Expected(rows, i), LastAmounts(rows, i + 1).value)
  {
  }

  /** `out` is the output row for input row `k`. */
  ghost predicate WrittenFor(rows: seq<Row>, k: int, out: BankRow) {
    0 <= k < |rows| && Writable(rows[k]) && LastAmounts(rows, k + 1).Some? && out == Expected(rows, k)
  }

  /** `o` is what the loop gives from row `i` on: output row `j` is the expected row for input
      row `i + j`; output stops at a row whose step raises, carrying its error; and without an
      error every row from `i` on is written. */
  ghost predicate LoopFrom(rows: seq<Row>, i: nat, o: Outcome) {
    && i + |o.written| <= |rows|
    && (forall j :: 0 <= j < |o.written| ==> WrittenFor(rows, i + j, o.written[j]))
    && (o.error.None? <==> i + |o.written| == |rows|)
    && (o.error.Some? ==> Step(rows[i + |o.written|], LastAmounts(rows, i + |o.written|)) == Failure(o.error.value))
  }

  /** The loop from row `i` on, when the amounts carried in are those of the last assigning
      row before it. */
  lemma {:induction false} TransformFromCharacterized(rows: seq<Row>, i: nat)
    requires i <= |rows|
    ensures LoopFrom(rows, i, TransformFrom(rows, i, LastAmounts(rows, i)))
    decreases |rows| - i
  {
    if i < |rows| {
      StepFromLast(rows, i);
      var st := Step(rows[i], LastAmounts(rows, i));
      if st.Success? {
        TransformFromCharacterized(rows, i + 1);
        var rest := TransformFrom(rows, i + 1, LastAmounts(rows, i + 1));
        var o := TransformFrom(rows, i, LastAmounts(rows, i));
        assert o == Outcome([Expected(rows, i)] + rest.written, rest.error);
        assert i + |o.written| == (i + 1) + |rest.written|;
        assert LoopFrom(rows, i + 1, rest);
        assert o.error == rest.error;
        forall j | 0 <= j < |o.written|
          ensures WrittenFor(rows, i + j, o.written[j])
        {
          if j > 0 {
            assert o.written[j] == rest.written[j - 1];
            assert i + j == (i + 1) + (j - 1);
          }
        }
        assert i + |o.written| <= |rows|;
        assert o.error.None? <==> i + |o.written| == |rows|;
        assert o.error.Some? ==> Step(rows[i + |o.written|], LastAmounts(rows, i + |o.written|)) == Failure(o.error.value);
        assert LoopFrom(rows, i, o);
      } else {
        assert TransformFrom(rows, i, LastAmounts(rows, i)) == Outcome([], Some(st.error));
      }
    }
  }

  /** The whole loop: row `j` of the output is the input row `j` with the amounts of the
      last row up to it that assigns them; output stops at the first row that raises, and
      otherwise every input row is written. */
  lemma TransformCharacterized(rows: seq<Row>)
    ensures var o := Transform(rows);
            && |o.written| <= |rows|
            && (forall j :: 0 <= j < |o.written| ==>
                  Writable(rows[j]) && LastAmounts(rows, j + 1).Some? && o.written[j] == Expected(rows, j))
            && (o.error.None? <==> |o.written| == |rows|)
            && (o.error.Some? ==> Step(rows[|o.written|], LastAmounts(rows, |o.written|)) == Failure(o.error.value))
  {
    TransformFromCharacterized(rows, 0);
    assert LastAmounts(rows, 0) == None;
    var o := Transform(rows);
    assert LoopFrom(rows, 0, o);
    forall j | 0 <= j < |o.written|
      ensures Writable(rows[j]) && LastAmounts(rows, j + 1).Some? && o.written[j] == Expected(rows, j)
    {
      assert 0 + j == j;
      assert WrittenFor(rows, 0 + j, o.written[j]);
    }
  }

  /** Exactly one output row per input row, in order, when nothing raises. */
  lemma OneRowPerRow(rows: seq<Row>)
    requires Transform(rows).error.None?
    ensures |Transform(rows).written| == |rows|
  {
    TransformCharacterized(rows);
  }

  /** A "Debit" row puts its amount in the debit column and leaves credit empty; a "Credit"
      row the other way round; the other four columns are copied unchanged. */
  lemma DebitCreditSplit(rows: seq<Row>, j: nat)
    requires j < |Transform(rows).written|
    ensures var out := Transform(rows).written[j];
            && "Booking Date" in rows[j] && out.bookingDate == rows[j]["Booking Date"]
            && "Check Serial Number" in rows[j] && out.checkSerialNumber == rows[j]["Check Serial Number"]
            && "Description" in rows[j] && out.description == rows[j]["Description"]
            && "Category" in rows[j] && out.category == rows[j]["Category"]
            && (IndicatorColumn in rows[j] && rows[j][IndicatorColumn] == "Debit" ==>
                  "Amount" in rows[j] && out.debit == Some(rows[j]["Amount"]) && out.credit == None)
            && (IndicatorColumn in rows[j] && rows[j][IndicatorColumn] == "Credit" ==>
                  "Amount" in rows[j] && out.credit == Some(rows[j]["Amount"]) && out.debit == None)
  {
    TransformCharacterized(rows);
    assert Writable(rows[j]);
    if rows[j][IndicatorColumn] == "Debit" || rows[j][IndicatorColumn] == "Credit" {
      assert Assigns(rows[j]);
      assert LastAmounts(rows, j + 1) == Some(AmountsOf(rows[j]));
    }
  }

  /** Any other indicator (including "debit" in another case) repeats the previous output
      row's amounts, and cannot occur on the first row written. */
  lemma OtherIndicatorRepeatsAmounts(rows: seq<Row>, j: nat)
    requires j < |Transform(rows).written|
    requires IndicatorColumn in rows[j] && rows[j][IndicatorColumn] != "Debit" && rows[j][IndicatorColumn] != "Credit"
    ensures j > 0
    ensures Transform(rows).written[j].debit == Transform(rows).written[j - 1].debit
    ensures Transform(rows).written[j].credit == Transform(rows).written[j - 1].credit
  {
    TransformCharacterized(rows);
    assert !Assigns(rows[j]);
    assert LastAmounts(rows, j + 1) == LastAmounts(rows, j);
    if j > 0 {
      var o := Transform(rows);
      assert o.written[j - 1] == Expected(rows, j - 1);
      assert j - 1 + 1 == j;
    }
  }

  /** A first row with any other indicator raises before anything is written. */
  lemma FirstRowOtherIndicatorRaises(rows: seq<Row>)
    requires rows != [] && HasColumns(rows[0])
    requires rows[0][IndicatorColumn] != "Debit" && rows[0][IndicatorColumn] != "Credit"
    ensures Transform(rows) == Outcome([], Some(UnboundLocal))
  {
  }
}
