/**
 * Question numbering over quiz slots, shared by the solution report
 * (`quiz_report_get_all_question_slots`) and the handout report
 * (`quiz_report_get_all_questions`).
 *
 * The database query joins questions to the quiz's slots, keeps rows whose
 * question `length` is greater than -1 and orders them by slot; the rows
 * are passed in that order.  Each question then receives a number: the
 * first one 1, every later one the previous number plus the previous
 * question's `length`.  Descriptions have length 0 and so do not advance
 * the numbering.
 */
module QuestionNumbering {
  import opened Filtering

  /** One row of the slot query: `slot.slot, q.id, q.length, slot.maxmark`. */
  datatype SlotRow = SlotRow(slot: int, questionId: int, length: int, maxMark: real)

  /** A row with the `number` field the report adds to it. */
  datatype NumberedSlot = NumberedSlot(row: SlotRow, number: int)

  /** The query's `q.length > -1` condition, keeping the row order. */
  function Selected(rows: seq<SlotRow>): (sel: seq<SlotRow>)
    ensures forall i :: 0 <= i < |sel| ==> sel[i].length >= 0
    ensures forall r :: r in sel <==> r in rows && r.length > -1
    ensures |sel| <= |rows|
  {
    if |rows| == 0 then []
    else if rows[0].length > -1 then [rows[0]] + Selected(rows[1..])
    else Selected(rows[1..])
  }

  /**
   * `Selected` is the order-preserving filter: the kept rows are the rows
   * with `length > -1`, each of them, at strictly increasing positions, so
   * they stay in slot order.
   */
  lemma {:induction false} SelectedInOrder(rows: seq<SlotRow>) returns (idx: seq<nat>)
    ensures PicksAt(rows, Selected(rows), idx) && Ascending(idx)
    ensures Covers(rows, (r: SlotRow) => r.length > -1, idx)
  {
    if |rows| == 0 {
      idx := [];
    } else {
      var tailIdx := SelectedInOrder(rows[1..]);
      idx := FilterStep(rows, (r: SlotRow) => r.length > -1, Selected(rows), Selected(rows[1..]), tailIdx);
    }
  }
  /** The query's `ORDER BY slot.slot`: slot numbers strictly increase along the rows. */
  ghost predicate SlotsAscending(rows: seq<SlotRow>) {
    forall m, n :: 0 <= m < n < |rows| ==> rows[m].slot < rows[n].slot
  }

  /** Rows that arrive in slot order are selected in slot order. */
  lemma SelectedKeepsSlotOrder(rows: seq<SlotRow>)
    requires SlotsAscending(rows)
    ensures SlotsAscending(Selected(rows))
  {
    var idx := SelectedInOrder(rows);
    var sel := Selected(rows);
    forall m, n | 0 <= m < n < |sel| ensures sel[m].slot < sel[n].slot {
      assert sel[m] == rows[idx[m]] && sel[n] == rows[idx[n]] && idx[m] < idx[n];
    }
  }


  /** Total length of a run of rows. */
  function LengthSum(rows: seq<SlotRow>): int {
    if |rows| == 0 then 0 else rows[0].length + LengthSum(rows[1..])
  }

  /**
   * Numbering that starts at `start`: one output per row, in row order,
   * each carrying its row unchanged.
   */
  function NumberFrom(rows: seq<SlotRow>, start: int): (r: seq<NumberedSlot>)
    ensures |r| == |rows|
    ensures forall i :: 0 <= i < |r| ==> r[i].row == rows[i]
    ensures |r| > 0 ==> r[0].number == start
    ensures forall i :: 0 <= i < |r| - 1 ==> r[i + 1].number == r[i].number + rows[i].length
  {
    if |rows| == 0 then []
    else [NumberedSlot(rows[0], start)] + NumberFrom(rows[1..], start + rows[0].length)
  }

  /** `quiz_report_get_all_question_slots` of the solution report. */
  function SolutionSlots(rows: seq<SlotRow>): (r: seq<NumberedSlot>)
    ensures |r| == |Selected(rows)|
    ensures forall i :: 0 <= i < |r| ==> r[i].row == Selected(rows)[i]
    ensures |r| > 0 ==> r[0].number == 1
    ensures forall i :: 0 <= i < |r| - 1 ==> r[i + 1].number == r[i].number + r[i].row.length
  {
    NumberFrom(Selected(rows), 1)
  }

  /**
   * `quiz_report_get_all_questions` of the handout report, written as the
   * source's `foreach` loop; it agrees with the solution report's numbering.
   */
  method HandoutQuestions(rows: seq<SlotRow>) returns (out: seq<NumberedSlot>)
    ensures |out| == |Selected(rows)|
    ensures forall i :: 0 <= i < |out| ==> out[i].row == Selected(rows)[i]
    ensures |out| > 0 ==> out[0].number == 1
    ensures forall i :: 0 <= i < |out| - 1 ==> out[i + 1].number == out[i].number + out[i].row.length
    ensures out == SolutionSlots(rows)
  {
    var qs := Selected(rows);
    var number := 1;
    out := [];
    var k := 0;
    while k < |qs|
      invariant 0 <= k <= |qs|
      invariant number == 1 + LengthSum(qs[..k])
      invariant out == NumberFrom(qs, 1)[..k]
    {
      NumberedStep(qs, k, number);
      out := out + [NumberedSlot(qs[k], number)];
      number := number + qs[k].length;
      k := k + 1;
    }
    assert NumberFrom(qs, 1)[..k] == NumberFrom(qs, 1);
  }

  /** One step of the handout loop: the next output and the next running number. */
  lemma NumberedStep(qs: seq<SlotRow>, k: nat, number: int)
    requires k < |qs|
    requires number == 1 + LengthSum(qs[..k])
    ensures NumberFrom(qs, 1)[..k + 1] == NumberFrom(qs, 1)[..k] + [NumberedSlot(qs[k], number)]
    ensures number + qs[k].length == 1 + LengthSum(qs[..k + 1])
  {
    LengthSumStep(qs, k);
    NumberFromClosedForm(qs, 1, k);
    assert NumberFrom(qs, 1)[..k + 1] == NumberFrom(qs, 1)[..k] + [NumberFrom(qs, 1)[k]];
  }

  lemma {:induction false} LengthSumStep(rows: seq<SlotRow>, k: nat)
    requires k < |rows|
    ensures LengthSum(rows[..k + 1]) == LengthSum(rows[..k]) + rows[k].length
  {
    if k > 0 {
      LengthSumStep(rows[1..], k - 1);
      assert rows[..k + 1][1..] == rows[1..][..k];
      assert rows[..k][1..] == rows[1..][..k - 1];
    } else {
      assert rows[..1][1..] == [];
    }
  }

  /** The number of the `k`-th row is `start` plus the lengths before it. */
  lemma {:induction false} NumberFromClosedForm(rows: seq<SlotRow>, start: int, k: nat)
    requires k < |rows|
    ensures NumberFrom(rows, start)[k].number == start + LengthSum(rows[..k])
  {
    if k > 0 {
      NumberFromClosedForm(rows[1..], start + rows[0].length, k - 1);
      assert NumberFrom(rows, start)[k] == NumberFrom(rows[1..], start + rows[0].length)[k - 1];
      assert rows[..k][1..] == rows[1..][..k - 1];
      assert LengthSum(rows[..k]) == rows[0].length + LengthSum(rows[1..][..k - 1]);
    }
  }

  /**
   * Every question's number is one more than the summed lengths of the
   * selected questions before it.
   */
  lemma SolutionNumberIsPrefixSum(rows: seq<SlotRow>, k: nat)
    requires k < |SolutionSlots(rows)|
    ensures SolutionSlots(rows)[k].number == 1 + LengthSum(Selected(rows)[..k])
  {
    NumberFromClosedForm(Selected(rows), 1, k);
  }

  /** Because only rows with `length > -1` are kept, numbers never decrease. */
  lemma {:induction false} NumbersNonDecreasing(rows: seq<SlotRow>, i: nat, j: nat)
    requires i <= j < |SolutionSlots(rows)|
    ensures SolutionSlots(rows)[i].number <= SolutionSlots(rows)[j].number
    decreases j - i
  {
    if i < j {
      NumbersNonDecreasing(rows, i, j - 1);
      var r := SolutionSlots(rows);
      assert r[j].number == r[j - 1].number + r[j - 1].row.length;
      assert r[j - 1].row.length >= 0;
    }
  }

  /** A zero-length item (a description) shares its number with the next item. */
  lemma ZeroLengthDoesNotAdvance(rows: seq<SlotRow>, i: nat)
    requires i + 1 < |SolutionSlots(rows)|
    requires SolutionSlots(rows)[i].row.length == 0
    ensures SolutionSlots(rows)[i + 1].number == SolutionSlots(rows)[i].number
  {
  }
}
