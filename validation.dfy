/**
 * Row validation of the upload handler: a row is kept exactly when both its
 * `FirstName` and its `Phone` are truthy strings, and the kept rows stay in
 * their input order. No trimming happens here, so a name of spaces is kept.
 */
module Validation {
  import opened Rows

  /** `item.FirstName && item.Phone && typeof item.FirstName === 'string' && typeof item.Phone === 'string'` */
  predicate IsValidItem(row: Row)
  {
    && TruthyAt(row, "FirstName")
    && TruthyAt(row, "Phone")
    && row["FirstName"].Str?
    && row["Phone"].Str?
  }

  /** `listItems.filter(...)`: the valid rows, in input order. */
  function ValidItems(rows: seq<Row>): (r: seq<Row>)
    ensures |r| <= |rows|
    ensures forall k :: 0 <= k < |r| ==> IsValidItem(r[k])
  {
    if rows == [] then []
    else
      (if IsValidItem(rows[0]) then [rows[0]] else []) + ValidItems(rows[1..])
  }

  /** `idx` lists, strictly increasing, the positions in `rows` that `kept` was taken from. */
  ghost predicate SelectedAt(kept: seq<Row>, rows: seq<Row>, idx: seq<nat>)
  {
    && |idx| == |kept|
    && (forall k :: 0 <= k < |idx| ==> idx[k] < |rows| && kept[k] == rows[idx[k]])
    && (forall k, l :: 0 <= k < l < |idx| ==> idx[k] < idx[l])
  }

  /**
   * The survivors form a subsequence of the input that holds exactly the valid
   * rows: the returned positions are increasing, and a position is among them
   * if and only if the row there is valid.
   */
  lemma {:induction false} ValidItemsIsValidSubsequence(rows: seq<Row>) returns (idx: seq<nat>)
    ensures SelectedAt(ValidItems(rows), rows, idx)
    ensures forall i :: 0 <= i < |rows| ==> (i in idx <==> IsValidItem(rows[i]))
  {
    if rows == [] {
      idx := [];
    } else {
      var rest := ValidItemsIsValidSubsequence(rows[1..]);
      var shifted := Shift(rest);
      ShiftSelects(ValidItems(rows[1..]), rows, rest);
      ShiftMembership(rows, rest);
      if IsValidItem(rows[0]) {
        idx := [0] + shifted;
        assert ValidItems(rows) == [rows[0]] + ValidItems(rows[1..]);
      } else {
        idx := shifted;
        assert ValidItems(rows) == ValidItems(rows[1..]);
      }
      forall i | 0 <= i < |rows|
        ensures i in idx <==> IsValidItem(rows[i])
      {
        if i > 0 {
          assert rows[i] == rows[1..][i - 1];
        }
      }
    }
  }

  /** Every position moved one place to the right. */
  function Shift(idx: seq<nat>): (r: seq<nat>)
    ensures |r| == |idx| && forall k :: 0 <= k < |idx| ==> r[k] == idx[k] + 1
  {
    seq(|idx|, k requires 0 <= k < |idx| => idx[k] + 1)
  }

  /** Positions selecting from `rows[1..]`, shifted by one, select the same rows from `rows`. */
  lemma ShiftSelects(kept: seq<Row>, rows: seq<Row>, idx: seq<nat>)
    requires rows != [] && SelectedAt(kept, rows[1..], idx)
    ensures SelectedAt(kept, rows, Shift(idx))
    ensures SelectedAt([rows[0]] + kept, rows, [0] + Shift(idx))
  {
  }

  /** Position i > 0 is among the shifted positions exactly when i - 1 was among the originals; 0 never is. */
  lemma ShiftMembership(rows: seq<Row>, idx: seq<nat>)
    ensures 0 !in Shift(idx)
    ensures forall i :: 1 <= i < |rows| ==> (i in Shift(idx) <==> i - 1 in idx)
  {
    var s := Shift(idx);
    forall i | 1 <= i < |rows|
      ensures i in s <==> i - 1 in idx
    {
      if i in s {
        var k :| 0 <= k < |s| && s[k] == i;
      }
      if i - 1 in idx {
        var k :| 0 <= k < |idx| && idx[k] == i - 1;
        assert s[k] == i;
      }
    }
  }

  /** Zero survivors happens exactly when no input row is valid. */
  lemma NoValidItemsIff(rows: seq<Row>)
    ensures ValidItems(rows) == [] <==> forall i :: 0 <= i < |rows| ==> !IsValidItem(rows[i])
  {
    var idx := ValidItemsIsValidSubsequence(rows);
    if idx != [] {
      assert idx[0] in idx;
    }
  }

}
