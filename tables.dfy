/** The three tables of the spending database, as values.
    user_info and high_spenders are keyed by their INTEGER PRIMARY KEY
    user_id, so each is a map; user_spending has no key and keeps every
    row, duplicates included, so it is a sequence. Columns without a
    NOT NULL constraint that a query reads are optional. */
module Tables {
  import opened Sql

  /** A user_info row, without its user_id (the key of the map). */
  datatype UserInfo = UserInfo(name: Option<string>, email: Option<string>, age: Option<int>)

  type UserTable = map<int, UserInfo>

  /** A user_spending row. */
  datatype SpendingRow = SpendingRow(userId: int, moneySpent: Option<real>, year: Option<int>)

  /** high_spenders: user_id to total_spending. */
  type HighSpenderTable = map<int, real>

  /** The money_spent column that an aggregate sees for `SELECT ... FROM
      user_spending WHERE cond`: the non-NULL values of the rows satisfying
      `cond`, in table order. */
  function Selected(rows: seq<SpendingRow>, cond: SpendingRow -> bool): (xs: seq<real>)
    ensures |xs| <= |rows|
  {
    if rows == [] then []
    else
      var row := rows[0];
      (if cond(row) && row.moneySpent.Some? then [row.moneySpent.value] else [])
      + Selected(rows[1..], cond)
  }

  /** The column is empty exactly when no row satisfying `cond` has a
      non-NULL money_spent. */
  lemma {:induction false} SelectedEmpty(rows: seq<SpendingRow>, cond: SpendingRow -> bool)
    ensures Selected(rows, cond) == []
            <==> forall i | 0 <= i < |rows| :: cond(rows[i]) ==> rows[i].moneySpent.None?
    decreases |rows|
  {
    if rows != [] {
      SelectedEmpty(rows[1..], cond);
      assert forall i | 1 <= i < |rows| :: rows[i] == rows[1..][i - 1];
    }
  }

  lemma {:induction false} SelectedAppend(a: seq<SpendingRow>, b: seq<SpendingRow>, cond: SpendingRow -> bool)
    ensures Selected(a + b, cond) == Selected(a, cond) + Selected(b, cond)
    decreases |a|
  {
    if a == [] {
      assert a + b == b;
    } else {
      assert (a + b)[1..] == a[1..] + b;
      SelectedAppend(a[1..], b, cond);
    }
  }

  /** The column of a non-empty table: the first row's cell, then the rest. */
  lemma SelectedCons(rows: seq<SpendingRow>, cond: SpendingRow -> bool)
    requires rows != []
    ensures Selected(rows, cond) == Selected([rows[0]], cond) + Selected(rows[1..], cond)
  {
  }

  /** Taking out the row at index i takes its value, if selected, out of the column. */
  lemma SelectedRemoveAt(b: seq<SpendingRow>, i: nat, cond: SpendingRow -> bool)
    requires i < |b|
    ensures multiset(Selected(b, cond))
            == multiset(Selected(b[..i] + b[i + 1..], cond)) + multiset(Selected([b[i]], cond))
  {
    var front, back := b[..i], b[i + 1..];
    SplitAt(b, i);
    SelectedAppend(front + [b[i]], back, cond);
    SelectedAppend(front, [b[i]], cond);
    SelectedAppend(front, back, cond);
    MultisetRegroup(Selected(front, cond), Selected([b[i]], cond), Selected(back, cond));
  }

  /** Reordering the rows of the table reorders the selected column and
      nothing more. */
  lemma {:induction false} SelectedPermutation(a: seq<SpendingRow>, b: seq<SpendingRow>, cond: SpendingRow -> bool)
    requires multiset(a) == multiset(b)
    ensures multiset(Selected(a, cond)) == multiset(Selected(b, cond))
    decreases |a|
  {
    if a == [] {
      assert |b| == |multiset(b)| == 0;
    } else {
      var x := a[0];
      var i := IndexOf(b, x);
      var rest := b[..i] + b[i + 1..];
      MultisetTails(a, b, i);
      SelectedPermutation(a[1..], rest, cond);
      SelectedRemoveAt(b, i, cond);
      SelectedCons(a, cond);
      calc {
        multiset(Selected(a, cond));
        multiset(Selected([x], cond)) + multiset(Selected(a[1..], cond));
        multiset(Selected([x], cond)) + multiset(Selected(rest, cond));
        multiset(Selected(b, cond));
      }
    }
  }

  /** Two WHERE clauses that agree on every row select the same column. */
  lemma {:induction false} SelectedAgree(rows: seq<SpendingRow>, c1: SpendingRow -> bool, c2: SpendingRow -> bool)
    requires forall i | 0 <= i < |rows| :: c1(rows[i]) == c2(rows[i])
    ensures Selected(rows, c1) == Selected(rows, c2)
    decreases |rows|
  {
    if rows != [] {
      assert forall i | 0 <= i < |rows[1..]| :: rows[1..][i] == rows[i + 1];
      SelectedAgree(rows[1..], c1, c2);
    }
  }

  /** Every value of the column is the amount of some row, so bounds on the
      amounts bound the column. */
  lemma {:induction false} SelectedWithin(rows: seq<SpendingRow>, cond: SpendingRow -> bool, lo: real, hi: real)
    requires forall i | 0 <= i < |rows| :: rows[i].moneySpent.Some? ==> lo <= rows[i].moneySpent.value <= hi
    ensures forall j | 0 <= j < |Selected(rows, cond)| :: lo <= Selected(rows, cond)[j] <= hi
    decreases |rows|
  {
    if rows != [] {
      assert forall i | 0 <= i < |rows[1..]| :: rows[1..][i] == rows[i + 1];
      SelectedWithin(rows[1..], cond, lo, hi);
    }
  }
}
