/** GET /total_spent/<user_id>:
    SELECT SUM(money_spent) FROM user_spending WHERE user_id = ? */
module Spending {
  import opened Sql
  import opened Tables

  /** The WHERE clause of the query. */
  function OfUser(userId: int): SpendingRow -> bool {
    (row: SpendingRow) => row.userId == userId
  }

  /** The query's result, computed by one scan of the table: None is the
      NULL that the endpoint answers with 404 "User has spent 0.00", Some(s)
      the total it returns. Being a function of the table's value, it
      changes no table. */
  function TotalSpent(rows: seq<SpendingRow>, userId: int): (r: Option<real>)
    ensures r == SqlSum(Selected(rows, OfUser(userId)))
    decreases |rows|
  {
    if rows == [] then None
    else
      var rest := TotalSpent(rows[1..], userId);
      var row := rows[0];
      assert Selected(rows, OfUser(userId))
             == (if row.userId == userId && row.moneySpent.Some? then [row.moneySpent.value] else [])
                + Selected(rows[1..], OfUser(userId));
      if row.userId == userId && row.moneySpent.Some? then
        var tail := Selected(rows[1..], OfUser(userId));
        assert ([row.moneySpent.value] + tail)[1..] == tail;
        assert rest.GetOr(0.0) == Sum(tail);
        Some(row.moneySpent.value + rest.GetOr(0.0))
      else
        assert [] + Selected(rows[1..], OfUser(userId)) == Selected(rows[1..], OfUser(userId));
        rest
  }

  /** Not found exactly when the user has no row with a non-NULL amount;
      otherwise the sum of those amounts. */
  lemma TotalSpentNotFound(rows: seq<SpendingRow>, userId: int)
    ensures TotalSpent(rows, userId).None?
            <==> forall i | 0 <= i < |rows| :: rows[i].userId == userId ==> rows[i].moneySpent.None?
    ensures TotalSpent(rows, userId).Some?
            ==> TotalSpent(rows, userId).value == Sum(Selected(rows, OfUser(userId)))
  {
    SelectedEmpty(rows, OfUser(userId));
  }

  /** Where every row has an amount (money_spent is never NULL), not found
      means exactly that the user has no row at all. */
  lemma TotalSpentNotFoundWithoutNulls(rows: seq<SpendingRow>, userId: int)
    requires forall i | 0 <= i < |rows| :: rows[i].moneySpent.Some?
    ensures TotalSpent(rows, userId).None? <==> forall i | 0 <= i < |rows| :: rows[i].userId != userId
  {
  }

  /** The total does not depend on the order in which rows were inserted. */
  lemma TotalSpentOrderIndependent(a: seq<SpendingRow>, b: seq<SpendingRow>, userId: int)
    requires multiset(a) == multiset(b)
    ensures TotalSpent(a, userId) == TotalSpent(b, userId)
  {
    var xa, xb := Selected(a, OfUser(userId)), Selected(b, OfUser(userId));
    SelectedPermutation(a, b, OfUser(userId));
    SumPermutation(xa, xb);
    assert xa == [] <==> xb == [] by {
      assert |xa| == |multiset(xa)| && |xb| == |multiset(xb)|;
    }
  }

  /** Appending a row for another user leaves a user's total as it was;
      appending one with an amount for the same user adds that amount. */
  lemma TotalSpentAppend(rows: seq<SpendingRow>, row: SpendingRow, userId: int)
    ensures row.userId != userId || row.moneySpent.None?
            ==> TotalSpent(rows + [row], userId) == TotalSpent(rows, userId)
    ensures row.userId == userId && row.moneySpent.Some?
            ==> TotalSpent(rows + [row], userId)
                == Some(TotalSpent(rows, userId).GetOr(0.0) + row.moneySpent.value)
  {
    var cond := OfUser(userId);
    SelectedAppend(rows, [row], cond);
    assert [row][1..] == [];
    SumAppend(Selected(rows, cond), Selected([row], cond));
  }

  /** User 7 with rows {50, 75} has spent 125; user 9, without rows, is not found. */
  lemma TotalSpentExample()
    ensures var rows := [SpendingRow(7, Some(50.0), Some(2023)), SpendingRow(7, Some(75.0), Some(2024))];
            TotalSpent(rows, 7) == Some(125.0) && TotalSpent(rows, 9) == None
  {
  }
}
