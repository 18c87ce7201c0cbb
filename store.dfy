/** The database file behind the three endpoints: its three tables, and the
    one endpoint that writes to it. The two reading endpoints are
    Spending.TotalSpent and AgeBands.AverageSpendingByAge, applied to the
    tables' current contents. */
module Store {
  import opened Sql
  import opened Tables
  import opened HighSpenders

  class Database {
    var userInfo: UserTable
    var userSpending: seq<SpendingRow>
    var highSpenders: HighSpenderTable

    /** The tables as the process finds them after create-if-absent. */
    constructor (users: UserTable, spending: seq<SpendingRow>, high: HighSpenderTable)
      ensures userInfo == users && userSpending == spending && highSpenders == high
    {
      userInfo, userSpending, highSpenders := users, spending, high;
    }

    /** The endpoint: compare with the threshold, then INSERT, which the
        primary key turns into an IntegrityError for a user already present.
        Only high_spenders can change, and only by gaining the new row. */
    method WriteHighSpenders(userId: int, totalSpending: real) returns (outcome: Outcome)
      modifies this
      ensures userInfo == old(userInfo) && userSpending == old(userSpending)
      ensures Step(outcome, highSpenders) == Record(old(highSpenders), userId, totalSpending)
      ensures outcome == Inserted ==> highSpenders == old(highSpenders)[userId := totalSpending]
      ensures outcome != Inserted ==> highSpenders == old(highSpenders)
    {
      if totalSpending > SpendingThreshold {
        if userId in highSpenders {
          outcome := AlreadyExists;
        } else {
          highSpenders := highSpenders[userId := totalSpending];
          outcome := Inserted;
        }
      } else {
        outcome := BelowThreshold;
      }
    }
  }
}
