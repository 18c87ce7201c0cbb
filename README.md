# High-spender tracker: the spending store

A model of the data layer of a small Flask service, `finalapp.py`. The
service keeps three SQLite tables and answers three endpoints:

- `user_info(user_id PRIMARY KEY, name, email, age)`: a map from user id to
  the rest of the row (`Tables.UserTable`).
- `user_spending(user_id, money_spent, year)`: no key, so it is a sequence
  of rows with duplicates allowed (`seq<Tables.SpendingRow>`).
- `high_spenders(user_id PRIMARY KEY, total_spending)`: a map from user id
  to total (`Tables.HighSpenderTable`).

The endpoints, with their SQL written out:

- `GET /total_spent/<user_id>` runs `SELECT SUM(money_spent) ... WHERE user_id = ?`.
  NULL becomes 404 "User has spent 0.00" and a number is returned as the
  total. This is `Spending.TotalSpent`, a recursive scan that returns an
  `Option`. It is proved equal to SQL `SUM` over the selected column.
- `GET /average_spending_by_age` loops over five age bands. Each band runs an
  `AVG` over `user_spending JOIN user_info`, using `BETWEEN start AND end` or
  `age >= start`. A NULL average becomes 0, stored under `"start-end"` or
  `">start"`. This is the method `AgeBands.AverageSpendingByAge`.
- `/write_high_spenders/<user_id>/<total_spending>` inserts the user when
  the amount is strictly above 1000. The primary key turns a second insert
  into an IntegrityError, so the endpoint answers 409 and the first value
  stays. This is `HighSpenders.Record` as a function, and
  `Store.Database.WriteHighSpenders` as a method on a class that holds the
  three tables.

Amounts are exact `real`s, so SUM and AVG do not depend on row order.
NULL columns are optional values. SQL aggregates skip NULLs, and an aggregate
with no non-NULL input is NULL (`Sql.SqlSum`, `Sql.SqlAvg`).

Files: `sql.dfy` (aggregate semantics), `tables.dfy` (row types, the column
a `WHERE` clause selects), `spending.dfy`, `age_bands.dfy`,
`high_spenders.dfy` and `store.dfy`.

Three consequences of the code that are easy to miss:

- `finalapp.py` does not check the sign of `total_spending`. A direct call of
  the function with a negative amount takes the below-threshold branch and
  answers 400. Over HTTP, the unsigned `<float:...>` converter never matches
  a negative amount, so the route answers 404 and the function never runs.
- The threshold is compared before the INSERT. So after a first insert, a
  second call with an amount of at most 1000 reports BelowThreshold, not
  AlreadyExists (`HighSpenders.SecondCallNeverOverwrites`). The table is
  unchanged either way.
- `SUM` skips NULLs, so a user whose rows all have a NULL `money_spent` is
  also not found (`Spending.TotalSpentNotFound`). Without NULL amounts,
  "not found" means exactly that the user has no rows
  (`Spending.TotalSpentNotFoundWithoutNulls`).

## Model

| member | source | states |
|---|---|---|
| `Spending.TotalSpent` | finalapp.py:57-63 | The one-pass scan of user_spending equals SQL `SUM(money_spent) WHERE user_id = ?`: None (404) when the column is empty, otherwise Some of its sum. |
| `Spending.TotalSpentNotFound` | finalapp.py:57-62 | Not found if and only if no row of the user has a non-NULL amount. Otherwise the result is the sum of exactly those amounts. |
| `Spending.TotalSpentNotFoundWithoutNulls` | finalapp.py:57-62 | When no amount is NULL, not found if and only if the user has no row at all. |
| `Spending.TotalSpentOrderIndependent` | finalapp.py:57 | Two tables with the same rows in any order give the same total, because the table has no order. |
| `Spending.TotalSpentAppend` | finalapp.py:30-35 | Appending another user's row, or a row with NULL amount, leaves a user's total unchanged. Appending one of their rows adds its amount, with 0 standing in for a previous not-found. |
| `Spending.TotalSpentExample` | finalapp.py:57-63 | User 7 with rows 50 and 75 has spent 125. User 9, with no rows, is not found. |
| `Sql.SumPermutation` | finalapp.py:57 | The exact sum of a column does not depend on the order of its values. |
| `Sql.AvgWithinBounds` | finalapp.py:79 | AVG is NULL exactly over an empty column. Otherwise it lies between any lower and upper bound of the values. |
| `Tables.SelectedPermutation` | finalapp.py:30-35 | Reordering the rows of user_spending only reorders the column that a WHERE clause selects (same multiset). |
| `Tables.SelectedEmpty` | finalapp.py:57 | The selected column is empty if and only if every row the WHERE clause keeps has a NULL amount. |
| `AgeBands.AverageSpendingByAge` | finalapp.py:66-97 | The loop returns exactly five entries, keyed in order "18-24", "25-30", "31-36", "37-47", ">48". Each value is the band's AVG over the joined rows, or 0 when that AVG is NULL. It runs the BETWEEN query for closed bands and the `>=` query for the open one. It changes no table. |
| `AgeBands.AgeRangeLabels` | finalapp.py:68-93 | The f-string labels of the five bands are exactly "18-24", "25-30", "31-36", "37-47", ">48". |
| `AgeBands.NatToStringRoundTrip` | finalapp.py:93 | The decimal text used in a label is non-empty, all digits, has no leading zero, and reads back as the number. |
| `AgeBands.BandMembership` | finalapp.py:68-90 | Inclusive BETWEEN for the closed bands and `>=` for the last one put each age in the band given by an independent case split. So 47 is only in "37-47", 48 only in ">48", and an age below 18 is in no band. |
| `AgeBands.RowCountsToward` | finalapp.py:78-90 | A spending row is averaged into band k if and only if its user has a user_info row with a non-NULL age in band k and the row has an amount. Users missing from user_info count nowhere. |
| `AgeBands.BandsPartitionAdults` | finalapp.py:68-90 | Over any tables, the five bands' row counts and sums add up to the count and sum of all rows of users aged 18 or more. Each such row is counted exactly once. |
| `AgeBands.BandAverageBounds` | finalapp.py:79-94 | A band with no matching row reports 0. Otherwise its value lies between any bounds of the table's amounts. |
| `HighSpenders.Record` | finalapp.py:100-124 | BelowThreshold if and only if the amount is at most 1000. Inserted if and only if it is above 1000 and the user is absent, and then the table gains exactly that entry. Any other outcome leaves the table unchanged. |
| `HighSpenders.RecordKeepsRows` | finalapp.py:37-40 | A call never removes a row and never changes a stored total. The only possible new key is the caller's user id, and only when the amount qualifies and the key was absent. |
| `HighSpenders.SecondCallNeverOverwrites` | finalapp.py:108-122 | After a user has been inserted, a second call for them leaves the table and the first total unchanged. It reports AlreadyExists above the threshold and BelowThreshold otherwise. |
| `HighSpenders.FirstWriteWins` | finalapp.py:114-122 | Over any sequence of calls, a user already present keeps their total. An absent user ends with the first qualifying amount, or stays absent if none qualifies. |
| `HighSpenders.AtMostOneInsert` | finalapp.py:114-122 | Over any sequence of calls, exactly one call for a user reports Inserted when the user was absent and some call qualified. Otherwise none does. Every qualifying call for the user reports Inserted or AlreadyExists. |
| `HighSpenders.ThresholdBoundary` | finalapp.py:102-108 | Exactly 1000 is below the threshold and changes nothing. 1000.01 inserts an absent user. |
| `Store.Database.constructor` | finalapp.py:23-40 | The database starts with the given contents of its three tables. |
| `Store.Database.WriteHighSpenders` | finalapp.py:100-124 | The outcome and the new high_spenders table are those of `Record` on the old table. user_info and user_spending are unchanged. |

## Left out

- HTTP: Flask routing, URL converters, `jsonify` and status codes. They are
  replaced by `Option` (404 as None), the ordered result sequence, and
  `Outcome` (201, 409, 400). Flask's converters only pass non-negative
  numbers. The model also accepts negative ids and amounts, inputs the
  route never passes.
- Spending.TotalSpent: a `user_id` outside SQLite's 64-bit INTEGER range
  (2^63 or more, which `<int:user_id>` accepts) makes the driver raise
  OverflowError when it binds the parameter. Nothing catches that error, so
  the endpoint answers 500. The model answers as for any other id.
- HighSpenders.Record: the same driver error on a `user_id` of 2^63 or more
  is not represented. It is not the IntegrityError that the endpoint catches,
  so the real endpoint answers 500. The model reports Inserted or
  AlreadyExists.
- Store.Database.WriteHighSpenders: follows `Record`, so it does not
  represent that driver error either.
- Connection handling. Opening the database and the error tuple of
  `get_db_connection` (the 500 answer) are I/O, not logic. So is the
  connection left open on the IntegrityError path.
- Schema bootstrap (`initialize_database`): only the table shapes and their
  primary keys are kept, as map and sequence types. `Store.Database`'s
  constructor takes the tables' contents as they are.
- Floating-point rounding of REAL `SUM` and `AVG`: amounts are exact reals.
- The `user_id is None or total_spending is None` check: the URL converters
  never pass None, so the branch cannot be taken.
- Concurrent inserters: each call is one atomic step. `RecordAll` runs a
  sequence of calls in the order the storage engine serialises them. The
  locking itself is not modelled.
- `user_spending` rows with a NULL `user_id`: neither `WHERE user_id = ?` nor
  the join can match them, so they behave like absent rows.
- A NULL `total_spending` in `high_spenders`: the endpoint always writes a
  number, and only the key's presence is ever read.
- SQLite type affinity: values of another type stored in INTEGER or REAL
  columns are not modelled.
- The JSON object of the averages is modelled as a sequence of
  (label, value) pairs. Its labels are distinct, so no entry of the Python
  dict is overwritten. Sorting the keys in the JSON output gives the same
  order.
- `avg_spent or 0` also maps an average of exactly 0.0 to 0, which is the
  same number, so `GetOr(0.0)` models it.
