/** GET /average_spending_by_age: for each of five fixed age bands, the
    average money_spent over user_spending joined with user_info on
    user_id, restricted to the users whose age lies in the band. */
module AgeBands {
  import opened Sql
  import opened Tables

  /** An entry of the band list: `end` None is the open band. */
  datatype Band = Band(start: int, end: Option<int>)

  /** The band list, in the order the endpoint evaluates it. */
  const AgeRanges: seq<Band> :=
    [Band(18, Some(24)), Band(25, Some(30)), Band(31, Some(36)), Band(37, Some(47)), Band(48, None)]

  /** Whether a band is treated as closed: Python's truth value of `end`,
      false for None and for 0. */
  predicate IsClosed(b: Band) {
    b.end.Some? && b.end.value != 0
  }

  /** Band membership of an age: inclusive at both ends for a closed band,
      inclusive below and unbounded above for an open one. */
  predicate InBand(b: Band, age: int) {
    if IsClosed(b) then b.start <= age <= b.end.value else age >= b.start
  }

  /** The rows that the join and the band keep: the row's user has a
      user_info row with a non-NULL age in the band. */
  function Members(b: Band, users: UserTable): SpendingRow -> bool {
    (row: SpendingRow) =>
      row.userId in users && users[row.userId].age.Some? && InBand(b, users[row.userId].age.value)
  }

  /** The WHERE clause `user_info.age BETWEEN lo AND hi` of the joined query. */
  function AgeBetween(users: UserTable, lo: int, hi: int): SpendingRow -> bool {
    (row: SpendingRow) =>
      row.userId in users && users[row.userId].age.Some? && lo <= users[row.userId].age.value <= hi
  }

  /** The WHERE clause `user_info.age >= lo` of the joined query. */
  function AgeAtLeast(users: UserTable, lo: int): SpendingRow -> bool {
    (row: SpendingRow) =>
      row.userId in users && users[row.userId].age.Some? && users[row.userId].age.value >= lo
  }

  /** A band's reported value: AVG over its members, 0 when AVG is NULL. */
  function BandAverage(b: Band, users: UserTable, rows: seq<SpendingRow>): real {
    SqlAvg(Selected(rows, Members(b, users))).GetOr(0.0)
  }

  // ---------------------------------------------------------------------
  // Labels: Python's str() of an int and the f-strings of the endpoint.

  function Digit(d: nat): char
    requires d < 10
  {
    "0123456789"[d]
  }

  /** The decimal representation of n, without leading zeros. */
  function NatToString(n: nat): (s: string)
    decreases n
  {
    if n < 10 then [Digit(n)] else NatToString(n / 10) + [Digit(n % 10)]
  }

  /** str(n) of a Python int. */
  function IntToString(n: int): string {
    if n < 0 then "-" + NatToString(-n) else NatToString(n)
  }

  /** The value of a string of decimal digits. */
  function DecimalValue(s: string): int {
    if s == [] then 0 else DecimalValue(s[..|s| - 1]) * 10 + (s[|s| - 1] as int - '0' as int)
  }

  predicate AllDigits(s: string) {
    forall i | 0 <= i < |s| :: '0' <= s[i] <= '9'
  }

  /** The character for d is a digit whose value is d. */
  lemma DigitValue(d: nat)
    requires d < 10
    ensures '0' <= Digit(d) <= '9' && Digit(d) as int - '0' as int == d
  {
  }

  /** Reading back the digits of NatToString(n) gives n, and a number of
      two or more digits does not start with 0. */
  lemma {:induction false} NatToStringRoundTrip(n: nat)
    ensures |NatToString(n)| > 0 && AllDigits(NatToString(n))
    ensures DecimalValue(NatToString(n)) == n
    ensures n >= 10 ==> NatToString(n)[0] != '0'
    decreases n
  {
    var s := NatToString(n);
    DigitValue(n % 10);
    if n < 10 {
      assert s == [Digit(n)] && s[..0] == [];
    } else {
      NatToStringRoundTrip(n / 10);
      var prefix := NatToString(n / 10);
      assert s == prefix + [Digit(n % 10)];
      assert s[..|s| - 1] == prefix;
      assert forall i | 0 <= i < |s| :: s[i] == if i < |prefix| then prefix[i] else Digit(n % 10);
    }
  }

  /** The dictionary key of a band: "start-end" or ">start". */
  function Label(b: Band): string {
    if IsClosed(b) then IntToString(b.start) + "-" + IntToString(b.end.value)
    else ">" + IntToString(b.start)
  }

  /** The five keys, in order. */
  const BandLabels: seq<string> := ["18-24", "25-30", "31-36", "37-47", ">48"]

  /** A two-digit number is written with exactly its two digits. */
  lemma TwoDigits(n: nat)
    requires 10 <= n < 100
    ensures NatToString(n) == [Digit(n / 10), Digit(n % 10)]
  {
  }

  /** A closed band with two-digit bounds is labelled by its four digits around a dash. */
  lemma ClosedLabel(lo: nat, hi: nat)
    requires 10 <= lo < 100 && 10 <= hi < 100
    ensures Label(Band(lo, Some(hi))) == [Digit(lo / 10), Digit(lo % 10), '-', Digit(hi / 10), Digit(hi % 10)]
  {
    TwoDigits(lo);
    TwoDigits(hi);
  }

  /** The labels of the band list are the five expected keys. */
  lemma AgeRangeLabels()
    ensures |AgeRanges| == |BandLabels|
    ensures forall k | 0 <= k < |AgeRanges| :: Label(AgeRanges[k]) == BandLabels[k]
  {
    ClosedLabel(18, 24);
    ClosedLabel(25, 30);
    ClosedLabel(31, 36);
    ClosedLabel(37, 47);
    TwoDigits(48);
  }

  // ---------------------------------------------------------------------
  // The endpoint.

  /** The loop of the endpoint: one query per band, in list order, each
      result stored under its label with 0 in place of NULL. It reads the
      two tables and changes nothing. */
  method AverageSpendingByAge(users: UserTable, rows: seq<SpendingRow>) returns (results: seq<(string, real)>)
    ensures |results| == |BandLabels|
    ensures forall k | 0 <= k < |results| :: results[k].0 == BandLabels[k]
    ensures forall k | 0 <= k < |results| :: results[k].1 == BandAverage(AgeRanges[k], users, rows)
  {
    var ageRanges := AgeRanges;
    results := [];
    for i := 0 to |ageRanges|
      invariant |results| == i
      invariant forall k | 0 <= k < i :: results[k] == (Label(ageRanges[k]), BandAverage(ageRanges[k], users, rows))
    {
      var band := ageRanges[i];
      var avgSpent: Option<real>;
      if IsClosed(band) {
        SelectedAgree(rows, AgeBetween(users, band.start, band.end.value), Members(band, users));
        avgSpent := SqlAvg(Selected(rows, AgeBetween(users, band.start, band.end.value)));
      } else {
        SelectedAgree(rows, AgeAtLeast(users, band.start), Members(band, users));
        avgSpent := SqlAvg(Selected(rows, AgeAtLeast(users, band.start)));
      }
      var rangeLabel := Label(band);
      results := results + [(rangeLabel, avgSpent.GetOr(0.0))];
    }
    AgeRangeLabels();
  }

  // ---------------------------------------------------------------------
  // Properties of the bands.

  /** The band an age falls in, stated independently of the band list. */
  function BandIndexOf(age: int): Option<nat> {
    if age < 18 then None
    else if age <= 24 then Some(0)
    else if age <= 30 then Some(1)
    else if age <= 36 then Some(2)
    else if age <= 47 then Some(3)
    else Some(4)
  }

  /** The five bands split the ages from 18 up without overlap: 47 is only
      in "37-47", 48 only in ">48", and an age below 18 is in none. */
  lemma BandMembership(age: int, k: nat)
    requires k < |AgeRanges|
    ensures InBand(AgeRanges[k], age) <==> BandIndexOf(age) == Some(k)
  {
  }

  /** A row counts toward a band exactly when its user is known, has an
      age, that age is in the band and the row has an amount. */
  lemma RowCountsToward(users: UserTable, row: SpendingRow, k: nat)
    requires k < |AgeRanges|
    ensures Selected([row], Members(AgeRanges[k], users)) != []
            <==> row.userId in users && users[row.userId].age.Some?
                 && BandIndexOf(users[row.userId].age.value) == Some(k) && row.moneySpent.Some?
  {
  }

  /** The rows of users with a known age of 18 or more. */
  function Adults(users: UserTable): SpendingRow -> bool {
    (row: SpendingRow) =>
      row.userId in users && users[row.userId].age.Some? && users[row.userId].age.value >= 18
  }

  /** The column averaged for the k-th band. */
  function BandColumn(k: nat, users: UserTable, rows: seq<SpendingRow>): seq<real>
    requires k < |AgeRanges|
  {
    Selected(rows, Members(AgeRanges[k], users))
  }

  /** Count and sum of a column split into the first row's cell and the rest. */
  lemma ColumnStep(rows: seq<SpendingRow>, cond: SpendingRow -> bool)
    requires rows != []
    ensures |Selected(rows, cond)| == |Selected([rows[0]], cond)| + |Selected(rows[1..], cond)|
    ensures Sum(Selected(rows, cond)) == Sum(Selected([rows[0]], cond)) + Sum(Selected(rows[1..], cond))
  {
    SelectedCons(rows, cond);
    SumAppend(Selected([rows[0]], cond), Selected(rows[1..], cond));
  }

  /** A single row goes to exactly the bands its user's age is in: to one
      band when the user is an adult with an age, to none otherwise. */
  lemma RowPartition(users: UserTable, row: SpendingRow)
    ensures |BandColumn(0, users, [row])| + |BandColumn(1, users, [row])| + |BandColumn(2, users, [row])|
            + |BandColumn(3, users, [row])| + |BandColumn(4, users, [row])|
            == |Selected([row], Adults(users))|
    ensures Sum(BandColumn(0, users, [row])) + Sum(BandColumn(1, users, [row])) + Sum(BandColumn(2, users, [row]))
            + Sum(BandColumn(3, users, [row])) + Sum(BandColumn(4, users, [row]))
            == Sum(Selected([row], Adults(users)))
  {
  }

  /** Together the five bands select each adult's amount exactly once: their
      row counts and their sums add up to those of all adults' rows. */
  lemma {:induction false} BandsPartitionAdults(users: UserTable, rows: seq<SpendingRow>)
    ensures |BandColumn(0, users, rows)| + |BandColumn(1, users, rows)| + |BandColumn(2, users, rows)|
            + |BandColumn(3, users, rows)| + |BandColumn(4, users, rows)|
            == |Selected(rows, Adults(users))|
    ensures Sum(BandColumn(0, users, rows)) + Sum(BandColumn(1, users, rows)) + Sum(BandColumn(2, users, rows))
            + Sum(BandColumn(3, users, rows)) + Sum(BandColumn(4, users, rows))
            == Sum(Selected(rows, Adults(users)))
    decreases |rows|
  {
    if rows != [] {
      BandsPartitionAdults(users, rows[1..]);
      RowPartition(users, rows[0]);
      ColumnStep(rows, Adults(users));
      ColumnStep(rows, Members(AgeRanges[0], users));
      ColumnStep(rows, Members(AgeRanges[1], users));
      ColumnStep(rows, Members(AgeRanges[2], users));
      ColumnStep(rows, Members(AgeRanges[3], users));
      ColumnStep(rows, Members(AgeRanges[4], users));
    }
  }

  /** A band without members reports 0; otherwise its value lies between
      the smallest and largest amounts of the table. */
  lemma BandAverageBounds(b: Band, users: UserTable, rows: seq<SpendingRow>, lo: real, hi: real)
    requires forall i | 0 <= i < |rows| :: rows[i].moneySpent.Some? ==> lo <= rows[i].moneySpent.value <= hi
    ensures Selected(rows, Members(b, users)) == [] ==> BandAverage(b, users, rows) == 0.0
    ensures Selected(rows, Members(b, users)) != [] ==> lo <= BandAverage(b, users, rows) <= hi
  {
    SelectedWithin(rows, Members(b, users), lo, hi);
    AvgWithinBounds(Selected(rows, Members(b, users)), lo, hi);
  }
}
