/** /write_high_spenders/<user_id>/<total_spending>: insert the user into
    high_spenders when the amount exceeds the threshold, unless the
    primary key user_id is already there. */
module HighSpenders {
  import opened Sql
  import opened Tables

  /** `spending_threshold`; an amount qualifies only when strictly above it. */
  const SpendingThreshold: real := 1000.0

  /** The three answers: 201 inserted, 409 (IntegrityError on the primary
      key) and 400 below threshold. */
  datatype Outcome = Inserted | AlreadyExists | BelowThreshold

  datatype Step = Step(outcome: Outcome, table: HighSpenderTable)

  /** One call as a transition of the high_spenders table. */
  function Record(table: HighSpenderTable, userId: int, totalSpending: real): (s: Step)
    ensures s.outcome == BelowThreshold <==> totalSpending <= SpendingThreshold
    ensures s.outcome == Inserted <==> totalSpending > SpendingThreshold && userId !in table
    ensures s.outcome == Inserted ==> s.table == table[userId := totalSpending]
    ensures s.outcome != Inserted ==> s.table == table
  {
    if totalSpending > SpendingThreshold then
      if userId in table then Step(AlreadyExists, table)
      else Step(Inserted, table[userId := totalSpending])
    else Step(BelowThreshold, table)
  }

  /** No call removes a row or changes a stored total: the first write wins. */
  lemma RecordKeepsRows(table: HighSpenderTable, userId: int, totalSpending: real)
    ensures table.Keys <= Record(table, userId, totalSpending).table.Keys
    ensures forall u | u in table :: Record(table, userId, totalSpending).table[u] == table[u]
    ensures Record(table, userId, totalSpending).table.Keys - table.Keys
            == if totalSpending > SpendingThreshold && userId !in table then {userId} else {}
  {
  }

  /** After a user has been inserted with `first`, a second call for that
      user never changes the table: it reports AlreadyExists when its amount
      qualifies and BelowThreshold otherwise. */
  lemma SecondCallNeverOverwrites(table: HighSpenderTable, userId: int, first: real, second: real)
    requires Record(table, userId, first).outcome == Inserted
    ensures var t1 := Record(table, userId, first).table;
            var s2 := Record(t1, userId, second);
            s2.table == t1 && s2.table[userId] == first
            && s2.outcome == (if second > SpendingThreshold then AlreadyExists else BelowThreshold)
  {
  }

  // ---------------------------------------------------------------------
  // A sequence of calls, each one atomic, as the storage engine serialises them.

  datatype Call = Call(userId: int, totalSpending: real)

  /** The outcomes and final table of running the calls in order. */
  function RecordAll(table: HighSpenderTable, calls: seq<Call>): (r: (seq<Outcome>, HighSpenderTable))
    ensures |r.0| == |calls|
    decreases |calls|
  {
    if calls == [] then ([], table)
    else
      var s := Record(table, calls[0].userId, calls[0].totalSpending);
      var rest := RecordAll(s.table, calls[1..]);
      ([s.outcome] + rest.0, rest.1)
  }

  /** The first qualifying amount among the calls for a user, if any. */
  function FirstQualifying(calls: seq<Call>, userId: int): Option<real> {
    if calls == [] then None
    else if calls[0].userId == userId && calls[0].totalSpending > SpendingThreshold then
      Some(calls[0].totalSpending)
    else FirstQualifying(calls[1..], userId)
  }

  /** The number of calls for the user that reported Inserted. */
  function InsertsFor(calls: seq<Call>, outcomes: seq<Outcome>, userId: int): nat
    requires |outcomes| == |calls|
    decreases |calls|
  {
    if calls == [] then 0
    else (if calls[0].userId == userId && outcomes[0] == Inserted then 1 else 0)
         + InsertsFor(calls[1..], outcomes[1..], userId)
  }

  /** Over any sequence of calls, a user already present keeps their stored
      total; a user not present ends up with the first qualifying amount, or
      absent when no call for them qualified. */
  lemma {:induction false} FirstWriteWins(table: HighSpenderTable, calls: seq<Call>, userId: int)
    ensures var t := RecordAll(table, calls).1;
            if userId in table then userId in t && t[userId] == table[userId]
            else match FirstQualifying(calls, userId)
                 case None => userId !in t
                 case Some(v) => userId in t && t[userId] == v
    decreases |calls|
  {
    if calls != [] {
      var s := Record(table, calls[0].userId, calls[0].totalSpending);
      FirstWriteWins(s.table, calls[1..], userId);
    }
  }

  /** Over any sequence of calls, at most one call per user reports
      Inserted, and exactly one does when the user was absent and some call
      for them qualified; every other qualifying call reports AlreadyExists. */
  lemma {:induction false} AtMostOneInsert(table: HighSpenderTable, calls: seq<Call>, userId: int)
    ensures var outcomes := RecordAll(table, calls).0;
            InsertsFor(calls, outcomes, userId)
            == if userId !in table && FirstQualifying(calls, userId).Some? then 1 else 0
    ensures var outcomes := RecordAll(table, calls).0;
            forall j | 0 <= j < |calls| && calls[j].userId == userId && calls[j].totalSpending > SpendingThreshold
              :: outcomes[j] == Inserted || outcomes[j] == AlreadyExists
    decreases |calls|
  {
    if calls != [] {
      var s := Record(table, calls[0].userId, calls[0].totalSpending);
      var outcomes := RecordAll(table, calls).0;
      AtMostOneInsert(s.table, calls[1..], userId);
      var restOutcomes := RecordAll(s.table, calls[1..]).0;
      assert outcomes[1..] == restOutcomes;
      forall j | 1 <= j < |calls| && calls[j].userId == userId && calls[j].totalSpending > SpendingThreshold
        ensures outcomes[j] == Inserted || outcomes[j] == AlreadyExists
      {
        assert calls[1..][j - 1] == calls[j];
        assert outcomes[j] == restOutcomes[j - 1];
      }
    }
  }

  /** The boundary: exactly 1000 does not qualify, 1000.01 does. */
  lemma ThresholdBoundary(table: HighSpenderTable, userId: int)
    ensures Record(table, userId, 1000.0) == Step(BelowThreshold, table)
    ensures userId !in table ==> Record(table, userId, 1000.01).outcome == Inserted
  {
  }
}
