/**
 * The per-tick aggregation of `highlightAgentsAndShowCount`: from the rows of
 * the status table it builds, keyed by activity, a count, the highest
 * duration in seconds and the bucket of rows selected for export.
 */
module Aggregator {
  import opened Wrappers
  import opened DurationCodec

  /**
   * One row of the status table, its cells already trimmed: the agent login
   * (cell 0), the activity (cell 2) and the duration text (cell 4). The same
   * triple is the record pushed into an export bucket.
   */
  datatype Row = Row(login: string, activity: string, duration: string)

  /** The activity whose long stretches are flagged. */
  const Available: string := "Available"

  /** Five minutes, in seconds. */
  const HighlightThreshold: nat := 300

  /**
   * A reader of duration text. The script's is `DurationToSeconds`; the
   * aggregation is stated for any reader, so that its proofs do not depend on
   * how the text is decoded.
   */
  type Decoder = string -> Option<nat>

  /** The row's duration in seconds; `None` where the script computes `NaN`. */
  function Seconds(decode: Decoder, row: Row): Option<nat> {
    decode(row.duration)
  }

  /** "Available" for at least five minutes: the row is highlighted (a `NaN` duration never is). */
  predicate IsHighlightCandidate(decode: Decoder, row: Row) {
    row.activity == Available && Seconds(decode, row).Some? && Seconds(decode, row).value >= HighlightThreshold
  }

  /** The selection rule: highlighted rows and every row of another activity go to the export. */
  predicate IsExported(decode: Decoder, row: Row) {
    IsHighlightCandidate(decode, row) || row.activity != Available
  }

  /**
   * The three dictionaries of one tick, plus the order in which their keys
   * were first added (the order in which `for ... in` visits them).
   */
  datatype Aggregation = Aggregation(
    keys: seq<string>,
    count: map<string, nat>,
    highest: map<string, nat>,
    data: map<string, seq<Row>>)
  {
    /** Every activity seen has an entry in all three dictionaries. */
    predicate Valid() {
      && count.Keys == (set a | a in keys)
      && highest.Keys == count.Keys
      && data.Keys == count.Keys
    }
  }

  /** The dictionaries before the first row: `{}`, `{}`, `{}`. */
  const Empty: Aggregation := Aggregation([], map[], map[], map[])

  /** The body of `rows.forEach` for one row. */
  function Step(decode: Decoder, agg: Aggregation, row: Row): (r: Aggregation)
    requires agg.Valid()
    ensures r.Valid()
    ensures r.keys == if row.activity in agg.keys then agg.keys else agg.keys + [row.activity]
  {
    var a := row.activity;
    var d := Seconds(decode, row);
    var seen := a in agg.count;
    var count0 := if seen then agg.count[a] else 0;
    var highest0 := if seen then agg.highest[a] else 0;
    var bucket0 := if seen then agg.data[a] else [];
    Aggregation(
      if seen then agg.keys else agg.keys + [a],
      agg.count[a := count0 + 1],
      agg.highest[a := if d.Some? && d.value > highest0 then d.value else highest0],
      agg.data[a := if IsExported(decode, row) then bucket0 + [row] else bucket0])
  }

  /** The dictionaries after the loop has visited `rows` in order. */
  function Aggregate(decode: Decoder, rows: seq<Row>): (r: Aggregation)
    ensures r.Valid()
  {
    if rows == [] then Empty else Step(decode, Aggregate(decode, rows[..|rows| - 1]), rows[|rows| - 1])
  }

  /** Visiting one more row appends its activity to the key order exactly when it is new. */
  lemma KeysSnoc(decode: Decoder, rows: seq<Row>, row: Row)
    ensures var keys := Aggregate(decode, rows).keys;
      Aggregate(decode, rows + [row]).keys == if row.activity in keys then keys else keys + [row.activity]
  {
    assert (rows + [row])[..|rows|] == rows;
  }

  /** The key order lists every activity once: no two positions hold the same key. */
  lemma {:induction false} KeysAreDistinct(decode: Decoder, rows: seq<Row>, i: nat, j: nat)
    requires i < j < |Aggregate(decode, rows).keys|
    ensures Aggregate(decode, rows).keys[i] != Aggregate(decode, rows).keys[j]
  {
    var prefix := rows[..|rows| - 1];
    var keys0 := Aggregate(decode, prefix).keys;
    var keys := Aggregate(decode, rows).keys;
    assert keys[i] == keys0[i];
    if j < |keys0| {
      assert keys[j] == keys0[j];
      KeysAreDistinct(decode, prefix, i, j);
    } else {
      assert keys0[i] in keys0;
    }
  }

  /** The activity cell of every row, in table order. */
  function ActivityColumn(rows: seq<Row>): (col: seq<string>)
    ensures |col| == |rows|
    ensures forall i :: 0 <= i < |rows| ==> col[i] == rows[i].activity
  {
    seq(|rows|, i requires 0 <= i < |rows| => rows[i].activity)
  }

  lemma ActivityColumnSnoc(rows: seq<Row>)
    requires rows != []
    ensures ActivityColumn(rows) == ActivityColumn(rows[..|rows| - 1]) + [rows[|rows| - 1].activity]
  {
  }

  /** For every activity seen, its count is the number of rows with that activity (so at least 1). */
  lemma {:induction false} CountIsOccurrences(decode: Decoder, rows: seq<Row>, a: string)
    ensures a in Aggregate(decode, rows).count <==> multiset(ActivityColumn(rows))[a] > 0
    ensures a in Aggregate(decode, rows).count ==> Aggregate(decode, rows).count[a] == multiset(ActivityColumn(rows))[a]
  {
    if rows != [] {
      var prefix := rows[..|rows| - 1];
      CountIsOccurrences(decode, prefix, a);
      ActivityColumnSnoc(rows);
    }
  }

  /** The activity of every row has an entry (in all three dictionaries, by `Valid`). */
  lemma {:induction false} ActivitySeen(decode: Decoder, rows: seq<Row>, i: nat)
    requires i < |rows|
    ensures rows[i].activity in Aggregate(decode, rows).count
  {
    var n := |rows| - 1;
    var prefix := rows[..n];
    var agg0 := Aggregate(decode, prefix);
    assert Aggregate(decode, rows) == Step(decode, agg0, rows[n]);
    StepAt(decode, agg0, rows[n], rows[i].activity);
    if i < n {
      assert rows[i] == prefix[i];
      ActivitySeen(decode, prefix, i);
    }
  }

  /** What one more row does to the entry of activity `a`. */
  lemma StepAt(decode: Decoder, agg: Aggregation, row: Row, a: string)
    requires agg.Valid()
    ensures var r := Step(decode, agg, row);
      && (a in r.count <==> a in agg.count || a == row.activity)
      && (a != row.activity && a in agg.count ==>
            r.count[a] == agg.count[a] && r.highest[a] == agg.highest[a] && r.data[a] == agg.data[a])
      && (a == row.activity ==>
            var seen := a in agg.count;
            var d := Seconds(decode, row);
            var h0 := if seen then agg.highest[a] else 0;
            && r.count[a] == (if seen then agg.count[a] else 0) + 1
            && r.highest[a] == (if d.Some? && d.value > h0 then d.value else h0)
            && r.data[a] == (if seen then agg.data[a] else []) + (if IsExported(decode, row) then [row] else []))
  {
  }

  /** The highest duration of an activity bounds the decoded duration of each of its rows. */
  lemma {:induction false} HighestBoundsRow(decode: Decoder, rows: seq<Row>, i: nat)
    requires i < |rows| && Seconds(decode, rows[i]).Some?
    ensures rows[i].activity in Aggregate(decode, rows).highest
    ensures Seconds(decode, rows[i]).value <= Aggregate(decode, rows).highest[rows[i].activity]
  {
    var a := rows[i].activity;
    var n := |rows| - 1;
    var prefix := rows[..n];
    StepAt(decode, Aggregate(decode, prefix), rows[n], a);
    if i < n {
      assert rows[i] == prefix[i];
      HighestBoundsRow(decode, prefix, i);
    }
  }

  /**
   * The highest duration of an activity is 0 (the starting value, kept while
   * no row beats it) or the decoded duration of one of its rows, index `i`.
   */
  lemma {:induction false} HighestIsAttained(decode: Decoder, rows: seq<Row>, a: string) returns (i: nat)
    requires a in Aggregate(decode, rows).highest
    ensures Aggregate(decode, rows).highest[a] != 0 ==>
              i < |rows| && rows[i].activity == a && Seconds(decode, rows[i]) == Some(Aggregate(decode, rows).highest[a])
  {
    var n := |rows| - 1;
    var prefix := rows[..n];
    var agg0 := Aggregate(decode, prefix);
    StepAt(decode, agg0, rows[n], a);
    var h := Aggregate(decode, rows).highest[a];
    var h0 := if a in agg0.highest then agg0.highest[a] else 0;
    if h != h0 {
      i := n;
    } else if a in agg0.highest {
      i := HighestIsAttained(decode, prefix, a);
      if h != 0 {
        assert rows[i] == prefix[i];
      }
    } else {
      i := 0;
    }
  }

  /** `s` keeps some of the elements of `t`, in the order they have in `t`. */
  predicate IsSubsequence<T(==)>(s: seq<T>, t: seq<T>)
    decreases |t|
  {
    s == [] ||
    (t != [] &&
     ((s[|s| - 1] == t[|t| - 1] && IsSubsequence(s[..|s| - 1], t[..|t| - 1])) ||
      IsSubsequence(s, t[..|t| - 1])))
  }

  /**
   * A row is in the bucket of activity `a` exactly as often as it occurs in
   * the table when it has activity `a` and passes the selection rule, and
   * never otherwise; in particular a short "Available" row is in no bucket.
   */
  lemma {:induction false} BucketCount(decode: Decoder, rows: seq<Row>, a: string, x: Row)
    requires a in Aggregate(decode, rows).data
    ensures multiset(Aggregate(decode, rows).data[a])[x] ==
            if x.activity == a && IsExported(decode, x) then multiset(rows)[x] else 0
  {
    var n := |rows| - 1;
    var prefix := rows[..n];
    assert rows == prefix + [rows[n]];
    StepAt(decode, Aggregate(decode, prefix), rows[n], a);
    if a in Aggregate(decode, prefix).data {
      BucketCount(decode, prefix, a, x);
    } else if x.activity == a {
      forall i | 0 <= i < n ensures prefix[i] != x {
        ActivitySeen(decode, prefix, i);
      }
      assert x !in prefix;
    }
  }

  /** Bucket membership: a row is kept iff it has the bucket's activity and passes the selection rule. */
  lemma BucketMembership(decode: Decoder, rows: seq<Row>, a: string, x: Row)
    requires a in Aggregate(decode, rows).data
    ensures x in Aggregate(decode, rows).data[a] <==> x in rows && x.activity == a && IsExported(decode, x)
  {
    BucketCount(decode, rows, a, x);
  }

  /** Buckets keep the rows in table order. */
  lemma {:induction false} BucketInTableOrder(decode: Decoder, rows: seq<Row>, a: string)
    requires a in Aggregate(decode, rows).data
    ensures IsSubsequence(Aggregate(decode, rows).data[a], rows)
  {
    var n := |rows| - 1;
    var prefix := rows[..n];
    var b := Aggregate(decode, rows).data[a];
    StepAt(decode, Aggregate(decode, prefix), rows[n], a);
    if a in Aggregate(decode, prefix).data {
      BucketInTableOrder(decode, prefix, a);
      var b0 := Aggregate(decode, prefix).data[a];
      if b != b0 {
        assert b == b0 + [rows[n]];
        assert b[..|b| - 1] == b0;
      }
    } else {
      if b != [] {
        assert b == [rows[n]];
        assert IsSubsequence([], prefix);
      }
    }
  }

  /** The five-minute boundary is inclusive: "00:05:00" is highlighted and exported, "00:04:59" is neither. */
  lemma ThresholdIsInclusive(login: string)
    ensures IsHighlightCandidate(DurationToSeconds, Row(login, Available, "00:05:00"))
    ensures IsExported(DurationToSeconds, Row(login, Available, "00:05:00"))
    ensures !IsHighlightCandidate(DurationToSeconds, Row(login, Available, "00:04:59"))
    ensures !IsExported(DurationToSeconds, Row(login, Available, "00:04:59"))
  {
    DecodeUnderTenMinutes(5, 0);
    DecodeUnderTenMinutes(4, 59);
  }
}
