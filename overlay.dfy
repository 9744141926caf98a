/**
 * One tick of `highlightAgentsAndShowCount` on an abstract page: the rows
 * that carry the highlight mark and the one popup element. A tick clears the
 * previous marks and popup, runs the aggregation loop over the table (marking
 * candidates as it goes) and shows a fresh popup whose download button
 * exports that tick's buckets.
 */
module Overlay {
  import opened Wrappers
  import opened DurationCodec
  import opened Aggregator

  /**
   * The element with id `agent-count-popup`: its summary text and the
   * dictionary its "Download Excel" button passes to `downloadExcel`.
   */
  datatype Popup = Popup(content: string, exportKeys: seq<string>, exportData: map<string, seq<Row>>)

  /** The summary line of one activity. */
  function SummaryLine(activity: string, count: nat, highest: nat): string {
    "<div>" + activity + ": " + ToDecimal(count) + " (Highest Duration: " + FormatDuration(highest) + ")</div>"
  }

  /** The strings of `lines` one after another. */
  function Concat(lines: seq<string>): string {
    if lines == [] then "" else Concat(lines[..|lines| - 1]) + lines[|lines| - 1]
  }

  lemma {:induction false} ConcatDecomposes(lines: seq<string>, k: nat)
    requires k < |lines|
    ensures Concat(lines) == Concat(lines[..k]) + lines[k] + Concat(lines[k + 1..])
  {
    var n := |lines| - 1;
    var init := lines[..n];
    if k == n {
      assert lines[k + 1..] == [];
    } else {
      ConcatDecomposes(init, k);
      assert init[..k] == lines[..k] && init[k] == lines[k];
      var tail := lines[k + 1..];
      assert tail[..|tail| - 1] == init[k + 1..] && tail[|tail| - 1] == lines[n];
    }
  }

  /** The summary line of each of the given activities, in that order. */
  function SummaryLines(keys: seq<string>, count: map<string, nat>, highest: map<string, nat>): (lines: seq<string>)
    requires forall a :: a in keys ==> a in count && a in highest
    ensures |lines| == |keys|
  {
    seq(|keys|, k requires 0 <= k < |keys| => SummaryLine(keys[k], count[keys[k]], highest[keys[k]]))
  }

  /** The popup text: the summary lines of the given activities, in that order. */
  function Summary(keys: seq<string>, count: map<string, nat>, highest: map<string, nat>): string
    requires forall a :: a in keys ==> a in count && a in highest
  {
    Concat(SummaryLines(keys, count, highest))
  }

  /**
   * The summary is the lines of the activities before `keys[k]`, then the
   * line of `keys[k]`, then the lines of the activities after it.
   */
  lemma SummaryDecomposes(keys: seq<string>, count: map<string, nat>, highest: map<string, nat>, k: nat)
    requires forall a :: a in keys ==> a in count && a in highest
    requires k < |keys|
    ensures Summary(keys, count, highest)
         == Summary(keys[..k], count, highest) + SummaryLine(keys[k], count[keys[k]], highest[keys[k]])
            + Summary(keys[k + 1..], count, highest)
  {
    var lines := SummaryLines(keys, count, highest);
    ConcatDecomposes(lines, k);
    assert SummaryLines(keys[..k], count, highest) == lines[..k];
    assert SummaryLines(keys[k + 1..], count, highest) == lines[k + 1..];
  }

  /**
   * A summary line shows the count as a decimal numeral and the highest
   * duration in the canonical clock form that decodes back to it.
   */
  lemma SummaryLineFields(activity: string, count: nat, highest: nat) returns (numeral: string, clock: string)
    ensures SummaryLine(activity, count, highest)
         == "<div>" + activity + ": " + numeral + " (Highest Duration: " + clock + ")</div>"
    ensures IsDigits(numeral) && DigitsValue(numeral) == count
    ensures IsCanonical(clock) && DurationToSeconds(clock) == Some(highest)
  {
    numeral := ToDecimal(count);
    clock := FormatDuration(highest);
    DecodeEncode(highest);
  }

  /** The rows a tick over `rows` highlights, by position in the table. */
  function Candidates(rows: seq<Row>): set<nat> {
    set i: nat | i < |rows| && IsHighlightCandidate(DurationToSeconds, rows[i])
  }

  /** The popup a tick over `rows` shows. */
  function PopupFor(rows: seq<Row>): Popup {
    var agg := Aggregate(DurationToSeconds, rows);
    Popup(Summary(agg.keys, agg.count, agg.highest), agg.keys, agg.data)
  }

  class Page {
    /** Positions of the table rows carrying the `highlighted-agent` class and background. */
    var marked: set<nat>
    /** The popup, if one is on the page. */
    var popup: Option<Popup>

    /** A page before the script's first tick. */
    constructor ()
      ensures marked == {} && popup == None
    {
      marked := {};
      popup := None;
    }

    /**
     * One tick. The new state depends on the table alone: stale marks and a
     * stale popup are gone, the marked rows are exactly the highlight
     * candidates and exactly one popup is shown.
     */
    method Tick(rows: seq<Row>)
      modifies this
      ensures marked == Candidates(rows)
      ensures popup == Some(PopupFor(rows))
    {
      ClearHighlights();
      if popup.Some? {
        popup := None;
      }
      var agg := MarkAndAggregate(DurationToSeconds, rows);
      var popupContent := RenderSummary(agg.keys, agg.count, agg.highest);
      popup := Some(Popup(popupContent, agg.keys, agg.data));
    }

    /** Strips the mark from every row that carries it. */
    method ClearHighlights()
      modifies this`marked
      ensures marked == {}
    {
      while marked != {}
        decreases |marked|
      {
        var r :| r in marked;
        marked := marked - {r};
      }
    }

    /**
     * The `rows.forEach` loop: fills the three dictionaries and marks each
     * highlight candidate as it reaches it.
     */
    method MarkAndAggregate(decode: Decoder, rows: seq<Row>) returns (agg: Aggregation)
      requires marked == {}
      modifies this`marked
      ensures agg == Aggregate(decode, rows)
      ensures marked == set i: nat | i < |rows| && IsHighlightCandidate(decode, rows[i])
    {
      agg := Empty;
      for i := 0 to |rows|
        invariant agg == Aggregate(decode, rows[..i])
        invariant marked == set j: nat | j < i && IsHighlightCandidate(decode, rows[j])
      {
        assert rows[..i + 1][..i] == rows[..i] && rows[..i + 1][i] == rows[i];
        ghost var markedBefore := marked;
        agg := VisitRow(decode, agg, i, rows[i]);
        assert marked == set j: nat | j < i + 1 && IsHighlightCandidate(decode, rows[j]) by {
          forall j: nat | j < i + 1 ensures j in marked <==> IsHighlightCandidate(decode, rows[j]) {
            if j < i {
              assert j in markedBefore <==> IsHighlightCandidate(decode, rows[j]);
            }
          }
        }
      }
      assert rows[..|rows|] == rows;
    }

    /**
     * The body of `rows.forEach` for row `i`: creates the activity's three
     * entries on first sight, counts the row, raises the highest duration on a
     * strictly greater one, and marks and keeps the row by the selection rule.
     */
    method VisitRow(decode: Decoder, before: Aggregation, i: nat, row: Row) returns (after: Aggregation)
      requires before.Valid()
      modifies this`marked
      ensures after == Step(decode, before, row)
      ensures marked == old(marked) + (if IsHighlightCandidate(decode, row) then {i} else {})
    {
      var keys, activityCount, highestDuration, activityData := before.keys, before.count, before.highest, before.data;
      var activity := row.activity;
      var durationInSeconds := decode(row.duration);
      ghost var seen := activity in activityCount;
      if activity !in activityCount {
        activityCount := activityCount[activity := 0];
        highestDuration := highestDuration[activity := 0];
        activityData := activityData[activity := []];
        keys := keys + [activity];
      }
      ghost var count0, highest0, bucket0 := activityCount[activity], highestDuration[activity], activityData[activity];
      ghost var counts, highests, buckets := activityCount, highestDuration, activityData;
      activityCount := activityCount[activity := activityCount[activity] + 1];
      if durationInSeconds.Some? && durationInSeconds.value > highestDuration[activity] {
        highestDuration := highestDuration[activity := durationInSeconds.value];
      }
      if activity == Available && durationInSeconds.Some? && durationInSeconds.value >= HighlightThreshold {
        marked := marked + {i};
        activityData := activityData[activity := activityData[activity] + [row]];
      } else if activity != Available {
        activityData := activityData[activity := activityData[activity] + [row]];
      }
      StepFrom(decode, before, row, seen, count0, highest0, bucket0, counts, highests, buckets);
      after := Aggregation(keys, activityCount, highestDuration, activityData);
    }
  }

  /**
   * The loop body's updates, whether or not the activity was seen before,
   * amount to one `Step` of the aggregation.
   */
  lemma StepFrom(decode: Decoder, before: Aggregation, row: Row, seen: bool,
                 count0: nat, highest0: nat, bucket0: seq<Row>,
                 counts: map<string, nat>, highests: map<string, nat>, buckets: map<string, seq<Row>>)
    requires before.Valid()
    requires seen == (row.activity in before.count)
    requires seen ==> counts == before.count && highests == before.highest && buckets == before.data
    requires !seen ==> counts == before.count[row.activity := 0] && highests == before.highest[row.activity := 0]
                       && buckets == before.data[row.activity := []]
    requires count0 == counts[row.activity] && highest0 == highests[row.activity] && bucket0 == buckets[row.activity]
    ensures var d := Seconds(decode, row);
      var next := Step(decode, before, row);
      && next.count == counts[row.activity := count0 + 1]
      && next.highest == highests[row.activity := if d.Some? && d.value > highest0 then d.value else highest0]
      && next.data == buckets[row.activity := if IsExported(decode, row) then bucket0 + [row] else bucket0]
  {
    var a := row.activity;
    if !seen {
      assert before.count[a := 0][a := count0 + 1] == before.count[a := count0 + 1];
    }
  }

  /** The loop that builds the popup text, one line per activity in key order. */
  method RenderSummary(keys: seq<string>, count: map<string, nat>, highest: map<string, nat>)
    returns (popupContent: string)
    requires forall a :: a in keys ==> a in count && a in highest
    ensures popupContent == Summary(keys, count, highest)
  {
    ghost var lines := SummaryLines(keys, count, highest);
    popupContent := "";
    for k := 0 to |keys|
      invariant popupContent == Concat(lines[..k])
    {
      var activity := keys[k];
      assert lines[..k + 1][..k] == lines[..k];
      popupContent := popupContent + SummaryLine(activity, count[activity], highest[activity]);
    }
    assert lines[..|keys|] == lines;
  }

  /** Running the tick twice on an unchanged table leaves the state of one tick. */
  method TickTwice(page: Page, rows: seq<Row>)
    modifies page
    ensures page.marked == Candidates(rows) && page.popup == Some(PopupFor(rows))
  {
    page.Tick(rows);
    ghost var marked, popup := page.marked, page.popup;
    page.Tick(rows);
    assert page.marked == marked && page.popup == popup;
  }
}
