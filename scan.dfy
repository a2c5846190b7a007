/**
  The dedup-and-notify pass over the search-result rows of one run: every
  row whose app id is present, not yet seen, and whose four text fields are
  all there is announced once, and its id joins the seen set.

  `Pass` is the pass as a fold over the rows; `CheckRows` is the loop the
  bot runs, proved to compute it. The lemmas say what the fold guarantees.
 */
module Scan {
  import opened Wrappers
  import opened Text
  import opened Notify

  /** One search-result row as the HTML parser hands it over: the
      `data-ds-appid` attribute and the texts of the title, discount badge,
      original price and final price elements, each possibly absent. */
  datatype Row = Row(
    appId: Option<string>,
    title: Option<string>,
    discount: Option<string>,
    originalPrice: Option<string>,
    finalPrice: Option<string>)

  /** The id attribute is there and is not the empty string. */
  predicate HasId(row: Row)
  {
    row.appId.Some? && row.appId.value != ""
  }

  /** All four text elements are there (their text may be empty). */
  predicate Complete(row: Row)
  {
    row.title.Some? && row.discount.Some? && row.originalPrice.Some? && row.finalPrice.Some?
  }

  /** A row the pass would announce if its id were not yet seen. */
  predicate Candidate(row: Row)
  {
    HasId(row) && Complete(row)
  }

  /** The notification a row gives rise to: name and prices stripped, the
      discount badge normalised to its figure. */
  function DealOf(row: Row): Deal
    requires Candidate(row)
  {
    Deal(Strip(row.title.value), row.appId.value, NormalizeDiscount(row.discount.value),
         Strip(row.originalPrice.value), Strip(row.finalPrice.value))
  }

  /** The ids of the candidate rows. */
  function CandidateIds(rows: seq<Row>): set<string>
  {
    set j | 0 <= j < |rows| && Candidate(rows[j]) :: rows[j].appId.value
  }

  /** The ids of a list of notifications. */
  function SentIds(sent: seq<Deal>): set<string>
  {
    set k | 0 <= k < |sent| :: sent[k].appId
  }

  /** The state the pass carries from row to row: the seen set and the
      notifications issued so far, in order. */
  datatype PassState = PassState(seen: set<string>, sent: seq<Deal>)

  /** One iteration of the loop: skip a row without an id or with an id
      already seen, skip an incomplete row, otherwise announce it and mark
      its id seen. */
  function Step(st: PassState, row: Row): PassState
  {
    if !HasId(row) || row.appId.value in st.seen then st
    else if !Complete(row) then st
    else PassState(st.seen + {row.appId.value}, st.sent + [DealOf(row)])
  }

  /** The pass over `rows`, starting from the loaded set `seen`. */
  function Pass(seen: set<string>, rows: seq<Row>): PassState
    decreases |rows|
  {
    if rows == [] then PassState(seen, [])
    else Step(Pass(seen, rows[..|rows| - 1]), rows[|rows| - 1])
  }

  /** Row `i` is the first candidate row with its id, and that id was not in
      the loaded set. */
  predicate FirstFresh(seen: set<string>, rows: seq<Row>, i: nat)
    requires i < |rows|
  {
    && Candidate(rows[i])
    && rows[i].appId.value !in seen
    && forall j :: 0 <= j < i ==> !(Candidate(rows[j]) && rows[j].appId == rows[i].appId)
  }

  /** A stateless description of what a run announces: the deals of the
      first-fresh rows, in row order. */
  function Announced(seen: set<string>, rows: seq<Row>): seq<Deal>
    decreases |rows|
  {
    if rows == [] then []
    else
      Announced(seen, rows[..|rows| - 1])
      + (if FirstFresh(seen, rows, |rows| - 1) then [DealOf(rows[|rows| - 1])] else [])
  }

  lemma CandidateIdsSnoc(rows: seq<Row>, row: Row)
    ensures CandidateIds(rows + [row])
            == CandidateIds(rows) + (if Candidate(row) then {row.appId.value} else {})
  {
    var all := rows + [row];
    forall id | id in CandidateIds(all)
      ensures id in CandidateIds(rows) || (Candidate(row) && id == row.appId.value)
    {
      var j :| 0 <= j < |all| && Candidate(all[j]) && all[j].appId.value == id;
      if j < |rows| {
        assert all[j] == rows[j];
      }
    }
    forall id | id in CandidateIds(rows) ensures id in CandidateIds(all) {
      var j :| 0 <= j < |rows| && Candidate(rows[j]) && rows[j].appId.value == id;
      assert all[j] == rows[j];
    }
    if Candidate(row) {
      assert all[|rows|] == row;
    }
  }

  /** The set only grows: it ends as the loaded set plus the ids of the
      candidate rows, and nothing is removed. */
  lemma {:induction false} PassSeen(seen: set<string>, rows: seq<Row>)
    ensures Pass(seen, rows).seen == seen + CandidateIds(rows)
    decreases |rows|
  {
    if rows != [] {
      var init, last := rows[..|rows| - 1], rows[|rows| - 1];
      PassSeen(seen, init);
      assert rows == init + [last];
      CandidateIdsSnoc(init, last);
    }
  }

  lemma SentIdsSnoc(sent: seq<Deal>, d: Deal)
    ensures SentIds(sent + [d]) == SentIds(sent) + {d.appId}
  {
    var all := sent + [d];
    forall id | id in SentIds(all) ensures id in SentIds(sent) + {d.appId} {
      var k :| 0 <= k < |all| && all[k].appId == id;
      if k < |sent| {
        assert all[k] == sent[k];
      }
    }
    assert all[|sent|] == d;
    forall id | id in SentIds(sent) ensures id in SentIds(all) {
      var k :| 0 <= k < |sent| && sent[k].appId == id;
      assert all[k] == sent[k];
    }
  }

  /** The invariant of the pass, relative to the loaded set: the set is the
      loaded set plus the ids announced, no announced id was in the loaded
      set, and no id is announced twice. */
  predicate Consistent(loaded: set<string>, st: PassState)
  {
    && st.seen == loaded + SentIds(st.sent)
    && (forall k :: 0 <= k < |st.sent| ==> st.sent[k].appId !in loaded)
    && (forall i, j :: 0 <= i < j < |st.sent| ==> st.sent[i].appId != st.sent[j].appId)
  }

  /** One iteration keeps the invariant: a row is announced only when its
      id is not in the set, which holds every id announced so far. */
  lemma StepConsistent(loaded: set<string>, st: PassState, row: Row)
    requires Consistent(loaded, st)
    ensures Consistent(loaded, Step(st, row))
  {
    if Step(st, row) != st {
      SentIdsSnoc(st.sent, DealOf(row));
      forall k | 0 <= k < |st.sent| ensures st.sent[k].appId != row.appId.value {
        assert st.sent[k].appId in SentIds(st.sent);
      }
    }
  }

  /** The whole pass keeps the invariant, even when several rows carry the
      same id. */
  lemma {:induction false} PassConsistent(loaded: set<string>, rows: seq<Row>)
    ensures Consistent(loaded, Pass(loaded, rows))
    decreases |rows|
  {
    if rows == [] {
      assert SentIds([]) == {};
    } else {
      PassConsistent(loaded, rows[..|rows| - 1]);
      StepConsistent(loaded, Pass(loaded, rows[..|rows| - 1]), rows[|rows| - 1]);
    }
  }

  /** The set after the pass is the loaded set plus exactly the announced
      ids, and the loaded set is disjoint from them. */
  lemma SeenAfterPass(seen: set<string>, rows: seq<Row>)
    ensures Pass(seen, rows).seen == seen + SentIds(Pass(seen, rows).sent)
    ensures seen * SentIds(Pass(seen, rows).sent) == {}
  {
    PassConsistent(seen, rows);
    var sent := Pass(seen, rows).sent;
    forall id | id in SentIds(sent) ensures id !in seen {
      var k :| 0 <= k < |sent| && sent[k].appId == id;
    }
  }

  /** The pass announces exactly the first-fresh rows, in row order: a row
      without an id, with an empty id, with a missing field, with an id in
      the loaded set, or repeating an id of an earlier candidate row, is
      never announced. */
  lemma {:induction false} PassAnnounces(seen: set<string>, rows: seq<Row>)
    ensures Pass(seen, rows).sent == Announced(seen, rows)
    decreases |rows|
  {
    if rows != [] {
      var n := |rows| - 1;
      var init, last := rows[..n], rows[n];
      PassAnnounces(seen, init);
      PassSeen(seen, init);
      var st := Pass(seen, init);
      if Candidate(last) {
        if last.appId.value in st.seen && last.appId.value !in seen {
          var j :| 0 <= j < |init| && Candidate(init[j]) && init[j].appId.value == last.appId.value;
          assert rows[j] == init[j];
          assert !FirstFresh(seen, rows, n);
        }
        if !FirstFresh(seen, rows, n) && last.appId.value !in seen {
          var j :| 0 <= j < n && Candidate(rows[j]) && rows[j].appId == last.appId;
          assert rows[j] == init[j];
          assert last.appId.value in CandidateIds(init);
        }
      }
    }
  }

  /** A pass from a set that already holds every candidate id announces
      nothing and leaves the set as it is. */
  lemma {:induction false} PassQuiet(seen: set<string>, rows: seq<Row>)
    requires CandidateIds(rows) <= seen
    ensures Pass(seen, rows) == PassState(seen, [])
    decreases |rows|
  {
    if rows != [] {
      var init, last := rows[..|rows| - 1], rows[|rows| - 1];
      assert rows == init + [last];
      CandidateIdsSnoc(init, last);
      PassQuiet(seen, init);
    }
  }

  /** Idempotence across runs: a second pass over the same rows, starting
      from the set the first pass produced, announces nothing and changes
      nothing. */
  lemma PassIdempotent(seen: set<string>, rows: seq<Row>)
    ensures Pass(Pass(seen, rows).seen, rows) == PassState(Pass(seen, rows).seen, [])
  {
    PassSeen(seen, rows);
    PassQuiet(Pass(seen, rows).seen, rows);
  }

  /** A pass that announces nothing leaves the set exactly as loaded. */
  lemma SilentPassKeepsSeen(seen: set<string>, rows: seq<Row>)
    requires Pass(seen, rows).sent == []
    ensures Pass(seen, rows).seen == seen
  {
    PassConsistent(seen, rows);
    assert SentIds([]) == {};
  }

  /** A single fresh candidate row is announced and its id recorded. */
  lemma PassOne(seen: set<string>, row: Row)
    requires Candidate(row) && row.appId.value !in seen
    ensures Pass(seen, [row]) == PassState(seen + {row.appId.value}, [DealOf(row)])
  {
    assert [row][..0] == [];
  }

  /** A row without an id or lacking a field changes nothing: no
      notification, and its id is not recorded. */
  lemma PassSkips(seen: set<string>, rows: seq<Row>, row: Row)
    requires !Candidate(row)
    ensures Pass(seen, rows + [row]) == Pass(seen, rows)
  {
    assert (rows + [row])[..|rows|] == rows;
  }

  /** The loop of the bot over the result rows. It updates the seen set in
      place and raises the dirty flag on each notification; `sent` records
      the notification calls in the order they are made. */
  method CheckRows(loaded: set<string>, rows: seq<Row>) returns (seen: set<string>, sent: seq<Deal>, dirty: bool)
    ensures PassState(seen, sent) == Pass(loaded, rows)
    ensures sent == Announced(loaded, rows)
    ensures seen == loaded + SentIds(sent)
    ensures forall i, j :: 0 <= i < j < |sent| ==> sent[i].appId != sent[j].appId
    ensures dirty <==> sent != []
  {
    seen, sent, dirty := loaded, [], false;
    for i := 0 to |rows|
      invariant PassState(seen, sent) == Pass(loaded, rows[..i])
      invariant dirty <==> sent != []
    {
      var row := rows[i];
      assert rows[..i + 1][..i] == rows[..i];
      if row.appId.None? || row.appId.value == "" || row.appId.value in seen {
        continue;
      }
      var appId := row.appId.value;
      if row.title.None? || row.discount.None? || row.originalPrice.None? || row.finalPrice.None? {
        continue;
      }
      var name := Strip(row.title.value);
      var discount := NormalizeDiscount(row.discount.value);
      var oldPrice := Strip(row.originalPrice.value);
      var newPrice := Strip(row.finalPrice.value);
      sent := sent + [Deal(name, appId, discount, oldPrice, newPrice)];
      seen := seen + {appId};
      dirty := true;
    }
    assert rows[..|rows|] == rows;
    PassAnnounces(loaded, rows);
    PassConsistent(loaded, rows);
  }

}
