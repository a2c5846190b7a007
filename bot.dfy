/**
  One run of the bot: load the seen set, fetch the search page, run the
  dedup-and-notify pass over its rows, and save the set if anything was
  announced. The HTTP GET and the HTML parsing are abstracted into the
  `Fetch` value the run is given.
 */
module Bot {
  import opened Wrappers
  import opened Notify
  import opened Store
  import opened Scan

  /** What the search request yields: a transport error, or a response with
      its status code and the result rows parsed from its body. */
  datatype Fetch =
    | RequestError
    | Response(status: int, rows: seq<Row>)

  /** How a run ends. `Finished` carries the notifications made, in order,
      and the file written at the end, if any. */
  datatype Outcome =
    | NoWebhook                 // no webhook configured: nothing is fetched
    | FetchFailed               // the request raised
    | BadStatus(status: int)    // the store answered with another status than 200
    | NoResults                 // the page held no result rows
    | Finished(sent: seq<Deal>, saved: Option<Persisted>)

  const OK: int := 200

  /** The outcomes a run may have, given the file on disk and what the fetch
      yields. Only a 200 response with at least one row reaches the pass;
      then the notifications are those of the pass from the loaded set, and
      the file is rewritten, as a duplicate-free list of the updated set,
      exactly when at least one notification was made. */
  ghost predicate RunAllows(file: Persisted, fetch: Fetch, out: Outcome)
  {
    match fetch
    case RequestError => out == FetchFailed
    case Response(status, rows) =>
      if status != OK then out == BadStatus(status)
      else if rows == [] then out == NoResults
      else
        && out.Finished?
        && out.sent == Pass(Load(file), rows).sent
        && (out.saved.Some? <==> out.sent != [])
        && (out.saved.Some? ==>
              && out.saved.value.Stored?
              && Distinct(out.saved.value.ids)
              && Load(out.saved.value) == Pass(Load(file), rows).seen)
  }

  /** The check for new discounts: early exits on a failed fetch, a non-200
      status or an empty result list, otherwise the pass and the save. */
  method CheckDiscounts(file: Persisted, fetch: Fetch) returns (out: Outcome)
    ensures RunAllows(file, fetch, out)
  {
    var seen := Load(file);
    if fetch.RequestError? {
      return FetchFailed;
    }
    if fetch.status != OK {
      return BadStatus(fetch.status);
    }
    var rows := fetch.rows;
    if rows == [] {
      return NoResults;
    }
    var sent, dirty;
    seen, sent, dirty := CheckRows(seen, rows);
    var saved := None;
    if dirty {
      var written := Save(seen);
      saved := Some(written);
    }
    out := Finished(sent, saved);
  }

  /** The entry point: without a webhook URL (unset or empty) the check is
      never run. */
  method RunBot(webhook: Option<string>, file: Persisted, fetch: Fetch) returns (out: Outcome)
    ensures webhook.None? || webhook.value == "" ==> out == NoWebhook
    ensures webhook.Some? && webhook.value != "" ==> RunAllows(file, fetch, out)
  {
    if webhook.None? || webhook.value == "" {
      return NoWebhook;
    }
    out := CheckDiscounts(file, fetch);
  }

  /** A run that ends early announces nothing and writes nothing; a run that
      completes without announcing anything leaves the file alone. */
  lemma NoSaveWithoutNews(file: Persisted, fetch: Fetch, out: Outcome)
    requires RunAllows(file, fetch, out)
    requires !out.Finished? || out.sent == []
    ensures !(out.Finished? && out.saved.Some?)
    ensures fetch.Response? && fetch.status == OK && fetch.rows != [] ==> Pass(Load(file), fetch.rows).sent == []
  {
  }

  /** Idempotence across runs: after a completed run, a second run over the
      same search results, starting from the file as the first run left it,
      announces nothing and writes nothing. */
  lemma SecondRunQuiet(file: Persisted, rows: seq<Row>, first: Outcome, second: Outcome)
    requires first.Finished?
    requires RunAllows(file, Response(OK, rows), first)
    requires RunAllows(if first.saved.Some? then first.saved.value else file, Response(OK, rows), second)
    ensures second == Finished([], None)
  {
    var seen := Load(file);
    if first.saved.Some? {
      PassIdempotent(seen, rows);
    } else {
      SilentPassKeepsSeen(seen, rows);
      PassIdempotent(seen, rows);
    }
  }

  /** A first run, from a missing file, over a page with one complete row
      and one row that lacks its final price: one notification, for the
      complete row, and a saved set holding just its id. */
  lemma TwoRowScenario(full: Row, partial: Row, out: Outcome)
    requires Candidate(full) && partial.finalPrice.None?
    requires RunAllows(Missing, Response(OK, [full, partial]), out)
    ensures out == Finished([DealOf(full)], out.saved)
    ensures out.saved.Some? && Load(out.saved.value) == {full.appId.value}
  {
    TwoRowPass(full, partial);
  }

  lemma TwoRowPass(full: Row, partial: Row)
    requires Candidate(full) && partial.finalPrice.None?
    ensures Pass({}, [full, partial]) == PassState({full.appId.value}, [DealOf(full)])
  {
    PassOne({}, full);
    assert [full, partial] == [full] + [partial];
    PassSkips({}, [full], partial);
  }

}
