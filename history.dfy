/** The saved-report history: newest first, at most fifty entries, one entry
    per (subject address, effective date) pair that is saved again, and
    deletion by report id. Only the in-memory list update is modelled; the
    list is read from and written back to a JSON file around it. */
module History {
  import opened Options

  /** One saved report. `details` stands for the rest of the saved record:
      settings, exclusions, selected comparables and the uploaded data. */
  datatype Report = Report(id: string, savedAt: string, subjectAddress: string, effDate: string, details: string)

  /** The history keeps at most this many reports. */
  const MaxReports: nat := 50

  /** Two reports are for the same subject and effective date. */
  predicate SameKey(a: Report, b: Report) {
    a.subjectAddress == b.subjectAddress && a.effDate == b.effDate
  }

  /** The position of the first report for the same subject and effective date as `r`. */
  function FirstMatch(history: seq<Report>, r: Report): (i: Option<nat>)
    ensures i.None? <==> forall k :: 0 <= k < |history| ==> !SameKey(history[k], r)
    ensures i.Some? ==>
      i.value < |history| && SameKey(history[i.value], r) &&
      forall k :: 0 <= k < i.value ==> !SameKey(history[k], r)
  {
    if history == [] then None
    else if SameKey(history[0], r) then Some(0)
    else
      match FirstMatch(history[1..], r)
      case None =>
        assert forall k :: 1 <= k < |history| ==> history[k] == history[1..][k - 1];
        None
      case Some(i) =>
        assert forall k :: 1 <= k <= i ==> history[k] == history[1..][k - 1];
        Some(i + 1)
  }

  /** The first `MaxReports` entries. */
  function Truncated(history: seq<Report>): (r: seq<Report>)
    ensures |r| <= MaxReports
    // An unfolding of the definition, for the proofs about Saved.
    ensures r == history[..if |history| <= MaxReports then |history| else MaxReports]
  {
    if |history| <= MaxReports then history else history[..MaxReports]
  }

  /** The history after `save_report_to_history` saves `r`. */
  function Saved(history: seq<Report>, r: Report): seq<Report> {
    match FirstMatch(history, r)
    case Some(i) => Truncated(history[i := r])
    case None => Truncated([r] + history)
  }

  /** The history after `delete_report_from_history(id)`. */
  function WithoutId(history: seq<Report>, id: string): seq<Report> {
    if history == [] then []
    else
      var rest := WithoutId(history[1..], id);
      if history[0].id != id then [history[0]] + rest else rest
  }

  /** The scan for an existing entry: the first report with the same
      subject address and effective date, if any. */
  method FindExisting(history: seq<Report>, r: Report) returns (existing: Option<nat>)
    ensures existing == FirstMatch(history, r)
    ensures existing.Some? ==> existing.value < |history| && SameKey(history[existing.value], r)
    ensures existing.None? ==> forall k :: 0 <= k < |history| ==> !SameKey(history[k], r)
  {
    existing := None;
    var i := 0;
    while i < |history|
      invariant 0 <= i <= |history|
      invariant forall k :: 0 <= k < i ==> !SameKey(history[k], r)
    {
      if SameKey(history[i], r) {
        existing := Some(i);
        FirstMatchIsFirst(history, r, i);
        return;
      }
      i := i + 1;
    }
  }

  lemma FirstMatchIsFirst(history: seq<Report>, r: Report, i: nat)
    requires i < |history| && SameKey(history[i], r)
    requires forall k :: 0 <= k < i ==> !SameKey(history[k], r)
    ensures FirstMatch(history, r) == Some(i)
  {
  }

  /** The report history as the application holds it between load and save. */
  class ReportHistory {
    var reports: seq<Report>

    /** The history as loaded from the history file. */
    constructor (loaded: seq<Report>)
      ensures reports == loaded
    {
      reports := loaded;
    }

    /** `save_report_to_history`: replaces the first entry for the same
        subject and effective date, or puts the report first, then keeps
        the newest fifty. */
    method Save(report: Report)
      modifies this
      ensures reports == Saved(old(reports), report)
      ensures |reports| <= MaxReports
    {
      var existing := FindExisting(reports, report);
      if existing.Some? {
        reports := reports[existing.value := report];
      } else {
        reports := [report] + reports;
      }
      if |reports| > MaxReports {
        reports := reports[..MaxReports];
      }
    }

    /** `delete_report_from_history`: keeps every report whose id differs. */
    method Delete(id: string)
      modifies this
      ensures reports == WithoutId(old(reports), id)
    {
      reports := WithoutId(reports, id);
    }
  }

  /** Saving over an existing entry replaces it where it stands: same
      length, the new report at that position, every other entry unchanged. */
  lemma SaveReplacesInPlace(history: seq<Report>, r: Report, i: nat)
    requires |history| <= MaxReports
    requires FirstMatch(history, r) == Some(i)
    ensures |Saved(history, r)| == |history|
    ensures Saved(history, r)[i] == r
    ensures forall k :: 0 <= k < |history| && k != i ==> Saved(history, r)[k] == history[k]
  {
  }

  /** Saving a new subject and date puts the report first, followed by the
      previous entries, dropping the oldest when the history was full. */
  lemma SaveInsertsAtFront(history: seq<Report>, r: Report)
    requires FirstMatch(history, r).None?
    ensures Saved(history, r)[0] == r
    ensures Saved(history, r)[1..] == history[..if |history| < MaxReports then |history| else MaxReports - 1]
  {
    var s := [r] + history;
    if |s| > MaxReports {
      assert s[..MaxReports][1..] == history[..MaxReports - 1];
    } else {
      assert s[1..] == history;
    }
  }

  /** A history of at most fifty entries always keeps the report just saved. */
  lemma SavedReportKept(history: seq<Report>, r: Report)
    requires |history| <= MaxReports
    ensures r in Saved(history, r)
  {
    match FirstMatch(history, r)
    case Some(i) => assert Saved(history, r)[i] == r;
    case None => SaveInsertsAtFront(history, r);
  }

  /** No two entries share a subject and effective date. */
  predicate UniqueKeys(history: seq<Report>) {
    forall j, k :: 0 <= j < k < |history| ==> !SameKey(history[j], history[k])
  }

  /** Saving keeps subjects and dates unique. */
  lemma SaveKeepsKeysUnique(history: seq<Report>, r: Report)
    requires UniqueKeys(history)
    ensures UniqueKeys(Saved(history, r))
  {
    var s := Saved(history, r);
    match FirstMatch(history, r)
    case Some(i) =>
      forall j, k | 0 <= j < k < |s| ensures !SameKey(s[j], s[k]) {
        if j == i {
          assert SameKey(history[i], r);
        } else if k == i {
          assert SameKey(history[i], r);
        }
      }
    case None =>
      forall j, k | 0 <= j < k < |s| ensures !SameKey(s[j], s[k]) {
        if j > 0 {
          assert s[j] == history[j - 1] && s[k] == history[k - 1];
        } else {
          assert s[k] == history[k - 1];
        }
      }
  }

  /** Saving the same report twice is the same as saving it once. */
  lemma SaveIdempotent(history: seq<Report>, r: Report)
    requires |history| <= MaxReports
    ensures Saved(Saved(history, r), r) == Saved(history, r)
  {
    var s := Saved(history, r);
    match FirstMatch(history, r)
    case Some(i) =>
      assert s[i] == r;
      forall k | 0 <= k < i ensures !SameKey(s[k], r) {
        assert s[k] == history[k];
      }
      FirstMatchIsFirst(s, r, i);
      assert s[i := r] == s;
    case None =>
      SaveInsertsAtFront(history, r);
      FirstMatchIsFirst(s, r, 0);
      assert s[0 := r] == s;
  }

  /** After deleting an id no entry carries it. */
  lemma {:induction false} DeleteRemovesId(history: seq<Report>, id: string)
    ensures forall k :: 0 <= k < |WithoutId(history, id)| ==> WithoutId(history, id)[k].id != id
  {
    if history != [] {
      DeleteRemovesId(history[1..], id);
    }
  }

  /** Deleting keeps every entry with another id, and adds nothing. */
  lemma {:induction false} DeleteKeepsOthers(history: seq<Report>, id: string)
    ensures forall x :: x in history && x.id != id ==> x in WithoutId(history, id)
    ensures multiset(WithoutId(history, id)) <= multiset(history)
  {
    if history != [] {
      DeleteKeepsOthers(history[1..], id);
      assert history == [history[0]] + history[1..];
    }
  }

  /** Deleting keeps the order of what remains: it acts on each part of the
      history separately. */
  lemma {:induction false} DeleteKeepsOrder(front: seq<Report>, back: seq<Report>, id: string)
    ensures WithoutId(front + back, id) == WithoutId(front, id) + WithoutId(back, id)
  {
    if front != [] {
      assert (front + back)[1..] == front[1..] + back;
      DeleteKeepsOrder(front[1..], back, id);
    } else {
      assert front + back == back;
    }
  }

  /** Deleting an id that no entry carries leaves the history unchanged. */
  lemma {:induction false} DeleteAbsentId(history: seq<Report>, id: string)
    requires forall k :: 0 <= k < |history| ==> history[k].id != id
    ensures WithoutId(history, id) == history
  {
    if history != [] {
      DeleteAbsentId(history[1..], id);
      assert history == [history[0]] + history[1..];
    }
  }

  /** Deleting twice is deleting once. */
  lemma DeleteIdempotent(history: seq<Report>, id: string)
    ensures WithoutId(WithoutId(history, id), id) == WithoutId(history, id)
  {
    DeleteRemovesId(history, id);
    DeleteAbsentId(WithoutId(history, id), id);
  }
}
