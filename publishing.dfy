/**
 * The publishing half of `AGOLVehiclesPallet.process`: the service
 * definition paths, the item description built from the date stamp, and
 * the bounded retry loop around the opaque publish steps.
 *
 * One execution of the loop body (sign in, stage, update, publish, update
 * the description) is an oracle `publish: nat -> Attempt<E>` that says, for
 * each attempt number, whether that execution succeeded or which exception
 * it raised. `sleep` is not performed; the durations passed to it are
 * recorded in the trace.
 */
module Publishing {
  import opened Wrappers
  import opened Text
  import opened Calendar
  import opened LatestCsv

  /** The window `process` passes to `get_latest_csv`. */
  const SelectionWindow := 7

  /** The last attempt number after whose failure the loop still retries
      (`if try_count > 3: raise`). */
  const LastRetriedAttempt := 3

  /** How many times the body can run: attempts 1 to 4. */
  const MaxAttempts := LastRetriedAttempt + 1

  // ---------------------------------------------------------------------
  // Service definition paths
  // ---------------------------------------------------------------------

  /** `sddraft_path[:-5]`. */
  function SdPath(sddraftPath: string): (r: string)
  {
    DropLast(sddraftPath, 5)
  }

  /** Dropping five characters turns `<name>.sddraft` into `<name>.sd`. */
  lemma SdPathOfDraft(base: string)
    ensures SdPath(base + ".sddraft") == base + ".sd"
  {
    assert base + ".sddraft" == (base + ".sd") + "draft";
  }

  /** The draft and final service definition paths in the scratch folder. */
  function ServicePaths(scratchFolder: string, featureServiceName: string): (paths: (string, string))
    ensures paths.0 == JoinPath(scratchFolder, featureServiceName) + ".sddraft"
    ensures paths.1 == JoinPath(scratchFolder, featureServiceName) + ".sd"
  {
    var sddraftPath := JoinPath(scratchFolder, featureServiceName + ".sddraft");
    assert sddraftPath == JoinPath(scratchFolder, featureServiceName) + ".sddraft";
    SdPathOfDraft(JoinPath(scratchFolder, featureServiceName));
    (sddraftPath, SdPath(sddraftPath))
  }

  // ---------------------------------------------------------------------
  // The item description
  // ---------------------------------------------------------------------

  const DescriptionPrefix := "Vehicle location data obtained from Fleet; updated on "

  /** The description text written to the features item, built from the
      three slices of the date stamp. */
  function Description(dateString: string): (text: string)
    ensures |text| == |DescriptionPrefix| + |dateString| + 2
    ensures text[..|DescriptionPrefix|] == DescriptionPrefix
  {
    SlicesCover(dateString, 4, 6);
    DescriptionPrefix + Take(dateString, 4) + "-" + Slice(dateString, 4, 6) + "-" + Drop(dateString, 6)
  }

  /** `YYYY-MM-DD` for a date. */
  function IsoDate(d: Date): (s: string)
    requires Valid(d)
    ensures |s| == 10
  {
    Pad(d.year, 4) + "-" + Pad(d.month, 2) + "-" + Pad(d.day, 2)
  }

  /** For an eight-digit stamp, the description names the parsed date as `YYYY-MM-DD`. */
  lemma DescriptionNamesDate(dateString: string)
    requires |dateString| == 8 && ParseDate(dateString).Some?
    ensures Description(dateString) == DescriptionPrefix + IsoDate(ParseDate(dateString).value)
  {
    var d := ParseDate(dateString).value;
    StampOfParse(dateString);
    StampPieces(d);
  }

  /** The stamp can be read back from the description by dropping the prefix
      and the two dashes, whenever it has at least six characters. */
  lemma DescriptionKeepsStamp(dateString: string)
    requires |dateString| >= 6
    ensures var body := Description(dateString)[|DescriptionPrefix|..];
            body[..4] + body[5..7] + body[8..] == dateString
  {
    var body := Description(dateString)[|DescriptionPrefix|..];
    var y, m, d := Take(dateString, 4), Slice(dateString, 4, 6), Drop(dateString, 6);
    assert |y| == 4 && |m| == 2;
    assert body == y + "-" + m + "-" + d;
    assert body[..4] == y && body[5..7] == m && body[8..] == d;
    SlicesCover(dateString, 4, 6);
  }

  // ---------------------------------------------------------------------
  // The retry loop
  // ---------------------------------------------------------------------

  /** What one execution of the loop body did. */
  datatype Attempt<E> = Published | Failed(error: E)

  /** How the loop ended: by `break`, or by re-raising an attempt's exception. */
  datatype Outcome<E> = Completed | Raised(error: E)

  /** A run of the loop: how it ended, how many times the body ran, and the
      durations passed to `sleep`, in order. */
  datatype RetryTrace<E> = RetryTrace(outcome: Outcome<E>, attempts: nat, sleeps: seq<nat>)

  /** The loop from the moment `try_count == tryCount`. */
  function Retry<E>(publish: nat -> Attempt<E>, tryCount: nat): (t: RetryTrace<E>)
    requires 1 <= tryCount <= MaxAttempts
    decreases MaxAttempts - tryCount
    ensures tryCount <= t.attempts <= MaxAttempts
    ensures |t.sleeps| == t.attempts - tryCount
    ensures forall j :: tryCount <= j < t.attempts ==> publish(j).Failed?
    ensures t.outcome.Completed? <==> publish(t.attempts).Published?
    ensures t.outcome.Raised? ==> t.attempts == MaxAttempts && publish(t.attempts) == Failed(t.outcome.error)
  {
    match publish(tryCount)
    case Published => RetryTrace(Completed, tryCount, [])
    case Failed(e) =>
      if tryCount > LastRetriedAttempt then RetryTrace(Raised(e), tryCount, [])
      else
        var rest := Retry(publish, tryCount + 1);
        RetryTrace(rest.outcome, rest.attempts, [tryCount * tryCount] + rest.sleeps)
  }

  /** The sleeps after the failed attempts `from` to `to - 1`: `from²`, …, `(to - 1)²`. */
  function Backoff(from: nat, to: nat): (s: seq<nat>)
    requires from <= to
    ensures |s| == to - from
    ensures forall i :: 0 <= i < |s| ==> s[i] == (from + i) * (from + i)
  {
    seq(to - from, i => (from + i) * (from + i))
  }

  /** From `tryCount` on, when attempt `k` is the first to succeed. */
  lemma {:induction false} FirstSuccessFrom<E>(publish: nat -> Attempt<E>, tryCount: nat, k: nat)
    requires 1 <= tryCount <= k <= MaxAttempts
    requires publish(k).Published?
    requires forall j :: tryCount <= j < k ==> publish(j).Failed?
    decreases k - tryCount
    ensures Retry(publish, tryCount) == RetryTrace(Completed, k, Backoff(tryCount, k))
  {
    if tryCount < k {
      FirstSuccessFrom(publish, tryCount + 1, k);
      assert Backoff(tryCount, k) == [tryCount * tryCount] + Backoff(tryCount + 1, k);
    }
  }

  /** If attempt `k` is the first to succeed, the body runs exactly `k` times,
      the loop ends normally, and it slept `1², 2², …, (k - 1)²` seconds. */
  lemma FirstSuccess<E>(publish: nat -> Attempt<E>, k: nat)
    requires 1 <= k <= MaxAttempts
    requires publish(k).Published?
    requires forall j :: 1 <= j < k ==> publish(j).Failed?
    ensures Retry(publish, 1) == RetryTrace(Completed, k, Backoff(1, k))
  {
    FirstSuccessFrom(publish, 1, k);
  }

  /** If every attempt fails, the body runs four times, sleeps 1, 4 and 9
      seconds, and the fourth attempt's exception is re-raised unchanged. */
  lemma AllAttemptsFail<E>(publish: nat -> Attempt<E>)
    requires forall j :: 1 <= j <= MaxAttempts ==> publish(j).Failed?
    ensures Retry(publish, 1) == RetryTrace(Raised(publish(MaxAttempts).error), MaxAttempts, [1, 4, 9])
  {
    var t := Retry(publish, 1);
    assert t.outcome.Raised?;
    assert Retry(publish, 4).sleeps == [];
    assert Retry(publish, 3).sleeps == [9];
    assert Retry(publish, 2).sleeps == [4, 9];
  }

  /** A trace continued after the sleeps already taken. */
  function Resumed<E>(sleeps: seq<nat>, t: RetryTrace<E>): RetryTrace<E>
  {
    RetryTrace(t.outcome, t.attempts, sleeps + t.sleeps)
  }

  /** The `while True` loop of `process`, run against the publish oracle. */
  method PublishWithRetry<E>(publish: nat -> Attempt<E>) returns (trace: RetryTrace<E>)
    ensures trace == Retry(publish, 1)
  {
    var tryCount := 1;
    var sleeps: seq<nat> := [];
    while true
      invariant 1 <= tryCount <= MaxAttempts
      invariant Retry(publish, 1) == Resumed(sleeps, Retry(publish, tryCount))
      decreases MaxAttempts - tryCount
    {
      match publish(tryCount) {
        case Published =>
          assert Retry(publish, tryCount) == RetryTrace(Completed, tryCount, []);
          return RetryTrace(Completed, tryCount, sleeps);
        case Failed(e) =>
          if tryCount > LastRetriedAttempt {
            assert Retry(publish, tryCount) == RetryTrace(Raised(e), tryCount, []);
            return RetryTrace(Raised(e), tryCount, sleeps);
          }
          assert Retry(publish, tryCount) == Resumed([tryCount * tryCount], Retry(publish, tryCount + 1));
          assert sleeps + ([tryCount * tryCount] + Retry(publish, tryCount + 1).sleeps)
              == (sleeps + [tryCount * tryCount]) + Retry(publish, tryCount + 1).sleeps;
          sleeps := sleeps + [tryCount * tryCount];
          tryCount := tryCount + 1;
      }
    }
  }

  // ---------------------------------------------------------------------
  // process
  // ---------------------------------------------------------------------

  /** What `process` got as far as. */
  datatype Run<E> =
    | SelectionFailed
    | Attempted(sourcePath: string, description: string, trace: RetryTrace<E>)

  /** The pallet: its one piece of state is `self.status`. */
  class VehiclesPallet {
    /** `self.status`, `None` until `process` assigns it. */
    var status: Option<(bool, CsvError)>

    constructor ()
      ensures status == None
    {
      status := None;
    }

    /** `process`, from the moment the staging directory `csvDir` holds the
        downloaded `listing`: select the file; on any selection failure record
        it in `status` and return before converting or publishing; otherwise
        run the publish loop with the description built from the stamp. */
    method Process<E>(csvDir: string, listing: seq<string>, today: Ordinal, publish: nat -> Attempt<E>)
      returns (run: Run<E>)
      modifies this
      ensures GetLatestCsv(csvDir, listing, SelectionWindow, today).Err? ==>
                status == Some((false, GetLatestCsv(csvDir, listing, SelectionWindow, today).error))
                && run == SelectionFailed
      ensures GetLatestCsv(csvDir, listing, SelectionWindow, today).Ok? ==>
                var (sourcePath, sourceDate) := GetLatestCsv(csvDir, listing, SelectionWindow, today).value;
                status == old(status)
                && run == Attempted(sourcePath, Description(sourceDate), Retry(publish, 1))
    {
      match GetLatestCsv(csvDir, listing, SelectionWindow, today) {
        case Err(e) =>
          status := Some((false, e));
          return SelectionFailed;
        case Ok((sourcePath, sourceDate)) =>
          var description := Description(sourceDate);
          var trace := PublishWithRetry(publish);
          return Attempted(sourcePath, description, trace);
      }
    }
  }
}
