/** Scripts/Kinesis-to-S3-Streaming.py: the rule by which `wait_for_active_kinesis_stream` and
    `wait_for_active_firehose` decide, and the block of `main` that resends the records a
    `put_records` call reports as failed. The AWS calls are replaced by the results they return. */
module KinesisStreaming {
  import opened Lists

  // ----- waiting for a stream to become active -----

  /** What one describe call yields: the stream's status, or a `ClientError`. */
  datatype DescribeResult = Described(status: string) | DescribeClientError

  /** `Active` is the functions' `True`, `Failed` their `False`; `StillWaiting` means the given
      results ran out while the stream was still being created, so the function would poll again. */
  datatype WaitOutcome = Active | Failed | StillWaiting

  /** Seconds slept between two polls of a Kinesis stream and of a Firehose delivery stream. */
  const KinesisPollSeconds: nat := 5
  const FirehosePollSeconds: nat := 2

  /** A describe result on which the polling loop returns. */
  predicate Decisive(d: DescribeResult) {
    d.DescribeClientError? || d.status == "ACTIVE" || d.status == "DELETING"
  }

  /** The outcome of polling through `responses`, and how many describe calls it makes. */
  function WaitRule(responses: seq<DescribeResult>): (r: (WaitOutcome, nat))
    ensures r.1 <= |responses|
  {
    if responses == [] then (StillWaiting, 0)
    else
      match responses[0]
      case DescribeClientError => (Failed, 1)
      case Described(status) =>
        if status == "ACTIVE" then (Active, 1)
        else if status == "DELETING" then (Failed, 1)
        else
          var rest := WaitRule(responses[1..]);
          (rest.0, rest.1 + 1)
  }

  /** Polling stops at the first decisive result, which decides the outcome; without one, every
      result is read and the outcome stays open. */
  lemma {:induction false} WaitRuleMeaning(responses: seq<DescribeResult>)
    ensures var r := WaitRule(responses);
      && (r.0 == StillWaiting ==> r.1 == |responses| && forall i :: 0 <= i < |responses| ==> !Decisive(responses[i]))
      && (r.0 != StillWaiting ==> 1 <= r.1 <= |responses| && Decisive(responses[r.1 - 1]))
      && (forall i :: 0 <= i < r.1 - 1 ==> !Decisive(responses[i]))
      && (r.0 == Active <==> r.0 != StillWaiting && responses[r.1 - 1] == Described("ACTIVE"))
  {
    if responses != [] && !Decisive(responses[0]) {
      WaitRuleMeaning(responses[1..]);
      assert forall i :: 1 <= i < |responses| ==> responses[1..][i - 1] == responses[i];
    }
  }

  /** `True` exactly when an `ACTIVE` status comes before any `DELETING` status or describe error. */
  lemma ActiveIffActiveFirst(responses: seq<DescribeResult>)
    ensures WaitRule(responses).0 == Active <==>
      exists i :: 0 <= i < |responses| && responses[i] == Described("ACTIVE") && forall j :: 0 <= j < i ==> !Decisive(responses[j])
  {
    var r := WaitRule(responses);
    WaitRuleMeaning(responses);
    if r.0 == Active {
      assert responses[r.1 - 1] == Described("ACTIVE");
    }
    if i :| 0 <= i < |responses| && responses[i] == Described("ACTIVE") && forall j :: 0 <= j < i ==> !Decisive(responses[j]) {
      assert Decisive(responses[i]);
      assert r.0 != StillWaiting;
      assert r.1 - 1 == i;
    }
  }

  /** A non-decisive result costs one poll and leaves the decision to the rest. */
  lemma WaitRuleSkip(responses: seq<DescribeResult>, k: nat)
    requires k < |responses| && !Decisive(responses[k])
    ensures WaitRule(responses[k..]) == (WaitRule(responses[k + 1..]).0, WaitRule(responses[k + 1..]).1 + 1)
  {
    assert responses[k..][1..] == responses[k + 1..];
  }

  /** A decisive result ends the polling with the poll that read it. */
  lemma WaitRuleDecides(responses: seq<DescribeResult>, k: nat)
    requires k < |responses| && Decisive(responses[k])
    ensures WaitRule(responses[k..]) == (if responses[k] == Described("ACTIVE") then Active else Failed, 1)
  {
    assert responses[k..][0] == responses[k];
  }

  lemma SleepOnceMore(sleepSeconds: nat, polls: nat)
    ensures sleepSeconds * (polls + 1) == sleepSeconds * polls + sleepSeconds
  {
  }

  /** The polling loop shared by both wait functions: describe, return on an error, `ACTIVE` or
      `DELETING`, otherwise sleep `sleepSeconds` and poll again. */
  method WaitUntilActive(responses: seq<DescribeResult>, sleepSeconds: nat)
    returns (outcome: WaitOutcome, polls: nat, secondsSlept: nat)
    ensures (outcome, polls) == WaitRule(responses)
    ensures secondsSlept == sleepSeconds * (if outcome == StillWaiting then polls else polls - 1)
  {
    polls := 0;
    secondsSlept := 0;
    while polls < |responses|
      invariant polls <= |responses|
      invariant secondsSlept == sleepSeconds * polls
      invariant WaitRule(responses) == (WaitRule(responses[polls..]).0, WaitRule(responses[polls..]).1 + polls)
    {
      var result := responses[polls];
      polls := polls + 1;
      if result.DescribeClientError? {
        WaitRuleDecides(responses, polls - 1);
        return Failed, polls, secondsSlept;
      }
      if result.status == "ACTIVE" {
        WaitRuleDecides(responses, polls - 1);
        return Active, polls, secondsSlept;
      }
      if result.status == "DELETING" {
        WaitRuleDecides(responses, polls - 1);
        return Failed, polls, secondsSlept;
      }
      WaitRuleSkip(responses, polls - 1);
      SleepOnceMore(sleepSeconds, polls - 1);
      secondsSlept := secondsSlept + sleepSeconds;
    }
    outcome := StillWaiting;
  }

  /** `wait_for_active_kinesis_stream` over the `StreamStatus` values it would read. */
  method WaitForActiveKinesisStream(responses: seq<DescribeResult>)
    returns (outcome: WaitOutcome, polls: nat, secondsSlept: nat)
    ensures (outcome, polls) == WaitRule(responses)
    ensures secondsSlept == KinesisPollSeconds * (if outcome == StillWaiting then polls else polls - 1)
  {
    outcome, polls, secondsSlept := WaitUntilActive(responses, KinesisPollSeconds);
  }

  /** `wait_for_active_firehose` over the `DeliveryStreamStatus` values it would read. */
  method WaitForActiveFirehose(responses: seq<DescribeResult>)
    returns (outcome: WaitOutcome, polls: nat, secondsSlept: nat)
    ensures (outcome, polls) == WaitRule(responses)
    ensures secondsSlept == FirehosePollSeconds * (if outcome == StillWaiting then polls else polls - 1)
  {
    outcome, polls, secondsSlept := WaitUntilActive(responses, FirehosePollSeconds);
  }

  lemma WaitExamples()
    ensures WaitRule([Described("CREATING"), Described("CREATING"), Described("ACTIVE")]) == (Active, 3)
    ensures WaitRule([Described("CREATING"), Described("DELETING")]) == (Failed, 2)
    ensures WaitRule([Described("CREATING"), DescribeClientError, Described("ACTIVE")]) == (Failed, 2)
  {
    var a := [Described("CREATING"), Described("CREATING"), Described("ACTIVE")];
    assert a[1..][1..] == [Described("ACTIVE")];
    var b := [Described("CREATING"), Described("DELETING")];
    assert b[1..] == [Described("DELETING")];
    var c := [Described("CREATING"), DescribeClientError, Described("ACTIVE")];
    assert c[1..][0] == DescribeClientError;
  }

  // ----- resending the records `put_records` reports as failed -----

  type Bytes = seq<bv8>

  /** One entry of the `Records` list sent to `put_records`. Its `PartitionKey` is optional because
      the batch built in `main` has none. */
  datatype BatchEntry = BatchEntry(data: Bytes, partitionKey: Option<string>)

  /** `[{'Data': next(f)} for x in range(1000)]`, over the lines read. */
  function BatchFromLines(lines: seq<Bytes>): (batch: seq<BatchEntry>)
    ensures |batch| == |lines|
    ensures forall i :: 0 <= i < |lines| ==> batch[i] == BatchEntry(lines[i], None)
  {
    seq(|lines|, i requires 0 <= i < |lines| => BatchEntry(lines[i], None))
  }

  /** One element of the response's `Records`: stored, or carrying an `ErrorCode`. */
  datatype RecordResult = Stored | ErrorCode(code: string)

  datatype PutRecordsResult =
    | PutRecordsClientError
    | PutRecordsResponse(failedRecordCount: nat, records: seq<RecordResult>)

  /** One `put_record` call of the resend loop, with the batch position it resends. */
  datatype Resend = Resend(index: nat, data: Bytes, partitionKey: string)

  /** How the block ends: normally, by `exit(1)` after a `ClientError` from `put_records`, or by the
      exception a resend's `batch[rec_index]['PartitionKey']` raises. */
  datatype Halt = Finished | ExitedOnClientError | RaisedIndexError | RaisedKeyError

  datatype ResendReport = ResendReport(resent: seq<Resend>, halt: Halt)

  function Indices(resent: seq<Resend>): (r: seq<nat>)
    ensures |r| == |resent| && forall i :: 0 <= i < |r| ==> r[i] == resent[i].index
  {
    seq(|resent|, i requires 0 <= i < |resent| => resent[i].index)
  }

  /** The positions of `records` that carry an `ErrorCode`, in ascending order. */
  function FailedPositions(records: seq<RecordResult>): (r: seq<nat>)
    ensures |r| <= |records|
  {
    if records == [] then []
    else
      var last := |records| - 1;
      FailedPositions(records[..last]) + (if records[last].ErrorCode? then [last] else [])
  }

  /** Exactly the positions with an `ErrorCode`, each once and in ascending order. */
  lemma {:induction false} FailedPositionsMeaning(records: seq<RecordResult>)
    ensures forall i :: 0 <= i < |FailedPositions(records)| ==>
      FailedPositions(records)[i] < |records| && records[FailedPositions(records)[i]].ErrorCode?
    ensures forall i, j :: 0 <= i < j < |FailedPositions(records)| ==> FailedPositions(records)[i] < FailedPositions(records)[j]
    ensures forall p :: 0 <= p < |records| && records[p].ErrorCode? ==> p in FailedPositions(records)
    decreases |records|
  {
    if records != [] {
      var last := |records| - 1;
      var init := records[..last];
      FailedPositionsMeaning(init);
      assert forall p :: 0 <= p < last ==> init[p] == records[p];
    }
  }

  /** The failed positions of a prefix are a prefix of the failed positions. */
  lemma {:induction false} FailedPositionsOfPrefix(records: seq<RecordResult>, k: nat)
    requires k <= |records|
    ensures FailedPositions(records[..k]) <= FailedPositions(records)
    decreases |records|
  {
    if k < |records| {
      var init := records[..|records| - 1];
      assert init[..k] == records[..k];
      FailedPositionsOfPrefix(init, k);
    } else {
      assert records[..k] == records;
    }
  }

  lemma FailedPositionsStep(records: seq<RecordResult>, k: nat)
    requires k < |records|
    ensures FailedPositions(records[..k + 1]) == FailedPositions(records[..k]) + (if records[k].ErrorCode? then [k] else [])
  {
    assert records[..k + 1][..k] == records[..k];
  }

  /** The positions the block tries to resend: the first `FailedRecordCount` failed positions, or
      all of them when the count is larger. */
  function Targets(failedRecordCount: nat, records: seq<RecordResult>): (r: seq<nat>)
    ensures r <= FailedPositions(records)
    ensures |r| == if failedRecordCount < |FailedPositions(records)| then failedRecordCount else |FailedPositions(records)|
  {
    var failed := FailedPositions(records);
    if failedRecordCount < |failed| then failed[..failedRecordCount] else failed
  }

  /** Resend the batch entries at `targets` one by one, stopping at the first entry that is
      missing or has no partition key. */
  function Attempt(batch: seq<BatchEntry>, targets: seq<nat>): (r: ResendReport)
    ensures |r.resent| <= |targets|
  {
    if targets == [] then ResendReport([], Finished)
    else
      var t := targets[0];
      if t >= |batch| then ResendReport([], RaisedIndexError)
      else
        match batch[t].partitionKey
        case None => ResendReport([], RaisedKeyError)
        case Some(key) =>
          var rest := Attempt(batch, targets[1..]);
          ResendReport([Resend(t, batch[t].data, key)] + rest.resent, rest.halt)
  }

  /** The resends are a prefix of the targets, each carrying its batch entry's data and key; the
      attempt finishes when every target is resent, and otherwise halts on the first target that
      is past the batch (`IndexError`) or has no partition key (`KeyError`). */
  lemma {:induction false} AttemptMeaning(batch: seq<BatchEntry>, targets: seq<nat>)
    ensures var r := Attempt(batch, targets);
      && Indices(r.resent) == targets[..|r.resent|]
      && (forall i :: 0 <= i < |r.resent| ==>
            r.resent[i].index < |batch| && r.resent[i].data == batch[r.resent[i].index].data
            && batch[r.resent[i].index].partitionKey == Some(r.resent[i].partitionKey))
      && (r.halt == Finished <==> |r.resent| == |targets|)
      && (r.halt == RaisedIndexError <==> |r.resent| < |targets| && targets[|r.resent|] >= |batch|)
      && (r.halt == RaisedKeyError <==>
            |r.resent| < |targets| && targets[|r.resent|] < |batch| && batch[targets[|r.resent|]].partitionKey.None?)
      && r.halt != ExitedOnClientError
    decreases |targets|
  {
    if targets != [] {
      var t := targets[0];
      if t < |batch| && batch[t].partitionKey.Some? {
        var rest := Attempt(batch, targets[1..]);
        AttemptMeaning(batch, targets[1..]);
        var resent := Attempt(batch, targets).resent;
        assert resent == [Resend(t, batch[t].data, batch[t].partitionKey.value)] + rest.resent;
        assert Indices(resent) == [t] + Indices(rest.resent);
        assert targets[..|resent|] == [t] + targets[1..][..|rest.resent|];
        forall i | 0 <= i < |resent|
          ensures resent[i].index < |batch| && resent[i].data == batch[resent[i].index].data
            && batch[resent[i].index].partitionKey == Some(resent[i].partitionKey)
        {
          if i > 0 {
            assert resent[i] == rest.resent[i - 1];
          }
        }
        if |rest.resent| < |targets[1..]| {
          assert targets[|resent|] == targets[1..][|rest.resent|];
        }
      }
    }
  }

  /** Attempting two runs of targets: the second is reached only if the first finished. */
  lemma {:induction false} AttemptConcat(batch: seq<BatchEntry>, a: seq<nat>, b: seq<nat>)
    ensures Attempt(batch, a + b) ==
      if Attempt(batch, a).halt == Finished
      then ResendReport(Attempt(batch, a).resent + Attempt(batch, b).resent, Attempt(batch, b).halt)
      else Attempt(batch, a)
    decreases |a|
  {
    if a == [] {
      assert a + b == b;
    } else {
      var t := a[0];
      assert (a + b)[0] == t;
      if t < |batch| && batch[t].partitionKey.Some? {
        assert (a + b)[1..] == a[1..] + b;
        AttemptConcat(batch, a[1..], b);
        var rest := Attempt(batch, a[1..]);
        var head := [Resend(t, batch[t].data, batch[t].partitionKey.value)];
        assert Attempt(batch, a).resent == head + rest.resent;
        if rest.halt == Finished {
          assert head + (rest.resent + Attempt(batch, b).resent) == head + rest.resent + Attempt(batch, b).resent;
        }
      }
    }
  }

  /** What the block at lines 146-178 does with the batch sent and the `put_records` result. */
  function ResendPlan(batch: seq<BatchEntry>, result: PutRecordsResult): ResendReport {
    match result
    case PutRecordsClientError => ResendReport([], ExitedOnClientError)
    case PutRecordsResponse(failedRecordCount, records) => Attempt(batch, Targets(failedRecordCount, records))
  }

  /** Attempting one more target after a run of targets. */
  lemma AttemptSnoc(batch: seq<BatchEntry>, targets: seq<nat>, t: nat)
    ensures var r := Attempt(batch, targets);
      Attempt(batch, targets + [t]) ==
        if r.halt != Finished then r
        else if t >= |batch| then ResendReport(r.resent, RaisedIndexError)
        else if batch[t].partitionKey.None? then ResendReport(r.resent, RaisedKeyError)
        else ResendReport(r.resent + [Resend(t, batch[t].data, batch[t].partitionKey.value)], Finished)
  {
    assert [t][1..] == [];
    AttemptConcat(batch, targets, [t]);
  }

  /** Once a run of targets halts, longer runs halt the same way. */
  lemma AttemptHaltsEarly(batch: seq<BatchEntry>, targets: seq<nat>, longer: seq<nat>)
    requires targets <= longer && Attempt(batch, targets).halt != Finished
    ensures Attempt(batch, longer) == Attempt(batch, targets)
  {
    assert targets + longer[|targets|..] == longer;
    AttemptConcat(batch, targets, longer[|targets|..]);
  }

  /** The failed positions of a prefix holding at most `failedRecordCount` of them are targets. */
  lemma FailedPrefixIsTargetPrefix(failedRecordCount: nat, records: seq<RecordResult>, k: nat)
    requires k <= |records| && |FailedPositions(records[..k])| <= failedRecordCount
    ensures FailedPositions(records[..k]) <= Targets(failedRecordCount, records)
    ensures |FailedPositions(records[..k])| == failedRecordCount ==> Targets(failedRecordCount, records) == FailedPositions(records[..k])
  {
    FailedPositionsOfPrefix(records, k);
  }

  /** One failed record met by the loop while the counter is still positive. */
  lemma ResendStep(batch: seq<BatchEntry>, failedRecordCount: nat, records: seq<RecordResult>, k: nat, resent: seq<Resend>)
    requires k < |records| && records[k].ErrorCode?
    requires |FailedPositions(records[..k])| < failedRecordCount
    requires Attempt(batch, FailedPositions(records[..k])) == ResendReport(resent, Finished)
    ensures k < |batch| && batch[k].partitionKey.Some? ==>
      Attempt(batch, FailedPositions(records[..k + 1]))
        == ResendReport(resent + [Resend(k, batch[k].data, batch[k].partitionKey.value)], Finished)
    ensures k >= |batch| ==> Attempt(batch, Targets(failedRecordCount, records)) == ResendReport(resent, RaisedIndexError)
    ensures k < |batch| && batch[k].partitionKey.None? ==>
      Attempt(batch, Targets(failedRecordCount, records)) == ResendReport(resent, RaisedKeyError)
    ensures |FailedPositions(records[..k + 1])| == failedRecordCount ==>
      Targets(failedRecordCount, records) == FailedPositions(records[..k + 1])
  {
    FailedPositionsStep(records, k);
    AttemptSnoc(batch, FailedPositions(records[..k]), k);
    FailedPrefixIsTargetPrefix(failedRecordCount, records, k + 1);
    if k >= |batch| || batch[k].partitionKey.None? {
      AttemptHaltsEarly(batch, FailedPositions(records[..k + 1]), Targets(failedRecordCount, records));
    }
  }

  /** The loop as written: walk the records with `rec_index`, resend each one with an `ErrorCode`
      from `batch[rec_index]`, count `num_failures` down and stop when it reaches zero. */
  method ResendFailedRecords(batch: seq<BatchEntry>, result: PutRecordsResult) returns (report: ResendReport)
    ensures report == ResendPlan(batch, result)
  {
    if result.PutRecordsClientError? {
      return ResendReport([], ExitedOnClientError);
    }
    var records := result.records;
    var numFailures: int := result.failedRecordCount;
    var resent: seq<Resend> := [];
    if numFailures != 0 {
      var recIndex := 0;
      while recIndex < |records|
        invariant recIndex <= |records|
        invariant numFailures == result.failedRecordCount - |FailedPositions(records[..recIndex])| > 0
        invariant Attempt(batch, FailedPositions(records[..recIndex])) == ResendReport(resent, Finished)
      {
        FailedPositionsStep(records, recIndex);
        if records[recIndex].ErrorCode? {
          ResendStep(batch, result.failedRecordCount, records, recIndex, resent);
          if recIndex >= |batch| {
            return ResendReport(resent, RaisedIndexError);
          }
          if batch[recIndex].partitionKey.None? {
            return ResendReport(resent, RaisedKeyError);
          }
          resent := resent + [Resend(recIndex, batch[recIndex].data, batch[recIndex].partitionKey.value)];
          numFailures := numFailures - 1;
          if numFailures == 0 {
            break;
          }
        } else {
          assert FailedPositions(records[..recIndex + 1]) == FailedPositions(records[..recIndex]);
        }
        recIndex := recIndex + 1;
      }
      assert recIndex == |records| ==> records[..recIndex] == records;
    }
    return ResendReport(resent, Finished);
  }

  // ----- what the resend block promises -----

  /** A `FailedRecordCount` of zero skips the block: nothing is resent. */
  lemma NothingFailedNothingResent(batch: seq<BatchEntry>, records: seq<RecordResult>)
    ensures ResendPlan(batch, PutRecordsResponse(0, records)) == ResendReport([], Finished)
  {
    assert Targets(0, records) == [];
  }

  /** Every resend is of a record the response marks with an `ErrorCode`, in ascending record order,
      at most `FailedRecordCount` of them, each sending the data of the batch entry at that position
      under that entry's own partition key. */
  lemma ResentAreFailedRecords(batch: seq<BatchEntry>, failedRecordCount: nat, records: seq<RecordResult>)
    ensures var r := ResendPlan(batch, PutRecordsResponse(failedRecordCount, records));
      && |r.resent| <= failedRecordCount
      && Indices(r.resent) <= FailedPositions(records)
      && (forall i :: 0 <= i < |r.resent| ==>
            r.resent[i].index < |records| && records[r.resent[i].index].ErrorCode?)
      && (forall i, j :: 0 <= i < j < |r.resent| ==> r.resent[i].index < r.resent[j].index)
      && (forall i :: 0 <= i < |r.resent| ==>
            r.resent[i].index < |batch| && r.resent[i].data == batch[r.resent[i].index].data
            && batch[r.resent[i].index].partitionKey == Some(r.resent[i].partitionKey))
  {
    var targets := Targets(failedRecordCount, records);
    var r := Attempt(batch, targets);
    var failed := FailedPositions(records);
    AttemptMeaning(batch, targets);
    FailedPositionsMeaning(records);
    assert Indices(r.resent) == targets[..|r.resent|];
    assert Indices(r.resent) <= failed;
    forall i | 0 <= i < |r.resent|
      ensures r.resent[i].index == failed[i]
    {
      assert Indices(r.resent)[i] == failed[i];
    }
  }

  /** With keyed entries covering every record, a `FailedRecordCount` at least the number of
      `ErrorCode` records resends exactly those records, in order, and finishes: when the count is
      larger the scan simply ends after the last record. */
  lemma CountCoveringFailuresResendsEach(batch: seq<BatchEntry>, failedRecordCount: nat, records: seq<RecordResult>)
    requires failedRecordCount >= |FailedPositions(records)|
    requires |batch| >= |records|
    requires forall i :: 0 <= i < |batch| ==> batch[i].partitionKey.Some?
    ensures var r := ResendPlan(batch, PutRecordsResponse(failedRecordCount, records));
      r.halt == Finished && Indices(r.resent) == FailedPositions(records)
  {
    var failed := FailedPositions(records);
    var r := Attempt(batch, failed);
    AttemptMeaning(batch, failed);
    FailedPositionsMeaning(records);
    assert Targets(failedRecordCount, records) == failed;
    assert failed[..|failed|] == failed;
  }

  /** A `FailedRecordCount` below the number of `ErrorCode` records leaves the later ones alone:
      no record from the first one past the count on is resent. */
  lemma LowCountSkipsLaterFailures(batch: seq<BatchEntry>, failedRecordCount: nat, records: seq<RecordResult>)
    requires failedRecordCount < |FailedPositions(records)|
    ensures var r := ResendPlan(batch, PutRecordsResponse(failedRecordCount, records));
      forall i :: 0 <= i < |r.resent| ==> r.resent[i].index < FailedPositions(records)[failedRecordCount]
  {
    var r := ResendPlan(batch, PutRecordsResponse(failedRecordCount, records));
    var failed := FailedPositions(records);
    ResentAreFailedRecords(batch, failedRecordCount, records);
    FailedPositionsMeaning(records);
    forall i | 0 <= i < |r.resent|
      ensures r.resent[i].index < failed[failedRecordCount]
    {
      assert Indices(r.resent)[i] == failed[i];
    }
  }

  /** The batch `main` builds has no `PartitionKey`, so the block resends nothing: it finishes when
      `FailedRecordCount` is zero or no record carries an `ErrorCode`, and otherwise the first failed
      record raises `IndexError` when it lies past the batch and `KeyError` when it does not. */
  lemma UnkeyedBatchNeverResends(lines: seq<Bytes>, failedRecordCount: nat, records: seq<RecordResult>)
    ensures var r := ResendPlan(BatchFromLines(lines), PutRecordsResponse(failedRecordCount, records));
      var failed := FailedPositions(records);
      && r.resent == []
      && (r.halt == Finished <==> failedRecordCount == 0 || failed == [])
      && (r.halt == RaisedIndexError <==> failedRecordCount > 0 && failed != [] && failed[0] >= |lines|)
      && (r.halt == RaisedKeyError <==> failedRecordCount > 0 && failed != [] && failed[0] < |lines|)
  {
    var batch := BatchFromLines(lines);
    var targets := Targets(failedRecordCount, records);
    AttemptMeaning(batch, targets);
    if failedRecordCount > 0 && FailedPositions(records) != [] {
      assert targets[0] == FailedPositions(records)[0];
    }
  }
}
