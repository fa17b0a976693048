/** The zero-crossing analytic over an ECG record: one count per lead, in
    lead order, or a failure as soon as one lead's signal cannot be counted. */
module Operations {
  import opened Wrappers
  import opened Models
  import opened SignalCodec
  import opened ZeroCrossing

  /** Why a lead cannot be counted: it has no signal, or its signal text
      does not decode to a list of numbers. */
  datatype CountError = SignalMissing | SignalRejected(reason: SignalError)

  /** One entry of the result: `zero_crossing_count` and `lead_name`. */
  datatype LeadCount = LeadCount(zeroCrossingCount: nat, leadName: Option<string>)

  /** The count of one signal text: decode it, then count the adjacent
      pairs of samples that cross zero. */
  function SignalZeroCrossing(signal: Option<string>): (r: Result<nat, CountError>)
    ensures r.Ok? <==> signal.Some? && IsNumberList(signal.value)
    ensures r.Ok? ==> r.value == |CrossingIndices(Decode(signal.value).value)|
    ensures signal.None? ==> r == Err(SignalMissing)
    ensures signal.Some? && r.Err? ==> r.error == SignalRejected(Decode(signal.value).error)
  {
    match signal
    case None => Err(SignalMissing)
    case Some(text) =>
      match Decode(text)
      case Err(e) => Err(SignalRejected(e))
      case Ok(samples) =>
        CountIsCrossings(samples);
        Ok(Count(samples))
  }

  /** How a lead's signal is counted: `SignalZeroCrossing` in the system,
      any function of the signal when the batch is read on its own. */
  type Counter = Option<string> -> Result<nat, CountError>

  /** The entry the batch builds for a lead it could count. */
  function Entry(lead: Lead, count: Counter): LeadCount
    requires count(lead.signal).Ok?
  {
    LeadCount(count(lead.signal).value, lead.name)
  }

  /** Lead `k` is the first lead that cannot be counted. */
  predicate FailsFirstAt(leads: seq<Lead>, count: Counter, k: int) {
    0 <= k < |leads| && count(leads[k].signal).Err?
    && forall j | 0 <= j < k :: count(leads[j].signal).Ok?
  }

  /** The batch over a list of leads, spelled out lead by lead from the back.
      Either every lead is counted, in order and with its name, or the batch
      fails with the error of the first lead that cannot be counted. */
  function Counts(leads: seq<Lead>, count: Counter): (r: Result<seq<LeadCount>, CountError>)
    ensures r.Ok? <==> forall k | 0 <= k < |leads| :: count(leads[k].signal).Ok?
    ensures r.Ok? ==> |r.value| == |leads| && forall k | 0 <= k < |leads| :: r.value[k] == Entry(leads[k], count)
  {
    if leads == [] then Ok([])
    else
      var init := leads[..|leads| - 1];
      var last := leads[|leads| - 1];
      assert forall k | 0 <= k < |init| :: init[k] == leads[k];
      match Counts(init, count)
      case Err(e) => Err(e)
      case Ok(entries) =>
        match count(last.signal)
        case Err(e) => Err(e)
        case Ok(c) => Ok(entries + [LeadCount(c, last.name)])
  }

  /** A failed batch carries the error of the first lead that cannot be counted. */
  lemma {:induction false} FirstFailure(leads: seq<Lead>, count: Counter)
    requires Counts(leads, count).Err?
    ensures exists k :: FailsFirstAt(leads, count, k) && count(leads[k].signal) == Err(Counts(leads, count).error)
  {
    var init := leads[..|leads| - 1];
    assert forall k | 0 <= k < |init| :: init[k] == leads[k];
    if Counts(init, count).Err? {
      FirstFailure(init, count);
      var k :| FailsFirstAt(init, count, k) && count(init[k].signal) == Err(Counts(init, count).error);
      assert FailsFirstAt(leads, count, k);
    } else {
      assert FailsFirstAt(leads, count, |leads| - 1);
    }
  }

  /** Once a prefix of the leads fails, the whole batch fails the same way. */
  lemma {:induction false} FailurePersists(leads: seq<Lead>, count: Counter, i: nat)
    requires i <= |leads|
    requires Counts(leads[..i], count).Err?
    ensures Counts(leads, count) == Counts(leads[..i], count)
    decreases |leads| - i
  {
    if i == |leads| {
      assert leads[..i] == leads;
    } else {
      assert leads[..i + 1][..i] == leads[..i];
      FailurePersists(leads, count, i + 1);
    }
  }

  /** `get_zero_crossing_count`: walks the record's leads in order and
      appends one entry per lead; the first lead that cannot be counted
      ends the walk with its error and no partial list. */
  method GetZeroCrossingCount(record: Ecg) returns (r: Result<seq<LeadCount>, CountError>)
    ensures r == Counts(record.leads, SignalZeroCrossing)
  {
    var leads := record.leads;
    var response: seq<LeadCount> := [];
    var i := 0;
    while i < |leads|
      invariant 0 <= i <= |leads|
      invariant Counts(leads[..i], SignalZeroCrossing) == Ok(response)
    {
      var count := SignalZeroCrossing(leads[i].signal);
      assert leads[..i + 1][..i] == leads[..i];
      if count.Err? {
        FailurePersists(leads, SignalZeroCrossing, i + 1);
        return Err(count.error);
      }
      response := response + [LeadCount(count.value, leads[i].name)];
      i := i + 1;
    }
    assert leads[..i] == leads;
    return Ok(response);
  }

  /** Either outcome of the batch depends only on the leads' signals and
      names, never on the number of samples a lead declares. */
  lemma {:induction false} DeclaredSizeIgnored(leads: seq<Lead>, sizes: seq<Option<int>>, count: Counter)
    requires |sizes| == |leads|
    ensures Counts(WithSizes(leads, sizes), count) == Counts(leads, count)
    decreases |leads|
  {
    if leads != [] {
      var n := |leads| - 1;
      assert WithSizes(leads, sizes)[..n] == WithSizes(leads[..n], sizes[..n]);
      DeclaredSizeIgnored(leads[..n], sizes[..n], count);
    }
  }

  /** The leads with their `num_samples` replaced. */
  function WithSizes(leads: seq<Lead>, sizes: seq<Option<int>>): (r: seq<Lead>)
    requires |sizes| == |leads|
    ensures |r| == |leads|
    ensures forall k | 0 <= k < |r| :: r[k] == leads[k].(numSamples := sizes[k])
  {
    seq(|leads|, k requires 0 <= k < |leads| => leads[k].(numSamples := sizes[k]))
  }

  /** The batch test of the operations: with the per-lead count standing in
      for 3 and 4, the result lists both leads in order with their names. */
  lemma BatchWithStandIn(count: Counter)
    requires count(Some("[1, 2, 3, -4, 2, -6]")) == Ok(3)
    requires count(Some("[3, 2, 1, -1, -2, -3]")) == Ok(4)
    ensures Counts([Lead(Some("I"), None, Some("[1, 2, 3, -4, 2, -6]")),
                    Lead(Some("II"), None, Some("[3, 2, 1, -1, -2, -3]"))], count)
         == Ok([LeadCount(3, Some("I")), LeadCount(4, Some("II"))])
  {
    var leads := [Lead(Some("I"), None, Some("[1, 2, 3, -4, 2, -6]")),
                  Lead(Some("II"), None, Some("[3, 2, 1, -1, -2, -3]"))];
    var r := Counts(leads, count);
    assert count(leads[0].signal).Ok? && count(leads[1].signal).Ok?;
    assert r.value[0] == Entry(leads[0], count) == LeadCount(3, Some("I"));
    assert r.value[1] == Entry(leads[1], count) == LeadCount(4, Some("II"));
    assert r.value == [LeadCount(3, Some("I")), LeadCount(4, Some("II"))];
  }

  /** The signal of the operations tests, `[1, 2, 3, -4, 2, -6]`, crosses
      zero three times. */
  lemma TestSignalCount(signal: string)
    requires signal == "[1, 2, 3, -4, 2, -6]"
    ensures SignalZeroCrossing(Some(signal)) == Ok(3)
  {
    IntegerSignalDecodes(signal);
    ExampleCount();
  }
}
