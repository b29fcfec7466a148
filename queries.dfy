/**
 * The query hooks: each list query returns [] (and `getRequest` null) while
 * there is no backend actor, and each mutation fails; three of the polled
 * queries keep the length of the last result they saw and announce how many
 * new entries arrived. The actor's calls are parameters; the announcement is
 * the count a toast would show.
 */
module Queries {
  import opened Wrappers
  import opened BackendTypes
  import RequestFilters
  import DecryptionRequestsDialog

  // ---------------------------------------------------------------------
  // Guards for a missing actor
  // ---------------------------------------------------------------------

  /** A list query: the actor's answer, or [] while there is no actor. */
  function ListQuery<Actor, T>(actor: Option<Actor>, call: Actor -> seq<T>): (r: seq<T>)
    ensures actor.None? ==> r == []
    ensures actor.Some? ==> r == call(actor.value)
  {
    match actor
    case None => []
    case Some(a) => call(a)
  }

  /** `getRequest(requestId)`: the actor's answer, or null while there is no actor. */
  function GetRequest<Actor>(actor: Option<Actor>, requestId: string, call: (Actor, string) -> Option<RequestData>): (r: Option<RequestData>)
    ensures actor.None? ==> r.None?
    ensures actor.Some? ==> r == call(actor.value, requestId)
  {
    match actor
    case None => None
    case Some(a) => call(a, requestId)
  }

  const ACTOR_NOT_INITIALIZED: string := "Actor not initialized"

  /** A mutation (approve, deny, clear session, end session, export): the actor's outcome, or the error "Actor not initialized". */
  function Mutation<Actor, R>(actor: Option<Actor>, call: Actor -> Result<R, string>): (r: Result<R, string>)
    ensures actor.None? ==> r == Failure(ACTOR_NOT_INITIALIZED)
    ensures actor.Some? ==> r == call(actor.value)
  {
    match actor
    case None => Failure(ACTOR_NOT_INITIALIZED)
    case Some(a) => call(a)
  }

  /** The filter record of the re-encrypted-requests query: exactly `{reEncrypted: true}`. */
  function ReEncryptedFilters(): (f: FilterOptions)
    ensures f.Keys == {ReEncrypted} && f[ReEncrypted] == Flag(true)
  {
    map[ReEncrypted := Flag(true)]
  }

  /** It is the record the filter panel builds when "Re-encrypted" is chosen on an empty record. */
  lemma ReEncryptedFiltersFromPanel()
    ensures RequestFilters.HandleChange(ReEncrypted, map[], "true") == Success(ReEncryptedFilters())
  {
  }

  // ---------------------------------------------------------------------
  // New-item announcements
  // ---------------------------------------------------------------------

  /**
   * One run of the effect on a result: when the result is defined and longer
   * than the stored count, announce the difference; a defined result then
   * becomes the stored count. The pair is (new stored count, announcement).
   */
  function CountStep(previous: int, length: Option<nat>): (int, Option<int>) {
    var announced := if length.Some? && length.value > previous then Some(length.value - previous) else None;
    (if length.Some? then length.value else previous, announced)
  }

  /** The stored count is the length of the last defined result; an announcement says how many are new, at least one. */
  lemma CountStepMeaning(previous: int, length: Option<nat>)
    ensures length.Some? ==> CountStep(previous, length).0 == length.value
    ensures length.None? ==> CountStep(previous, length) == (previous, None)
    ensures CountStep(previous, length).1.Some? <==> length.Some? && length.value > previous
    ensures CountStep(previous, length).1.Some? ==>
      CountStep(previous, length).1.value == length.value - previous >= 1
  {
  }

  /** The decryption-request effect also needs a pending request in the new list before it announces. */
  function DecryptionStep(previous: int, data: Option<seq<DecryptionRequest>>): (int, Option<int>) {
    var length := if data.Some? then Some(|data.value|) else None;
    var (next, announced) := CountStep(previous, length);
    if announced.Some? && DecryptionRequestsDialog.PendingRequests(data.value) == [] then (next, None)
    else (next, announced)
  }

  lemma DecryptionStepMeaning(previous: int, data: Option<seq<DecryptionRequest>>)
    ensures DecryptionStep(previous, data).0 == (if data.Some? then |data.value| else previous)
    ensures DecryptionStep(previous, data).1.Some? <==>
      data.Some? && |data.value| > previous && DecryptionRequestsDialog.PendingRequests(data.value) != []
    ensures DecryptionStep(previous, data).1.Some? ==> DecryptionStep(previous, data).1.value == |data.value| - previous
  {
  }

  /** The stored count and the sum of all announcements after a run of defined results. */
  function CountRun(previous: int, lengths: seq<nat>): (int, int)
    decreases |lengths|
  {
    if lengths == [] then (previous, 0)
    else
      var (next, announced) := CountStep(previous, Some(lengths[0]));
      var (last, total) := CountRun(next, lengths[1..]);
      (last, total + (if announced.Some? then announced.value else 0))
  }

  /**
   * Over a run of results the announcements add up to at least the net growth,
   * and exactly to it when no result is shorter than the one before: no new
   * entry goes unannounced, and a list that only grows is announced exactly once per entry.
   */
  lemma {:induction false} CountRunTotal(previous: int, lengths: seq<nat>)
    requires lengths != []
    ensures CountRun(previous, lengths).0 == lengths[|lengths| - 1]
    ensures CountRun(previous, lengths).1 >= lengths[|lengths| - 1] - previous
    ensures CountRun(previous, lengths).1 >= 0
    ensures (previous <= lengths[0] && forall i :: 0 < i < |lengths| ==> lengths[i - 1] <= lengths[i]) ==>
      CountRun(previous, lengths).1 == lengths[|lengths| - 1] - previous
    decreases |lengths|
  {
    if |lengths| > 1 {
      var rest := lengths[1..];
      CountRunTotal(lengths[0], rest);
      assert rest[|rest| - 1] == lengths[|lengths| - 1];
      if previous <= lengths[0] && forall i :: 0 < i < |lengths| ==> lengths[i - 1] <= lengths[i] {
        assert forall i :: 0 < i < |rest| ==> rest[i - 1] <= rest[i] by {
          forall i | 0 < i < |rest| ensures rest[i - 1] <= rest[i] {
            assert rest[i - 1] == lengths[i] && rest[i] == lengths[i + 1];
          }
        }
        assert lengths[0] <= rest[0];
      }
    }
  }

  /** The `previousCountRef` of one polled query, starting at 0. */
  class NewItemsTracker {
    var previousCount: int

    constructor ()
      ensures previousCount == 0
    {
      previousCount := 0;
    }

    /** The effect of `useGetTlsAlerts` or `useGetReEncryptedRequests` on a new `query.data`. */
    method ObserveRequests(data: Option<seq<RequestData>>) returns (announced: Option<int>)
      modifies this
      ensures (previousCount, announced) == CountStep(old(previousCount), if data.Some? then Some(|data.value|) else None)
    {
      announced := None;
      if data.Some? && |data.value| > previousCount {
        announced := Some(|data.value| - previousCount);
      }
      if data.Some? {
        previousCount := |data.value|;
      }
    }

    /** The effect of `useGetUserDecryptionRequests` on a new `query.data`. */
    method ObserveDecryptionRequests(data: Option<seq<DecryptionRequest>>) returns (announced: Option<int>)
      modifies this
      ensures (previousCount, announced) == DecryptionStep(old(previousCount), data)
    {
      announced := None;
      if data.Some? && |data.value| > previousCount {
        var newRequests := |data.value| - previousCount;
        var pendingRequests := |DecryptionRequestsDialog.PendingRequests(data.value)|;
        if pendingRequests > 0 {
          announced := Some(newRequests);
        }
      }
      if data.Some? {
        previousCount := |data.value|;
      }
    }
  }
}
