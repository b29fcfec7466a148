/**
 * The decryption-requests dialog: the list split into pending requests and
 * the history of processed ones, the status badges, the count on the
 * trigger button, and which of loading, empty and list the dialog shows.
 */
module DecryptionRequestsDialog {
  import opened Wrappers
  import opened BackendTypes
  import opened JsText

  predicate IsPending(r: DecryptionRequest) { r.status == "pending" }

  /** `requests.filter(req => req.status === 'pending')`. */
  function PendingRequests(rs: seq<DecryptionRequest>): (p: seq<DecryptionRequest>)
    ensures forall i :: 0 <= i < |p| ==> IsPending(p[i])
    ensures |p| <= |rs|
  {
    if rs == [] then []
    else if IsPending(rs[0]) then [rs[0]] + PendingRequests(rs[1..])
    else PendingRequests(rs[1..])
  }

  /** `requests.filter(req => req.status !== 'pending')`. */
  function ProcessedRequests(rs: seq<DecryptionRequest>): (p: seq<DecryptionRequest>)
    ensures forall i :: 0 <= i < |p| ==> !IsPending(p[i])
    ensures |p| <= |rs|
  {
    if rs == [] then []
    else if IsPending(rs[0]) then ProcessedRequests(rs[1..])
    else [rs[0]] + ProcessedRequests(rs[1..])
  }

  /** The two lists share out the requests: together they hold every request exactly as often as the input. */
  lemma {:induction false} PartitionCounts(rs: seq<DecryptionRequest>)
    ensures |PendingRequests(rs)| + |ProcessedRequests(rs)| == |rs|
    ensures multiset(PendingRequests(rs)) + multiset(ProcessedRequests(rs)) == multiset(rs)
  {
    if rs != [] {
      PartitionCounts(rs[1..]);
      assert rs == [rs[0]] + rs[1..];
    }
  }

  /** Each request lands in exactly one of the two lists, according to its status. */
  lemma PartitionMembership(rs: seq<DecryptionRequest>, r: DecryptionRequest)
    ensures r in PendingRequests(rs) <==> r in rs && IsPending(r)
    ensures r in ProcessedRequests(rs) <==> r in rs && !IsPending(r)
  {
    PartitionCounts(rs);
    assert r in rs <==> r in multiset(rs);
  }

  /** Filtering keeps the input order: filtering a concatenation is the concatenation of the filtered parts. */
  lemma {:induction false} PendingConcat(a: seq<DecryptionRequest>, b: seq<DecryptionRequest>)
    ensures PendingRequests(a + b) == PendingRequests(a) + PendingRequests(b)
    ensures ProcessedRequests(a + b) == ProcessedRequests(a) + ProcessedRequests(b)
  {
    if a != [] {
      PendingConcat(a[1..], b);
      assert (a + b)[1..] == a[1..] + b;
    } else {
      assert a + b == b;
    }
  }

  /** The text of `getStatusBadge(status)`: the four known statuses capitalised, any other shown as it is. */
  function StatusLabel(status: string): string {
    match status
    case "pending" => "Pending"
    case "approved" => "Approved"
    case "denied" => "Denied"
    case "retrieved" => "Retrieved"
    case _ => status
  }

  /** A known status is shown capitalised (lower-casing the label gives the status back); any other status is shown as it is. */
  lemma StatusLabelMeaning(status: string)
    ensures status in KNOWN_STATUSES ==> StatusLabel(status) != status && ToLower(StatusLabel(status)) == status
    ensures status !in KNOWN_STATUSES ==> StatusLabel(status) == status
  {
    if status in KNOWN_STATUSES {
      var l := StatusLabel(status);
      assert l[0] != status[0];
      forall i | 0 <= i < |l| ensures ToLower(l)[i] == status[i] {
        assert ToLower(l)[i] == LowerChar(l[i]);
      }
    }
  }

  /** The statuses the backend uses. */
  const KNOWN_STATUSES: set<string> := {"pending", "approved", "denied", "retrieved"}

  /** The count on the trigger button: shown only when something is pending, and then the number pending. */
  function TriggerBadge(rs: seq<DecryptionRequest>): (count: Option<nat>)
    ensures count.Some? <==> exists i :: 0 <= i < |rs| && IsPending(rs[i])
    ensures count.Some? ==> count.value == |PendingRequests(rs)| && count.value > 0
  {
    PendingNonEmpty(rs);
    var n := |PendingRequests(rs)|;
    if n > 0 then Some(n) else None
  }

  /** There is a pending request exactly when the pending list is not empty. */
  lemma {:induction false} PendingNonEmpty(rs: seq<DecryptionRequest>)
    ensures PendingRequests(rs) != [] <==> exists i :: 0 <= i < |rs| && IsPending(rs[i])
  {
    if rs != [] {
      PendingNonEmpty(rs[1..]);
      if !IsPending(rs[0]) && exists i :: 0 <= i < |rs| && IsPending(rs[i]) {
        var i :| 0 <= i < |rs| && IsPending(rs[i]);
        assert rs[1..][i - 1] == rs[i];
      }
    }
  }

  /** Whether the Approve and the Deny button of a pending request's card are disabled. */
  datatype CardButtons = CardButtons(approveDisabled: bool, denyDisabled: bool)

  /** The buttons of a card: both are disabled while either mutation is in flight, so neither can start a second one. */
  function Buttons(isApproving: bool, isDenying: bool): (b: CardButtons)
    ensures b.approveDisabled == b.denyDisabled
    ensures isApproving || isDenying ==> b.approveDisabled && b.denyDisabled
    ensures !isApproving && !isDenying ==> !b.approveDisabled && !b.denyDisabled
  {
    var disabled := isApproving || isDenying;
    CardButtons(disabled, disabled)
  }

  /** What the body of the dialog shows. */
  datatype DialogBody =
    | Loading
    | Empty
    | Lists(pending: seq<DecryptionRequest>, processed: seq<DecryptionRequest>, separated: bool)

  /** The body: loading first, then the empty message, then the pending list, a separator when both lists show, and the history. */
  function Body(isLoading: bool, rs: seq<DecryptionRequest>): (b: DialogBody)
    ensures isLoading ==> b == Loading
    ensures !isLoading && rs == [] ==> b == Empty
    ensures !isLoading && rs != [] ==>
      b == Lists(PendingRequests(rs), ProcessedRequests(rs), PendingRequests(rs) != [] && ProcessedRequests(rs) != [])
    ensures b.Lists? ==> b.pending + b.processed != [] && |b.pending| + |b.processed| == |rs|
    ensures b.Lists? ==> (b.separated <==> b.pending != [] && b.processed != [])
  {
    PartitionCounts(rs);
    if isLoading then Loading
    else if rs == [] then Empty
    else
      var pending := PendingRequests(rs);
      var processed := ProcessedRequests(rs);
      Lists(pending, processed, pending != [] && processed != [])
  }

  /** The alert's wording: "request" for one pending request, "requests" for more. */
  function PendingAlertNoun(pendingCount: nat): (noun: string)
    ensures |noun| >= 7 && noun[..7] == "request"
    ensures noun[|noun| - 1] == 's' <==> pendingCount > 1
  {
    if pendingCount > 1 then "requests" else "request"
  }
}
