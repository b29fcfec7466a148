/**
 * The dashboard page: the colour classes of the request list, the short form
 * of the user's principal, which request list is shown, the alerts at the
 * top, the empty-list message, and when Export is disabled.
 */
module DashboardPage {
  import opened Wrappers
  import opened JsText
  import opened BackendTypes
  import RequestFilters
  import DecryptionRequestsDialog

  // ---------------------------------------------------------------------
  // Colour classes
  // ---------------------------------------------------------------------

  const GREEN_TEXT: string := "text-emerald-600 dark:text-emerald-400"
  const BLUE_TEXT: string := "text-blue-600 dark:text-blue-400"
  const AMBER_TEXT: string := "text-amber-600 dark:text-amber-400"
  const RED_TEXT: string := "text-red-600 dark:text-red-400"

  /** `getStatusColor(status)`. */
  function StatusColor(status: int): string {
    if 200 <= status < 300 then GREEN_TEXT
    else if 300 <= status < 400 then BLUE_TEXT
    else if 400 <= status < 500 then AMBER_TEXT
    else RED_TEXT
  }

  /** The colour of each status class of section 15 of RFC 9110, by the first digit of the code. */
  function ClassColor(firstDigit: int): string {
    if firstDigit == 2 then GREEN_TEXT
    else if firstDigit == 3 then BLUE_TEXT
    else if firstDigit == 4 then AMBER_TEXT
    else RED_TEXT
  }

  /**
   * For every status code of section 15 of RFC 9110 (100 to 599) the colour
   * depends on its class only: successful, redirection and client error each
   * have their own colour; informational and server error share red with
   * every code outside the range.
   */
  lemma StatusColorByClass(status: int)
    ensures 100 <= status < 600 ==> StatusColor(status) == ClassColor(status / 100)
    ensures !(200 <= status < 500) <==> StatusColor(status) == RED_TEXT
  {
  }

  /** The three non-red colours differ from each other and from red. */
  lemma StatusColorsDistinct()
    ensures GREEN_TEXT != BLUE_TEXT && GREEN_TEXT != AMBER_TEXT && GREEN_TEXT != RED_TEXT
    ensures BLUE_TEXT != AMBER_TEXT && BLUE_TEXT != RED_TEXT && AMBER_TEXT != RED_TEXT
  {
    assert GREEN_TEXT[5] != BLUE_TEXT[5] && GREEN_TEXT[5] != AMBER_TEXT[5] && GREEN_TEXT[5] != RED_TEXT[5];
    assert BLUE_TEXT[5] != AMBER_TEXT[5] && BLUE_TEXT[5] != RED_TEXT[5] && AMBER_TEXT[5] != RED_TEXT[5];
  }

  const METHOD_DEFAULT: string := "bg-muted text-muted-foreground border-border"

  /** The class table of `getMethodColor`. */
  const METHOD_COLORS: map<string, string> := map[
    "GET" := "bg-emerald-500/10 text-emerald-600 dark:text-emerald-400 border-emerald-500/20",
    "POST" := "bg-blue-500/10 text-blue-600 dark:text-blue-400 border-blue-500/20",
    "PUT" := "bg-amber-500/10 text-amber-600 dark:text-amber-400 border-amber-500/20",
    "DELETE" := "bg-red-500/10 text-red-600 dark:text-red-400 border-red-500/20",
    "PATCH" := "bg-purple-500/10 text-purple-600 dark:text-purple-400 border-purple-500/20"
  ]

  /** `getMethodColor(method)`: the table entry, or the muted default for any method not in the table. */
  function MethodColor(httpMethod: string): (c: string)
    ensures httpMethod in METHOD_COLORS ==> c == METHOD_COLORS[httpMethod] && c != METHOD_DEFAULT
    ensures httpMethod !in METHOD_COLORS ==> c == METHOD_DEFAULT
  {
    if httpMethod in METHOD_COLORS && METHOD_COLORS[httpMethod] != "" then METHOD_COLORS[httpMethod] else METHOD_DEFAULT
  }

  /** Only the five methods of the table get their own colour; HEAD, OPTIONS and lower-case spellings get the default. */
  lemma MethodColorTable(httpMethod: string)
    ensures MethodColor(httpMethod) != METHOD_DEFAULT <==> httpMethod in {"GET", "POST", "PUT", "DELETE", "PATCH"}
  {
  }

  const VIOLET_BADGE: string := "bg-violet-500/10 text-violet-600 dark:text-violet-400 border-violet-500/20"
  const CYAN_BADGE: string := "bg-cyan-500/10 text-cyan-600 dark:text-cyan-400 border-cyan-500/20"
  const SLATE_BADGE: string := "bg-slate-500/10 text-slate-600 dark:text-slate-400 border-slate-500/20"

  /** `getProtocolColor(protocol)`: violet for exactly "HTTP/3", cyan for exactly "HTTP/2", slate for anything else. */
  function ProtocolColor(protocol: string): (c: string)
    ensures c == VIOLET_BADGE <==> protocol == "HTTP/3"
    ensures c == CYAN_BADGE <==> protocol == "HTTP/2"
    ensures c == SLATE_BADGE <==> protocol != "HTTP/3" && protocol != "HTTP/2"
  {
    assert |VIOLET_BADGE| != |CYAN_BADGE| && |VIOLET_BADGE| != |SLATE_BADGE| && |CYAN_BADGE| != |SLATE_BADGE|;
    if protocol == "HTTP/3" then VIOLET_BADGE
    else if protocol == "HTTP/2" then CYAN_BADGE
    else SLATE_BADGE
  }

  // ---------------------------------------------------------------------
  // The principal in the header
  // ---------------------------------------------------------------------

  /** `shortPrincipal`: the first 8 characters, "...", the last 6; empty for an empty principal. */
  function ShortPrincipal(principal: string): string {
    if principal == [] then "" else SliceHead(principal, 8) + "..." + SliceTail(principal, 6)
  }

  /** The short form is empty exactly for an empty principal; otherwise it begins with the principal's first characters and ends with its last ones. */
  lemma ShortPrincipalShape(principal: string)
    ensures ShortPrincipal(principal) == "" <==> principal == ""
    ensures principal != "" ==>
      var s := ShortPrincipal(principal);
      var h := if |principal| < 8 then |principal| else 8;
      var t := if |principal| < 6 then |principal| else 6;
      |s| == h + 3 + t && s[..h] == principal[..h] && s[h..h + 3] == "..." && s[h + 3..] == principal[|principal| - t..]
  {
    if principal != "" {
      var s := ShortPrincipal(principal);
      var head := SliceHead(principal, 8);
      var tail := SliceTail(principal, 6);
      assert s == head + "..." + tail;
      assert s[..|head|] == head;
      assert s[|head|..|head| + 3] == "...";
      assert s[|head| + 3..] == tail;
    }
  }

  /** A principal of 14 characters or more is shortened to 17 characters. */
  lemma ShortPrincipalLength(principal: string)
    requires |principal| >= 14
    ensures |ShortPrincipal(principal)| == 17
    ensures ShortPrincipal(principal) == principal[..8] + "..." + principal[|principal| - 6..]
  {
  }

  // ---------------------------------------------------------------------
  // What the page shows
  // ---------------------------------------------------------------------

  /** `requests`: the filtered list while any filter is defined, else the full list. */
  function DisplayedRequests(filters: FilterOptions, filtered: seq<RequestData>, all: seq<RequestData>): (r: seq<RequestData>)
    ensures filters == map[] ==> r == all
    ensures RequestFilters.ActiveFilterCount(filters) > 0 ==> r == filtered
  {
    RequestFilters.ActiveIffCount(filters);
    if RequestFilters.HasActiveFilters(filters) then filtered else all
  }

  /** Export is disabled while an export runs and while there is nothing to export. */
  function ExportDisabled(exportPending: bool, allRequests: seq<RequestData>): (disabled: bool)
    ensures !disabled ==> !exportPending && |allRequests| > 0
    ensures exportPending || allRequests == [] ==> disabled
  {
    exportPending || |allRequests| == 0
  }

  /** The request card of the list. */
  datatype RequestList =
    | LoadingRequests
    | NoRequests(title: string, hint: string)
    | Requests(shown: seq<RequestData>)

  /** The list area: loading first, then the empty message (which mentions filters exactly when some are active), then the list. */
  function ListView(isLoading: bool, filters: FilterOptions, filtered: seq<RequestData>, all: seq<RequestData>): (v: RequestList)
    ensures isLoading ==> v == LoadingRequests
    ensures !isLoading ==> v != LoadingRequests
    ensures !isLoading ==> (v.Requests? <==> DisplayedRequests(filters, filtered, all) != [])
    ensures v.Requests? ==> v.shown == DisplayedRequests(filters, filtered, all) && v.shown != []
    ensures v.NoRequests? ==> DisplayedRequests(filters, filtered, all) == []
    ensures v.NoRequests? ==> (v.title == "No requests match your filters" <==> RequestFilters.HasActiveFilters(filters))
    ensures v.NoRequests? && RequestFilters.HasActiveFilters(filters) ==> v.hint == "Try adjusting your filter criteria"
    ensures v.NoRequests? && !RequestFilters.HasActiveFilters(filters) ==>
      v.title == "No requests yet" && v.hint == "Requests will appear here as they are proxied"
  {
    var requests := DisplayedRequests(filters, filtered, all);
    var active := RequestFilters.HasActiveFilters(filters);
    if isLoading then LoadingRequests
    else if requests == [] then
      NoRequests(if active then "No requests match your filters" else "No requests yet",
                 if active then "Try adjusting your filter criteria" else "Requests will appear here as they are proxied")
    else Requests(requests)
  }

  /** The alerts above the statistics: pending decryption requests, and TLS termination with an optional re-encryption note. */
  datatype Alerts = Alerts(pendingAlert: Option<nat>, tlsAlert: Option<nat>, reEncryptedNote: Option<nat>)

  function PageAlerts(decryptionRequests: seq<DecryptionRequest>, tlsAlerts: seq<RequestData>, reEncrypted: seq<RequestData>): (a: Alerts)
    ensures a.pendingAlert.Some? <==> DecryptionRequestsDialog.PendingRequests(decryptionRequests) != []
    ensures a.pendingAlert.Some? ==> a.pendingAlert.value == |DecryptionRequestsDialog.PendingRequests(decryptionRequests)|
    ensures a.tlsAlert.Some? <==> tlsAlerts != []
    ensures a.tlsAlert.Some? ==> a.tlsAlert.value == |tlsAlerts|
    ensures a.reEncryptedNote.Some? ==> a.tlsAlert.Some?
    ensures a.reEncryptedNote.Some? <==> tlsAlerts != [] && reEncrypted != []
    ensures a.reEncryptedNote.Some? ==> a.reEncryptedNote.value == |reEncrypted|
  {
    var pending := |DecryptionRequestsDialog.PendingRequests(decryptionRequests)|;
    Alerts(
      if pending > 0 then Some(pending) else None,
      if |tlsAlerts| > 0 then Some(|tlsAlerts|) else None,
      if |tlsAlerts| > 0 && |reEncrypted| > 0 then Some(|reEncrypted|) else None)
  }

  /** Re-encrypted requests are never mentioned while no TLS alert is listed. */
  lemma ReEncryptedNoteNeedsTlsAlert(decryptionRequests: seq<DecryptionRequest>, reEncrypted: seq<RequestData>)
    requires reEncrypted != []
    ensures PageAlerts(decryptionRequests, [], reEncrypted).reEncryptedNote.None?
  {
  }
}
