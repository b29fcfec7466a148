/**
 * The request-details dialog: nothing for a missing request; otherwise the
 * TLS-termination alert with its QUIC note, the re-encryption alert with its
 * payload line, the colour classes of the method, protocol and status badges
 * (the dialog's own copies of the dashboard's helpers), the QUIC section, and
 * the header lists with a separator between consecutive entries.
 */
module RequestDetailsDialog {
  import opened Wrappers
  import opened BackendTypes
  import DashboardPage

  // ---------------------------------------------------------------------
  // The dialog's own colour helpers
  // ---------------------------------------------------------------------

  /** The dialog's `getMethodColor`. */
  function MethodColor(httpMethod: string): string {
    var colors := map[
      "GET" := "bg-emerald-500/10 text-emerald-600 dark:text-emerald-400 border-emerald-500/20",
      "POST" := "bg-blue-500/10 text-blue-600 dark:text-blue-400 border-blue-500/20",
      "PUT" := "bg-amber-500/10 text-amber-600 dark:text-amber-400 border-amber-500/20",
      "DELETE" := "bg-red-500/10 text-red-600 dark:text-red-400 border-red-500/20",
      "PATCH" := "bg-purple-500/10 text-purple-600 dark:text-purple-400 border-purple-500/20"
    ];
    if httpMethod in colors && colors[httpMethod] != "" then colors[httpMethod]
    else "bg-muted text-muted-foreground border-border"
  }

  /** The dialog's `getStatusColor`. */
  function StatusColor(status: int): string {
    if status >= 200 && status < 300 then "text-emerald-600 dark:text-emerald-400"
    else if status >= 300 && status < 400 then "text-blue-600 dark:text-blue-400"
    else if status >= 400 && status < 500 then "text-amber-600 dark:text-amber-400"
    else "text-red-600 dark:text-red-400"
  }

  /** The dialog's `getProtocolColor`. */
  function ProtocolColor(protocol: string): string {
    if protocol == "HTTP/3" then "bg-violet-500/10 text-violet-600 dark:text-violet-400 border-violet-500/20"
    else if protocol == "HTTP/2" then "bg-cyan-500/10 text-cyan-600 dark:text-cyan-400 border-cyan-500/20"
    else "bg-slate-500/10 text-slate-600 dark:text-slate-400 border-slate-500/20"
  }

  /** The dialog's three helpers agree with the dashboard's on every input, so a request gets the same badges in both places. */
  lemma ColorHelpersAgree(httpMethod: string, status: int, protocol: string)
    ensures MethodColor(httpMethod) == DashboardPage.MethodColor(httpMethod)
    ensures StatusColor(status) == DashboardPage.StatusColor(status)
    ensures ProtocolColor(protocol) == DashboardPage.ProtocolColor(protocol)
  {
  }

  // ---------------------------------------------------------------------
  // Header lists
  // ---------------------------------------------------------------------

  /** One entry of a header list: its name, its value, and whether a separator follows it. */
  datatype HeaderRow = HeaderRow(name: string, value: string, separatorAfter: bool)

  /** The entries of `headers.map(([key, value], index) => ...)`: a separator after every entry but the last. */
  function HeaderRows(headers: seq<(string, string)>): (rows: seq<HeaderRow>)
    ensures |rows| == |headers|
    ensures forall i :: 0 <= i < |rows| ==>
      rows[i].name == headers[i].0 && rows[i].value == headers[i].1 && (rows[i].separatorAfter <==> i < |headers| - 1)
  {
    seq(|headers|, i requires 0 <= i < |headers| => HeaderRow(headers[i].0, headers[i].1, i < |headers| - 1))
  }

  /** How many separators a list of entries draws. */
  function SeparatorCount(rows: seq<HeaderRow>): nat {
    if rows == [] then 0 else (if rows[0].separatorAfter then 1 else 0) + SeparatorCount(rows[1..])
  }

  /** A list of n > 0 headers draws n - 1 separators: one between each pair of neighbours, none after the last. */
  lemma {:induction false} HeaderSeparators(headers: seq<(string, string)>)
    requires headers != []
    ensures SeparatorCount(HeaderRows(headers)) == |headers| - 1
    ensures !HeaderRows(headers)[|headers| - 1].separatorAfter
  {
    SeparatorsBeforeLast(HeaderRows(headers));
  }

  /** Entries whose separator flag is set exactly before the last entry have one separator fewer than entries. */
  lemma {:induction false} SeparatorsBeforeLast(rows: seq<HeaderRow>)
    requires rows != []
    requires forall i :: 0 <= i < |rows| ==> (rows[i].separatorAfter <==> i < |rows| - 1)
    ensures SeparatorCount(rows) == |rows| - 1
  {
    if |rows| > 1 {
      var rest := rows[1..];
      assert forall i :: 0 <= i < |rest| ==> rest[i] == rows[i + 1];
      SeparatorsBeforeLast(rest);
    } else {
      assert rows[1..] == [];
    }
  }

  /** A header section: the placeholder sentence for an empty list, the entries otherwise. */
  datatype HeaderSection = Placeholder(text: string) | Rows(rows: seq<HeaderRow>)

  function Section(headers: seq<(string, string)>, placeholder: string): (s: HeaderSection)
    ensures s.Placeholder? <==> headers == []
    ensures s.Placeholder? ==> s.text == placeholder
    ensures s.Rows? ==> s.rows == HeaderRows(headers) && |s.rows| == |headers| > 0
  {
    if |headers| == 0 then Placeholder(placeholder) else Rows(HeaderRows(headers))
  }

  // ---------------------------------------------------------------------
  // The dialog
  // ---------------------------------------------------------------------

  /** What the dialog shows for a request. */
  datatype DetailsView = DetailsView(
    tlsAlert: bool,
    quicNote: bool,
    reEncryptedAlert: bool,
    encryptionLine: Option<string>,
    methodClass: string,
    protocolClass: string,
    networkIcon: bool,
    statusClass: string,
    quicSection: bool,
    http3Headers: Option<seq<HeaderRow>>,
    requestHeaders: HeaderSection,
    responseHeaders: HeaderSection)

  /** `RequestDetailsDialog({request})`: nothing for a null request. */
  function Details(request: Option<RequestData>): (v: Option<DetailsView>)
    ensures v.None? <==> request.None?
    ensures v.Some? ==> var r := request.value; var d := v.value;
      d.tlsAlert == r.tlsTerminated
      && (d.quicNote <==> r.tlsTerminated && r.protocol == "HTTP/3" && r.quicData.Some? && !r.quicData.value.tlsHandshake)
      && d.reEncryptedAlert == r.reEncrypted
      && (d.encryptionLine.Some? <==> r.reEncrypted && r.encryptedPayloadType.Some? && r.encryptedPayloadType.value != "")
      && (d.encryptionLine.Some? ==> d.encryptionLine == r.encryptedPayloadType)
      && d.methodClass == DashboardPage.MethodColor(r.httpMethod)
      && d.protocolClass == DashboardPage.ProtocolColor(r.protocol)
      && d.statusClass == DashboardPage.StatusColor(r.responseStatus)
      && (d.networkIcon <==> r.protocol == "HTTP/3")
      && (d.quicSection <==> r.quicData.Some?)
      && (d.http3Headers.Some? <==> r.quicData.Some? && r.quicData.value.http3Headers != [])
      && (d.http3Headers.Some? ==> d.http3Headers.value == HeaderRows(r.quicData.value.http3Headers))
      && (d.requestHeaders.Placeholder? <==> r.requestHeaders == [])
      && (d.responseHeaders.Placeholder? <==> r.responseHeaders == [])
  {
    match request
    case None => None
    case Some(r) =>
      ColorHelpersAgree(r.httpMethod, r.responseStatus, r.protocol);
      var quicNote := r.protocol == "HTTP/3" && r.quicData.Some? && !r.quicData.value.tlsHandshake;
      var payload := r.encryptedPayloadType.Some? && r.encryptedPayloadType.value != "";
      Some(DetailsView(
        r.tlsTerminated,
        r.tlsTerminated && quicNote,
        r.reEncrypted,
        if r.reEncrypted && payload then r.encryptedPayloadType else None,
        MethodColor(r.httpMethod),
        ProtocolColor(r.protocol),
        r.protocol == "HTTP/3",
        StatusColor(r.responseStatus),
        r.quicData.Some?,
        if r.quicData.Some? && |r.quicData.value.http3Headers| > 0 then Some(HeaderRows(r.quicData.value.http3Headers)) else None,
        Section(r.requestHeaders, "No request headers"),
        Section(r.responseHeaders, "No response headers")))
  }

  /** The QUIC note sits inside the TLS alert: it never shows without it. */
  lemma QuicNoteInsideTlsAlert(r: RequestData)
    ensures Details(Some(r)).value.quicNote ==> Details(Some(r)).value.tlsAlert
    ensures !r.tlsTerminated ==> !Details(Some(r)).value.quicNote
  {
  }
}
