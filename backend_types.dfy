/**
 * The records the frontend receives from and sends to the backend: a proxied
 * request, a decryption request, and the filter record with its sixteen
 * optional fields.
 */
module BackendTypes {
  import opened Wrappers

  /** The QUIC part of a request record that the views read. */
  datatype QuicData = QuicData(tlsHandshake: bool, http3Headers: seq<(string, string)>)

  /** A proxied request as the views read it (times and the security metadata shown verbatim are left out). */
  datatype RequestData = RequestData(
    url: string,
    httpMethod: string,
    protocol: string,
    responseStatus: int,
    tlsTerminated: bool,
    reEncrypted: bool,
    quicData: Option<QuicData>,
    encryptedPayloadType: Option<string>,
    requestHeaders: seq<(string, string)>,
    responseHeaders: seq<(string, string)>)

  /** A request from an external server to read the plaintext of a re-encrypted request. */
  datatype DecryptionRequest = DecryptionRequest(requestId: string, endpointServer: string, timestamp: int, status: string)

  /** The sixteen optional fields of the filter record. */
  datatype FilterField =
    | Protocol | Domain | StatusCode | TlsTerminated | ReEncrypted | Method
    | AuthenticationStatus | KeyAgreementProtocol | ProtectedDataType | EndpointInfo
    | CaCertificateStatus | EndToEndEncryption | MutualAuthentication | IntermediaryHops
    | EncryptedPayloadType | ForwardSecrecy

  /** A defined field value: a string, a boolean or a bigint. */
  datatype FilterValue = Text(text: string) | Flag(flag: bool) | Number(number: int)

  /** A filter record: a field is in the map exactly when it is defined. */
  type FilterOptions = map<FilterField, FilterValue>
}
