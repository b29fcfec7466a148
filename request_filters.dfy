/**
 * The filter panel: sixteen change handlers, each of which replaces the
 * local filter record by one with a single field removed or set; "Apply"
 * hands the local record to the page and "Clear" empties both records.
 */
module RequestFilters {
  import opened Wrappers
  import opened JsText
  import opened BackendTypes

  /** How a field is edited: a select (with an "all" option) of strings, booleans or numbers, or a free text input of strings or numbers. */
  datatype FieldKind = TextSelect | FlagSelect | NumberSelect | TextInput | NumberInput

  function Kind(field: FilterField): FieldKind {
    match field
    case Protocol => TextSelect
    case Domain => TextInput
    case StatusCode => NumberSelect
    case TlsTerminated => FlagSelect
    case ReEncrypted => FlagSelect
    case Method => TextSelect
    case AuthenticationStatus => TextSelect
    case KeyAgreementProtocol => TextSelect
    case ProtectedDataType => TextSelect
    case EndpointInfo => TextInput
    case CaCertificateStatus => TextSelect
    case EndToEndEncryption => FlagSelect
    case MutualAuthentication => FlagSelect
    case IntermediaryHops => NumberInput
    case EncryptedPayloadType => TextSelect
    case ForwardSecrecy => FlagSelect
  }

  predicate IsSelect(k: FieldKind) { k == TextSelect || k == FlagSelect || k == NumberSelect }

  /** The value type the backend declares for a field of this kind. */
  predicate HasKindType(k: FieldKind, v: FilterValue) {
    match k
    case TextSelect => v.Text?
    case TextInput => v.Text?
    case FlagSelect => v.Flag?
    case NumberSelect => v.Number?
    case NumberInput => v.Number?
  }

  /** Every defined field holds a value of its declared type. */
  predicate WellTyped(f: FilterOptions) {
    forall field | field in f :: HasKindType(Kind(field), f[field])
  }

  /** Whether the handler of a field removes it for this input: "all" in a select, blank text in an input. */
  predicate Clears(field: FilterField, value: string) {
    if IsSelect(Kind(field)) then value == "all" else Trim(value) == ""
  }

  /**
   * The `handle*Change(value)` handler of `field`, applied to `local`: the new
   * local record, or the SyntaxError that `BigInt(value)` throws (and then the
   * local record stays as it was).
   */
  function HandleChange(field: FilterField, local: FilterOptions, value: string): Result<FilterOptions, SyntaxError> {
    if Clears(field, value) then Success(local - {field})
    else
      match Kind(field)
      case FlagSelect => Success(local[field := Flag(value == "true")])
      case NumberSelect | NumberInput =>
        (match ParseBigInt(value)
         case Success(n) => Success(local[field := Number(n)])
         case Failure(e) => Failure(e))
      case _ => Success(local[field := Text(value)])
  }

  /** A handler touches its own field only: every other field keeps its presence and its value. */
  lemma HandleChangeLocal(field: FilterField, local: FilterOptions, value: string, other: FilterField)
    requires other != field
    requires HandleChange(field, local, value).Success?
    ensures var f := HandleChange(field, local, value).value;
      (other in f <==> other in local) && (other in local ==> f[other] == local[other])
  {
  }

  /** "all" in a select, or blank text in an input, removes exactly the handler's field. */
  lemma HandleChangeClears(field: FilterField, local: FilterOptions, value: string)
    requires Clears(field, value)
    ensures HandleChange(field, local, value) == Success(local - {field})
    ensures field !in HandleChange(field, local, value).value
  {
  }

  /** Any other input defines the field: strings as given (not trimmed), booleans as `value == "true"`, numbers as parsed. */
  lemma HandleChangeSets(field: FilterField, local: FilterOptions, value: string)
    requires !Clears(field, value)
    ensures var r := HandleChange(field, local, value);
      match Kind(field)
      case TextSelect => r == Success(local[field := Text(value)])
      case TextInput => r == Success(local[field := Text(value)])
      case FlagSelect => r == Success(local[field := Flag(value == "true")])
      case NumberSelect =>
        (ParseBigInt(value).Success? ==> r == Success(local[field := Number(ParseBigInt(value).value)]))
        && (ParseBigInt(value).Failure? ==> r.Failure?)
      case NumberInput =>
        (ParseBigInt(value).Success? ==> r == Success(local[field := Number(ParseBigInt(value).value)]))
        && (ParseBigInt(value).Failure? ==> r.Failure?)
  {
  }

  /** The handlers keep every field at its declared type. */
  lemma HandleChangeWellTyped(field: FilterField, local: FilterOptions, value: string)
    requires WellTyped(local)
    requires HandleChange(field, local, value).Success?
    ensures WellTyped(HandleChange(field, local, value).value)
  {
    var f := HandleChange(field, local, value).value;
    forall g | g in f ensures HasKindType(Kind(g), f[g]) {
      if g != field {
        HandleChangeLocal(field, local, value, g);
      }
    }
  }

  /** What the field's select or input shows for a record: a select shows "all" for an undefined (or empty) value, an input shows "". */
  function Shown(f: FilterOptions, field: FilterField): string {
    var blank := if IsSelect(Kind(field)) then "all" else "";
    if field !in f then blank
    else match f[field]
      case Text(s) => if s == "" then blank else s
      case Flag(b) => if b then "true" else "false"
      case Number(n) => IntToString(n)
  }

  /** Choosing an option of a select shows that option again: "all" for "all", and the option itself otherwise. */
  lemma SelectShowsChoice(field: FilterField, local: FilterOptions, value: string)
    requires IsSelect(Kind(field))
    requires Kind(field) == FlagSelect ==> value == "all" || value == "true" || value == "false"
    requires Kind(field) == NumberSelect ==> value == "all" || exists n: int :: value == IntToString(n)
    requires Kind(field) == TextSelect ==> value != ""
    ensures HandleChange(field, local, value).Success?
    ensures Shown(HandleChange(field, local, value).value, field) == value
  {
    if Kind(field) == NumberSelect && value != "all" {
      var n: int :| value == IntToString(n);
      ParseIntToString(n);
    }
  }

  /** The filter record the page applies (`filters`) and the one the panel edits (`localFilters`). */
  datatype FilterPanel = FilterPanel(local: FilterOptions, applied: FilterOptions)

  /** A change in the panel edits the local record only; the page's record changes only on Apply. */
  function Edit(p: FilterPanel, field: FilterField, value: string): (q: Result<FilterPanel, SyntaxError>)
    ensures q.Success? ==> q.value.applied == p.applied
    ensures q.Failure? <==> HandleChange(field, p.local, value).Failure?
  {
    match HandleChange(field, p.local, value)
    case Success(f) => Success(FilterPanel(f, p.applied))
    case Failure(e) => Failure(e)
  }

  /** `handleApplyFilters`: the page receives the local record as it is. */
  function Apply(p: FilterPanel): (q: FilterPanel)
    ensures q.local == p.local && q.applied == p.local
  {
    FilterPanel(p.local, p.local)
  }

  /** `handleClearFilters`: both records become empty, so no filter is active. */
  function Clear(p: FilterPanel): (q: FilterPanel)
    ensures q.local == map[] && q.applied == map[]
    ensures !HasActiveFilters(q.applied) && ActiveFilterCount(q.applied) == 0
  {
    FilterPanel(map[], map[])
  }

  /** `activeFilterCount`: how many fields are defined. */
  function ActiveFilterCount(f: FilterOptions): nat {
    |f.Keys|
  }

  /** `hasActiveFilters`: some field is defined. */
  predicate HasActiveFilters(f: FilterOptions) {
    exists field :: field in f
  }

  /** The badge count and the "clear" button agree: some filter is active exactly when the count is positive. */
  lemma ActiveIffCount(f: FilterOptions)
    ensures HasActiveFilters(f) <==> ActiveFilterCount(f) > 0
  {
    if HasActiveFilters(f) {
      var field :| field in f;
      assert field in f.Keys;
    } else {
      assert f.Keys == {};
    }
  }

  /** After Apply the page's record is whatever the edits built, however many edits came before. */
  lemma {:induction false} EditsThenApply(p: FilterPanel, edits: seq<(FilterField, string)>)
    ensures var q := Edits(p, edits);
      q.applied == p.applied && Apply(q).applied == q.local
    decreases |edits|
  {
    if edits != [] {
      var e := Edit(p, edits[0].0, edits[0].1);
      if e.Success? {
        EditsThenApply(e.value, edits[1..]);
      } else {
        EditsThenApply(p, edits[1..]);
      }
    }
  }

  /** A run of edits; an edit whose parse throws leaves the panel as it was. */
  function Edits(p: FilterPanel, edits: seq<(FilterField, string)>): FilterPanel
    decreases |edits|
  {
    if edits == [] then p
    else
      var e := Edit(p, edits[0].0, edits[0].1);
      Edits(if e.Success? then e.value else p, edits[1..])
  }
}
