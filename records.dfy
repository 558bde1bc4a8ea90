/**
 * The record a row of the review table shows, its per-field validation
 * annotations, and the background class each cell gets from them.
 */
module Records {
  import opened Wrappers

  /** One validation finding on a field: a message and a free-form severity string. */
  datatype Annotation = Annotation(message: string, severity: string)

  /** The optional `errors` object: field name to annotation. */
  type Errors = map<string, Annotation>

  datatype Record = Record(
    id: int,
    name: string,
    email: string,
    street: string,
    city: string,
    zipcode: string,
    phone: string,
    status: string,
    errors: Option<Errors>)

  /** The keys of a record (`keyof Record`), the only field names a cell is coloured by. */
  datatype Field = Id | Name | Email | Street | City | Zipcode | Phone | Status | ErrorsKey

  /** The property name of each field, as it appears as a key of `errors`. */
  function Key(f: Field): string {
    match f
    case Id => "id"
    case Name => "name"
    case Email => "email"
    case Street => "street"
    case City => "city"
    case Zipcode => "zipcode"
    case Phone => "phone"
    case Status => "status"
    case ErrorsKey => "errors"
  }

  /** The severity recorded for `field`, if `errors` is present and has an entry for it. */
  function SeverityAt(field: Field, errors: Option<Errors>): (severity: Option<string>)
    ensures severity.Some? <==> errors.Some? && Key(field) in errors.value
    ensures severity.Some? ==> severity.value == errors.value[Key(field)].severity
  {
    match errors
    case None => None
    case Some(m) => if Key(field) in m then Some(m[Key(field)].severity) else None
  }

  /** The three cell backgrounds. */
  datatype CellClass = Red | Yellow | Green

  /** The Tailwind class name each background is rendered with. */
  function ClassName(c: CellClass): (name: string)
    ensures name == "bg-red-100" <==> c == Red
    ensures name == "bg-yellow-100" <==> c == Yellow
    ensures name == "bg-green-100" <==> c == Green
  {
    match c
    case Red => "bg-red-100"
    case Yellow => "bg-yellow-100"
    case Green => "bg-green-100"
  }

  /**
   * getCellColor: red exactly for a "critical" entry, yellow exactly for a
   * "warning" entry, green otherwise, including no errors at all, no entry
   * for the field, and any other severity string.
   */
  function CellColor(field: Field, errors: Option<Errors>): (c: CellClass)
    ensures c == Red <==> SeverityAt(field, errors) == Some("critical")
    ensures c == Yellow <==> SeverityAt(field, errors) == Some("warning")
    ensures c == Green <==> SeverityAt(field, errors) !in {Some("critical"), Some("warning")}
  {
    if errors.Some? && Key(field) in errors.value then
      var severity := errors.value[Key(field)].severity;
      if severity == "critical" then Red
      else if severity == "warning" then Yellow
      else Green
    else Green
  }

  /**
   * The string getCellColor returns: "bg-red-100" exactly for a "critical"
   * entry on the field, "bg-yellow-100" exactly for "warning", and
   * "bg-green-100" for everything else.
   */
  function CellClassName(field: Field, errors: Option<Errors>): (name: string)
    ensures name == "bg-red-100" <==> SeverityAt(field, errors) == Some("critical")
    ensures name == "bg-yellow-100" <==> SeverityAt(field, errors) == Some("warning")
    ensures name == "bg-green-100" <==> SeverityAt(field, errors) !in {Some("critical"), Some("warning")}
  {
    ClassName(CellColor(field, errors))
  }
}
