/** The records exchanged between the React client and the Flask API
    (`frontend/src/services/api.ts`), and the form fields the job forms edit. */
module Api {

  datatype Option<T> = None | Some(value: T)

  /** Whether a call the model does not see (an HTTP request, a callback)
      resolved or threw. */
  datatype Outcome = Succeeded | Failed

  /** The placeholder shown for a missing salary and stored for a missing
      location. */
  const NotSpecified := "Not specified"

  /** A job as the list endpoint returns it (`to_dict`). The nullable columns
      arrive as `null`, here `None`. `posted` is `posted_date` as
      milliseconds since the epoch. */
  datatype Job = Job(
    id: int,
    title: string,
    company: string,
    location: Option<string>,
    description: Option<string>,
    url: Option<string>,
    salary: Option<string>,
    posted: int,
    isActive: Option<bool>)

  /** The list endpoint's query string; an absent member is not sent. */
  datatype JobQuery = JobQuery(company: Option<string>, location: Option<string>, search: Option<string>)

  const EmptyQuery := JobQuery(None, None, None)

  /** A query member that is sent only when its text is non-empty. */
  function NonEmpty(s: string): (r: Option<string>)
    ensures r.None? <==> s == ""
    ensures r.Some? ==> r.value == s
  {
    if s == "" then None else Some(s)
  }

  /** The six text inputs of the job forms, named as in the record. */
  datatype FormField = Title | Company | Location | Description | Url | Salary

  datatype JobFields = JobFields(
    title: string,
    company: string,
    location: string,
    description: string,
    url: string,
    salary: string)

  const EmptyFields := JobFields("", "", "", "", "", "")

  /** The input's `name` attribute, which is also the key of its error. */
  function FieldName(f: FormField): string {
    match f
    case Title => "title"
    case Company => "company"
    case Location => "location"
    case Description => "description"
    case Url => "url"
    case Salary => "salary"
  }

  function GetField(fields: JobFields, f: FormField): string {
    match f
    case Title => fields.title
    case Company => fields.company
    case Location => fields.location
    case Description => fields.description
    case Url => fields.url
    case Salary => fields.salary
  }

  /** `{ ...prev, [name]: value }`: the named field takes the value and
      every other field keeps its own. */
  function SetField(fields: JobFields, f: FormField, value: string): (r: JobFields)
    ensures GetField(r, f) == value
    ensures forall g :: g != f ==> GetField(r, g) == GetField(fields, g)
  {
    match f
    case Title => fields.(title := value)
    case Company => fields.(company := value)
    case Location => fields.(location := value)
    case Description => fields.(description := value)
    case Url => fields.(url := value)
    case Salary => fields.(salary := value)
  }
}
