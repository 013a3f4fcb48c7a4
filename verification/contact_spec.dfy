/**
 * The contact-form endpoint as a function of its inputs: which exit path a
 * request takes, with what status and message, and which inquiry record (if
 * any) is appended to the log. The imperative handler in contact_handler.dfy
 * is proved against `Decide`.
 */
module ContactSpec {

  datatype Option<+T> = None | Some(value: T)

  /** The six form fields the script reads from the POST body. */
  datatype Field = Company | Name | Email | Phone | Message | Consent

  /** The form-field name of each field. */
  function Key(f: Field): string {
    match f
    case Company => "company"
    case Name => "name"
    case Email => "email"
    case Phone => "phone"
    case Message => "message"
    case Consent => "consent"
  }

  const AllFields: set<Field> := {Company, Name, Email, Phone, Message, Consent}

  /** The three sanitising filters of PHP's filter extension that the script uses. */
  datatype Filter = FullSpecialChars | SanitizeEmail | NumberInt

  /** The per-field filter policy. */
  function Policy(f: Field): (r: Filter)
    ensures r == SanitizeEmail <==> f == Email
    ensures r == NumberInt <==> f == Consent
  {
    match f
    case Email => SanitizeEmail
    case Consent => NumberInt
    case _ => FullSpecialChars
  }

  /**
   * PHP's filter extension is library code outside this model: what a
   * sanitising filter makes of a string, and whether FILTER_VALIDATE_EMAIL
   * accepts one, are given rather than reimplemented.
   */
  datatype FilterLibrary = FilterLibrary(sanitise: (Filter, string) -> string, validEmail: string -> bool)

  /** The sanitised input: the fields that were posted, each after its filter. */
  type Input = map<Field, string>

  /**
   * filter_input_array over the POST body with the add-empty flag off: a field
   * that was not posted is absent from the result, and every posted field has
   * gone through the filter its policy names. When the call yields nothing the
   * script falls back to an empty array, which is the empty map here.
   */
  function Sanitise(lib: FilterLibrary, post: map<string, string>): (input: Input)
    ensures forall f: Field :: f in input <==> Key(f) in post
    ensures forall f :: f in input ==> input[f] == lib.sanitise(Policy(f), post[Key(f)])
  {
    map f | f in AllFields && Key(f) in post :: lib.sanitise(Policy(f), post[Key(f)])
  }

  /** PHP's `empty()` on a string: "" and "0" are empty. */
  predicate EmptyText(s: string) {
    s == "" || s == "0"
  }

  /** PHP's `empty($input[$field])`: an absent key is empty too. */
  predicate IsEmpty(input: Input, f: Field) {
    f !in input || EmptyText(input[f])
  }

  /** The required fields, in the order the script checks them. */
  const Required: seq<Field> := [Company, Name, Email, Message, Consent]

  /** Some required field is empty. */
  predicate AnyMissing(input: Input) {
    exists i :: 0 <= i < |Required| && IsEmpty(input, Required[i])
  }

  /** Each exit path of the script has its own user-facing message. */
  datatype Msg = NotAllowed | MissingFields | InvalidEmail | InternalError | RecordFailed | Accepted

  /** The message texts, as the script sends them. */
  function Text(m: Msg): string {
    match m
    case NotAllowed => "許可されていないリクエストです。"
    case MissingFields => "未入力の項目があります。すべての必須項目をご入力ください。"
    case InvalidEmail => "メールアドレスの形式をご確認ください。"
    case InternalError => "内部エラーが発生しました。後ほどお試しください。"
    case RecordFailed => "お問い合わせの記録に失敗しました。"
    case Accepted => "お問い合わせを受け付けました。ありがとうございます。"
  }

  /** The HTTP status together with the JSON envelope `{success, message}`. */
  datatype Response = Response(status: int, success: bool, msg: Msg)

  /** One persisted inquiry: one line of the log. Consent is not stored. */
  datatype Inquiry = Inquiry(
    company: string,
    name: string,
    email: string,
    phone: string,
    message: string,
    timestamp: string,
    userAgent: string)

  /** What every persisted record satisfies: the required fields that are stored are non-empty and the email is valid. */
  predicate Admissible(r: Inquiry, lib: FilterLibrary) {
    && !EmptyText(r.company)
    && !EmptyText(r.name)
    && !EmptyText(r.email)
    && !EmptyText(r.message)
    && lib.validEmail(r.email)
  }

  /** The record built from the sanitised input; phone defaults to "" and the user agent to "unknown". */
  function BuildInquiry(input: Input, now: string, userAgent: Option<string>): Inquiry
    requires Company in input && Name in input && Email in input && Message in input
  {
    Inquiry(
      input[Company],
      input[Name],
      input[Email],
      if Phone in input then input[Phone] else "",
      input[Message],
      now,
      if userAgent.Some? then userAgent.value else "unknown")
  }

  /**
   * One request. The clock reading (already formatted, Asia/Tokyo, ATOM) and
   * the User-Agent header are inputs.
   */
  datatype Request = Request(verb: string, post: map<string, string>, userAgent: Option<string>, now: string)

  /**
   * The result of `mkdir` when the storage directory was found missing:
   * created by this request, or refused but present on the second look
   * (another request created it first), or refused and still absent.
   */
  datatype MkdirResult = Created | CreatedByOther | Failed

  /** What the filesystem does for this request. */
  datatype Storage = Storage(mkdir: MkdirResult, writeOk: bool)

  /** A request's response, whether the storage directory exists afterwards, and the record appended, if any. */
  datatype Outcome = Outcome(response: Response, dirExists: bool, appended: Option<Inquiry>)

  function Reject(status: int, msg: Msg): Response {
    Response(status, false, msg)
  }

  /** Whether the storage directory exists once the guard has run. */
  function DirReady(dirExists: bool, mkdir: MkdirResult): (ready: bool)
    ensures !ready <==> !dirExists && mkdir == Failed
  {
    dirExists || mkdir != Failed
  }

  /**
   * The whole script: method gate, sanitising, required fields, email
   * format, record, storage directory, append. The status is 200 when no
   * exit path set another.
   */
  function Decide(lib: FilterLibrary, dirExists: bool, req: Request, env: Storage): (o: Outcome)
    ensures o.response.status in {200, 405, 422, 500}
    ensures o.response.success <==> o.response.status == 200
    ensures o.response.success <==> o.response.msg == Accepted
    ensures o.appended.Some? <==> o.response.success
    ensures o.appended.Some? ==> Admissible(o.appended.value, lib) && o.dirExists
    ensures dirExists ==> o.dirExists
    ensures o.response.status != 500 && !o.response.success ==> o.dirExists == dirExists
  {
    if req.verb != "POST" then
      Outcome(Reject(405, NotAllowed), dirExists, None)
    else
      var input := Sanitise(lib, req.post);
      if AnyMissing(input) then
        Outcome(Reject(422, MissingFields), dirExists, None)
      else
        assert !IsEmpty(input, Required[0]) && !IsEmpty(input, Required[1]);
        assert !IsEmpty(input, Required[2]) && !IsEmpty(input, Required[3]);
        if !lib.validEmail(input[Email]) then
          Outcome(Reject(422, InvalidEmail), dirExists, None)
        else
          var record := BuildInquiry(input, req.now, req.userAgent);
          if !DirReady(dirExists, env.mkdir) then
            Outcome(Reject(500, InternalError), false, None)
          else if !env.writeOk then
            Outcome(Reject(500, RecordFailed), true, None)
          else
            Outcome(Response(200, true, Accepted), true, Some(record))
  }

  /** The records a request appends to the log: none, or exactly one. */
  function Appended(o: Outcome): seq<Inquiry> {
    if o.appended.Some? then [o.appended.value] else []
  }
}
