/**
 * What the contact endpoint promises about a single request, stated over
 * `ContactSpec.Decide`: each exit path, the order of the checks, the record
 * written on success, and the storage guard's race tolerance.
 */
module ContactProperties {
  import opened ContactSpec

  /** The request gets past the method gate, the required fields and the email check. */
  predicate PassesValidation(lib: FilterLibrary, req: Request) {
    && req.verb == "POST"
    && var input := Sanitise(lib, req.post);
       && !AnyMissing(input)
       && Email in input
       && lib.validEmail(input[Email])
  }

  /** Anything but POST is answered 405 before the body is looked at, and nothing changes. */
  lemma NonPostRejected(lib: FilterLibrary, dirExists: bool, req: Request, env: Storage)
    requires req.verb != "POST"
    ensures Decide(lib, dirExists, req, env) == Outcome(Response(405, false, NotAllowed), dirExists, None)
  {
  }

  /**
   * A required field is empty after sanitising exactly when it was not
   * posted, or its filter turned it into "" or "0".
   */
  lemma SanitisedEmpty(lib: FilterLibrary, post: map<string, string>, f: Field)
    ensures IsEmpty(Sanitise(lib, post), f)
        <==> Key(f) !in post || EmptyText(lib.sanitise(Policy(f), post[Key(f)]))
  {
  }

  /**
   * A POST is answered 422 with the missing-fields message exactly when one of
   * company, name, email, message, consent is empty after sanitising; nothing
   * changes then.
   */
  lemma MissingFieldRejected(lib: FilterLibrary, dirExists: bool, req: Request, env: Storage)
    requires req.verb == "POST"
    ensures var o := Decide(lib, dirExists, req, env);
            o.response.msg == MissingFields
            <==> exists f :: f in Required && IsEmpty(Sanitise(lib, req.post), f)
    ensures var o := Decide(lib, dirExists, req, env);
            o.response.msg == MissingFields
            ==> o == Outcome(Response(422, false, MissingFields), dirExists, None)
  {
  }

  /** A POST without any form fields fails the required-field check. */
  lemma EmptyBodyRejected(lib: FilterLibrary, dirExists: bool, req: Request, env: Storage)
    requires req.verb == "POST" && req.post == map[]
    ensures forall i :: 0 <= i < |Required| ==> IsEmpty(Sanitise(lib, req.post), Required[i])
    ensures Decide(lib, dirExists, req, env) == Outcome(Response(422, false, MissingFields), dirExists, None)
  {
    assert IsEmpty(Sanitise(lib, req.post), Required[0]);
  }

  /** The required fields are checked before the email format: a request failing both gets the missing-fields message. */
  lemma MissingCheckedBeforeEmail(lib: FilterLibrary, dirExists: bool, req: Request, env: Storage)
    requires req.verb == "POST"
    requires AnyMissing(Sanitise(lib, req.post))
    requires Email in Sanitise(lib, req.post) && !lib.validEmail(Sanitise(lib, req.post)[Email])
    ensures Decide(lib, dirExists, req, env).response == Response(422, false, MissingFields)
  {
  }

  /**
   * A POST whose required fields are all present is answered 422 with the
   * email-format message exactly when the sanitised email fails validation,
   * whatever the other fields, the directory and the filesystem do.
   */
  lemma InvalidEmailRejected(lib: FilterLibrary, dirExists: bool, req: Request, env: Storage)
    requires req.verb == "POST" && !AnyMissing(Sanitise(lib, req.post))
    ensures Email in Sanitise(lib, req.post)
    ensures var o := Decide(lib, dirExists, req, env);
            o.response.msg == InvalidEmail
            <==> !lib.validEmail(Sanitise(lib, req.post)[Email])
    ensures var o := Decide(lib, dirExists, req, env);
            o.response.msg == InvalidEmail
            ==> o == Outcome(Response(422, false, InvalidEmail), dirExists, None)
  {
    assert !IsEmpty(Sanitise(lib, req.post), Required[2]);
  }

  /**
   * An invalid email is rejected with 422 whatever the other fields hold:
   * with a missing field the earlier check answers, otherwise the email
   * check does; either way nothing is appended and the directory is untouched.
   */
  lemma InvalidEmailAlwaysRejected(lib: FilterLibrary, dirExists: bool, req: Request, env: Storage)
    requires req.verb == "POST"
    requires Email in Sanitise(lib, req.post) && !lib.validEmail(Sanitise(lib, req.post)[Email])
    ensures var o := Decide(lib, dirExists, req, env);
            && o.response.status == 422 && !o.response.success
            && o.response.msg in {MissingFields, InvalidEmail}
            && o.appended == None && o.dirExists == dirExists
  {
    if !AnyMissing(Sanitise(lib, req.post)) {
      InvalidEmailRejected(lib, dirExists, req, env);
    }
  }

  /**
   * The record appended on success: company, name, email and message as
   * sanitised, phone sanitised or "" when not posted, the request's
   * timestamp, and the User-Agent header or "unknown".
   */
  lemma AcceptedRecord(lib: FilterLibrary, dirExists: bool, req: Request, env: Storage)
    requires Decide(lib, dirExists, req, env).response.success
    ensures PassesValidation(lib, req)
    ensures "company" in req.post && "name" in req.post && "email" in req.post
    ensures "message" in req.post && "consent" in req.post
    ensures var r := Decide(lib, dirExists, req, env).appended.value;
            && r.company == lib.sanitise(FullSpecialChars, req.post["company"])
            && r.name == lib.sanitise(FullSpecialChars, req.post["name"])
            && r.email == lib.sanitise(SanitizeEmail, req.post["email"])
            && r.message == lib.sanitise(FullSpecialChars, req.post["message"])
            && r.phone == (if "phone" in req.post then lib.sanitise(FullSpecialChars, req.post["phone"]) else "")
            && r.timestamp == req.now
            && r.userAgent == (if req.userAgent.Some? then req.userAgent.value else "unknown")
  {
    var input := Sanitise(lib, req.post);
    assert !IsEmpty(input, Required[2]);
    assert !IsEmpty(input, Required[0]) && !IsEmpty(input, Required[1]);
    assert !IsEmpty(input, Required[3]) && !IsEmpty(input, Required[4]);
    assert Key(Phone) in req.post <==> Phone in input;
  }

  /**
   * Consent is checked but not stored: changing the posted consent to any
   * other value that survives the number filter non-empty leaves the
   * outcome, and so the record, unchanged.
   */
  lemma ConsentNotStored(lib: FilterLibrary, dirExists: bool, req: Request, env: Storage, c: string)
    requires req.verb == "POST" && "consent" in req.post
    requires !EmptyText(lib.sanitise(NumberInt, req.post["consent"]))
    requires !EmptyText(lib.sanitise(NumberInt, c))
    ensures Decide(lib, dirExists, req.(post := req.post["consent" := c]), env)
         == Decide(lib, dirExists, req, env)
  {
    var req' := req.(post := req.post["consent" := c]);
    var input, input' := Sanitise(lib, req.post), Sanitise(lib, req'.post);
    forall i | 0 <= i < |Required|
      ensures IsEmpty(input, Required[i]) <==> IsEmpty(input', Required[i])
    {
      var f := Required[i];
      if f != Consent {
        assert Key(f) != "consent";
      }
    }
    assert AnyMissing(input) <==> AnyMissing(input');
    if !AnyMissing(input) {
      assert Key(Email) != "consent" && Key(Company) != "consent" && Key(Name) != "consent";
      assert Key(Message) != "consent" && Key(Phone) != "consent";
      assert !IsEmpty(input, Required[0]) && !IsEmpty(input, Required[1]);
      assert !IsEmpty(input, Required[2]) && !IsEmpty(input, Required[3]);
      assert (Phone in input <==> Phone in input') && (Phone in input ==> input[Phone] == input'[Phone]);
    }
  }

  /**
   * The storage guard answers 500 with the internal-error message only when
   * the directory was missing, mkdir failed and the directory is still
   * missing; an existing directory or a directory another request created
   * first is not an error.
   */
  lemma StorageFailure(lib: FilterLibrary, dirExists: bool, req: Request, env: Storage)
    ensures var o := Decide(lib, dirExists, req, env);
            o.response.msg == InternalError
            <==> PassesValidation(lib, req) && !dirExists && env.mkdir == Failed
    ensures var o := Decide(lib, dirExists, req, env);
            o.response.msg == InternalError
            ==> o == Outcome(Response(500, false, InternalError), false, None)
  {
    if req.verb == "POST" && !AnyMissing(Sanitise(lib, req.post)) {
      assert !IsEmpty(Sanitise(lib, req.post), Required[2]);
    }
  }

  /**
   * A failed append is answered 500 with the write-failure message exactly
   * when the request passed validation and the directory is in place; the
   * log is untouched and the directory stays.
   */
  lemma WriteFailure(lib: FilterLibrary, dirExists: bool, req: Request, env: Storage)
    ensures var o := Decide(lib, dirExists, req, env);
            o.response.msg == RecordFailed
            <==> PassesValidation(lib, req) && DirReady(dirExists, env.mkdir) && !env.writeOk
    ensures var o := Decide(lib, dirExists, req, env);
            o.response.msg == RecordFailed
            ==> o == Outcome(Response(500, false, RecordFailed), true, None)
  {
    if req.verb == "POST" && !AnyMissing(Sanitise(lib, req.post)) {
      assert !IsEmpty(Sanitise(lib, req.post), Required[2]);
    }
  }

  /**
   * A request is accepted (200, success) exactly when it passes validation,
   * the directory is in place and the write succeeds; then one record is
   * appended and it satisfies every stored constraint.
   */
  lemma AcceptedExactly(lib: FilterLibrary, dirExists: bool, req: Request, env: Storage)
    ensures var o := Decide(lib, dirExists, req, env);
            o.response.success
            <==> PassesValidation(lib, req) && DirReady(dirExists, env.mkdir) && env.writeOk
    ensures var o := Decide(lib, dirExists, req, env);
            o.response.success
            ==> o.response == Response(200, true, Accepted) && |Appended(o)| == 1 && Admissible(o.appended.value, lib)
  {
    if req.verb == "POST" && !AnyMissing(Sanitise(lib, req.post)) {
      assert !IsEmpty(Sanitise(lib, req.post), Required[2]);
    }
  }

  /** Every failure leaves the log untouched, with success false. */
  lemma FailureAppendsNothing(lib: FilterLibrary, dirExists: bool, req: Request, env: Storage)
    ensures var o := Decide(lib, dirExists, req, env);
            o.response.status != 200 ==> !o.response.success && Appended(o) == []
  {
  }

  /** The six exit paths are told apart by their message texts. */
  lemma MessagesDistinct(m1: Msg, m2: Msg)
    requires m1 != m2
    ensures Text(m1) != Text(m2)
  {
  }
}
