/**
 * The request handler of contact.php, step by step: the endpoint holds the
 * storage directory's existence and the inquiry log, and `Handle` runs the
 * script's checks in order, returning at the first exit path.
 */
module ContactHandler {
  import opened ContactSpec
  import InquiryLog

  /** The required-field loop: visit company, name, email, message, consent in order and stop at the first empty one. */
  method MissingRequired(input: Input) returns (missing: bool)
    ensures missing <==> AnyMissing(input)
  {
    var i := 0;
    while i < |Required|
      invariant 0 <= i <= |Required|
      invariant forall j :: 0 <= j < i ==> !IsEmpty(input, Required[j])
    {
      if IsEmpty(input, Required[i]) {
        return true;
      }
      i := i + 1;
    }
    return false;
  }

  class InquiryEndpoint {
    /** The server's filter extension; the same for every request. */
    const lib: FilterLibrary
    /** Whether the storage directory exists. */
    var dirExists: bool
    /** The contents of the inquiry log, one record per line. */
    var log: seq<Inquiry>

    ghost predicate Valid()
      reads this
    {
      InquiryLog.Consistent(InquiryLog.Server(dirExists, log), lib)
    }

    /** A server over the log file's existing contents, with or without its storage directory. */
    constructor (lib: FilterLibrary, dirExists: bool, log0: seq<Inquiry>)
      requires InquiryLog.Consistent(InquiryLog.Server(dirExists, log0), lib)
      ensures Valid()
      ensures this.lib == lib && this.dirExists == dirExists && log == log0
    {
      this.lib := lib;
      this.dirExists := dirExists;
      log := log0;
    }

    /**
     * One request. `mkdir` is what the filesystem does if the directory is
     * missing; `writeOk` whether the append succeeds.
     */
    method Handle(verb: string, post: map<string, string>, userAgent: Option<string>, now: string,
                  mkdir: MkdirResult, writeOk: bool)
      returns (status: int, success: bool, msg: Msg)
      requires Valid()
      modifies this
      ensures Valid()
      ensures Response(status, success, msg)
           == Decide(lib, old(dirExists), Request(verb, post, userAgent, now), Storage(mkdir, writeOk)).response
      ensures InquiryLog.Server(dirExists, log)
           == InquiryLog.Serve(lib, old(InquiryLog.Server(dirExists, log)),
                               InquiryLog.Call(Request(verb, post, userAgent, now), Storage(mkdir, writeOk)))
      ensures success ==> status == 200 && |log| == |old(log)| + 1 && log[..|old(log)|] == old(log)
      ensures success ==> Admissible(log[|log| - 1], lib)
      ensures !success ==> log == old(log)
    {
      // No exit path below sets the status on success, so it stays PHP's default.
      status := 200;
      if verb != "POST" {
        return 405, false, NotAllowed;
      }
      var input := Sanitise(lib, post);
      var missing := MissingRequired(input);
      if missing {
        return 422, false, MissingFields;
      }
      assert !IsEmpty(input, Required[0]) && !IsEmpty(input, Required[1]);
      assert !IsEmpty(input, Required[2]) && !IsEmpty(input, Required[3]);
      if !lib.validEmail(input[Email]) {
        return 422, false, InvalidEmail;
      }
      var record := BuildInquiry(input, now, userAgent);
      if !dirExists {
        // mkdir; when it is refused, a second look may still find the directory another request made.
        if mkdir == Failed {
          return 500, false, InternalError;
        }
        dirExists := true;
      }
      if !writeOk {
        return 500, false, RecordFailed;
      }
      log := log + [record];
      success, msg := true, Accepted;
    }
  }
}
