/**
 * The endpoint's persistent state over many requests: whether the storage
 * directory exists, and the append-only inquiry log. Each request is atomic
 * here (the script serialises its appends with an exclusive lock).
 */
module InquiryLog {
  import opened ContactSpec

  /** The state one request sees and leaves behind. */
  datatype Server = Server(dirExists: bool, log: seq<Inquiry>)

  /** One request together with what the filesystem does for it. */
  datatype Call = Call(req: Request, env: Storage)

  /** Every record in the log satisfies the required-field and email constraints. */
  predicate AllAdmissible(log: seq<Inquiry>, lib: FilterLibrary) {
    forall i :: 0 <= i < |log| ==> Admissible(log[i], lib)
  }

  /** A log can only exist inside the storage directory. */
  predicate Consistent(s: Server, lib: FilterLibrary) {
    AllAdmissible(s.log, lib) && (s.log != [] ==> s.dirExists)
  }

  /** The state after one request. */
  function Serve(lib: FilterLibrary, s: Server, c: Call): (t: Server)
    ensures s.log <= t.log && |t.log| <= |s.log| + 1
    ensures Consistent(s, lib) ==> Consistent(t, lib)
  {
    var o := Decide(lib, s.dirExists, c.req, c.env);
    Server(o.dirExists, s.log + Appended(o))
  }

  /** The state after a sequence of requests, served in order. */
  function Run(lib: FilterLibrary, s: Server, calls: seq<Call>): Server
    decreases |calls|
  {
    if calls == [] then s else Run(lib, Serve(lib, s, calls[0]), calls[1..])
  }

  /** The responses to a sequence of requests, in order. */
  function Responses(lib: FilterLibrary, s: Server, calls: seq<Call>): (rs: seq<Response>)
    decreases |calls|
    ensures |rs| == |calls|
  {
    if calls == [] then []
    else [Decide(lib, s.dirExists, calls[0].req, calls[0].env).response]
         + Responses(lib, Serve(lib, s, calls[0]), calls[1..])
  }

  /** How many of the responses report success. */
  function SuccessCount(rs: seq<Response>): nat {
    if rs == [] then 0 else (if rs[0].success then 1 else 0) + SuccessCount(rs[1..])
  }

  /** The log is append-only: whatever was logged before a run is an unchanged prefix after it. */
  lemma {:induction false} RunAppendOnly(lib: FilterLibrary, s: Server, calls: seq<Call>)
    ensures s.log <= Run(lib, s, calls).log
    decreases |calls|
  {
    if calls != [] {
      RunAppendOnly(lib, Serve(lib, s, calls[0]), calls[1..]);
    }
  }

  /** A run grows the log by exactly one record per successful response. */
  lemma {:induction false} RunGrowth(lib: FilterLibrary, s: Server, calls: seq<Call>)
    ensures |Run(lib, s, calls).log| == |s.log| + SuccessCount(Responses(lib, s, calls))
    decreases |calls|
  {
    if calls != [] {
      var rs := Responses(lib, s, calls);
      RunGrowth(lib, Serve(lib, s, calls[0]), calls[1..]);
      assert rs[1..] == Responses(lib, Serve(lib, s, calls[0]), calls[1..]);
    }
  }

  /** No run writes a record that breaks a required-field or email constraint, nor a log outside the directory. */
  lemma {:induction false} RunConsistent(lib: FilterLibrary, s: Server, calls: seq<Call>)
    requires Consistent(s, lib)
    ensures Consistent(Run(lib, s, calls), lib)
    decreases |calls|
  {
    if calls != [] {
      RunConsistent(lib, Serve(lib, s, calls[0]), calls[1..]);
    }
  }

  /** Once the storage directory exists, no request removes it. */
  lemma {:induction false} RunKeepsDirectory(lib: FilterLibrary, s: Server, calls: seq<Call>)
    requires s.dirExists
    ensures Run(lib, s, calls).dirExists
    decreases |calls|
  {
    if calls != [] {
      RunKeepsDirectory(lib, Serve(lib, s, calls[0]), calls[1..]);
    }
  }

  /** A run of requests none of which is a POST leaves the state exactly as it was. */
  lemma {:induction false} RunNonPostUnchanged(lib: FilterLibrary, s: Server, calls: seq<Call>)
    requires forall i :: 0 <= i < |calls| ==> calls[i].req.verb != "POST"
    ensures Run(lib, s, calls) == s
    decreases |calls|
  {
    if calls != [] {
      assert Serve(lib, s, calls[0]) == s;
      RunNonPostUnchanged(lib, s, calls[1..]);
    }
  }
}
