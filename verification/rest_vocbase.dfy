/**
 * Helpers of the document REST handler: reading the expected revision from
 * an ETag-style header or a URL parameter, reading the update policy and
 * the waitForSync flag, mapping transaction errors to HTTP replies, and the
 * handle, location and ETag of a document that was written.
 */
module RestVocbaseBase {
  import opened AqlCore
  import opened DecimalText

  /** The parts of an HTTP request these helpers read: header fields and
      URL parameters, each by name. */
  datatype Request = Request(headers: map<string, string>, values: map<string, string>)

  const DocumentPath := "/_api/document"
  const CollectionPath := "/_api/collection"

  // ---------------------------------------------------------------------------
  // Trimming spaces and tabs.

  predicate IsBlank(c: char) {
    c == ' ' || c == '\t'
  }

  predicate AllBlank(s: string) {
    forall i :: 0 <= i < |s| ==> IsBlank(s[i])
  }

  function TrimLeft(s: string): string {
    if s != [] && IsBlank(s[0]) then TrimLeft(s[1..]) else s
  }

  function TrimRight(s: string): string {
    if s != [] && IsBlank(s[|s| - 1]) then TrimRight(s[..|s| - 1]) else s
  }

  function Trim(s: string): string {
    TrimRight(TrimLeft(s))
  }

  /** Left-trimming drops a blank prefix and stops at a non-blank. */
  lemma {:induction false} TrimLeftShape(s: string)
    ensures |TrimLeft(s)| <= |s|
    ensures TrimLeft(s) == s[|s| - |TrimLeft(s)|..]
    ensures AllBlank(s[..|s| - |TrimLeft(s)|])
    ensures TrimLeft(s) != [] ==> !IsBlank(TrimLeft(s)[0])
  {
    if s != [] && IsBlank(s[0]) {
      TrimLeftShape(s[1..]);
      var i := |s| - |TrimLeft(s)|;
      assert s[1..][i - 1..] == s[i..];
      assert s[..i] == [s[0]] + s[1..][..i - 1];
    }
  }

  /** Right-trimming drops a blank suffix and stops at a non-blank. */
  lemma {:induction false} TrimRightShape(s: string)
    ensures |TrimRight(s)| <= |s|
    ensures TrimRight(s) == s[..|TrimRight(s)|]
    ensures AllBlank(s[|TrimRight(s)|..])
    ensures TrimRight(s) != [] ==> !IsBlank(TrimRight(s)[|TrimRight(s)| - 1])
  {
    if s != [] && IsBlank(s[|s| - 1]) {
      var init := s[..|s| - 1];
      TrimRightShape(init);
      var j := |TrimRight(s)|;
      assert init[..j] == s[..j];
      assert s[j..] == init[j..] + [s[|s| - 1]];
    }
  }

  /** Trimming removes blanks at both ends and nothing else: the result is
      the infix between a blank prefix and a blank suffix, and it neither
      starts nor ends with a blank. */
  lemma TrimShape(s: string)
    ensures |Trim(s)| <= |TrimLeft(s)| <= |s|
    ensures var i := |s| - |TrimLeft(s)|;
            var j := i + |Trim(s)|;
            && j <= |s|
            && Trim(s) == s[i..j]
            && AllBlank(s[..i])
            && AllBlank(s[j..])
    ensures Trim(s) != [] ==> !IsBlank(Trim(s)[0]) && !IsBlank(Trim(s)[|Trim(s)| - 1])
  {
    TrimLeftShape(s);
    var i := |s| - |TrimLeft(s)|;
    var t := TrimLeft(s);
    TrimRightShape(t);
    var j := i + |Trim(s)|;
    assert t[..j - i] == s[i..j];
    assert s[j..] == t[j - i..];
    if Trim(s) != [] {
      TrimRightPrefix(t);
    }
  }

  /** A non-empty right-trimmed string keeps its first character. */
  lemma {:induction false} TrimRightPrefix(s: string)
    requires TrimRight(s) != []
    ensures TrimRight(s)[0] == s[0]
  {
    if IsBlank(s[|s| - 1]) {
      TrimRightPrefix(s[..|s| - 1]);
    }
  }

  /** A string that starts and ends with a quote is left alone. */
  lemma QuotedIsTrimmed(s: string)
    requires |s| >= 1 && s[0] == '"' && s[|s| - 1] == '"'
    ensures Trim(s) == s
  {
  }

  // ---------------------------------------------------------------------------
  // The expected revision.

  /** The revision an ETag-style header value names: after trimming, the
      text strictly between a leading and a trailing quote, read as a
      number; 0 when the value is not quoted. */
  function RevisionFromETag(etag: string): nat {
    var t := Trim(etag);
    if |t| >= 2 && t[0] == '"' && t[|t| - 1] == '"' then ParseUInt(t[1..|t| - 1]) else 0
  }

  /** The header wins when present; otherwise the URL parameter, when a
      parameter name is given and the request has it; otherwise 0. */
  function ExtractRevisionSpec(request: Request, header: string, parameter: Option<string>): nat {
    if header in request.headers then RevisionFromETag(request.headers[header])
    else if parameter.None? then 0
    else if parameter.value in request.values then ParseUInt(request.values[parameter.value])
    else 0
  }

  /** The bounds of the trimmed header value: a start index moved forward
      over leading blanks and an end index moved backward over trailing
      blanks. */
  method TrimBounds(etag: string) returns (s: nat, e: nat)
    ensures s <= e <= |etag| && etag[s..e] == Trim(etag)
  {
    s, e := 0, |etag|;
    while s < e && IsBlank(etag[s])
      invariant s <= e == |etag|
      invariant TrimLeft(etag[s..]) == TrimLeft(etag)
    {
      TrimLeftSkip(etag, s);
      s := s + 1;
    }
    TrimLeftStop(etag, s);
    while s < e && IsBlank(etag[e - 1])
      invariant s <= e <= |etag|
      invariant TrimRight(etag[s..e]) == Trim(etag)
    {
      TrimRightSkip(etag, s, e);
      e := e - 1;
    }
    TrimRightStop(etag, s, e);
  }

  lemma TrimLeftSkip(etag: string, s: nat)
    requires s < |etag| && IsBlank(etag[s])
    ensures TrimLeft(etag[s + 1..]) == TrimLeft(etag[s..])
  {
    assert etag[s..][1..] == etag[s + 1..];
  }

  lemma TrimLeftStop(etag: string, s: nat)
    requires s <= |etag| && (s == |etag| || !IsBlank(etag[s]))
    ensures TrimLeft(etag[s..]) == etag[s..] == etag[s..|etag|]
  {
  }

  lemma TrimRightSkip(etag: string, s: nat, e: nat)
    requires s < e <= |etag| && IsBlank(etag[e - 1])
    ensures TrimRight(etag[s..e - 1]) == TrimRight(etag[s..e])
  {
    assert etag[s..e][..e - 1 - s] == etag[s..e - 1];
  }

  lemma TrimRightStop(etag: string, s: nat, e: nat)
    requires s <= e <= |etag| && (s == e || !IsBlank(etag[e - 1]))
    ensures TrimRight(etag[s..e]) == etag[s..e]
  {
  }

  /** The quote test and the digits between the quotes, read off the
      bounds of the trimmed value. */
  lemma QuotedBounds(etag: string, s: nat, e: nat)
    requires s <= e <= |etag| && etag[s..e] == Trim(etag)
    ensures RevisionFromETag(etag)
         == if s + 1 < e && etag[s] == '"' && etag[e - 1] == '"' then ParseUInt(etag[s + 1..e - 1]) else 0
  {
    var t := Trim(etag);
    assert |t| == e - s;
    if s + 1 < e {
      assert t[0] == etag[s] && t[|t| - 1] == etag[e - 1];
      InnerOfSlice(etag, s, e);
    }
  }

  lemma InnerOfSlice(x: string, s: nat, e: nat)
    requires s + 1 < e <= |x|
    ensures x[s..e][1..e - s - 1] == x[s + 1..e - 1]
  {
    var y := x[s..e];
    var inner, direct := y[1..|y| - 1], x[s + 1..e - 1];
    assert |inner| == |direct|;
    forall i | 0 <= i < |inner|
      ensures inner[i] == direct[i]
    {
      assert inner[i] == y[i + 1] == x[s + i + 1];
    }
  }

  /** Reads the revision from the header when present, else from the URL
      parameter. */
  method ExtractRevision(request: Request, header: string, parameter: Option<string>) returns (rid: nat)
    ensures rid == ExtractRevisionSpec(request, header, parameter)
  {
    if header in request.headers {
      var etag := request.headers[header];
      var s, e := TrimBounds(etag);
      QuotedBounds(etag, s, e);
      if s + 1 < e && etag[s] == '"' && etag[e - 1] == '"' {
        rid := ParseUInt(etag[s + 1..e - 1]);
      } else {
        rid := 0;
      }
      return;
    }
    if parameter.None? {
      rid := 0;
    } else if parameter.value in request.values {
      rid := ParseUInt(request.values[parameter.value]);
    } else {
      rid := 0;
    }
  }

  /** A header value that is not wrapped in quotes after trimming, or is
      too short to hold two quotes, names no revision. */
  lemma UnquotedETagIsZero(etag: string)
    requires var t := Trim(etag); |t| < 2 || t[0] != '"' || t[|t| - 1] != '"'
    ensures RevisionFromETag(etag) == 0
  {
  }

  /** Surrounding blanks do not change the revision an ETag names. */
  lemma BlanksAroundETag(pre: string, etag: string, post: string)
    requires AllBlank(pre) && AllBlank(post)
    ensures RevisionFromETag(pre + etag + post) == RevisionFromETag(etag)
  {
    TrimIgnoresBlanks(pre, etag, post);
  }

  /** Trimming removes exactly the surrounding blanks. */
  lemma TrimIgnoresBlanks(pre: string, s: string, post: string)
    requires AllBlank(pre) && AllBlank(post)
    ensures Trim(pre + s + post) == Trim(s)
  {
    assert pre + s + post == pre + (s + post);
    TrimLeftBlanks(pre, s + post);
    TrimLeftAppend(s, post);
    TrimRightBlanks(TrimLeft(s), post);
  }

  lemma {:induction false} TrimLeftBlanks(pre: string, s: string)
    requires AllBlank(pre)
    ensures TrimLeft(pre + s) == TrimLeft(s)
  {
    if pre != [] {
      assert (pre + s)[1..] == pre[1..] + s;
      TrimLeftBlanks(pre[1..], s);
    } else {
      assert pre + s == s;
    }
  }

  lemma {:induction false} TrimRightBlanks(s: string, post: string)
    requires AllBlank(post)
    ensures TrimRight(s + post) == TrimRight(s)
  {
    if post != [] {
      assert (s + post)[..|s + post| - 1] == s + post[..|post| - 1];
      TrimRightBlanks(s, post[..|post| - 1]);
    } else {
      assert s + post == s;
    }
  }

  /** Left-trimming a string with blanks appended: either the string was all
      blank, or the appended blanks stay behind what is left of it. */
  lemma {:induction false} TrimLeftAppend(s: string, post: string)
    requires AllBlank(post)
    ensures TrimRight(TrimLeft(s + post)) == TrimRight(TrimLeft(s) + post)
  {
    if s != [] && IsBlank(s[0]) {
      assert (s + post)[1..] == s[1..] + post;
      TrimLeftAppend(s[1..], post);
    } else if s == [] {
      assert s + post == post;
      TrimLeftBlanks(post, []);
      assert post + [] == post;
      TrimRightBlanks([], post);
      assert [] + post == post;
    }
  }

  /** When the header is present the parameter is never consulted. */
  lemma HeaderWins(request: Request, header: string, parameter: Option<string>)
    requires header in request.headers
    ensures ExtractRevisionSpec(request, header, parameter)
         == ExtractRevisionSpec(request, header, None)
  {
  }

  // ---------------------------------------------------------------------------
  // Update policy and waitForSync.

  datatype UpdatePolicy = PolicyError | PolicyLastWrite | PolicyIllegal

  /** ASCII lower-casing. */
  function Lower(c: char): char {
    if 'A' <= c <= 'Z' then (c as int + 32) as char else c
  }

  predicate CaseEqual(a: string, b: string) {
    |a| == |b| && forall i :: 0 <= i < |a| ==> Lower(a[i]) == Lower(b[i])
  }

  /** The `policy` parameter: absent or "error" in any case means ERROR,
      "last" in any case means LAST_WRITE, anything else is ILLEGAL. */
  function ExtractUpdatePolicy(values: map<string, string>): (p: UpdatePolicy)
    ensures p == PolicyError <==> "policy" !in values || CaseEqual(values["policy"], "error")
    ensures p == PolicyLastWrite <==> "policy" in values && CaseEqual(values["policy"], "last")
    ensures p == PolicyIllegal <==>
              "policy" in values && !CaseEqual(values["policy"], "error") && !CaseEqual(values["policy"], "last")
  {
    if "policy" in values then
      if CaseEqual(values["policy"], "error") then PolicyError
      else if CaseEqual(values["policy"], "last") then PolicyLastWrite
      else PolicyIllegal
    else PolicyError
  }

  /** Two spellings of the policy that differ only in letter case select the
      same policy. */
  lemma PolicyIgnoresCase(values: map<string, string>, spelling: string)
    requires "policy" in values && CaseEqual(values["policy"], spelling)
    ensures ExtractUpdatePolicy(values) == ExtractUpdatePolicy(values["policy" := spelling])
  {
  }

  /** The `waitForSync` parameter read with the server's boolean parser;
      false when absent. */
  function ExtractWaitForSync(values: map<string, string>, boolean: string -> bool): (sync: bool)
    ensures "waitForSync" !in values ==> !sync
    ensures "waitForSync" in values ==> sync == boolean(values["waitForSync"])
  {
    if "waitForSync" in values then boolean(values["waitForSync"]) else false
  }

  // ---------------------------------------------------------------------------
  // Written documents.

  /** The handle of a document: collection id and key. */
  function Handle(cid: nat, key: string): string {
    Itoa(cid) + "/" + key
  }

  function Location(cid: nat, key: string): string {
    DocumentPath + "/" + Handle(cid, key)
  }

  function QuotedRevision(rid: nat): string {
    "\"" + Itoa(rid) + "\""
  }

  /** The reply to a document write: status, ETag and location headers and
      the JSON body. */
  datatype WriteReply = WriteReply(status: nat, contentType: string, etag: string, location: string, body: string)

  const Created := 201
  const Accepted := 202

  function DocumentWritten(status: nat, cid: nat, key: string, rid: nat): (r: WriteReply)
    ensures r.status == status
    ensures r.etag == QuotedRevision(rid)
    ensures r.location == Location(cid, key)
  {
    WriteReply(status, "application/json; charset=utf-8", QuotedRevision(rid), Location(cid, key),
      "{\"error\":false,\"_id\":\"" + Handle(cid, key) + "\",\"_rev\":" + Itoa(rid)
      + ",\"_key\":\"" + key + "\"}")
  }

  function GenerateCreated(cid: nat, key: string, rid: nat): (r: WriteReply)
    ensures r.status == 201
  {
    DocumentWritten(Created, cid, key, rid)
  }

  function GenerateAccepted(cid: nat, key: string, rid: nat): (r: WriteReply)
    ensures r.status == 202
  {
    DocumentWritten(Accepted, cid, key, rid)
  }

  /** Splits a handle at its first slash into a collection id and a key. */
  function ParseHandle(handle: string): (r: Option<(nat, string)>) {
    var i := FirstSlash(handle);
    if i < |handle| && i > 0 && AllDigits(handle[..i]) then Some((ValueOf(handle[..i]), handle[i + 1..]))
    else None
  }

  function FirstSlash(s: string): (i: nat)
    ensures i <= |s|
    ensures i < |s| ==> s[i] == '/'
    ensures forall k :: 0 <= k < i ==> s[k] != '/'
  {
    if s == [] then 0 else if s[0] == '/' then 0 else 1 + FirstSlash(s[1..])
  }

  lemma {:induction false} FirstSlashAt(s: string, i: nat)
    requires i < |s| && s[i] == '/'
    requires forall k :: 0 <= k < i ==> s[k] != '/'
    ensures FirstSlash(s) == i
  {
    if i > 0 {
      FirstSlashAt(s[1..], i - 1);
    }
  }

  /** A handle gives back the collection id and the key it was built from,
      whatever the key holds. */
  lemma HandleRoundTrip(cid: nat, key: string)
    ensures ParseHandle(Handle(cid, key)) == Some((cid, key))
  {
    var h := Handle(cid, key);
    var digits := Itoa(cid);
    assert h[|digits|] == '/';
    assert forall k :: 0 <= k < |digits| ==> h[k] == digits[k] && h[k] != '/';
    FirstSlashAt(h, |digits|);
    assert h[..|digits|] == digits;
    assert h[|digits| + 1..] == key;
    ValueOfItoa(cid);
  }

  /** The ETag of a written document, sent back in the header the revision
      is read from, names the revision that was written. */
  lemma ETagRoundTrip(cid: nat, key: string, rid: nat, header: string, parameter: Option<string>,
                      values: map<string, string>)
    ensures var reply := DocumentWritten(Created, cid, key, rid);
            ExtractRevisionSpec(Request(map[header := reply.etag], values), header, parameter) == rid
  {
    var q := QuotedRevision(rid);
    QuotedIsTrimmed(q);
    assert q[1..|q| - 1] == Itoa(rid);
    ParseItoa(rid);
  }

  // ---------------------------------------------------------------------------
  // Transaction errors.

  /** The error codes the mapping tells apart; `OtherError` stands for
      every other code, whatever its number. */
  datatype ErrorCode =
    | CollectionNotFound
    | ReadOnly
    | UniqueConstraintViolated
    | GeoIndexViolated
    | DocumentKeyBad
    | DocumentKeyUnexpected
    | DocumentNotFound
    | Conflict
    | OtherError

  /** The error number reported to the client: the original code, or the
      generic internal error. */
  datatype ReportedError = Code(code: ErrorCode) | Internal

  /** The document a precondition failure is about. */
  datatype DocumentRef = DocumentRef(id: string, rev: nat, key: string)

  datatype ErrorReply = ErrorReply(status: nat, errorNum: ReportedError, message: string, document: Option<DocumentRef>)

  function DocumentNotFoundReply(cid: nat, key: string): ErrorReply {
    ErrorReply(404, Code(DocumentNotFound), "document " + Location(cid, key) + " not found", None)
  }

  function PreconditionFailedReply(cid: nat, key: string, rid: nat): ErrorReply {
    ErrorReply(412, Code(Conflict), "precondition failed", Some(DocumentRef(Handle(cid, key), rid, key)))
  }

  /** The reply for a failed transaction. A missing key is reported as
      "unknown"; `errnoText` is the server's text for the code. */
  function TransactionError(collection: string, res: ErrorCode, cid: nat, key: Option<string>, rid: nat,
                            errnoText: string): (r: ErrorReply)
    ensures r.errorNum == Internal <==> res == OtherError
    ensures r.status == 412 <==> res == Conflict
  {
    var k := if key.Some? then key.value else "unknown";
    match res
    case CollectionNotFound =>
      if collection == "" then ErrorReply(400, Code(res), "no collection name specified", None)
      else ErrorReply(404, Code(res), "collection " + CollectionPath + "/" + collection + " not found", None)
    case ReadOnly => ErrorReply(403, Code(res), "collection is read-only", None)
    case UniqueConstraintViolated =>
      ErrorReply(409, Code(res), "cannot create document, unique constraint violated", None)
    case GeoIndexViolated => ErrorReply(400, Code(res), "geo constraint violated", None)
    case DocumentKeyBad => ErrorReply(400, Code(res), "invalid document key", None)
    case DocumentKeyUnexpected =>
      ErrorReply(400, Code(res), "collection does not allow using user-defined keys", None)
    case DocumentNotFound => DocumentNotFoundReply(cid, k)
    case Conflict => PreconditionFailedReply(cid, k, rid)
    case OtherError => ErrorReply(500, Internal, "failed with error: " + errnoText, None)
  }

  /** The status table: which codes give which HTTP status, and which error
      number is reported. */
  lemma TransactionErrorStatus(collection: string, res: ErrorCode, cid: nat, key: Option<string>, rid: nat,
                               errnoText: string)
    ensures var r := TransactionError(collection, res, cid, key, rid, errnoText);
            && (r.status == 400 <==>
                  (res == CollectionNotFound && collection == "")
                  || res == GeoIndexViolated || res == DocumentKeyBad || res == DocumentKeyUnexpected)
            && (r.status == 404 <==> (res == CollectionNotFound && collection != "") || res == DocumentNotFound)
            && (r.status == 403 <==> res == ReadOnly)
            && (r.status == 409 <==> res == UniqueConstraintViolated)
            && (r.status == 412 <==> res == Conflict)
            && (r.status == 500 <==> res.OtherError?)
            && r.errorNum == (if res.OtherError? then Internal else Code(res))
            && (r.document.Some? <==> res == Conflict)
  {
    match res
    case CollectionNotFound =>
    case ReadOnly =>
    case UniqueConstraintViolated =>
    case GeoIndexViolated =>
    case DocumentKeyBad =>
    case DocumentKeyUnexpected =>
    case DocumentNotFound =>
    case Conflict =>
    case OtherError =>
  }

  /** A document-not-found reply names the same location a successful write
      of that document reports. */
  lemma NotFoundNamesLocation(collection: string, cid: nat, key: string, rid: nat, errnoText: string)
    ensures TransactionError(collection, DocumentNotFound, cid, Some(key), rid, errnoText).message
         == "document " + DocumentWritten(Created, cid, key, rid).location + " not found"
  {
  }

  /** A precondition failure identifies the document by the handle a write
      reports and carries the revision given to it. */
  lemma ConflictNamesDocument(collection: string, cid: nat, key: string, rid: nat, errnoText: string)
    ensures var r := TransactionError(collection, Conflict, cid, Some(key), rid, errnoText);
            r.document == Some(DocumentRef(Handle(cid, key), rid, key))
            && ParseHandle(r.document.value.id) == Some((cid, key))
  {
    HandleRoundTrip(cid, key);
  }
}
