/** The `POST` handler of the send-email endpoint (src/app/api/send-email/route.ts):
    it validates a parsed multipart submission, resolves the recipient from the
    office table, composes the job-application mail and hands it to the mail
    transport. The transport and the environment are parameters; the handler's
    answer is an `Outcome`. */
module SendEmailRoute {
  import opened Common

  /** One multipart entry value (`FormDataEntryValue`): a text field or an uploaded file. */
  datatype Entry = Text(text: string) | Upload(file: FileRecord)

  /** The parsed multipart body, keyed by entry name and holding the FIRST entry
      under each name: `get(name)` returns that entry and `has(name)` asks whether
      there is one, so later entries under the same name are never observed. */
  type Form = map<string, Entry>

  /** What `request.formData()` yields: a body it cannot parse, or the parsed form. */
  datatype Request = Malformed | Multipart(form: Form)

  /** The environment the handler reads: `EMAIL_USER`, `EMAIL_PASSWORD` and `FALLBACK_EMAIL`. */
  datatype Config = Config(emailUser: Option<string>, emailPassword: Option<string>, fallbackEmail: Option<string>)

  /** How the mail transport behaves for this request: whether `verify()` resolves
      and whether `sendMail` resolves. */
  datatype Transport = Transport(verifies: bool, delivers: bool)

  /** One entry of `mailOptions.attachments`; the content bytes are opaque. */
  datatype Attachment = Attachment(filename: string, contentType: string)

  /** The `mailOptions` handed to `sendMail`. The mail text is `lines` joined by "\n";
      `to` is whatever JavaScript value the recipient lookup produced. */
  datatype Mail = Mail(from: string, to: JsValue, subject: string, lines: seq<string>, attachments: seq<Attachment>)

  /** The handler's answer:
      `Rejected`  - status 400 with body `{ error }`;
      `Failed`    - status 500 with body `{ error: FailureMessage }`, together with the
                    mail passed to `sendMail` when the failure happened there;
      `Delivered` - status 200 with body `{ success: true }` after `mail` was sent. */
  datatype Outcome =
    | Rejected(error: string)
    | Failed(attempted: Option<Mail>)
    | Delivered(mail: Mail)

  const FailureMessage: string := "Failed to process application"

  function Status(outcome: Outcome): int
  {
    match outcome
    case Rejected(_) => 400
    case Failed(_) => 500
    case Delivered(_) => 200
  }

  const LocationEmails: map<string, string> := map[
    "Bala Cynwyd Office" := "qwenton.balawejder@batp.org",
    "Philadelphia Office" := "samantha.power@batp.org",
    "South Philadelphia Satellite Office" := "williampower@batp.org"
  ]

  const RequiredFields: seq<string> := ["fullName", "email", "position", "location"]

  const RequiredDocuments: seq<string> := ["resume", "degree", "idProof"]

  /** The fixed order in which documents are attached and listed. */
  const DocumentTypes: seq<string> :=
    ["resume", "degree", "idProof", "experience", "certification1", "certification2", "other"]

  /** The labels of the seven "Documents Submitted" lines of the mail text, in `DocumentTypes` order. */
  const DocumentLabels: seq<string> :=
    ["Resume/CV", "Degree Certificate", "ID Proof", "Experience Certificates",
     "Certification 1", "Certification 2", "Other Document"]

  // ---------------------------------------------------------------------------
  // Reading the form with JavaScript's semantics
  // ---------------------------------------------------------------------------

  /** `formData.get(name)` is truthy: there is an entry and it is not the empty string. */
  predicate Present(form: Form, name: string)
  {
    name in form && form[name] != Text("")
  }

  /** The required document `doc` was attached as a file. */
  predicate Uploaded(form: Form, doc: string)
  {
    doc in form && form[doc].Upload?
  }

  /** An entry interpolated into a template string. */
  function Str(entry: Entry): string
  {
    match entry
    case Text(s) => s
    case Upload(_) => "[object File]"
  }

  /** `${formData.get(name)}`: a missing entry (`null`) renders as "null". */
  function Render(form: Form, name: string): string
  {
    if name in form then Str(form[name]) else "null"
  }

  // ---------------------------------------------------------------------------
  // Validation
  // ---------------------------------------------------------------------------

  /** The first of `fields` whose entry is falsy, if any. */
  function FirstMissingField(form: Form, fields: seq<string>): Option<string>
  {
    if fields == [] then None
    else if !Present(form, fields[0]) then Some(fields[0])
    else FirstMissingField(form, fields[1..])
  }

  /** `docs.filter(doc => !formData.has(doc))`, the required-document check as written. */
  function AbsentAmong(form: Form, docs: seq<string>): seq<string>
  {
    if docs == [] then []
    else (if docs[0] in form then [] else [docs[0]]) + AbsentAmong(form, docs[1..])
  }

  /** The documents among `docs` that were not attached as files, in `docs` order. */
  function MissingAmong(form: Form, docs: seq<string>): seq<string>
  {
    if docs == [] then []
    else (if Uploaded(form, docs[0]) then [] else [docs[0]]) + MissingAmong(form, docs[1..])
  }

  /** The handler's check: a required document counts as given when ANY entry has its name. */
  function MissingDocumentsAsWritten(form: Form): seq<string>
  {
    AbsentAmong(form, RequiredDocuments)
  }

  /** The corrected check: the required documents not attached as files. */
  function MissingDocuments(form: Form): seq<string>
  {
    MissingAmong(form, RequiredDocuments)
  }

  // ---------------------------------------------------------------------------
  // Recipient
  // ---------------------------------------------------------------------------

  /** The properties every plain object literal inherits from `Object.prototype`. */
  const ObjectPrototypeMembers: set<string> := {
    "constructor", "hasOwnProperty", "isPrototypeOf", "propertyIsEnumerable",
    "toLocaleString", "toString", "valueOf", "__proto__",
    "__defineGetter__", "__defineSetter__", "__lookupGetter__", "__lookupSetter__"
  }

  /** A JavaScript value as far as the recipient lookup can produce one. */
  datatype JsValue = JsString(s: string) | JsMember(name: string) | JsUndefined

  function ToJs(address: Option<string>): JsValue
  {
    match address
    case Some(a) => JsString(a)
    case None => JsUndefined
  }

  /** `LOCATION_EMAILS[location] || process.env.FALLBACK_EMAIL` as written: the lookup
      also finds the inherited members of the object literal, which are truthy. */
  function RecipientAsWritten(location: string, fallback: Option<string>): JsValue
  {
    if location in LocationEmails then JsString(LocationEmails[location])
    else if location in ObjectPrototypeMembers then JsMember(location)
    else ToJs(fallback)
  }

  /** The corrected lookup: the office's address, or the fallback for every other
      location string. */
  function Recipient(location: string, fallback: Option<string>): Option<string>
  {
    if location in LocationEmails then Some(LocationEmails[location]) else fallback
  }

  // ---------------------------------------------------------------------------
  // Composition
  // ---------------------------------------------------------------------------

  /** Both `EMAIL_USER` and `EMAIL_PASSWORD` are set and non-empty. */
  predicate Configured(config: Config)
  {
    config.emailUser.Some? && config.emailUser.value != "" &&
    config.emailPassword.Some? && config.emailPassword.value != ""
  }

  function From(config: Config): string
  {
    "\"Job Applications\" <" + (match config.emailUser case Some(u) => u case None => "undefined") + ">"
  }

  function Subject(form: Form): string
  {
    "New Application for " + Render(form, "position") + " - " + Render(form, "location")
  }

  function YesNo(b: bool): string
  {
    if b then "Yes" else "No"
  }

  /** One "Documents Submitted" line: `- <name>: Yes` or `- <name>: No`. */
  function DocumentLine(name: string, present: bool): string
  {
    "- " + name + ": " + YesNo(present)
  }

  /** The applicant's details: the mail text up to the "Documents Submitted:" heading. */
  function DetailLines(form: Form): seq<string>
  {
    [ "",
      "Job Application Details:",
      "",
      "Candidate Name: " + Render(form, "fullName"),
      "Email: " + Render(form, "email"),
      "Phone: " + (if Present(form, "phone") then Render(form, "phone") else "Not provided"),
      "Position: " + Render(form, "position"),
      "Location: " + Render(form, "location"),
      "",
      "Documents Submitted:" ]
  }

  /** The seven "Documents Submitted" lines; each asks `formData.has` for its kind. */
  function DocumentLines(form: Form): seq<string>
  {
    seq(|DocumentTypes|, i requires 0 <= i < |DocumentTypes| =>
      DocumentLine(DocumentLabels[i], DocumentTypes[i] in form))
  }

  /** The mail text, line by line, as the template literal spells it (it opens with
      a line break and closes with the indentation before the closing backtick). */
  function BodyLines(form: Form): seq<string>
  {
    DetailLines(form) + DocumentLines(form) + ["      "]
  }

  /** `mailOptions` as the handler builds it. */
  function Compose(form: Form, config: Config, attachments: seq<Attachment>): Mail
  {
    Mail(From(config), RecipientAsWritten(Render(form, "location"), config.fallbackEmail),
         Subject(form), BodyLines(form), attachments)
  }

  /** `mailOptions` with the corrected recipient lookup. */
  function ComposeCorrected(form: Form, config: Config, attachments: seq<Attachment>): Mail
  {
    Compose(form, config, attachments).(to := ToJs(Recipient(Render(form, "location"), config.fallbackEmail)))
  }

  /** What one pass of the attachment loop does with the entry under `docType`. */
  datatype Step = Skip | Add(attachment: Attachment) | Abort

  /** A falsy entry is skipped; a file is attached as `docType_name`; a non-empty
      text entry has no `arrayBuffer()`, so reading it throws. */
  function AttachmentStep(form: Form, docType: string): Step
  {
    if docType !in form then Skip
    else match form[docType]
      case Upload(f) => Add(Attachment(docType + "_" + f.name, f.mediaType))
      case Text(s) => if s == "" then Skip else Abort
  }

  /** The attachment list the loop builds over `docTypes`, or None when it throws. */
  function Attachments(form: Form, docTypes: seq<string>): Option<seq<Attachment>>
    decreases |docTypes|
  {
    if docTypes == [] then Some([])
    else
      match Attachments(form, docTypes[..|docTypes| - 1])
      case None => None
      case Some(init) =>
        match AttachmentStep(form, docTypes[|docTypes| - 1])
        case Skip => Some(init)
        case Add(a) => Some(init + [a])
        case Abort => None
  }

  /** The positions in `docTypes` that hold an uploaded file, in increasing order. */
  ghost function UploadIndices(form: Form, docTypes: seq<string>): seq<nat>
    decreases |docTypes|
  {
    if docTypes == [] then []
    else
      var init := UploadIndices(form, docTypes[..|docTypes| - 1]);
      if Uploaded(form, docTypes[|docTypes| - 1]) then init + [|docTypes| - 1] else init
  }

  // ---------------------------------------------------------------------------
  // The handler
  // ---------------------------------------------------------------------------

  /** The handler's answer, as a function of the parsed request, the environment
      and the transport's behaviour. */
  function Handle(request: Request, config: Config, transport: Transport): Outcome
  {
    Respond(request, config, transport, false)
  }

  /** The handler with both findings below corrected: a required document must
      arrive as a file, and only the office table's own entries name a recipient. */
  function HandleCorrected(request: Request, config: Config, transport: Transport): Outcome
  {
    Respond(request, config, transport, true)
  }

  /** The steps of the handler, with the document check and the recipient lookup
      as written or, when `corrected`, as corrected. */
  function Respond(request: Request, config: Config, transport: Transport, corrected: bool): Outcome
  {
    match request
    case Malformed => Failed(None)
    case Multipart(form) =>
      var missing := if corrected then MissingDocuments(form) else MissingDocumentsAsWritten(form);
      match FirstMissingField(form, RequiredFields)
      case Some(field) => Rejected("Missing required field: " + field)
      case None =>
        if missing != [] then Rejected("Missing required documents: " + Join(missing, ", "))
        else if !Configured(config) || !transport.verifies then Failed(None)
        else
          match Attachments(form, DocumentTypes)
          case None => Failed(None)
          case Some(attachments) =>
            var mail := if corrected then ComposeCorrected(form, config, attachments)
                        else Compose(form, config, attachments);
            if transport.delivers then Delivered(mail) else Failed(Some(mail))
  }

  /** The attachment loop of `POST`: for each document type in order, a file entry is
      pushed as `docType_name`, a falsy entry is skipped, and a non-empty text entry
      throws when its bytes are read. */
  method CollectAttachments(form: Form, docTypes: seq<string>) returns (attachments: Option<seq<Attachment>>)
    ensures attachments == Attachments(form, docTypes)
  {
    var pushed: seq<Attachment> := [];
    var k := 0;
    while k < |docTypes|
      invariant 0 <= k <= |docTypes|
      invariant Attachments(form, docTypes[..k]) == Some(pushed)
    {
      var docType := docTypes[k];
      assert docTypes[..k + 1][..k] == docTypes[..k];
      if docType in form {
        match form[docType]
        case Upload(file) =>
          pushed := pushed + [Attachment(docType + "_" + file.name, file.mediaType)];
        case Text(s) =>
          if s != "" {
            AttachmentsAbortExactly(form, docTypes);
            return None;
          }
      }
      k := k + 1;
    }
    assert docTypes[..k] == docTypes;
    return Some(pushed);
  }

  /** `POST`: the required-field loop returns on the first falsy field; the
      attachments are collected in `DocumentTypes` order into `mailOptions`. */
  method Post(request: Request, config: Config, transport: Transport) returns (outcome: Outcome)
    ensures outcome == Handle(request, config, transport)
  {
    if request.Malformed? {
      return Failed(None);
    }
    var form := request.form;

    var i := 0;
    while i < |RequiredFields|
      invariant 0 <= i <= |RequiredFields|
      invariant FirstMissingField(form, RequiredFields) == FirstMissingField(form, RequiredFields[i..])
    {
      var field := RequiredFields[i];
      if !Present(form, field) {
        return Rejected("Missing required field: " + field);
      }
      assert RequiredFields[i..][1..] == RequiredFields[i + 1..];
      i := i + 1;
    }

    var missingDocuments := MissingDocumentsAsWritten(form);
    if |missingDocuments| > 0 {
      return Rejected("Missing required documents: " + Join(missingDocuments, ", "));
    }

    if !Configured(config) {
      return Failed(None);
    }
    if !transport.verifies {
      return Failed(None);
    }

    var mailOptions := Compose(form, config, []);
    var attachments := CollectAttachments(form, DocumentTypes);
    if attachments.None? {
      return Failed(None);
    }
    mailOptions := mailOptions.(attachments := attachments.value);

    if !transport.delivers {
      return Failed(Some(mailOptions));
    }
    return Delivered(mailOptions);
  }

  // ---------------------------------------------------------------------------
  // Required fields
  // ---------------------------------------------------------------------------

  /** No field is reported exactly when every field is present. */
  lemma {:induction false} NoMissingField(form: Form, fields: seq<string>)
    ensures FirstMissingField(form, fields) == None <==>
            forall j :: 0 <= j < |fields| ==> Present(form, fields[j])
  {
    if fields != [] {
      NoMissingField(form, fields[1..]);
      if FirstMissingField(form, fields) == None {
        forall j | 0 <= j < |fields| ensures Present(form, fields[j]) {
          if j > 0 { assert fields[j] == fields[1..][j - 1]; }
        }
      } else if Present(form, fields[0]) {
        var j :| 0 <= j < |fields[1..]| && !Present(form, fields[1..][j]);
        assert fields[1..][j] == fields[j + 1];
      }
    }
  }

  /** The field reported is the first absent or empty one in list order. */
  lemma {:induction false} FirstMissingFieldAt(form: Form, fields: seq<string>, i: nat)
    requires i < |fields| && !Present(form, fields[i])
    requires forall j :: 0 <= j < i ==> Present(form, fields[j])
    ensures FirstMissingField(form, fields) == Some(fields[i])
  {
    if i > 0 {
      forall j | 0 <= j < i - 1 ensures Present(form, fields[1..][j]) {
        assert fields[1..][j] == fields[j + 1];
      }
      FirstMissingFieldAt(form, fields[1..], i - 1);
    }
  }

  /** The first absent or empty required field (in the order fullName, email,
      position, location) is the whole answer: a 400 naming only that field,
      whatever the documents, the environment or the transport. */
  lemma MissingFieldRejected(form: Form, config: Config, transport: Transport, i: nat)
    requires i < |RequiredFields| && !Present(form, RequiredFields[i])
    requires forall j :: 0 <= j < i ==> Present(form, RequiredFields[j])
    ensures Handle(Multipart(form), config, transport) == Rejected("Missing required field: " + RequiredFields[i])
    ensures Status(Handle(Multipart(form), config, transport)) == 400
    ensures HandleCorrected(Multipart(form), config, transport) == Handle(Multipart(form), config, transport)
  {
    FirstMissingFieldAt(form, RequiredFields, i);
  }

  // ---------------------------------------------------------------------------
  // Required documents
  // ---------------------------------------------------------------------------

  /** As written, a document is reported exactly when it is one of `docs` and no
      entry of any kind has its name. */
  lemma {:induction false} AbsentAmongMembers(form: Form, docs: seq<string>, doc: string)
    ensures doc in AbsentAmong(form, docs) <==> doc in docs && doc !in form
  {
    if docs != [] {
      AbsentAmongMembers(form, docs[1..], doc);
      assert docs == [docs[0]] + docs[1..];
    }
  }

  /** Corrected, a document is reported exactly when it is one of `docs` and was not
      attached as a file. */
  lemma {:induction false} MissingAmongMembers(form: Form, docs: seq<string>, doc: string)
    ensures doc in MissingAmong(form, docs) <==> doc in docs && !Uploaded(form, doc)
  {
    if docs != [] {
      MissingAmongMembers(form, docs[1..], doc);
      assert docs == [docs[0]] + docs[1..];
    }
  }

  /** Both checks list the missing documents in the order resume, degree, idProof. */
  lemma MissingDocumentsInOrder(form: Form)
    ensures MissingDocumentsAsWritten(form) ==
              (if "resume" in form then [] else ["resume"]) +
              (if "degree" in form then [] else ["degree"]) +
              (if "idProof" in form then [] else ["idProof"])
    ensures MissingDocuments(form) ==
              (if Uploaded(form, "resume") then [] else ["resume"]) +
              (if Uploaded(form, "degree") then [] else ["degree"]) +
              (if Uploaded(form, "idProof") then [] else ["idProof"])
  {
    var docs := RequiredDocuments;
    assert docs[1..] == ["degree", "idProof"] && docs[1..][1..] == ["idProof"] && docs[1..][1..][1..] == [];
    assert AbsentAmong(form, ["idProof"]) == (if "idProof" in form then [] else ["idProof"]);
    assert AbsentAmong(form, ["degree", "idProof"]) ==
           (if "degree" in form then [] else ["degree"]) + AbsentAmong(form, ["idProof"]);
    assert MissingAmong(form, ["idProof"]) == (if Uploaded(form, "idProof") then [] else ["idProof"]);
    assert MissingAmong(form, ["degree", "idProof"]) ==
           (if Uploaded(form, "degree") then [] else ["degree"]) + MissingAmong(form, ["idProof"]);
  }

  /** With every required field present, the documents are checked as a whole: one
      400 listing, joined by ", ", every required document under whose name no entry
      arrived. */
  lemma MissingDocumentsRejected(form: Form, config: Config, transport: Transport)
    requires forall j :: 0 <= j < |RequiredFields| ==> Present(form, RequiredFields[j])
    requires exists d :: d in RequiredDocuments && d !in form
    ensures Handle(Multipart(form), config, transport) ==
            Rejected("Missing required documents: " + Join(MissingDocumentsAsWritten(form), ", "))
    ensures forall d :: d in MissingDocumentsAsWritten(form) <==> d in RequiredDocuments && d !in form
  {
    NoMissingField(form, RequiredFields);
    forall d ensures d in MissingDocumentsAsWritten(form) <==> d in RequiredDocuments && d !in form {
      AbsentAmongMembers(form, RequiredDocuments, d);
    }
    var d :| d in RequiredDocuments && d !in form;
    assert d in MissingDocumentsAsWritten(form);
  }

  /** The corrected handler also rejects a required document that arrived as text,
      listing every required document not attached as a file. */
  lemma MissingDocumentsRejectedCorrected(form: Form, config: Config, transport: Transport)
    requires forall j :: 0 <= j < |RequiredFields| ==> Present(form, RequiredFields[j])
    requires exists d :: d in RequiredDocuments && !Uploaded(form, d)
    ensures HandleCorrected(Multipart(form), config, transport) ==
            Rejected("Missing required documents: " + Join(MissingDocuments(form), ", "))
    ensures forall d :: d in MissingDocuments(form) <==> d in RequiredDocuments && !Uploaded(form, d)
  {
    NoMissingField(form, RequiredFields);
    forall d ensures d in MissingDocuments(form) <==> d in RequiredDocuments && !Uploaded(form, d) {
      MissingAmongMembers(form, RequiredDocuments, d);
    }
    var d :| d in RequiredDocuments && !Uploaded(form, d);
    assert d in MissingDocuments(form);
  }

  /** A concrete case: with no resume and no idProof entry, both are named. */
  lemma ResumeAndIdProofMissing(form: Form, config: Config, transport: Transport)
    requires forall j :: 0 <= j < |RequiredFields| ==> Present(form, RequiredFields[j])
    requires "resume" !in form && "degree" in form && "idProof" !in form
    ensures Handle(Multipart(form), config, transport) ==
            Rejected("Missing required documents: resume, idProof")
  {
    MissingDocumentsInOrder(form);
    assert MissingDocumentsAsWritten(form) == ["resume", "idProof"];
    assert "resume" in RequiredDocuments;
    MissingDocumentsRejected(form, config, transport);
    ResumeAndIdProofMessage();
  }

  lemma ResumeAndIdProofMessage()
    ensures "Missing required documents: " + Join(["resume", "idProof"], ", ") ==
            "Missing required documents: resume, idProof"
  {
    assert Join(["resume", "idProof"], ", ") == "resume" + ", " + "idProof";
  }

  // ---------------------------------------------------------------------------
  // Attachments
  // ---------------------------------------------------------------------------

  lemma {:induction false} UploadIndicesBelow(form: Form, docTypes: seq<string>)
    ensures |UploadIndices(form, docTypes)| <= |docTypes|
    ensures forall i :: 0 <= i < |UploadIndices(form, docTypes)| ==> UploadIndices(form, docTypes)[i] < |docTypes|
    decreases |docTypes|
  {
    if docTypes != [] {
      UploadIndicesBelow(form, docTypes[..|docTypes| - 1]);
    }
  }

  /** One more pass of the attachment loop. */
  lemma AttachmentsExtend(form: Form, docTypes: seq<string>, k: nat)
    requires k < |docTypes|
    ensures Attachments(form, docTypes[..k + 1]) ==
            match Attachments(form, docTypes[..k])
            case None => None
            case Some(init) =>
              match AttachmentStep(form, docTypes[k])
              case Skip => Some(init)
              case Add(a) => Some(init + [a])
              case Abort => None
  {
    assert docTypes[..k + 1][..k] == docTypes[..k];
  }

  /** The attachment loop throws exactly when some document type carries a
      non-empty text entry instead of a file. */
  lemma {:induction false} AttachmentsAbortExactly(form: Form, docTypes: seq<string>)
    ensures Attachments(form, docTypes) == None <==>
            exists k :: 0 <= k < |docTypes| && docTypes[k] in form &&
                        form[docTypes[k]].Text? && form[docTypes[k]].text != ""
    decreases |docTypes|
  {
    if docTypes != [] {
      var n := |docTypes| - 1;
      var init := docTypes[..n];
      AttachmentsAbortExactly(form, init);
      if exists k :: 0 <= k < |init| && init[k] in form && form[init[k]].Text? && form[init[k]].text != "" {
        var k :| 0 <= k < |init| && init[k] in form && form[init[k]].Text? && form[init[k]].text != "";
        assert docTypes[k] == init[k];
      }
      if exists k :: 0 <= k < |docTypes| && docTypes[k] in form && form[docTypes[k]].Text? && form[docTypes[k]].text != "" {
        var k :| 0 <= k < |docTypes| && docTypes[k] in form && form[docTypes[k]].Text? && form[docTypes[k]].text != "";
        if k < n { assert init[k] == docTypes[k]; }
      }
    }
  }

  /** The attachments are exactly the uploaded document types, in `docTypes` order,
      each named `docType + "_" + file.name` with the file's media type. */
  lemma {:induction false} AttachmentsFollowDocumentOrder(form: Form, docTypes: seq<string>, attachments: seq<Attachment>)
    requires Attachments(form, docTypes) == Some(attachments)
    ensures |attachments| == |UploadIndices(form, docTypes)| <= |docTypes|
    ensures forall i :: 0 <= i < |attachments| ==>
              UploadIndices(form, docTypes)[i] < |docTypes| &&
              Uploaded(form, docTypes[UploadIndices(form, docTypes)[i]]) &&
              attachments[i] ==
                Attachment(docTypes[UploadIndices(form, docTypes)[i]] + "_" +
                             form[docTypes[UploadIndices(form, docTypes)[i]]].file.name,
                           form[docTypes[UploadIndices(form, docTypes)[i]]].file.mediaType)
    ensures forall i, j :: 0 <= i < j < |attachments| ==>
              UploadIndices(form, docTypes)[i] < UploadIndices(form, docTypes)[j]
    ensures forall k :: 0 <= k < |docTypes| && Uploaded(form, docTypes[k]) ==>
              k in UploadIndices(form, docTypes)
    decreases |docTypes|
  {
    UploadIndicesBelow(form, docTypes);
    if docTypes != [] {
      var n := |docTypes| - 1;
      var init := docTypes[..n];
      var initAttachments := Attachments(form, init).value;
      AttachmentsFollowDocumentOrder(form, init, initAttachments);
      UploadIndicesBelow(form, init);
      var idx0 := UploadIndices(form, init);
      var idx := UploadIndices(form, docTypes);
      assert forall i :: 0 <= i < |idx0| ==> init[idx0[i]] == docTypes[idx0[i]];
      forall k | 0 <= k < |docTypes| && Uploaded(form, docTypes[k]) ensures k in idx {
        if k < n { assert init[k] == docTypes[k]; }
      }
    }
  }

  // ---------------------------------------------------------------------------
  // The mail
  // ---------------------------------------------------------------------------

  /** A mail-text line that starts with "- ". */
  predicate IsListLine(line: string)
  {
    |line| >= 2 && line[0] == '-' && line[1] == ' '
  }

  /** The mail text has seven document lines, one per document type in the fixed
      order, each "Yes" exactly when the form has an entry of that name. */
  lemma DocumentLinesMatchKinds(form: Form)
    ensures |BodyLines(form)| == 18
    ensures forall i :: 0 <= i < |DocumentTypes| ==>
              BodyLines(form)[10 + i] == DocumentLine(DocumentLabels[i], DocumentTypes[i] in form)
  {
    var docs := DocumentLines(form);
    assert |DetailLines(form)| == 10 && |docs| == 7;
    forall i | 0 <= i < |DocumentTypes|
      ensures BodyLines(form)[10 + i] == DocumentLine(DocumentLabels[i], DocumentTypes[i] in form)
    {
      assert BodyLines(form)[10 + i] == docs[i];
    }
  }

  /** Whatever the applicant typed, exactly those seven lines start with "- ". */
  lemma OnlyDocumentLinesAreListLines(form: Form, j: nat)
    requires j < |BodyLines(form)|
    ensures IsListLine(BodyLines(form)[j]) <==> 10 <= j < 17
  {
    var lines := BodyLines(form);
    DocumentLinesMatchKinds(form);
    if j < 10 {
      assert |DetailLines(form)| == 10;
      assert lines[j] == DetailLines(form)[j];
      DetailLineNotListLine(form, j);
    } else if j < 17 {
      DocumentLineIsListLine(DocumentLabels[j - 10], DocumentTypes[j - 10] in form);
    } else {
      assert |DetailLines(form) + DocumentLines(form)| == 17;
      assert lines[j] == "      ";
    }
  }

  lemma DocumentLineIsListLine(name: string, present: bool)
    ensures IsListLine(DocumentLine(name, present))
  {
    assert DocumentLine(name, present)[..2] == "- ";
  }

  lemma DetailLineNotListLine(form: Form, j: nat)
    requires j < 10
    ensures |DetailLines(form)| == 10 && !IsListLine(DetailLines(form)[j])
  {
    var d := DetailLines(form);
    if j == 3 { assert d[j][0] == 'C'; }
    else if j == 4 { assert d[j][0] == 'E'; }
    else if j == 5 { assert d[j][0] == 'P'; }
    else if j == 6 { assert d[j][0] == 'P'; }
    else if j == 7 { assert d[j][0] == 'L'; }
  }

  /** The subject interpolates the position and the location; an absent or empty
      phone renders as "Not provided". */
  lemma SubjectAndPhone(form: Form, config: Config, attachments: seq<Attachment>)
    ensures Compose(form, config, attachments).subject ==
            "New Application for " + Render(form, "position") + " - " + Render(form, "location")
    ensures !Present(form, "phone") ==> Compose(form, config, attachments).lines[5] == "Phone: Not provided"
    ensures forall p :: "phone" in form && form["phone"] == Text(p) && p != "" ==>
              Compose(form, config, attachments).lines[5] == "Phone: " + p
  {
    var mail := Compose(form, config, attachments);
    assert mail.subject == Subject(form);
    assert mail.lines == BodyLines(form);
    PhoneLine(form);
  }

  /** The sixth line of the mail text shows the phone, or "Not provided". */
  lemma PhoneLine(form: Form)
    ensures BodyLines(form)[5] == "Phone: " + (if Present(form, "phone") then Render(form, "phone") else "Not provided")
  {
    assert |DetailLines(form)| == 10;
    assert BodyLines(form)[5] == DetailLines(form)[5];
  }

  // ---------------------------------------------------------------------------
  // Outcomes
  // ---------------------------------------------------------------------------

  /** A submission is delivered exactly when every required field is present, an
      entry arrived under every required document name, the environment is
      configured, the transport verifies and delivers, and no non-empty text entry
      stands in for a document; the mail sent is then the one composed from the form. */
  lemma DeliveredExactly(form: Form, config: Config, transport: Transport, mail: Mail)
    ensures Handle(Multipart(form), config, transport) == Delivered(mail) <==>
            (forall j :: 0 <= j < |RequiredFields| ==> Present(form, RequiredFields[j])) &&
            (forall d :: d in RequiredDocuments ==> d in form) &&
            Configured(config) && transport.verifies && transport.delivers &&
            Attachments(form, DocumentTypes).Some? &&
            mail == Compose(form, config, Attachments(form, DocumentTypes).value)
  {
    NoMissingField(form, RequiredFields);
    forall d ensures d in MissingDocumentsAsWritten(form) <==> d in RequiredDocuments && d !in form {
      AbsentAmongMembers(form, RequiredDocuments, d);
    }
    if MissingDocumentsAsWritten(form) != [] {
      assert MissingDocumentsAsWritten(form)[0] in MissingDocumentsAsWritten(form);
    }
  }

  /** Corrected, a submission is delivered only with every required document attached
      as a file, and the mail goes to the corrected recipient. */
  lemma DeliveredExactlyCorrected(form: Form, config: Config, transport: Transport, mail: Mail)
    ensures HandleCorrected(Multipart(form), config, transport) == Delivered(mail) <==>
            (forall j :: 0 <= j < |RequiredFields| ==> Present(form, RequiredFields[j])) &&
            (forall d :: d in RequiredDocuments ==> Uploaded(form, d)) &&
            Configured(config) && transport.verifies && transport.delivers &&
            Attachments(form, DocumentTypes).Some? &&
            mail == ComposeCorrected(form, config, Attachments(form, DocumentTypes).value)
  {
    NoMissingField(form, RequiredFields);
    forall d ensures d in MissingDocuments(form) <==> d in RequiredDocuments && !Uploaded(form, d) {
      MissingAmongMembers(form, RequiredDocuments, d);
    }
    if MissingDocuments(form) != [] {
      assert MissingDocuments(form)[0] in MissingDocuments(form);
    }
  }

  /** Without both credentials, or when the transport cannot be verified, a valid
      submission gets the generic 500 and no mail is handed to the transport. */
  lemma UnconfiguredFails(form: Form, config: Config, transport: Transport)
    requires forall j :: 0 <= j < |RequiredFields| ==> Present(form, RequiredFields[j])
    requires forall d :: d in RequiredDocuments ==> d in form
    requires !Configured(config) || !transport.verifies
    ensures Handle(Multipart(form), config, transport) == Failed(None)
    ensures Status(Handle(Multipart(form), config, transport)) == 500
  {
    NoMissingField(form, RequiredFields);
    MissingDocumentsInOrder(form);
  }

  /** A non-empty text entry under a document name passes the document check but has
      no bytes to read: the attachment loop throws, and the answer is the generic 500
      with no mail handed to the transport. */
  lemma TextDocumentFails(form: Form, config: Config, transport: Transport, k: nat)
    requires forall j :: 0 <= j < |RequiredFields| ==> Present(form, RequiredFields[j])
    requires forall d :: d in RequiredDocuments ==> d in form
    requires Configured(config) && transport.verifies
    requires k < |DocumentTypes| && DocumentTypes[k] in form
    requires form[DocumentTypes[k]].Text? && form[DocumentTypes[k]].text != ""
    ensures Handle(Multipart(form), config, transport) == Failed(None)
  {
    NoMissingField(form, RequiredFields);
    MissingDocumentsInOrder(form);
    AttachmentsAbortExactly(form, DocumentTypes);
  }

  /** A delivered mail goes to the office named by a text `location` entry; a
      location naming a member every object inherits yields that member; every other
      location gets the fallback address. The mail carries at most seven attachments. */
  lemma DeliveredRecipient(form: Form, config: Config, transport: Transport, mail: Mail, location: string)
    requires Handle(Multipart(form), config, transport) == Delivered(mail)
    requires "location" in form && form["location"] == Text(location)
    ensures location in LocationEmails ==> mail.to == JsString(LocationEmails[location])
    ensures location in ObjectPrototypeMembers ==> mail.to == JsMember(location)
    ensures location !in LocationEmails && location !in ObjectPrototypeMembers ==>
              mail.to == ToJs(config.fallbackEmail)
    ensures |mail.attachments| <= |DocumentTypes|
  {
    DeliveredExactly(form, config, transport, mail);
    AttachmentsFollowDocumentOrder(form, DocumentTypes, mail.attachments);
    assert Render(form, "location") == location;
    RecipientAsWrittenCases(location, config.fallbackEmail);
  }

  /** The three cases of the lookup as written; no office name is an inherited member. */
  lemma RecipientAsWrittenCases(location: string, fallback: Option<string>)
    ensures location in LocationEmails ==> RecipientAsWritten(location, fallback) == JsString(LocationEmails[location])
    ensures location in ObjectPrototypeMembers ==> RecipientAsWritten(location, fallback) == JsMember(location)
    ensures location !in LocationEmails && location !in ObjectPrototypeMembers ==>
              RecipientAsWritten(location, fallback) == ToJs(fallback)
  {
  }

  /** The submission of the end-to-end case below. */
  predicate IsJaneDoeForm(form: Form, resume: FileRecord, degree: FileRecord, idProof: FileRecord)
  {
    form == map[
      "fullName" := Text("Jane Doe"), "email" := Text("jane@x.com"),
      "position" := Text("RBT"), "location" := Text("Bala Cynwyd Office"),
      "resume" := Upload(resume), "degree" := Upload(degree), "idProof" := Upload(idProof)]
  }

  /** Its attachments: the three required documents, in order. */
  lemma JaneDoeAttachments(form: Form, resume: FileRecord, degree: FileRecord, idProof: FileRecord)
    requires IsJaneDoeForm(form, resume, degree, idProof)
    ensures Attachments(form, DocumentTypes) ==
              Some([Attachment("resume" + "_" + resume.name, resume.mediaType),
                    Attachment("degree" + "_" + degree.name, degree.mediaType),
                    Attachment("idProof" + "_" + idProof.name, idProof.mediaType)])
  {
    var r := Attachment("resume" + "_" + resume.name, resume.mediaType);
    var d := Attachment("degree" + "_" + degree.name, degree.mediaType);
    var p := Attachment("idProof" + "_" + idProof.name, idProof.mediaType);
    assert DocumentTypes[..0] == [];
    assert Attachments(form, DocumentTypes[..0]) == Some([]);
    assert AttachmentStep(form, DocumentTypes[0]) == Add(r);
    AttachmentsExtend(form, DocumentTypes, 0);
    assert [] + [r] == [r];
    assert AttachmentStep(form, DocumentTypes[1]) == Add(d);
    AttachmentsExtend(form, DocumentTypes, 1);
    assert AttachmentStep(form, DocumentTypes[2]) == Add(p);
    AttachmentsExtend(form, DocumentTypes, 2);
    assert [r] + [d] == [r, d] && [r, d] + [p] == [r, d, p];
    assert Attachments(form, DocumentTypes[..3]) == Some([r, d, p]);
    assert AttachmentStep(form, DocumentTypes[3]) == Skip;
    AttachmentsExtend(form, DocumentTypes, 3);
    assert AttachmentStep(form, DocumentTypes[4]) == Skip;
    AttachmentsExtend(form, DocumentTypes, 4);
    assert AttachmentStep(form, DocumentTypes[5]) == Skip;
    AttachmentsExtend(form, DocumentTypes, 5);
    assert AttachmentStep(form, DocumentTypes[6]) == Skip;
    AttachmentsExtend(form, DocumentTypes, 6);
    assert DocumentTypes[..7] == DocumentTypes;
  }

  /** The end-to-end case: three required documents, no optional ones, the Bala
      Cynwyd office. The mail is delivered to that office with three attachments and
      the document lines Yes, Yes, Yes, No, No, No, No. */
  lemma JaneDoeScenario(form: Form, resume: FileRecord, degree: FileRecord, idProof: FileRecord,
                        config: Config)
    requires IsJaneDoeForm(form, resume, degree, idProof)
    requires Configured(config)
    ensures Handle(Multipart(form), config, Transport(true, true)).Delivered?
    ensures var mail := Handle(Multipart(form), config, Transport(true, true)).mail;
            mail.to == JsString("qwenton.balawejder@batp.org") &&
            mail.attachments ==
              [Attachment("resume" + "_" + resume.name, resume.mediaType),
               Attachment("degree" + "_" + degree.name, degree.mediaType),
               Attachment("idProof" + "_" + idProof.name, idProof.mediaType)] &&
            forall i :: 0 <= i < |DocumentTypes| ==>
              mail.lines[10 + i] == DocumentLine(DocumentLabels[i], i < |RequiredDocuments|)
  {
    JaneDoeAttachments(form, resume, degree, idProof);
    var mail := Compose(form, config, Attachments(form, DocumentTypes).value);
    JaneDoeValid(form, resume, degree, idProof);
    DeliveredExactly(form, config, Transport(true, true), mail);
    JaneDoeMail(form, resume, degree, idProof, config, mail.attachments);
  }

  /** The worked case fills in every required field and uploads every required document. */
  lemma JaneDoeValid(form: Form, resume: FileRecord, degree: FileRecord, idProof: FileRecord)
    requires IsJaneDoeForm(form, resume, degree, idProof)
    ensures forall j :: 0 <= j < |RequiredFields| ==> Present(form, RequiredFields[j])
    ensures forall d :: d in RequiredDocuments ==> Uploaded(form, d)
  {
    forall j | 0 <= j < |RequiredFields| ensures Present(form, RequiredFields[j]) {
      assert RequiredFields[j] in form;
    }
  }

  /** The recipient and the document lines of the worked case, whatever its attachments. */
  lemma JaneDoeMail(form: Form, resume: FileRecord, degree: FileRecord, idProof: FileRecord,
                    config: Config, attachments: seq<Attachment>)
    requires IsJaneDoeForm(form, resume, degree, idProof)
    ensures Compose(form, config, attachments).to == JsString("qwenton.balawejder@batp.org")
    ensures forall i :: 0 <= i < |DocumentTypes| ==>
              Compose(form, config, attachments).lines[10 + i] == DocumentLine(DocumentLabels[i], i < |RequiredDocuments|)
  {
    var mail := Compose(form, config, attachments);
    assert mail.lines == BodyLines(form);
    assert Render(form, "location") == "Bala Cynwyd Office";
    assert mail.to == RecipientAsWritten("Bala Cynwyd Office", config.fallbackEmail);
    DocumentLinesMatchKinds(form);
    forall i | 0 <= i < |DocumentTypes| ensures (DocumentTypes[i] in form) == (i < |RequiredDocuments|) {
      if i < 3 { assert DocumentTypes[i] in form; }
    }
  }

  // ---------------------------------------------------------------------------
  // Findings
  // ---------------------------------------------------------------------------

  /** As written, the document check is satisfied by empty text entries: a request
      whose three required documents are empty text parts is delivered with no
      attachment at all. The corrected handler rejects it, naming all three. */
  lemma EmptyTextPartsPassDocumentCheck(form: Form, config: Config)
    requires IsEmptyTextDocumentsForm(form)
    requires Configured(config)
    ensures Handle(Multipart(form), config, Transport(true, true)) == Delivered(Compose(form, config, []))
    ensures HandleCorrected(Multipart(form), config, Transport(true, true)) ==
            Rejected("Missing required documents: resume, degree, idProof")
  {
    EmptyTextDocumentChecks(form);
    EmptyTextAttachesNothing(form);
    EmptyTextFieldsPresent(form);
    DeliveredWithoutAttachments(form, config);
    CorrectedRejectsAllDocuments(form, config);
  }

  /** The handler as written on a form whose fields pass, whose documents pass its
      check, and which has nothing to attach: delivered with no attachment. */
  lemma DeliveredWithoutAttachments(form: Form, config: Config)
    requires FirstMissingField(form, RequiredFields) == None && Configured(config)
    requires MissingDocumentsAsWritten(form) == [] && Attachments(form, DocumentTypes) == Some([])
    ensures Handle(Multipart(form), config, Transport(true, true)) == Delivered(Compose(form, config, []))
  {
  }

  /** The corrected handler on a form whose fields pass and none of whose required
      documents was attached as a file: a 400 naming all three. */
  lemma CorrectedRejectsAllDocuments(form: Form, config: Config)
    requires FirstMissingField(form, RequiredFields) == None
    requires MissingDocuments(form) == RequiredDocuments
    ensures HandleCorrected(Multipart(form), config, Transport(true, true)) ==
            Rejected("Missing required documents: resume, degree, idProof")
  {
    AllDocumentsMessage();
  }

  lemma EmptyTextFieldsPresent(form: Form)
    requires IsEmptyTextDocumentsForm(form)
    ensures FirstMissingField(form, RequiredFields) == None
  {
    forall j | 0 <= j < |RequiredFields| ensures Present(form, RequiredFields[j]) {
      assert RequiredFields[j] in form;
    }
    NoMissingField(form, RequiredFields);
  }

  /** The 400 message that names all three required documents. */
  lemma AllDocumentsMessage()
    ensures "Missing required documents: " + Join(RequiredDocuments, ", ") ==
            "Missing required documents: resume, degree, idProof"
  {
    var docs := RequiredDocuments;
    assert docs[1..] == ["degree", "idProof"] && docs[1..][1..] == ["idProof"];
    assert Join(docs, ", ") == "resume" + ", " + ("degree" + ", " + "idProof");
  }

  /** The submission of the finding above: every field filled in, the three required
      documents sent as empty text parts, no file at all. */
  predicate IsEmptyTextDocumentsForm(form: Form)
  {
    form == map[
      "fullName" := Text("Jane Doe"), "email" := Text("jane@x.com"),
      "position" := Text("RBT"), "location" := Text("Bala Cynwyd Office"),
      "resume" := Text(""), "degree" := Text(""), "idProof" := Text("")]
  }

  /** Its document checks: the one as written lets it through, the corrected one
      reports all three documents. */
  lemma EmptyTextDocumentChecks(form: Form)
    requires IsEmptyTextDocumentsForm(form)
    ensures MissingDocumentsAsWritten(form) == []
    ensures MissingDocuments(form) == RequiredDocuments
  {
    MissingDocumentsInOrder(form);
    assert "resume" in form && "degree" in form && "idProof" in form;
  }

  /** Its attachment loop skips every document type and attaches nothing. */
  lemma EmptyTextAttachesNothing(form: Form)
    requires IsEmptyTextDocumentsForm(form)
    ensures Attachments(form, DocumentTypes) == Some([])
  {
    forall k | 0 <= k < |DocumentTypes| ensures AttachmentStep(form, DocumentTypes[k]) == Skip {
      if k < 3 {
        assert form[DocumentTypes[k]] == Text("");
      } else {
        assert DocumentTypes[k] !in form;
      }
    }
    NothingToAttach(form, DocumentTypes);
  }

  /** When every document type is skipped, the loop attaches nothing. */
  lemma {:induction false} NothingToAttach(form: Form, docTypes: seq<string>)
    requires forall k :: 0 <= k < |docTypes| ==> AttachmentStep(form, docTypes[k]) == Skip
    ensures Attachments(form, docTypes) == Some([])
    decreases |docTypes|
  {
    if docTypes != [] {
      var n := |docTypes| - 1;
      var init := docTypes[..n];
      assert forall k :: 0 <= k < |init| ==> init[k] == docTypes[k];
      NothingToAttach(form, init);
    }
  }

  /** As written, a location equal to an inherited member name such as "toString"
      resolves to that member, a function, and the fallback address is never used.
      The corrected lookup sends it to the fallback. */
  lemma InheritedLocationSkipsFallback(fallback: string)
    ensures RecipientAsWritten("toString", Some(fallback)) == JsMember("toString")
    ensures Recipient("toString", Some(fallback)) == Some(fallback)
  {
    assert "toString" !in LocationEmails;
  }

  /** Off the inherited member names the two lookups agree; the corrected one gives
      each office its address and every other location the fallback. */
  lemma RecipientResolution(location: string, fallback: Option<string>)
    ensures location !in ObjectPrototypeMembers ==>
              RecipientAsWritten(location, fallback) == ToJs(Recipient(location, fallback))
    ensures Recipient("Bala Cynwyd Office", fallback) == Some("qwenton.balawejder@batp.org")
    ensures Recipient("Philadelphia Office", fallback) == Some("samantha.power@batp.org")
    ensures Recipient("South Philadelphia Satellite Office", fallback) == Some("williampower@batp.org")
    ensures location !in LocationEmails ==> Recipient(location, fallback) == fallback
  {
  }
}
