/** The application form and the endpoint together: the multipart body that
    `handleSubmit` posts, as the endpoint's `formData.get` reads it back. */
module Submission {
  import opened Common
  import ContactForm
  import SendEmailRoute

  /** The entry a part becomes on the server. */
  function EntryOf(part: ContactForm.Part): SendEmailRoute.Entry
  {
    match part
    case TextPart(_, value) => SendEmailRoute.Text(value)
    case FilePart(_, file) => SendEmailRoute.Upload(file)
  }

  /** The server's view of a multipart body: `formData.get(name)` returns the first
      part appended under `name`. */
  function ToForm(parts: seq<ContactForm.Part>): SendEmailRoute.Form
  {
    if parts == [] then map[]
    else ToForm(parts[1..])[parts[0].name := EntryOf(parts[0])]
  }

  /** The body the form posts for the given state. */
  function Payload(fields: ContactForm.Fields, files: seq<ContactForm.Slot>): seq<ContactForm.Part>
  {
    ContactForm.TextParts(fields) + ContactForm.FileParts(files)
  }

  /** A name is in the decoded form exactly when some part carries it, and then it
      maps to the first such part. */
  lemma {:induction false} ToFormFirst(parts: seq<ContactForm.Part>, name: string)
    ensures name in ToForm(parts) <==> exists i :: 0 <= i < |parts| && parts[i].name == name
    ensures name in ToForm(parts) ==>
              exists i :: 0 <= i < |parts| && parts[i].name == name && ToForm(parts)[name] == EntryOf(parts[i]) &&
                          forall j :: 0 <= j < i ==> parts[j].name != name
  {
    if parts != [] {
      var rest := parts[1..];
      ToFormFirst(rest, name);
      if parts[0].name != name {
        if exists i :: 0 <= i < |parts| && parts[i].name == name {
          var i :| 0 <= i < |parts| && parts[i].name == name;
          assert rest[i - 1] == parts[i];
        }
        if name in ToForm(rest) {
          var i :| 0 <= i < |rest| && rest[i].name == name && ToForm(rest)[name] == EntryOf(rest[i]) &&
                   forall j :: 0 <= j < i ==> rest[j].name != name;
          assert parts[i + 1] == rest[i];
          forall j | 0 <= j < i + 1 ensures parts[j].name != name {
            if j > 0 { assert parts[j] == rest[j - 1]; }
          }
        }
      } else {
        assert ToForm(parts)[name] == EntryOf(parts[0]);
      }
    }
  }

  /** Round trip: the endpoint reads back every text input as posted, and a document
      id exactly when a file is selected for it, as that very file. */
  lemma PayloadAsServerSees(fields: ContactForm.Fields, files: seq<ContactForm.Slot>, name: string)
    requires ContactForm.DistinctIds(files)
    ensures name in ContactForm.FieldNames ==>
              name in ToForm(Payload(fields, files)) &&
              ToForm(Payload(fields, files))[name] == SendEmailRoute.Text(ContactForm.GetField(fields, name).value)
    ensures name !in ContactForm.FieldNames ==>
              (name in ToForm(Payload(fields, files)) <==> ContactForm.Lookup(files, name).Some?) &&
              (ContactForm.Lookup(files, name).Some? ==>
                 ToForm(Payload(fields, files))[name] == SendEmailRoute.Upload(ContactForm.Lookup(files, name).value))
  {
    TextPartsByName(fields);
    if name in ContactForm.FieldNames {
      PayloadTextEntry(fields, files, name);
    } else {
      PayloadFileEntry(fields, files, name);
    }
  }

  /** The endpoint does not check files again; every file it receives from the form
      has an allowed media type and is at most 5 MiB, because the form stores no
      other. */
  lemma PostedFilesAccepted(fields: ContactForm.Fields, files: seq<ContactForm.Slot>, name: string)
    requires ContactForm.DistinctIds(files) && ContactForm.AllAccepted(files)
    ensures name in ToForm(Payload(fields, files)) && ToForm(Payload(fields, files))[name].Upload? ==>
              ContactForm.FileError(name, ToForm(Payload(fields, files))[name].file).None?
  {
    PayloadAsServerSees(fields, files, name);
    ContactForm.LookupAccepted(files, name);
  }

  /** The five text parts, in the order of the input names. */
  lemma TextPartsByName(fields: ContactForm.Fields)
    ensures |ContactForm.TextParts(fields)| == |ContactForm.FieldNames| == 5
    ensures forall k :: 0 <= k < 5 ==>
              ContactForm.TextParts(fields)[k] ==
                ContactForm.TextPart(ContactForm.FieldNames[k], ContactForm.GetField(fields, ContactForm.FieldNames[k]).value)
  {
  }

  lemma PayloadTextEntry(fields: ContactForm.Fields, files: seq<ContactForm.Slot>, name: string)
    requires name in ContactForm.FieldNames
    requires forall k :: 0 <= k < 5 ==>
               ContactForm.TextParts(fields)[k] ==
                 ContactForm.TextPart(ContactForm.FieldNames[k], ContactForm.GetField(fields, ContactForm.FieldNames[k]).value)
    requires |ContactForm.TextParts(fields)| == |ContactForm.FieldNames| == 5
    ensures name in ToForm(Payload(fields, files))
    ensures ToForm(Payload(fields, files))[name] == SendEmailRoute.Text(ContactForm.GetField(fields, name).value)
  {
    var names := ContactForm.FieldNames;
    var text := ContactForm.TextParts(fields);
    var parts := Payload(fields, files);
    ToFormFirst(parts, name);
    var k :| 0 <= k < 5 && names[k] == name;
    assert parts[k] == text[k];
    var i :| 0 <= i < |parts| && parts[i].name == name && ToForm(parts)[name] == EntryOf(parts[i]) &&
             forall j :: 0 <= j < i ==> parts[j].name != name;
    assert i <= k;
    assert parts[i] == text[i];
    assert names[i] == names[k];
  }

  lemma PayloadFileEntry(fields: ContactForm.Fields, files: seq<ContactForm.Slot>, name: string)
    requires ContactForm.DistinctIds(files)
    requires name !in ContactForm.FieldNames
    requires forall k :: 0 <= k < 5 ==>
               ContactForm.TextParts(fields)[k] ==
                 ContactForm.TextPart(ContactForm.FieldNames[k], ContactForm.GetField(fields, ContactForm.FieldNames[k]).value)
    requires |ContactForm.TextParts(fields)| == |ContactForm.FieldNames| == 5
    ensures name in ToForm(Payload(fields, files)) <==> ContactForm.Lookup(files, name).Some?
    ensures ContactForm.Lookup(files, name).Some? ==>
              ToForm(Payload(fields, files))[name] == SendEmailRoute.Upload(ContactForm.Lookup(files, name).value)
  {
    var parts := Payload(fields, files);
    assert forall k :: 0 <= k < 5 ==> parts[k].name != name;
    ToFormFirst(parts, name);
    if ContactForm.Lookup(files, name).Some? {
      SelectedFileIsPosted(fields, files, name);
    }
    if name in ToForm(parts) {
      PostedFileIsSelected(fields, files, name);
    }
  }

  /** A selected file puts a part under its document id into the body. */
  lemma SelectedFileIsPosted(fields: ContactForm.Fields, files: seq<ContactForm.Slot>, name: string)
    requires ContactForm.DistinctIds(files)
    requires ContactForm.Lookup(files, name).Some?
    requires |ContactForm.TextParts(fields)| == 5
    ensures exists i :: 0 <= i < |Payload(fields, files)| && Payload(fields, files)[i].name == name
  {
    var fileParts := ContactForm.FileParts(files);
    var f := ContactForm.Lookup(files, name).value;
    ContactForm.FilePartsExact(files, name, f);
    var m :| 0 <= m < |fileParts| && fileParts[m] == ContactForm.FilePart(name, f);
    assert Payload(fields, files)[m + 5] == fileParts[m];
  }

  /** A part under a name that is not a text input is the file selected for it. */
  lemma PostedFileIsSelected(fields: ContactForm.Fields, files: seq<ContactForm.Slot>, name: string)
    requires ContactForm.DistinctIds(files)
    requires |ContactForm.TextParts(fields)| == 5
    requires forall k :: 0 <= k < 5 ==> Payload(fields, files)[k].name != name
    requires name in ToForm(Payload(fields, files))
    ensures ContactForm.Lookup(files, name).Some?
    ensures ToForm(Payload(fields, files))[name] == SendEmailRoute.Upload(ContactForm.Lookup(files, name).value)
  {
    var fileParts := ContactForm.FileParts(files);
    var parts := Payload(fields, files);
    ToFormFirst(parts, name);
    var i :| 0 <= i < |parts| && parts[i].name == name && ToForm(parts)[name] == EntryOf(parts[i]) &&
             forall j :: 0 <= j < i ==> parts[j].name != name;
    assert parts[i] == fileParts[i - 5];
    ContactForm.FilePartsExact(files, name, FileRecord("", "", 0));
    var g := parts[i].file;
    assert parts[i] == ContactForm.FilePart(name, g);
    ContactForm.FilePartsExact(files, name, g);
  }

  /** Whatever passes the form's own check also passes the endpoint's: every required
      field is non-empty and every required document arrives as a file. */
  lemma ClientCheckImpliesServerChecks(fields: ContactForm.Fields, files: seq<ContactForm.Slot>)
    requires ContactForm.DistinctIds(files)
    requires ContactForm.MissingLabels(fields, files) == []
    ensures SendEmailRoute.FirstMissingField(ToForm(Payload(fields, files)), SendEmailRoute.RequiredFields) == None
    ensures SendEmailRoute.MissingDocumentsAsWritten(ToForm(Payload(fields, files))) == []
    ensures SendEmailRoute.MissingDocuments(ToForm(Payload(fields, files))) == []
  {
    var labels := ContactForm.MissingLabels(fields, files);
    assert labels == ContactForm.FieldsMissing(fields) + ContactForm.DocumentsMissing(ContactForm.DocumentTypes, files);
    FieldsReachServer(fields, files);
    DocumentsReachServer(fields, files);
  }

  lemma FieldsReachServer(fields: ContactForm.Fields, files: seq<ContactForm.Slot>)
    requires ContactForm.DistinctIds(files)
    requires ContactForm.FieldsMissing(fields) == []
    ensures SendEmailRoute.FirstMissingField(ToForm(Payload(fields, files)), SendEmailRoute.RequiredFields) == None
  {
    var form := ToForm(Payload(fields, files));
    assert fields.fullName != "" && fields.email != "" && fields.position != "" && fields.location != "";
    PayloadAsServerSees(fields, files, "fullName");
    PayloadAsServerSees(fields, files, "email");
    PayloadAsServerSees(fields, files, "position");
    PayloadAsServerSees(fields, files, "location");
    SendEmailRoute.NoMissingField(form, SendEmailRoute.RequiredFields);
  }

  lemma DocumentsReachServer(fields: ContactForm.Fields, files: seq<ContactForm.Slot>)
    requires ContactForm.DistinctIds(files)
    requires ContactForm.DocumentsMissing(ContactForm.DocumentTypes, files) == []
    ensures SendEmailRoute.MissingDocumentsAsWritten(ToForm(Payload(fields, files))) == []
    ensures SendEmailRoute.MissingDocuments(ToForm(Payload(fields, files))) == []
  {
    var form := ToForm(Payload(fields, files));
    ContactForm.RequiredDocumentsMissing(files);
    assert ContactForm.Lookup(files, "resume").Some?;
    assert ContactForm.Lookup(files, "degree").Some?;
    assert ContactForm.Lookup(files, "idProof").Some?;
    PayloadAsServerSees(fields, files, "resume");
    PayloadAsServerSees(fields, files, "degree");
    PayloadAsServerSees(fields, files, "idProof");
    SendEmailRoute.MissingDocumentsInOrder(form);
  }

  /** A submission the form lets through is delivered, by the handler as written and
      by the corrected one, whenever the environment is configured and the transport
      verifies and delivers: no document id ever arrives as text, so the attachment
      loop cannot throw. */
  lemma ValidSubmissionDelivered(fields: ContactForm.Fields, files: seq<ContactForm.Slot>,
                                 config: SendEmailRoute.Config, transport: SendEmailRoute.Transport)
    requires ContactForm.DistinctIds(files)
    requires ContactForm.MissingLabels(fields, files) == []
    requires SendEmailRoute.Configured(config) && transport.verifies && transport.delivers
    ensures SendEmailRoute.Handle(SendEmailRoute.Multipart(ToForm(Payload(fields, files))), config, transport).Delivered?
    ensures SendEmailRoute.HandleCorrected(SendEmailRoute.Multipart(ToForm(Payload(fields, files))), config, transport).Delivered?
  {
    var form := ToForm(Payload(fields, files));
    ClientCheckImpliesServerChecks(fields, files);
    var docs := SendEmailRoute.DocumentTypes;
    forall k | 0 <= k < |docs| && docs[k] in form ensures form[docs[k]].Upload? {
      PayloadAsServerSees(fields, files, docs[k]);
    }
    SendEmailRoute.AttachmentsAbortExactly(form, docs);
  }

  /** Both sides agree on the document ids, in the same order, and on which of them
      are required. */
  lemma SameDocumentTypes()
    ensures |ContactForm.DocumentTypes| == |SendEmailRoute.DocumentTypes|
    ensures forall i :: 0 <= i < |ContactForm.DocumentTypes| ==>
              ContactForm.DocumentTypes[i].id == SendEmailRoute.DocumentTypes[i] &&
              (ContactForm.DocumentTypes[i].required <==> ContactForm.DocumentTypes[i].id in SendEmailRoute.RequiredDocuments)
  {
  }
}
