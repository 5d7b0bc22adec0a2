/** The client-side job-application form (src/app/components/ContactForm.tsx): the
    component's state (`formData`, `files`, `isSubmitting`, `submitError`,
    `submitSuccess`) and the handlers that update it. Rendering is not modelled; the
    outcome of the network request is a parameter of `HandleSubmit`. */
module ContactForm {
  import opened Common

  /** One entry of `DOCUMENT_TYPES`. */
  datatype DocumentType = DocumentType(id: string, caption: string, required: bool)

  const DocumentTypes: seq<DocumentType> := [
    DocumentType("resume", "Resume/CV *", true),
    DocumentType("degree", "Degree Certificate *", true),
    DocumentType("idProof", "ID Proof *", true),
    DocumentType("experience", "Experience Certificates", false),
    DocumentType("certification1", "Certification 1", false),
    DocumentType("certification2", "Certification 2", false),
    DocumentType("other", "Other Document", false)
  ]

  const AllowedTypes: seq<string> := [
    "application/pdf",
    "application/msword",
    "application/vnd.openxmlformats-officedocument.wordprocessingml.document"
  ]

  /** 5 MiB, the largest accepted file. */
  const MaxFileSize: nat := 5 * 1024 * 1024

  const GenericError: string := "An error occurred. Please try again."

  /** The five text inputs of the form. */
  datatype Fields = Fields(fullName: string, email: string, phone: string, position: string, location: string)

  const EmptyFields: Fields := Fields("", "", "", "", "")

  const FieldNames: seq<string> := ["fullName", "email", "phone", "position", "location"]

  /** The value of input `name`, or None for a name that is not one of the five. */
  function GetField(fields: Fields, name: string): Option<string>
  {
    if name == "fullName" then Some(fields.fullName)
    else if name == "email" then Some(fields.email)
    else if name == "phone" then Some(fields.phone)
    else if name == "position" then Some(fields.position)
    else if name == "location" then Some(fields.location)
    else None
  }

  /** `{ ...prev, [name]: value }`. A name outside the five would add a key that no
      handler ever reads, so the five fields are all there is to update. */
  function SetField(fields: Fields, name: string, value: string): Fields
  {
    if name == "fullName" then fields.(fullName := value)
    else if name == "email" then fields.(email := value)
    else if name == "phone" then fields.(phone := value)
    else if name == "position" then fields.(position := value)
    else if name == "location" then fields.(location := value)
    else fields
  }

  // ---------------------------------------------------------------------------
  // The `files` record: document id -> file or null, in key insertion order
  // ---------------------------------------------------------------------------

  /** One key of the `files` object and its value (`None` is `null`). */
  datatype Slot = Slot(id: string, file: Option<FileRecord>)

  predicate HasSlot(files: seq<Slot>, id: string)
  {
    exists i :: 0 <= i < |files| && files[i].id == id
  }

  /** An object has each key once. */
  predicate DistinctIds(files: seq<Slot>)
  {
    forall i, j :: 0 <= i < j < |files| ==> files[i].id != files[j].id
  }

  /** `files[id]`, where a missing key (`undefined`) and `null` are both None. */
  function Lookup(files: seq<Slot>, id: string): Option<FileRecord>
  {
    if files == [] then None
    else if files[0].id == id then files[0].file
    else Lookup(files[1..], id)
  }

  /** `{ ...prev, [id]: file }`: an existing key keeps its place, a new key goes last. */
  function Put(files: seq<Slot>, id: string, file: Option<FileRecord>): seq<Slot>
  {
    if files == [] then [Slot(id, file)]
    else if files[0].id == id then [Slot(id, file)] + files[1..]
    else [files[0]] + Put(files[1..], id, file)
  }

  /** `types.reduce((acc, doc) => ({ ...acc, [doc.id]: null }), {})`. */
  function NullSlots(types: seq<DocumentType>): seq<Slot>
    decreases |types|
  {
    if types == [] then []
    else Put(NullSlots(types[..|types| - 1]), types[|types| - 1].id, None)
  }

  /** The initial (and the post-success) value of `files`. */
  function InitialFiles(): seq<Slot>
  {
    NullSlots(DocumentTypes)
  }

  // ---------------------------------------------------------------------------
  // Per-file acceptance
  // ---------------------------------------------------------------------------

  /** The error `handleFileChange` shows for a selected file, or None when it accepts
      it: the media type is checked first, the size second. */
  function FileError(docId: string, file: FileRecord): Option<string>
  {
    if file.mediaType !in AllowedTypes then
      Some("Only PDF, DOC, and DOCX files are allowed for " + docId)
    else if file.size > MaxFileSize then
      Some("File size should be less than 5MB for " + docId)
    else None
  }

  /** Every file held in `files` passed the checks of `handleFileChange`: an allowed
      media type and at most 5 MiB. */
  predicate AllAccepted(files: seq<Slot>)
  {
    forall i :: 0 <= i < |files| && files[i].file.Some? ==> FileError(files[i].id, files[i].file.value).None?
  }

  // ---------------------------------------------------------------------------
  // Pre-submit validation and the payload
  // ---------------------------------------------------------------------------

  /** The labels of the empty required text inputs, in form order. */
  function FieldsMissing(fields: Fields): seq<string>
  {
    (if fields.fullName == "" then ["Full Name"] else []) +
    (if fields.email == "" then ["Email"] else []) +
    (if fields.position == "" then ["Job Position"] else []) +
    (if fields.location == "" then ["Location"] else [])
  }

  /** The captions of the required documents among `types` with no file selected, in `types` order. */
  function DocumentsMissing(types: seq<DocumentType>, files: seq<Slot>): seq<string>
    decreases |types|
  {
    if types == [] then []
    else
      var doc := types[|types| - 1];
      DocumentsMissing(types[..|types| - 1], files) +
      (if doc.required && Lookup(files, doc.id) == None then [doc.caption] else [])
  }

  /** Everything the form reports as missing before submitting. */
  function MissingLabels(fields: Fields, files: seq<Slot>): seq<string>
  {
    FieldsMissing(fields) + DocumentsMissing(DocumentTypes, files)
  }

  /** One `formPayload.append(name, value)`. */
  datatype Part = TextPart(name: string, value: string) | FilePart(name: string, file: FileRecord)

  /** The text parts, in append order (an empty phone is sent as ""). */
  function TextParts(fields: Fields): seq<Part>
  {
    [TextPart("fullName", fields.fullName), TextPart("email", fields.email),
     TextPart("phone", fields.phone), TextPart("position", fields.position),
     TextPart("location", fields.location)]
  }

  /** One file part per slot that holds a file, in slot order. */
  function FileParts(files: seq<Slot>): seq<Part>
    decreases |files|
  {
    if files == [] then []
    else
      var slot := files[|files| - 1];
      FileParts(files[..|files| - 1]) +
      (match slot.file case Some(f) => [FilePart(slot.id, f)] case None => [])
  }

  /** How the `fetch` call ends: an ok response, a non-ok response, or a thrown error. */
  datatype Response = Ok | NotOk | Throws

  /** The `DOCUMENT_TYPES.forEach` pass of `handleSubmit`: the caption of every
      required document whose slot holds no file, in table order. */
  method MissingDocumentCaptions(types: seq<DocumentType>, files: seq<Slot>) returns (captions: seq<string>)
    ensures captions == DocumentsMissing(types, files)
  {
    captions := [];
    var i := 0;
    while i < |types|
      invariant 0 <= i <= |types|
      invariant captions == DocumentsMissing(types[..i], files)
    {
      var doc := types[i];
      assert types[..i + 1][..i] == types[..i];
      if doc.required && Lookup(files, doc.id) == None {
        captions := captions + [doc.caption];
      }
      i := i + 1;
    }
    assert types[..i] == types;
  }

  // ---------------------------------------------------------------------------
  // The component
  // ---------------------------------------------------------------------------

  class JobApplication {
    var formData: Fields
    var files: seq<Slot>
    var isSubmitting: bool
    var submitError: string
    var submitSuccess: bool

    /** `files` is an object: each key once; and every file in it was accepted. */
    ghost predicate Valid()
      reads this
    {
      DistinctIds(files) && AllAccepted(files)
    }

    constructor ()
      ensures Valid()
      ensures formData == EmptyFields && files == InitialFiles()
      ensures !isSubmitting && submitError == "" && !submitSuccess
    {
      formData := EmptyFields;
      files := InitialFiles();
      isSubmitting := false;
      submitError := "";
      submitSuccess := false;
      InitialFilesShape();
    }

    /** `handleChange`: set input `name` to `value`. */
    method HandleChange(name: string, value: string)
      requires Valid()
      modifies this
      ensures Valid()
      ensures formData == SetField(old(formData), name, value)
      ensures files == old(files) && isSubmitting == old(isSubmitting)
      ensures submitError == old(submitError) && submitSuccess == old(submitSuccess)
    {
      formData := SetField(formData, name, value);
    }

    /** `handleFileChange`: `selection` is the first chosen file, or None. A rejected
        file leaves `files` as it was and shows the error; otherwise slot `docId`
        takes the selection and the error is cleared. */
    method HandleFileChange(docId: string, selection: Option<FileRecord>)
      requires Valid()
      modifies this
      ensures Valid()
      ensures formData == old(formData) && isSubmitting == old(isSubmitting)
      ensures submitSuccess == old(submitSuccess)
      ensures selection.Some? && FileError(docId, selection.value).Some? ==>
                files == old(files) && submitError == FileError(docId, selection.value).value
      ensures selection.None? || FileError(docId, selection.value).None? ==>
                files == Put(old(files), docId, selection) && submitError == "" &&
                Lookup(files, docId) == selection
      ensures forall other :: other != docId ==> Lookup(files, other) == Lookup(old(files), other)
    {
      if selection.Some? {
        var error := FileError(docId, selection.value);
        if error.Some? {
          submitError := error.value;
          return;
        }
      }
      PutKeepsDistinct(files, docId, selection);
      PutAccepted(files, docId, selection);
      forall other | other != docId ensures Lookup(Put(files, docId, selection), other) == Lookup(files, other) {
        PutFrame(files, docId, selection, other);
      }
      PutFrame(files, docId, selection, docId);
      files := Put(files, docId, selection);
      submitError := "";
    }

    /** `removeFile`: slot `docId` becomes null, nothing else changes. */
    method RemoveFile(docId: string)
      requires Valid()
      modifies this
      ensures Valid()
      ensures files == Put(old(files), docId, None) && Lookup(files, docId) == None
      ensures forall other :: other != docId ==> Lookup(files, other) == Lookup(old(files), other)
      ensures formData == old(formData) && isSubmitting == old(isSubmitting)
      ensures submitError == old(submitError) && submitSuccess == old(submitSuccess)
    {
      PutKeepsDistinct(files, docId, None);
      PutAccepted(files, docId, None);
      forall other | other != docId ensures Lookup(Put(files, docId, None), other) == Lookup(files, other) {
        PutFrame(files, docId, None, other);
      }
      PutFrame(files, docId, None, docId);
      files := Put(files, docId, None);
    }

    /** The `errors` array of `handleSubmit`: the four text checks, then a pass over
        `DOCUMENT_TYPES` for the required documents with no file. */
    method CollectErrors() returns (errors: seq<string>)
      ensures errors == MissingLabels(formData, files)
    {
      errors := [];
      if formData.fullName == "" { errors := errors + ["Full Name"]; }
      if formData.email == "" { errors := errors + ["Email"]; }
      if formData.position == "" { errors := errors + ["Job Position"]; }
      if formData.location == "" { errors := errors + ["Location"]; }
      assert errors == FieldsMissing(formData);
      var missingDocuments := MissingDocumentCaptions(DocumentTypes, files);
      errors := errors + missingDocuments;
    }

    /** The `formPayload` of `handleSubmit`: the five text parts, then one part per
        selected file, keyed by its document id, in the key order of `files`. */
    method BuildPayload() returns (payload: seq<Part>)
      ensures payload == TextParts(formData) + FileParts(files)
    {
      payload := [];
      payload := payload + [TextPart("fullName", formData.fullName)];
      payload := payload + [TextPart("email", formData.email)];
      payload := payload + [TextPart("phone", formData.phone)];
      payload := payload + [TextPart("position", formData.position)];
      payload := payload + [TextPart("location", formData.location)];
      var i := 0;
      while i < |files|
        invariant 0 <= i <= |files|
        invariant payload == TextParts(formData) + FileParts(files[..i])
      {
        var slot := files[i];
        assert files[..i + 1][..i] == files[..i];
        if slot.file.Some? {
          payload := payload + [FilePart(slot.id, slot.file.value)];
        }
        i := i + 1;
      }
      assert files[..i] == files;
    }

    /** `handleSubmit`. `response` is how the request ends if one is made; the result
        is the payload posted, or None when validation stopped the submission. */
    method HandleSubmit(response: Response) returns (posted: Option<seq<Part>>)
      requires Valid()
      modifies this
      ensures Valid()
      ensures !isSubmitting
      ensures MissingLabels(old(formData), old(files)) != [] ==>
                posted == None &&
                submitError == "Please fill all required fields: " + Join(MissingLabels(old(formData), old(files)), ", ") &&
                !submitSuccess && formData == old(formData) && files == old(files)
      ensures MissingLabels(old(formData), old(files)) == [] ==>
                posted == Some(TextParts(old(formData)) + FileParts(old(files)))
      ensures MissingLabels(old(formData), old(files)) == [] && response == Ok ==>
                formData == EmptyFields && files == InitialFiles() && submitSuccess && submitError == ""
      ensures MissingLabels(old(formData), old(files)) == [] && response != Ok ==>
                formData == old(formData) && files == old(files) && !submitSuccess && submitError == GenericError
    {
      submitError := "";
      submitSuccess := false;
      isSubmitting := true;

      var errors := CollectErrors();
      if |errors| > 0 {
        submitError := "Please fill all required fields: " + Join(errors, ", ");
        isSubmitting := false;
        return None;
      }

      var formPayload := BuildPayload();
      posted := Some(formPayload);
      if response == Ok {
        formData := EmptyFields;
        files := InitialFiles();
        InitialFilesShape();
        submitSuccess := true;
      } else {
        submitError := GenericError;
      }
      isSubmitting := false;
    }
  }

  // ---------------------------------------------------------------------------
  // Properties
  // ---------------------------------------------------------------------------

  /** `handleChange` changes input `name` and no other. */
  lemma SetFieldChangesOnlyName(fields: Fields, name: string, value: string, other: string)
    ensures name in FieldNames ==> GetField(SetField(fields, name, value), name) == Some(value)
    ensures other != name || name !in FieldNames ==>
              GetField(SetField(fields, name, value), other) == GetField(fields, other)
  {
  }

  /** A file is accepted exactly when its media type is PDF, DOC or DOCX and it is at
      most 5 MiB; a wrong type is reported (naming the document) whatever the size. */
  lemma FileAcceptance(docId: string, file: FileRecord)
    ensures FileError(docId, file) == None <==> file.mediaType in AllowedTypes && file.size <= 5242880
    ensures file.mediaType !in AllowedTypes ==>
              FileError(docId, file) == Some("Only PDF, DOC, and DOCX files are allowed for " + docId)
    ensures file.mediaType in AllowedTypes && file.size > 5242880 ==>
              FileError(docId, file) == Some("File size should be less than 5MB for " + docId)
  {
  }

  lemma {:induction false} LookupAbsent(files: seq<Slot>, id: string)
    requires !HasSlot(files, id)
    ensures Lookup(files, id) == None
  {
    if files != [] {
      assert !HasSlot(files[1..], id) by {
        forall i | 0 <= i < |files[1..]| ensures files[1..][i].id != id {
          assert files[1..][i] == files[i + 1];
        }
      }
      LookupAbsent(files[1..], id);
    }
  }

  /** Writing slot `id` sets that slot and leaves every other one as it was. */
  lemma {:induction false} PutFrame(files: seq<Slot>, id: string, file: Option<FileRecord>, other: string)
    ensures Lookup(Put(files, id, file), id) == file
    ensures other != id ==> Lookup(Put(files, id, file), other) == Lookup(files, other)
  {
    if files != [] && files[0].id != id {
      PutFrame(files[1..], id, file, other);
    }
  }

  /** Writing null, or a file that passes the checks, keeps every stored file accepted. */
  lemma {:induction false} PutAccepted(files: seq<Slot>, id: string, file: Option<FileRecord>)
    requires AllAccepted(files)
    requires file.None? || FileError(id, file.value).None?
    ensures AllAccepted(Put(files, id, file))
  {
    if files != [] {
      var rest := files[1..];
      assert forall i :: 0 <= i < |rest| ==> rest[i] == files[i + 1];
      if files[0].id != id {
        PutAccepted(rest, id, file);
        var put := Put(files, id, file);
        assert put == [files[0]] + Put(rest, id, file);
        forall i | 0 <= i < |put| && put[i].file.Some?
          ensures FileError(put[i].id, put[i].file.value).None?
        {
          if i > 0 { assert put[i] == Put(rest, id, file)[i - 1]; }
        }
      }
    }
  }

  /** The file `files[id]` yields, if any, is an accepted one. */
  lemma {:induction false} LookupAccepted(files: seq<Slot>, id: string)
    requires AllAccepted(files)
    ensures Lookup(files, id).Some? ==> FileError(id, Lookup(files, id).value).None?
  {
    if files != [] && files[0].id != id {
      var rest := files[1..];
      assert forall i :: 0 <= i < |rest| ==> rest[i] == files[i + 1];
      LookupAccepted(rest, id);
    }
  }

  /** Writing a slot keeps the keys distinct: an existing key stays in place, a new
      one is appended. */
  lemma PutKeepsDistinct(files: seq<Slot>, id: string, file: Option<FileRecord>)
    requires DistinctIds(files)
    ensures DistinctIds(Put(files, id, file))
    ensures HasSlot(files, id) ==>
              (|Put(files, id, file)| == |files| &&
               forall i :: 0 <= i < |files| ==> Put(files, id, file)[i].id == files[i].id)
    ensures !HasSlot(files, id) ==> Put(files, id, file) == files + [Slot(id, file)]
  {
    var put := Put(files, id, file);
    if HasSlot(files, id) {
      PutPresent(files, id, file);
      forall i, j | 0 <= i < j < |put| ensures put[i].id != put[j].id {
        assert put[i].id == files[i].id && put[j].id == files[j].id;
      }
    } else {
      PutAbsent(files, id, file);
      forall i, j | 0 <= i < j < |put| ensures put[i].id != put[j].id {
        assert put[i] == files[i];
        if j < |files| { assert put[j] == files[j]; }
      }
    }
  }

  /** Writing an existing key keeps every key where it was. */
  lemma {:induction false} PutPresent(files: seq<Slot>, id: string, file: Option<FileRecord>)
    requires HasSlot(files, id)
    ensures |Put(files, id, file)| == |files|
    ensures forall i :: 0 <= i < |files| ==> Put(files, id, file)[i].id == files[i].id
  {
    var put := Put(files, id, file);
    var rest := files[1..];
    if files[0].id == id {
      assert put == [Slot(id, file)] + rest;
      forall i | 0 <= i < |files| ensures put[i].id == files[i].id {
        if i > 0 { assert put[i] == rest[i - 1] == files[i]; }
      }
    } else {
      var k :| 0 <= k < |files| && files[k].id == id;
      assert rest[k - 1] == files[k];
      PutPresent(rest, id, file);
      assert put == [files[0]] + Put(rest, id, file);
      forall i | 0 <= i < |files| ensures put[i].id == files[i].id {
        if i > 0 { assert put[i] == Put(rest, id, file)[i - 1] && files[i] == rest[i - 1]; }
      }
    }
  }

  /** Writing a new key appends it. */
  lemma {:induction false} PutAbsent(files: seq<Slot>, id: string, file: Option<FileRecord>)
    requires !HasSlot(files, id)
    ensures Put(files, id, file) == files + [Slot(id, file)]
  {
    if files != [] {
      var rest := files[1..];
      assert files[0].id != id;
      assert !HasSlot(rest, id) by {
        forall k | 0 <= k < |rest| ensures rest[k].id != id { assert rest[k] == files[k + 1]; }
      }
      PutAbsent(rest, id, file);
      assert files == [files[0]] + rest;
    }
  }

  /** The initial `files` holds the seven document ids, in `DOCUMENT_TYPES` order,
      each null. */
  lemma InitialFilesShape()
    ensures |InitialFiles()| == |DocumentTypes|
    ensures forall i :: 0 <= i < |DocumentTypes| ==> InitialFiles()[i] == Slot(DocumentTypes[i].id, None)
    ensures DistinctIds(InitialFiles())
  {
    assert forall i, j :: 0 <= i < j < |DocumentTypes| ==> DocumentTypes[i].id != DocumentTypes[j].id;
    NullSlotsShape(DocumentTypes);
  }

  /** Folding `null` over distinct ids lays out one null slot per id, in order. */
  lemma {:induction false} NullSlotsShape(types: seq<DocumentType>)
    requires forall i, j :: 0 <= i < j < |types| ==> types[i].id != types[j].id
    ensures |NullSlots(types)| == |types|
    ensures forall i :: 0 <= i < |types| ==> NullSlots(types)[i] == Slot(types[i].id, None)
    ensures DistinctIds(NullSlots(types))
    decreases |types|
  {
    if types != [] {
      var n := |types| - 1;
      var init := types[..n];
      NullSlotsShape(init);
      var acc := NullSlots(init);
      assert !HasSlot(acc, types[n].id) by {
        forall k | 0 <= k < |acc| ensures acc[k].id != types[n].id {
          assert acc[k].id == types[k].id;
        }
      }
      PutKeepsDistinct(acc, types[n].id, None);
    }
  }

  /** One more pass of the `DOCUMENT_TYPES` loop. */
  lemma DocumentsMissingExtend(types: seq<DocumentType>, files: seq<Slot>, k: nat)
    requires k < |types|
    ensures DocumentsMissing(types[..k + 1], files) ==
            DocumentsMissing(types[..k], files) +
            (if types[k].required && Lookup(files, types[k].id) == None then [types[k].caption] else [])
  {
    assert types[..k + 1][..k] == types[..k];
  }

  /** A caption is reported exactly when it belongs to a required document with no file. */
  lemma {:induction false} DocumentsMissingMembers(types: seq<DocumentType>, files: seq<Slot>, caption: string)
    ensures caption in DocumentsMissing(types, files) <==>
            exists i :: 0 <= i < |types| && types[i].required && Lookup(files, types[i].id) == None &&
                        types[i].caption == caption
    decreases |types|
  {
    if types != [] {
      var n := |types| - 1;
      var init := types[..n];
      DocumentsMissingMembers(init, files, caption);
      if exists i :: 0 <= i < |init| && init[i].required && Lookup(files, init[i].id) == None && init[i].caption == caption {
        var i :| 0 <= i < |init| && init[i].required && Lookup(files, init[i].id) == None && init[i].caption == caption;
        assert types[i] == init[i];
      }
      if exists i :: 0 <= i < |types| && types[i].required && Lookup(files, types[i].id) == None && types[i].caption == caption {
        var i :| 0 <= i < |types| && types[i].required && Lookup(files, types[i].id) == None && types[i].caption == caption;
        if i < n { assert init[i] == types[i]; }
      }
    }
  }

  /** The pre-submit message lists Full Name, Email, Job Position, Location, then the
      required documents in `DOCUMENT_TYPES` order, each only when it is missing. */
  lemma MissingLabelsInOrder(fields: Fields, files: seq<Slot>)
    ensures MissingLabels(fields, files) ==
              (if fields.fullName == "" then ["Full Name"] else []) +
              (if fields.email == "" then ["Email"] else []) +
              (if fields.position == "" then ["Job Position"] else []) +
              (if fields.location == "" then ["Location"] else []) +
              (if Lookup(files, "resume") == None then ["Resume/CV *"] else []) +
              (if Lookup(files, "degree") == None then ["Degree Certificate *"] else []) +
              (if Lookup(files, "idProof") == None then ["ID Proof *"] else [])
  {
    RequiredDocumentsMissing(files);
    var fieldPart := FieldsMissing(fields);
    var r := if Lookup(files, "resume") == None then ["Resume/CV *"] else [];
    var d := if Lookup(files, "degree") == None then ["Degree Certificate *"] else [];
    var p := if Lookup(files, "idProof") == None then ["ID Proof *"] else [];
    assert fieldPart + (r + d + p) == fieldPart + r + d + p;
  }

  /** Only the first three document types are required. */
  lemma RequiredDocumentsMissing(files: seq<Slot>)
    ensures DocumentsMissing(DocumentTypes, files) ==
              (if Lookup(files, "resume") == None then ["Resume/CV *"] else []) +
              (if Lookup(files, "degree") == None then ["Degree Certificate *"] else []) +
              (if Lookup(files, "idProof") == None then ["ID Proof *"] else [])
  {
    var t := DocumentTypes;
    OptionalDocumentsNeverMissing(t, files, 3);
    assert t[..3][..0] == [];
    DocumentsMissingExtend(t[..3], files, 0);
    DocumentsMissingExtend(t[..3], files, 1);
    DocumentsMissingExtend(t[..3], files, 2);
    assert t[..3][..3] == t[..3];
    assert t[..3] == [DocumentType("resume", "Resume/CV *", true),
                      DocumentType("degree", "Degree Certificate *", true),
                      DocumentType("idProof", "ID Proof *", true)];
  }

  /** Document types that are not required add nothing to the missing list. */
  lemma {:induction false} OptionalDocumentsNeverMissing(types: seq<DocumentType>, files: seq<Slot>, k: nat)
    requires k <= |types|
    requires forall i :: k <= i < |types| ==> !types[i].required
    ensures DocumentsMissing(types, files) == DocumentsMissing(types[..k], files)
    decreases |types|
  {
    if |types| > k {
      var n := |types| - 1;
      assert types[..n][..k] == types[..k];
      OptionalDocumentsNeverMissing(types[..n], files, k);
    } else {
      assert types[..k] == types;
    }
  }

  /** The payload carries exactly the selected files, each under its document id,
      and nothing else after the text parts. */
  lemma {:induction false} FilePartsExact(files: seq<Slot>, id: string, file: FileRecord)
    requires DistinctIds(files)
    ensures FilePart(id, file) in FileParts(files) <==> Lookup(files, id) == Some(file)
    ensures forall p :: p in FileParts(files) ==> p.FilePart?
    decreases |files|
  {
    if files != [] {
      var n := |files| - 1;
      var init := files[..n];
      var last := files[n];
      assert DistinctIds(init);
      FilePartsExact(init, id, file);
      LookupSnoc(init, last, id);
      assert init + [last] == files;
      assert files[..n] == init;
      var tail := match last.file case Some(f) => [FilePart(last.id, f)] case None => [];
      assert FileParts(files) == FileParts(init) + tail;
      if !HasSlot(init, id) {
        LookupAbsent(init, id);
      }
      if last.id == id {
        assert !HasSlot(init, id) by {
          forall k | 0 <= k < |init| ensures init[k].id != id { assert init[k] == files[k]; }
        }
        assert Lookup(files, id) == last.file;
      } else {
        assert FilePart(id, file) !in tail;
        assert Lookup(files, id) == Lookup(init, id);
      }
    }
  }

  /** Looking up in a record extended by one slot at the end. */
  lemma {:induction false} LookupSnoc(init: seq<Slot>, last: Slot, id: string)
    ensures Lookup(init + [last], id) ==
            if HasSlot(init, id) then Lookup(init, id) else if last.id == id then last.file else None
  {
    if init == [] {
    } else {
      assert (init + [last])[1..] == init[1..] + [last];
      LookupSnoc(init[1..], last, id);
      if init[0].id != id {
        assert HasSlot(init, id) <==> HasSlot(init[1..], id) by {
          if HasSlot(init, id) {
            var k :| 0 <= k < |init| && init[k].id == id;
            assert init[1..][k - 1] == init[k];
          }
          if HasSlot(init[1..], id) {
            var k :| 0 <= k < |init[1..]| && init[1..][k].id == id;
            assert init[k + 1] == init[1..][k];
          }
        }
      }
    }
  }
}
