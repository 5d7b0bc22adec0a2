# Job-application form and send-email endpoint, in Dafny

This project models the two pieces of logic in a small Next.js job-application site.

- **The `POST` handler of `/api/send-email`** (`src/app/api/send-email/route.ts`, module `SendEmailRoute`). It validates a parsed multipart submission:
  - required fields are checked first, stopping at the first failure;
  - then all missing required documents are reported together.
  
  It then picks the recipient office, composes the application mail and hands it to the mail transport, attaching the uploaded documents in a fixed order.
  - `SendEmailRoute.Handle` is the reference definition of the handler's answer, following the code as written.
  - `SendEmailRoute.Post` is the handler itself, with its two loops, proved equal to `Handle`.
  - `SendEmailRoute.HandleCorrected` is the same handler with the two defects under "## Findings" corrected.
- **The application form component** (`src/app/components/ContactForm.tsx`, module `ContactForm`). The class `JobApplication` has the component's five state slots as fields:
  - `formData`, `files`, `isSubmitting`, `submitError` and `submitSuccess`.
  
  Each handler is a method with a `modifies` frame. `HandleSubmit` receives the outcome of the network request as a parameter: `Ok`, `NotOk` or `Throws`.
- **The two together** (module `Submission`). `ToForm` gives the endpoint's view of the body the form posts: `formData.get` sees the first part under each name. Two lemmas connect the sides, for the handler as written and for the corrected one:
  - a submission the form lets through passes the endpoint's validation;
  - it is delivered whenever the mail service is configured and works.

`common.dfy` holds what both sides share: `Option`, the `FileRecord` (name, media type, size) and `Join` (`Array.prototype.join`).

JavaScript semantics the model spells out:
- `formData.get(name)` is falsy for a missing entry and for the empty string; a file is always truthy.
- A file interpolated into a template string renders as `[object File]`, and a missing entry as `null`.
- Object keys keep their insertion order, which is the order of `Object.entries`.
- A property lookup on an object literal also finds the members it inherits from `Object.prototype`.

## Model

| member | source | states |
|---|---|---|
| SendEmailRoute.Post | src/app/api/send-email/route.ts:12-108 | The handler computes exactly the reference outcome `Handle`. Its field loop returns on the first falsy field. |
| SendEmailRoute.CollectAttachments | src/app/api/send-email/route.ts:86-95 | The attachment loop yields exactly the attachment list `Attachments` defines. A file is pushed as `docType_name`, a falsy entry is skipped, and a non-empty text entry makes it throw. |
| SendEmailRoute.NoMissingField | src/app/api/send-email/route.ts:17-25 | No field is reported exactly when every field in the list is present and non-empty (both directions). |
| SendEmailRoute.FirstMissingFieldAt | src/app/api/send-email/route.ts:18-24 | The field reported is the first absent or empty one in list order. |
| SendEmailRoute.MissingFieldRejected | src/app/api/send-email/route.ts:17-34 | The first missing of fullName, email, position, location gives a 400 naming only that field. This holds whatever the documents, the environment or the transport, so a missing field wins over missing documents. The corrected handler answers the same. |
| SendEmailRoute.AbsentAmongMembers | src/app/api/send-email/route.ts:28 | As written, a document is reported exactly when it is required and the body has no entry of that name, of any kind (both directions). |
| SendEmailRoute.MissingAmongMembers | src/app/api/send-email/route.ts:28 | Corrected, a document is reported exactly when it is required and was not uploaded as a file (both directions). |
| SendEmailRoute.MissingDocumentsInOrder | src/app/api/send-email/route.ts:10-28 | Both the check as written and the corrected one list the missing documents in the order resume, degree, idProof. |
| SendEmailRoute.MissingDocumentsRejected | src/app/api/send-email/route.ts:28-34 | When every field is present and some required document has no entry of its name, the result is one 400 listing, joined by ", ", every required document without an entry. |
| SendEmailRoute.MissingDocumentsRejectedCorrected | src/app/api/send-email/route.ts:28-34 | The corrected handler gives the same 400 for every required document not uploaded as a file, including one sent as text. |
| SendEmailRoute.ResumeAndIdProofMissing | src/app/api/send-email/route.ts:28-34 | With no resume and no idProof entry and some degree entry, the error is exactly "Missing required documents: resume, idProof". |
| SendEmailRoute.AttachmentsAbortExactly | src/app/api/send-email/route.ts:86-95 | The attachment loop throws exactly when some document name carries a non-empty text entry instead of a file. |
| SendEmailRoute.AttachmentsFollowDocumentOrder | src/app/api/send-email/route.ts:80-95 | The attachments are exactly the uploaded documents, in the fixed seven-kind order, and there are at most seven. Each is named `kind_filename` and carries the file's media type. |
| SendEmailRoute.DocumentLinesMatchKinds | src/app/api/send-email/route.ts:68-75 | The mail text has seven document lines, one per kind in the fixed order. Each says "Yes" exactly when the form has an entry of that name. |
| SendEmailRoute.OnlyDocumentLinesAreListLines | src/app/api/send-email/route.ts:59-76 | Of the 18 template lines in `lines`, exactly elements 10..16 (the seven document lines) start with "- ", whatever the applicant typed. This is about the elements of `lines`: a typed value holding a line break can still add a line starting with "- " to the joined text. |
| SendEmailRoute.SubjectAndPhone | src/app/api/send-email/route.ts:58-64 | The subject is "New Application for <position> - <location>". An absent or empty phone reads "Not provided"; a given phone is shown as typed. |
| SendEmailRoute.DeliveredExactly | src/app/api/send-email/route.ts:17-99 | The mail is delivered exactly when all of these hold: the fields are present; some entry, even an empty text, arrived under each required document name; both credentials are set; the transport verifies and sends; no document name carries non-empty text. The mail sent is then the one composed from the form. |
| SendEmailRoute.DeliveredExactlyCorrected | src/app/api/send-email/route.ts:17-99 | The corrected handler delivers exactly when, in addition, each required document was uploaded as a file. Its mail goes to the corrected recipient. |
| SendEmailRoute.UnconfiguredFails | src/app/api/send-email/route.ts:39-41 | When every field is present and every required document name has an entry, a missing credential or a transport that fails verification gives the generic 500, and no mail is handed over. |
| SendEmailRoute.TextDocumentFails | src/app/api/send-email/route.ts:86-106 | A non-empty text entry under a document name passes the document check but makes the attachment loop throw, giving the generic 500 with no mail handed over. |
| SendEmailRoute.DeliveredRecipient | src/app/api/send-email/route.ts:36-37 | A delivered mail goes to the office listed for a text location. A location naming an inherited member (`toString` and the like) gives that member. Any other location gives the fallback address, possibly undefined. The mail carries at most seven attachments. |
| SendEmailRoute.RecipientAsWrittenCases | src/app/api/send-email/route.ts:37 | The lookup as written has three cases: an office gives its address, an inherited member name gives that member, and anything else gives `FALLBACK_EMAIL`. |
| SendEmailRoute.RecipientResolution | src/app/api/send-email/route.ts:4-8 | Each office name maps to its address and every other location to the fallback. Away from inherited member names, the as-written lookup agrees with the corrected one. |
| SendEmailRoute.JaneDoeAttachments | src/app/api/send-email/route.ts:86-95 | A submission with only the three required documents yields exactly those three attachments, in order. |
| SendEmailRoute.JaneDoeMail | src/app/api/send-email/route.ts:55-75 | In the worked case the mail goes to the Bala Cynwyd office. Its document lines read Yes for the three required documents and No for the four others. |
| SendEmailRoute.JaneDoeScenario | src/app/api/send-email/route.ts:12-99 | The worked case is delivered to the Bala Cynwyd office with three attachments. Its document lines read Yes, Yes, Yes, No, No, No, No. |
| SendEmailRoute.NothingToAttach | src/app/api/send-email/route.ts:86-95 | When every document type is skipped, the mail carries no attachment. |
| SendEmailRoute.EmptyTextPartsPassDocumentCheck | src/app/api/send-email/route.ts:28 | As written, a request whose three required documents are empty text parts is delivered with no attachment. The corrected handler answers 400 "Missing required documents: resume, degree, idProof". |
| SendEmailRoute.InheritedLocationSkipsFallback | src/app/api/send-email/route.ts:37 | As written, the location "toString" resolves to an inherited member instead of the fallback address. The corrected lookup gives the fallback. |
| ContactForm.JobApplication.constructor | src/app/components/ContactForm.tsx:29-43 | The state starts as five empty fields, the initial `files`, not submitting, no error and no success. |
| ContactForm.JobApplication.HandleChange | src/app/components/ContactForm.tsx:45-48 | Only the named input changes; `files` and the status slots are untouched. |
| ContactForm.JobApplication.HandleFileChange | src/app/components/ContactForm.tsx:50-73 | A rejected file leaves `files` unchanged and shows the error naming the document. An accepted file, or no file, sets only slot `docId` and clears the error. Every other slot keeps its value. The invariant `Valid` is kept: keys stay unique and every stored file has an allowed type and is at most 5 MiB. |
| ContactForm.JobApplication.RemoveFile | src/app/components/ContactForm.tsx:75-77 | Only slot `docId` becomes null; every other slot and the rest of the state are unchanged. `Valid` is kept. |
| ContactForm.MissingDocumentCaptions | src/app/components/ContactForm.tsx:91-95 | The `DOCUMENT_TYPES` pass yields the captions of the required documents without a file, in table order. |
| ContactForm.JobApplication.CollectErrors | src/app/components/ContactForm.tsx:85-95 | The loop collects exactly the missing labels: the empty required inputs, then the required documents without a file. |
| ContactForm.JobApplication.BuildPayload | src/app/components/ContactForm.tsx:104-113 | The payload is the five text parts, then one part per selected file in slot order. |
| ContactForm.JobApplication.HandleSubmit | src/app/components/ContactForm.tsx:79-137 | If anything is missing: no request is made, the "Please fill all required fields" message is set and the state is preserved. Otherwise the payload is posted. An ok response resets the fields and files and sets success. Any other response keeps them and sets the generic error. `isSubmitting` ends false on every path. |
| ContactForm.SetFieldChangesOnlyName | src/app/components/ContactForm.tsx:47 | Setting input `name` changes that input and no other. |
| ContactForm.FileAcceptance | src/app/components/ContactForm.tsx:53-69 | A file is accepted exactly when its type is PDF, DOC or DOCX and it is at most 5 MiB, so exactly 5 MiB is accepted. The type is checked before the size. Each error message names the document. |
| ContactForm.PutFrame | src/app/components/ContactForm.tsx:71 | Writing a slot sets that slot and leaves every other one as it was. |
| ContactForm.PutAbsent | src/app/components/ContactForm.tsx:71 | Writing a key the object does not have appends it after the existing keys. |
| ContactForm.PutAccepted | src/app/components/ContactForm.tsx:53-71 | Writing null, or a file that passes the type and size checks, keeps every stored file accepted. |
| ContactForm.LookupAccepted | src/app/components/ContactForm.tsx:111-113 | When every stored file is accepted, the file read back under any id is an accepted one. |
| ContactForm.PutKeepsDistinct | src/app/components/ContactForm.tsx:71 | Writing a slot keeps keys unique. An existing key keeps its position; a new key is appended. |
| ContactForm.NullSlotsShape | src/app/components/ContactForm.tsx:38 | The `reduce` over distinct ids lays out one null slot per id, in order. |
| ContactForm.InitialFilesShape | src/app/components/ContactForm.tsx:37-39 | The initial `files` holds exactly the seven document ids in `DOCUMENT_TYPES` order, all null. |
| ContactForm.DocumentsMissingMembers | src/app/components/ContactForm.tsx:91-95 | A label is reported exactly when it belongs to a required document with no file (both directions). |
| ContactForm.OptionalDocumentsNeverMissing | src/app/components/ContactForm.tsx:91-95 | Document types that are not required never add a caption to the missing list. |
| ContactForm.RequiredDocumentsMissing | src/app/components/ContactForm.tsx:4-12 | Only the first three document types can be reported missing, in their table order. |
| ContactForm.MissingLabelsInOrder | src/app/components/ContactForm.tsx:85-95 | The missing labels come in this order: Full Name, Email, Job Position, Location, then Resume/CV *, Degree Certificate *, ID Proof *. Each appears only when it is missing. |
| ContactForm.FilePartsExact | src/app/components/ContactForm.tsx:111-113 | A file part (id, file) is in the payload exactly when slot id holds that file. Every part after the text parts is a file part. |
| Submission.ToFormFirst | src/app/api/send-email/route.ts:14 | A name is in the server's form exactly when some part carries it, and it then maps to the first such part. |
| Submission.PayloadAsServerSees | src/app/components/ContactForm.tsx:104-113 | Round trip: the endpoint reads back every input as posted. It sees a document id exactly when a file is selected for it, as that very file. |
| Submission.PostedFilesAccepted | src/app/components/ContactForm.tsx:111-113 | Every file the endpoint receives from the form has an allowed media type and is at most 5 MiB, although the endpoint does not check this again. |
| Submission.ClientCheckImpliesServerChecks | src/app/components/ContactForm.tsx:85-101 | A submission the form lets through passes the endpoint's checks: no missing field, and no missing document by the check as written or by the corrected one. |
| Submission.FieldsReachServer | src/app/components/ContactForm.tsx:86-89 | When the form finds no empty required input, the endpoint finds no missing field. |
| Submission.DocumentsReachServer | src/app/components/ContactForm.tsx:91-95 | When the form finds no missing required document, the endpoint finds none either, by either check: each arrives as a file. |
| Submission.ValidSubmissionDelivered | src/app/api/send-email/route.ts:86-99 | Such a submission is delivered by the handler as written and by the corrected one whenever the credentials are set and the transport works, because no document arrives as text. |
| Submission.SameDocumentTypes | src/app/components/ContactForm.tsx:4-12 | The form and the endpoint list the same seven document ids, in the same order, and agree on which three are required. |

## Left out

- nodemailer (`createTransport`, `verify`, `sendMail`) is a foreign library doing network I/O. `Transport` records only whether verification and sending succeed.
- The outcome of sending is modelled independently of the mail: `Delivered` is possible even when `to` is undefined (no `FALLBACK_EMAIL`) or an inherited function. What nodemailer does with such a recipient is not part of this model.
- The SMTP host, port and security settings (including `parseInt` of the port) are also out, since no rule depends on them.
- `request.formData()` parses the multipart body. Its result is modelled as already parsed: a map holding the first entry per name, or `Malformed` when parsing throws.
- Repeated entries under one name are not modelled beyond "the first one wins".
- `file.arrayBuffer()` and `Buffer.from`: attachment bytes are opaque. Only the file name and media type are modelled.
- `process.env` is replaced by the `Config` parameter (`EMAIL_USER`, `EMAIL_PASSWORD`, `FALLBACK_EMAIL`).
- `console.error` logging is not modelled.
- `fetch`, `async`/`await` and React's batching of state updates are not modelled. `HandleSubmit` takes the request's outcome as a parameter and runs to completion.
- The intermediate state while the request is in flight (`isSubmitting` true) is not observable in the model.
- JSX rendering of the form and the `LOCATIONS` and `JOB_POSITIONS` option lists are out: they only feed the inputs.
- `src/app/page.tsx` and `next.config.ts` hold no logic and are not part of this model.
- ContactForm.SetFieldChangesOnlyName: an input name outside the five leaves `formData` unchanged in the model. In the source it adds a key that nothing reads.
- `Object.entries` puts integer-like keys first. The model keeps plain insertion order, which is the same thing for the seven document ids the form uses.
- A rejected file leaves the previous file in its slot; the slot is not cleared. `HandleFileChange` states this.

## Findings

| source | as written | input that shows it | evidently intended | confidence | as-written member | corrected member |
|---|---|---|---|---|---|---|
| src/app/api/send-email/route.ts:28 | A required document counts as given when the body has any entry of that name (`formData.has`). | A body whose resume, degree and idProof parts are empty text. | The check should require an uploaded file, since the mail then carries none of the three documents. | not executed | SendEmailRoute.EmptyTextPartsPassDocumentCheck | SendEmailRoute.DeliveredExactlyCorrected |
| src/app/api/send-email/route.ts:37 | The office table is an object literal, so the lookup also finds inherited members such as `toString`. These are truthy, so the fallback is skipped. | location = "toString" | Every location that is not one of the three offices should go to the fallback address. | not executed | SendEmailRoute.InheritedLocationSkipsFallback | SendEmailRoute.RecipientResolution |

`Handle` and `Post` follow the code as written. `HandleCorrected` is the same handler with both rows corrected. `EmptyTextPartsPassDocumentCheck` exhibits a request the two handlers answer differently.
