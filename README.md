# Job board: applications, CVs and companies

A model of the request handlers of a Laravel job board that change its data:
applying for a job and withdrawing the application, an employer accepting or
rejecting it (`ApplicationController`), deleting one's CV (`CvController`), and
creating, editing, re-imaging and deleting a company (`CompanyController`).

The database is one object, `Board.JobBoard`, whose fields are the tables the
handlers touch: the posts with their open-slot counter `nrWorkers`, the
applications `(user_id, post_id, status)`, the CVs, the companies, the set of
paths on the public storage disk, and the log of queued mail jobs. Each handler
is a method that updates these fields in place, checking in the same order as
the controller, and returns `Done` or `Refused(e)` for the redirect with a
success or error message (`NotFound` for a 404 from `findOrFail`, `ServerError`
for a property read or a method call on a missing model). Each method is proved to perform the
transition given by a function on the value `Domain.Db` (modules
`Applications`, `Cvs`, `Companies`), and to keep the invariant
`Domain.Consistent`:

- no post has a negative `nrWorkers`;
- at most one application exists per (user, post) pair;
- every application belongs to an existing post;
- every user has at most one CV;
- the id counters are past every id in use.

The lemmas beside those functions state what each handler promises. That
covers the refusals and the state they leave unchanged, the exact effect of a
success, and the round trip of apply and withdraw. They also cover the
notify-always, transition-conditionally behaviour of accept and reject. The
file name given to a new company image (`ImageNames`) is modelled as a
recursive function on strings. It is proved to keep exactly the allowed
characters, in order, to be idempotent, and to split back into its timestamp
and sanitised name.

Some facts of the source that the model keeps:

- Apply checks the role and the CV of the *authenticated* user. The duplicate
  check and the new row use the `user_id` *in the request*, so both identities
  are parameters.
- The capacity test is `nrWorkers == 0`, not `<= 0`.
- Withdraw gives the slot back with no upper bound.
- Accept, reject and `updateImage` have no ownership check.
- `update` may overwrite the `image` column from the request, because it is
  fillable; only `user_id` is stripped.
- Deleting a CV or a company leaves its file on the disk.
- Deleting a company that the acting user does not own is a server error, not
  the "not allowed" message: the lookup is scoped to the user's own companies,
  so it yields null, and the ownership test reads `user_id` of null.
- `CvController` has only the delete action; it has no upload or replace action.

## Model

| member | source | states |
|---|---|---|
| `Board.JobBoard.Apply` | app/Http/Controllers/ApplicationController.php:36-68 | the checks run in the source's order and the new tables are those of `Applications.Apply`; a refusal changes nothing; the invariant (non-negative slots, unique pairs) is kept |
| `Board.JobBoard.Withdraw` | app/Http/Controllers/ApplicationController.php:79-90 | performs `Applications.Withdraw` in place; a refusal changes nothing; the invariant is kept |
| `Board.JobBoard.Accept` | app/Http/Controllers/ApplicationController.php:101-108 | performs `Applications.Accept` in place and keeps the invariant |
| `Board.JobBoard.Reject` | app/Http/Controllers/ApplicationController.php:119-126 | performs `Applications.Reject` in place and keeps the invariant |
| `Board.JobBoard.DeleteCv` | app/Http/Controllers/CvController.php:11-18 | performs `Cvs.DeleteCv` in place; a refusal changes nothing; the invariant is kept |
| `Board.JobBoard.StoreCompany` | app/Http/Controllers/CompanyController.php:42-74 | performs `Companies.StoreCompany` in place; a refusal changes nothing |
| `Board.JobBoard.UpdateCompany` | app/Http/Controllers/CompanyController.php:86-99 | performs `Companies.UpdateCompany` in place; a refusal changes nothing |
| `Board.JobBoard.UpdateImage` | app/Http/Controllers/CompanyController.php:111-135 | performs the corrected `Companies.UpdateImage` in place (see Findings); a refusal changes nothing |
| `Board.JobBoard.DeleteCompany` | app/Http/Controllers/CompanyController.php:146-154 | performs `Companies.DeleteCompany` in place: the owner's company is removed, anyone else gets a server error; a refusal changes nothing |
| `Applications.Apply` | app/Http/Controllers/ApplicationController.php:36-68 | a refusal leaves the tables as they were; a success needs a post with no application of the request's pair, which then has one, takes one slot from that post and queues two mails |
| `Applications.Withdraw` | app/Http/Controllers/ApplicationController.php:79-90 | a success needs the acting user to own the application, removes it and gives its post one slot back; a 404 or a non-owner refusal changes nothing |
| `Applications.Accept` | app/Http/Controllers/ApplicationController.php:101-108 | succeeds exactly for a known id; afterwards the status is accepted and one accepted mail is queued; an unknown id changes nothing |
| `Applications.Reject` | app/Http/Controllers/ApplicationController.php:119-126 | succeeds exactly for a known id; afterwards the status is rejected and one rejected mail is queued; an unknown id changes nothing |
| `Cvs.DeleteCv` | app/Http/Controllers/CvController.php:11-18 | succeeds exactly when the CV exists and the acting user owns it; then that CV alone is removed, otherwise the CVs stay; no other table changes |
| `Companies.StoreCompany` | app/Http/Controllers/CompanyController.php:42-74 | a refusal changes nothing; a success stores the upload's path and creates a company under the fresh id, owned by the request's `user_id`, whose image is that path |
| `Companies.UpdateCompany` | app/Http/Controllers/CompanyController.php:86-99 | a success needs the acting user to own the company; no company is created or deleted and no company's owner changes |
| `Companies.UpdateImageAsWritten` | app/Http/Controllers/CompanyController.php:111-135 | as written: after a success the company's new image is on the disk if and only if it differs from the old image |
| `Companies.UpdateImage` | app/Http/Controllers/CompanyController.php:111-135 | corrected: after a success the company's image is on the disk |
| `Companies.DeleteCompany` | app/Http/Controllers/CompanyController.php:146-154 | succeeds exactly when the acting user owns the company, and then removes exactly it; otherwise the companies stay |
| `Companies.Truthy` | app/Http/Controllers/CompanyController.php:125 | PHP's truth value of the image column: the empty string is false, a one-character string is false exactly when it is `0`, and every longer string is true |
| `Board.TwoApplicantsOneSlot` | app/Http/Controllers/ApplicationController.php:41-64 | on a post with one slot, one applicant after another: the returned outcomes say the first succeeds and leaves 0 slots, the second is refused for lack of slots, and withdrawing the first succeeds and restores the slot |
| `Applications.ApplyRefusesEmployer` | app/Http/Controllers/ApplicationController.php:37-40 | an authenticated employer is refused before anything else, and the state is unchanged |
| `Applications.ApplyRefusesFullPost` | app/Http/Controllers/ApplicationController.php:41-44 | a post whose `nrWorkers` is 0 refuses the applicant, and the state is unchanged |
| `Applications.ApplyRefusesDuplicate` | app/Http/Controllers/ApplicationController.php:45-51 | an existing application for the request's (user_id, post_id) makes apply refuse, and the state is unchanged |
| `Applications.ApplyRefusesWithoutCv` | app/Http/Controllers/ApplicationController.php:52-54 | when the authenticated user has no CV, apply is refused, whatever user_id the request names, and the state is unchanged |
| `Applications.ApplySucceedsIff` | app/Http/Controllers/ApplicationController.php:36-63 | apply succeeds if and only if all six checks pass; any refusal leaves the state unchanged |
| `Applications.ApplyEffects` | app/Http/Controllers/ApplicationController.php:59-66 | a success adds exactly one pending application for the request's user and post under a fresh id, decrements that post's `nrWorkers` by 1 and leaves the other posts alone; it queues the new-application mail then the applied mail, and touches no other table |
| `Applications.ApplyPreservesConsistent` | app/Http/Controllers/ApplicationController.php:42-64 | apply keeps `nrWorkers >= 0` and at most one application per pair |
| `Applications.WithdrawRefusesNonOwner` | app/Http/Controllers/ApplicationController.php:81-85 | a withdraw by anyone but the application's user is refused; the application stays and no count moves |
| `Applications.WithdrawByOwner` | app/Http/Controllers/ApplicationController.php:86-88 | the owner's withdraw removes exactly that application and increments its post's `nrWorkers` by 1, with no cap; no other table changes |
| `Applications.WithdrawPreservesConsistent` | app/Http/Controllers/ApplicationController.php:81-88 | withdraw keeps the invariant |
| `Applications.ApplyThenWithdrawRestores` | app/Http/Controllers/ApplicationController.php:59-88 | a successful apply, then a withdraw of the new row by the request's user, gives back the original posts and applications; only the id counter and the mail log differ |
| `Applications.AcceptEffects` | app/Http/Controllers/ApplicationController.php:101-107 | afterwards the status is accepted; it changed if and only if it was pending or rejected; exactly one accepted mail is queued even when nothing changed; no other application changes and no table other than the applications and the mail log |
| `Applications.RejectEffects` | app/Http/Controllers/ApplicationController.php:119-125 | afterwards the status is rejected; it changed if and only if it was pending or accepted; exactly one rejected mail is queued in every case; no other application changes and no table other than the applications and the mail log |
| `Applications.AcceptUnknownRefused` | app/Http/Controllers/ApplicationController.php:102 | accepting an unknown id is a 404 with no mail and no change |
| `Applications.RejectUnknownRefused` | app/Http/Controllers/ApplicationController.php:120 | rejecting an unknown id is a 404 with no mail and no change |
| `Applications.AcceptTwice` | app/Http/Controllers/ApplicationController.php:101-107 | accepting twice gives the tables of accepting once, but two accepted mails |
| `Applications.RejectTwice` | app/Http/Controllers/ApplicationController.php:119-125 | rejecting twice gives the tables of rejecting once, but two rejected mails |
| `Applications.RejectThenAccept` | app/Http/Controllers/ApplicationController.php:103-122 | a pending application can be rejected and then accepted: no status is final |
| `Applications.DecidePreservesConsistent` | app/Http/Controllers/ApplicationController.php:101-125 | accept and reject keep the invariant |
| `Cvs.DeleteCvUnknown` | app/Http/Controllers/CvController.php:12 | an unknown CV id is a 404 and nothing changes |
| `Cvs.DeleteCvRefusesNonOwner` | app/Http/Controllers/CvController.php:13-15 | a user other than the CV's owner is refused and the CV remains |
| `Cvs.DeleteCvByOwner` | app/Http/Controllers/CvController.php:16 | the owner removes exactly that CV; all other CVs and all other tables, the stored files included, are unchanged |
| `Cvs.DeleteCvPreservesConsistent` | app/Http/Controllers/CvController.php:11-17 | deleting a CV keeps the invariant |
| `Cvs.DeleteCvThenApplyRefused` | app/Http/Controllers/CvController.php:16 | after the owner deletes their CV, their next apply is refused and changes nothing; if the role, post, slot and duplicate checks pass, it is the missing-CV refusal |
| `Companies.StoreCompanyRefusesEmployee` | app/Http/Controllers/CompanyController.php:43-46 | a user whose role is employee cannot create a company; nothing changes |
| `Companies.StoreCompanyRefusesWithoutFile` | app/Http/Controllers/CompanyController.php:57-61 | without a valid uploaded image no company and no file is created |
| `Companies.StoreCompanyEffects` | app/Http/Controllers/CompanyController.php:42-74 | store succeeds if and only if the role, the validation and the upload pass. A success creates exactly one company under a fresh id: its `user_id` is the request's, its image is the stored path, and its columns are exactly the request's profile fields plus the image, with the request's values. The path is on the disk; no other company, file or table changes |
| `Companies.StoreCompanyPreservesConsistent` | app/Http/Controllers/CompanyController.php:62-71 | creating a company keeps the invariant |
| `Companies.UpdateCompanyEffects` | app/Http/Controllers/CompanyController.php:86-98 | update succeeds if and only if validation passes and the acting user owns the company; only that company's attributes change, to the fillable request fields; no company's `user_id` ever changes; no other table changes; a refusal changes nothing |
| `Companies.UpdateCompanyPreservesConsistent` | app/Http/Controllers/CompanyController.php:86-98 | updating a company keeps the invariant |
| `Companies.UpdateImageEffects` | app/Http/Controllers/CompanyController.php:114-133 | corrected: a success happens exactly when validation passes, the company exists and a file is present. Afterwards the image is `company/` + the time-stamped, sanitised name, and that file is on the disk. Only the image column of that company changes. The old file is gone exactly when it was truthy, present and different; an old path that was not on the disk stays absent; no other file, company or table changes |
| `Companies.UpdateImagePreservesConsistent` | app/Http/Controllers/CompanyController.php:119-128 | replacing an image keeps the invariant |
| `Companies.UpdateImageAsWrittenLosesImage` | app/Http/Controllers/CompanyController.php:124-128 | as written, when the old image path equals the new one, the company ends up pointing at a file that is not on the disk |
| `Companies.UpdateImageAsWrittenCounterexample` | app/Http/Controllers/CompanyController.php:124-128 | a concrete request: re-uploading `a.png` at second 0 over image `company/0_a.png` leaves the disk empty |
| `Companies.DeleteCompanyFailsForNonOwner` | app/Http/Controllers/CompanyController.php:147-150 | for a user who does not own the company the scoped lookup finds nothing and the ownership test reads a property of null: a server error, and nothing changes |
| `Companies.DeleteCompanyByOwner` | app/Http/Controllers/CompanyController.php:148-153 | the owner removes exactly that company and nothing else |
| `Companies.DeleteCompanyPreservesConsistent` | app/Http/Controllers/CompanyController.php:148-153 | deleting a company keeps the invariant |
| `ImageNames.Sanitize` | app/Http/Controllers/CompanyController.php:123 | the filtered name contains only characters of `[A-Za-z0-9._-]` and is no longer than the original |
| `ImageNames.SanitizeFixedPoint` | app/Http/Controllers/CompanyController.php:123 | a name is left unchanged if and only if all its characters are allowed |
| `ImageNames.SanitizeIdempotent` | app/Http/Controllers/CompanyController.php:123 | filtering twice equals filtering once |
| `ImageNames.SanitizeAppend` | app/Http/Controllers/CompanyController.php:123 | filtering distributes over concatenation (it acts character by character) |
| `ImageNames.SanitizeIsSubsequence` | app/Http/Controllers/CompanyController.php:123 | the filtered name is a subsequence of the original: order is preserved |
| `ImageNames.SanitizeCounts` | app/Http/Controllers/CompanyController.php:123 | every allowed character keeps its number of occurrences; every other character is removed |
| `ImageNames.Decimal` | app/Http/Controllers/CompanyController.php:123 | the string form of `time()` is a non-empty string of digits with no leading zero (it starts with `0` only for 0) |
| `ImageNames.ImageName` | app/Http/Controllers/CompanyController.php:123 | every character of the generated image name is in `[A-Za-z0-9._-]` |
| `ImageNames.DecimalRoundTrip` | app/Http/Controllers/CompanyController.php:123 | the digits of the timestamp read back as the timestamp |
| `ImageNames.ImageNameRoundTrip` | app/Http/Controllers/CompanyController.php:123 | the image name is the timestamp, `_`, and the sanitised name: splitting at the first underscore gives back exactly the time and the sanitised name |
| `ImageNames.ImageNameIsClean` | app/Http/Controllers/CompanyController.php:123 | every character of the image name is allowed, so sanitising it again changes nothing |

## Findings

| source | as written | input that shows it | evidently intended | confidence | as-written member | corrected member |
|---|---|---|---|---|---|---|
| app/Http/Controllers/CompanyController.php:124-128 | the new file is stored first; then the old image is deleted whenever it is truthy and exists on the disk, even when it is the same path as the file just stored | a company whose image is `company/0_a.png` receives `a.png` again within second 0: `storeAs` overwrites that path, then the delete removes it, and the company's image names a missing file | the old image is deleted only when it is a different file, so the company's image is on the disk afterwards | not executed; medium (needs the same second and the same client file name) | `Companies.UpdateImageAsWrittenCounterexample` | `Companies.UpdateImageEffects` |

## Left out

- Page rendering, redirects and flash messages: a handler's answer is the `Outcome` value.
- `CompanyController::create` only renders a form and is not modelled.
- Laravel's validation rules, MIME types and size limits: each handler takes
  a boolean `fieldsValid` for the outcome of `$request->validate`, checked at
  the point where the controller calls it.
- Storage internals: the disk is a set of paths. The random path `store()`
  picks is a parameter; `storeAs` gives `company/` plus the name. A failed
  write is not modelled: neither `store()` in company creation (the company
  would then be created with `false` as its image) nor `storeAs` in the image
  update returning false.
- The mail queue: each dispatch is one entry appended to the mail log; delivery is not modelled.
- `time()` is the parameter `now` (a non-negative number of seconds).
- Concurrency: the model is sequential. The non-atomic check-then-decrement of
  apply is not modelled, so two simultaneous applies to the last slot are not
  covered.
- The session is the `auth`/`actor` parameter. Authentication, password hashing and OAuth are not modelled.
- Ids and `nrWorkers` are compared as integers. PHP's `===` and `!==` on ids,
  and the capacity test `$post->nrWorkers === 0`, are assumed to see integers,
  as a database driver with native types returns them; the `Post` model casts
  no column. With a driver that returns strings, `"0" === 0` is false, so a
  post with no slots left would not be refused, and an ownership test of an
  integer against a string would always differ; neither is modelled.
- `AdminController`, `routes/web.php` and the Eloquent model files are not
  part of this model. The models only give the column lists used for the tables.
- CV upload and replacement are not in the controller modelled. The one-CV-per-user
  invariant is therefore assumed of the initial tables and kept by deletion.
- `Companies.DeleteCompany`: the database's action on `posts.company_id`
  (cascade or restrict) is not modelled, because the migrations are not part
  of this model; the delete is assumed to touch only the companies table. With
  a cascading key the company's posts (and perhaps their applications) would
  go too; with a restricting key a company with posts could not be deleted.
- Client file names: `ImageName` is given the name as `getClientOriginalName()`
  returns it, with any directory part already dropped, so the upload's name
  never contains `/` or `\`.
- `Board.JobBoard.Withdraw`: the missing-post branch of `Applications.Withdraw`
  (row deleted, then the increment fails) cannot occur under the class
  invariant, because no operation in this model deletes a post.
- `Board.JobBoard.UpdateImage`: follows the corrected deletion rule of the
  finding above. It does not delete a file that was just stored under the
  same path, which the source does.
