/**
 * `CompanyController`: creating a company, updating its details, replacing
 * its image, and deleting it.
 */
module Companies {
  import opened Domain
  import opened ImageNames

  /**
   * A client file name as `getClientOriginalName()` returns it: PHP's upload
   * handling keeps only the part after the last `/` or `\`, so neither occurs.
   */
  type ClientName = n: string | forall i | 0 <= i < |n| :: n[i] != '/' && n[i] != '\\' witness ""

  /** An uploaded file: its client file name, with any directory part already dropped, and whether the upload succeeded. */
  datatype Upload = Upload(originalName: ClientName, valid: bool)

  /** The columns a new company takes from the request (the image comes from the upload). */
  const ProfileKeys: set<string> := {"name", "description", "phone", "address", "website", "email"}

  /** The mass-assignable columns of a company other than `user_id`. */
  const Assignable: set<string> := ProfileKeys + {"image"}

  /** The entries of a request whose keys are in `keys`. */
  function Only(req: map<string, string>, keys: set<string>): (r: map<string, string>)
    ensures r.Keys == req.Keys * keys
    ensures forall k | k in r :: r[k] == req[k]
  {
    map k | k in req && k in keys :: req[k]
  }

  /** The company's image column, the empty string when it is NULL. */
  function ImageOf(c: Company): string {
    if "image" in c.fields then c.fields["image"] else ""
  }

  /**
   * PHP's truthiness of a string, as in `if ($company->image && ...)`: the
   * empty string and "0" are false, every other string is true.
   */
  predicate Truthy(v: string): (b: bool)
    ensures |v| >= 2 ==> b
    ensures |v| == 1 ==> (b <==> v[0] != '0')
    ensures v == [] ==> !b
  {
    v != "" && v != "0"
  }

  /** `storeAs('company', $name, 'public')`: the path of the stored file on the public disk. */
  function StoredPath(name: string): string {
    "company/" + name
  }

  /**
   * `store`: create a company. Anyone but an employee may; the fields are
   * validated, the uploaded image must be present and valid, it is stored
   * under `path` and the new row takes the request's `user_id`.
   */
  function StoreCompany(s: Db, auth: User, requestUserId: UserId, req: map<string, string>,
                        fieldsValid: bool, upload: Option<Upload>, path: string): (r: Step)
    ensures r.outcome.Refused? ==> r.db == s
    ensures r.outcome == Done ==>
      && path in r.db.stored
      && s.nextCompanyId in r.db.companies
      && r.db.companies[s.nextCompanyId].userId == requestUserId
      && ImageOf(r.db.companies[s.nextCompanyId]) == path
  {
    if auth.role == Employee then Step(s, Refused(WrongRole))
    else if !fieldsValid then Step(s, Refused(ValidationFailed))
    else if upload.None? || !upload.value.valid then Step(s, Refused(NoValidFile))
    else
      var id := s.nextCompanyId;
      Step(s.(stored := s.stored + {path},
              companies := s.companies[id := Company(requestUserId, Only(req, ProfileKeys)["image" := path])],
              nextCompanyId := id + 1),
           Done)
  }

  /** The company `id` when the acting user owns it (`Company::where('user_id', ...)->find($id)`). */
  function OwnedCompany(s: Db, actor: UserId, id: CompanyId): Option<Company> {
    if id in s.companies && s.companies[id].userId == actor then Some(s.companies[id]) else None
  }

  /**
   * `update`: the lookup is scoped to the acting user's companies and runs
   * before the validation; a missing company only fails when `update` is
   * called on it. The request minus `user_id`, restricted to the fillable
   * columns, overwrites the company's attributes.
   */
  function UpdateCompany(s: Db, actor: UserId, id: CompanyId, req: map<string, string>, fieldsValid: bool): (r: Step)
    ensures r.outcome == Done ==> OwnedCompany(s, actor, id).Some?
    ensures r.db.companies.Keys == s.companies.Keys
    ensures forall c | c in s.companies :: r.db.companies[c].userId == s.companies[c].userId
  {
    var company := OwnedCompany(s, actor, id);
    if !fieldsValid then Step(s, Refused(ValidationFailed))
    else if company.None? then Step(s, Refused(ServerError))
    else
      var c := company.value;
      var attrs := Only(req - {"user_id"}, Assignable);
      Step(s.(companies := s.companies[id := c.(fields := c.fields + attrs)]), Done)
  }

  /**
   * `updateImage` as written: the new file is stored first, and only then is
   * the old image deleted when it is truthy and present on the disk. When the
   * old path equals the new one, the file just stored is the one deleted.
   */
  function UpdateImageAsWritten(s: Db, id: CompanyId, fieldsValid: bool, upload: Option<Upload>, now: nat): (r: Step)
    ensures r.outcome == Done ==>
      id in s.companies && id in r.db.companies &&
      (ImageOf(r.db.companies[id]) in r.db.stored <==> ImageOf(s.companies[id]) != ImageOf(r.db.companies[id]))
  {
    if !fieldsValid then Step(s, Refused(ValidationFailed))
    else if id !in s.companies then Step(s, Refused(NotFound))
    else if upload.None? then Step(s, Refused(NoImage))
    else
      var c := s.companies[id];
      var path := StoredPath(ImageName(now, upload.value.originalName));
      var afterStore := s.stored + {path};
      var previous := ImageOf(c);
      var afterDelete := if Truthy(previous) && previous in afterStore then afterStore - {previous} else afterStore;
      Step(s.(stored := afterDelete, companies := s.companies[id := c.(fields := c.fields["image" := path])]), Done)
  }

  /**
   * `updateImage` with the old file deleted only when it is not the file
   * just stored. Note that there is no ownership check: any user may replace
   * any company's image.
   */
  function UpdateImage(s: Db, id: CompanyId, fieldsValid: bool, upload: Option<Upload>, now: nat): (r: Step)
    ensures r.outcome == Done ==> id in r.db.companies && ImageOf(r.db.companies[id]) in r.db.stored
  {
    if !fieldsValid then Step(s, Refused(ValidationFailed))
    else if id !in s.companies then Step(s, Refused(NotFound))
    else if upload.None? then Step(s, Refused(NoImage))
    else
      var c := s.companies[id];
      var path := StoredPath(ImageName(now, upload.value.originalName));
      var afterStore := s.stored + {path};
      var previous := ImageOf(c);
      var afterDelete := if Truthy(previous) && previous in afterStore && previous != path then afterStore - {previous} else afterStore;
      Step(s.(stored := afterDelete, companies := s.companies[id := c.(fields := c.fields["image" := path])]), Done)
  }

  /**
   * `deleteCompany`: the lookup is scoped to the acting user's companies.
   * When it finds nothing, the ownership test reads `user_id` of null, a PHP
   * warning that Laravel's error handler raises as an exception: the request
   * ends in a server error and nothing is deleted. With integer ids the
   * "not allowed" answer of that test is never reached.
   */
  function DeleteCompany(s: Db, actor: UserId, id: CompanyId): (r: Step)
    ensures r.outcome == Done <==> OwnedCompany(s, actor, id).Some?
    ensures r.db.companies == if r.outcome == Done then s.companies - {id} else s.companies
  {
    if OwnedCompany(s, actor, id).None? then Step(s, Refused(ServerError))
    else Step(s.(companies := s.companies - {id}), Done)
  }

  // ---------------------------------------------------------------------
  // store

  /** An employee cannot create a company. */
  lemma StoreCompanyRefusesEmployee(s: Db, auth: User, requestUserId: UserId, req: map<string, string>,
                                    fieldsValid: bool, upload: Option<Upload>, path: string)
    requires auth.role == Employee
    ensures StoreCompany(s, auth, requestUserId, req, fieldsValid, upload, path) == Step(s, Refused(WrongRole))
  {
  }

  /** Without a valid uploaded image no company is created and no file is stored. */
  lemma StoreCompanyRefusesWithoutFile(s: Db, auth: User, requestUserId: UserId, req: map<string, string>,
                                       upload: Option<Upload>, path: string)
    requires auth.role != Employee
    requires upload.None? || !upload.value.valid
    ensures StoreCompany(s, auth, requestUserId, req, true, upload, path) == Step(s, Refused(NoValidFile))
  {
  }

  /**
   * A company is created exactly when the role, the fields and the upload
   * pass. It is one new row under a fresh id, owned by the request's
   * `user_id`, whose image is the stored path, and that path is on the disk.
   */
  lemma StoreCompanyEffects(s: Db, auth: User, requestUserId: UserId, req: map<string, string>,
                            fieldsValid: bool, upload: Option<Upload>, path: string)
    requires Consistent(s)
    ensures var r := StoreCompany(s, auth, requestUserId, req, fieldsValid, upload, path);
      && (r.outcome == Done <==> auth.role != Employee && fieldsValid && upload.Some? && upload.value.valid)
      && (r.outcome != Done ==> r.db == s)
      && (r.outcome == Done ==>
            var id := s.nextCompanyId;
            && id !in s.companies
            && r.db.companies.Keys == s.companies.Keys + {id}
            && r.db.companies[id].userId == requestUserId
            && ImageOf(r.db.companies[id]) == path
            && r.db.companies[id].fields.Keys == (req.Keys * ProfileKeys) + {"image"}
            && (forall k | k in req && k in ProfileKeys :: r.db.companies[id].fields[k] == req[k])
            && path in r.db.stored && r.db.stored - {path} == s.stored - {path}
            && (forall c | c in s.companies :: r.db.companies[c] == s.companies[c])
            && r.db == s.(companies := r.db.companies, stored := r.db.stored, nextCompanyId := r.db.nextCompanyId))
  {
  }

  // ---------------------------------------------------------------------
  // update

  /**
   * Update succeeds exactly when the fields validate and the acting user owns
   * the company. It changes only that company's attributes and never any
   * company's owner, even when the request carries a `user_id`.
   */
  lemma UpdateCompanyEffects(s: Db, actor: UserId, id: CompanyId, req: map<string, string>, fieldsValid: bool)
    ensures var r := UpdateCompany(s, actor, id, req, fieldsValid);
      && (r.outcome == Done <==> fieldsValid && id in s.companies && s.companies[id].userId == actor)
      && (r.outcome != Done ==> r.db == s)
      && r.db.companies.Keys == s.companies.Keys
      && (forall c | c in s.companies :: r.db.companies[c].userId == s.companies[c].userId)
      && (forall c | c in s.companies && c != id :: r.db.companies[c] == s.companies[c])
      && (r.outcome == Done ==>
            && r.db.companies[id].fields.Keys == s.companies[id].fields.Keys + (req.Keys * Assignable)
            && (forall k | k in req && k in Assignable :: r.db.companies[id].fields[k] == req[k])
            && (forall k | k in s.companies[id].fields && k !in req :: r.db.companies[id].fields[k] == s.companies[id].fields[k]))
      && r.db == s.(companies := r.db.companies)
  {
  }

  // ---------------------------------------------------------------------
  // updateImage

  /**
   * After a successful image update the company's image is the stored path of
   * the sanitised, time-stamped name, that file is on the disk, the old image
   * file is gone exactly when it was truthy, present and a different file, and
   * no other file and no other company changes.
   */
  lemma UpdateImageEffects(s: Db, id: CompanyId, fieldsValid: bool, upload: Option<Upload>, now: nat)
    ensures var r := UpdateImage(s, id, fieldsValid, upload, now);
      && (r.outcome == Done <==> fieldsValid && id in s.companies && upload.Some?)
      && (r.outcome != Done ==> r.db == s)
      && (r.outcome == Done ==>
            var path := StoredPath(ImageName(now, upload.value.originalName));
            var previous := ImageOf(s.companies[id]);
            && r.db.companies[id] == s.companies[id].(fields := s.companies[id].fields["image" := path])
            && ImageOf(r.db.companies[id]) == path
            && path in r.db.stored
            && (previous in s.stored && previous != path ==> (previous !in r.db.stored <==> Truthy(previous)))
            && (previous !in s.stored && previous != path ==> previous !in r.db.stored)
            && r.db.stored - {path, previous} == s.stored - {path, previous}
            && r.db.companies[id].userId == s.companies[id].userId
            && r.db.companies.Keys == s.companies.Keys
            && (forall c | c in s.companies && c != id :: r.db.companies[c] == s.companies[c])
            && r.db == s.(companies := r.db.companies, stored := r.db.stored))
  {
  }

  /** As written, a company whose image already is the new path loses the file it points to. */
  lemma UpdateImageAsWrittenLosesImage(s: Db, id: CompanyId, upload: Upload, now: nat)
    requires id in s.companies
    requires ImageOf(s.companies[id]) == StoredPath(ImageName(now, upload.originalName))
    ensures var r := UpdateImageAsWritten(s, id, true, Some(upload), now);
      && r.outcome == Done
      && ImageOf(r.db.companies[id]) !in r.db.stored
  {
    var path := StoredPath(ImageName(now, upload.originalName));
    assert Truthy(path) by {
      assert |path| > |"0"|;
    }
  }

  /**
   * A concrete case: the company's logo was stored at second 0 as "a.png",
   * and the same file is uploaded again within that second. Its image then
   * names a file that is no longer on the disk.
   */
  lemma UpdateImageAsWrittenCounterexample()
    ensures var s := Db(map[], map[], 0, map[], map[0 := Company(1, map["image" := "company/0_a.png"])], 1,
                        {"company/0_a.png"}, []);
      var r := UpdateImageAsWritten(s, 0, true, Some(Upload("a.png", true)), 0);
      && r.outcome == Done
      && ImageOf(r.db.companies[0]) == "company/0_a.png"
      && r.db.stored == {}
  {
    assert Decimal(0) == "0";
    SanitizeFixedPoint("a.png");
    assert ImageName(0, "a.png") == "0_a.png";
  }

  // ---------------------------------------------------------------------
  // deleteCompany

  /** For a user who does not own the company the request fails with a server error and the company stays. */
  lemma DeleteCompanyFailsForNonOwner(s: Db, actor: UserId, id: CompanyId)
    requires id !in s.companies || s.companies[id].userId != actor
    ensures DeleteCompany(s, actor, id) == Step(s, Refused(ServerError))
  {
  }

  /** The owner removes exactly that company; its image file stays on the disk. */
  lemma DeleteCompanyByOwner(s: Db, id: CompanyId)
    requires id in s.companies
    ensures var r := DeleteCompany(s, s.companies[id].userId, id);
      && r.outcome == Done
      && r.db.companies == s.companies - {id}
      && r.db == s.(companies := r.db.companies)
  {
  }

  /** Creating a company keeps the invariant. */
  lemma StoreCompanyPreservesConsistent(s: Db, auth: User, requestUserId: UserId, req: map<string, string>,
                                        fieldsValid: bool, upload: Option<Upload>, path: string)
    requires Consistent(s)
    ensures Consistent(StoreCompany(s, auth, requestUserId, req, fieldsValid, upload, path).db)
  {
  }

  /** Updating a company keeps the invariant. */
  lemma UpdateCompanyPreservesConsistent(s: Db, actor: UserId, id: CompanyId, req: map<string, string>, fieldsValid: bool)
    requires Consistent(s)
    ensures Consistent(UpdateCompany(s, actor, id, req, fieldsValid).db)
  {
  }

  /** Replacing a company image keeps the invariant. */
  lemma UpdateImagePreservesConsistent(s: Db, id: CompanyId, fieldsValid: bool, upload: Option<Upload>, now: nat)
    requires Consistent(s)
    ensures Consistent(UpdateImage(s, id, fieldsValid, upload, now).db)
  {
  }

  /** Deleting a company keeps the invariant. */
  lemma DeleteCompanyPreservesConsistent(s: Db, actor: UserId, id: CompanyId)
    requires Consistent(s)
    ensures Consistent(DeleteCompany(s, actor, id).db)
  {
  }
}
