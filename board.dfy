/**
 * The job board's database as one mutable object: each controller action is
 * a method that updates its tables in place, in the order the controller
 * does, and is proved to produce the transition given by the corresponding
 * function of `Applications`, `Cvs` or `Companies`.
 */
module Board {
  import opened Domain
  import opened ImageNames
  import Applications
  import Cvs
  import Companies

  class JobBoard {
    var posts: map<PostId, Post>
    var applications: map<AppId, Application>
    var nextAppId: nat
    var cvs: map<CvId, Cv>
    var companies: map<CompanyId, Company>
    var nextCompanyId: nat
    var stored: set<string>
    var mails: seq<Mail>

    /** The tables as a value. */
    function Snapshot(): Db
      reads this
    {
      Db(posts, applications, nextAppId, cvs, companies, nextCompanyId, stored, mails)
    }

    ghost predicate Valid()
      reads this
    {
      Consistent(Snapshot())
    }

    constructor (s: Db)
      requires Consistent(s)
      ensures Valid() && Snapshot() == s
    {
      posts, applications, nextAppId := s.posts, s.applications, s.nextAppId;
      cvs, companies, nextCompanyId := s.cvs, s.companies, s.nextCompanyId;
      stored, mails := s.stored, s.mails;
    }

    /** `ApplicationController::store`. */
    method Apply(auth: User, req: Applications.ApplyRequest, fieldsValid: bool) returns (o: Outcome)
      requires Valid()
      modifies this
      ensures Valid()
      ensures Step(Snapshot(), o) == Applications.Apply(old(Snapshot()), auth, req, fieldsValid)
      ensures o.Refused? ==> unchanged(this)
    {
      Applications.ApplyPreservesConsistent(Snapshot(), auth, req, fieldsValid);
      if auth.role == Employer {
        return Refused(WrongRole);
      }
      if req.postId !in posts {
        return Refused(NotFound);
      }
      var post := posts[req.postId];
      if post.nrWorkers == 0 {
        return Refused(NoFreeSlots);
      }
      if HasApplied(applications, req.userId, req.postId) {
        return Refused(AlreadyApplied);
      }
      if !HasCv(cvs, auth.id) {
        return Refused(MissingCv);
      }
      if !fieldsValid {
        return Refused(ValidationFailed);
      }
      var id := nextAppId;
      applications := applications[id := Application(req.userId, req.postId, Pending)];
      nextAppId := nextAppId + 1;
      posts := posts[req.postId := post.(nrWorkers := post.nrWorkers - 1)];
      mails := mails + [NewApplicationMail(id)];
      mails := mails + [AppliedMail(id)];
      o := Done;
    }

    /** `ApplicationController::delete`. */
    method Withdraw(actor: UserId, id: AppId) returns (o: Outcome)
      requires Valid()
      modifies this
      ensures Valid()
      ensures Step(Snapshot(), o) == Applications.Withdraw(old(Snapshot()), actor, id)
      ensures o.Refused? ==> unchanged(this)
    {
      Applications.WithdrawPreservesConsistent(Snapshot(), actor, id);
      if id !in applications {
        return Refused(NotFound);
      }
      var app := applications[id];
      if actor != app.userId {
        return Refused(NotOwner);
      }
      applications := applications - {id};
      var post := posts[app.postId];
      posts := posts[app.postId := post.(nrWorkers := post.nrWorkers + 1)];
      o := Done;
    }

    /** `ApplicationController::accept`. */
    method Accept(id: AppId) returns (o: Outcome)
      requires Valid()
      modifies this
      ensures Valid()
      ensures Step(Snapshot(), o) == Applications.Accept(old(Snapshot()), id)
    {
      Applications.DecidePreservesConsistent(Snapshot(), id);
      if id !in applications {
        return Refused(NotFound);
      }
      var app := applications[id];
      if app.status == Pending || app.status == Rejected {
        applications := applications[id := app.(status := Accepted)];
      }
      mails := mails + [AcceptedMail(id)];
      o := Done;
    }

    /** `ApplicationController::reject`. */
    method Reject(id: AppId) returns (o: Outcome)
      requires Valid()
      modifies this
      ensures Valid()
      ensures Step(Snapshot(), o) == Applications.Reject(old(Snapshot()), id)
    {
      Applications.DecidePreservesConsistent(Snapshot(), id);
      if id !in applications {
        return Refused(NotFound);
      }
      var app := applications[id];
      if app.status == Pending || app.status == Accepted {
        applications := applications[id := app.(status := Rejected)];
      }
      mails := mails + [RejectedMail(id)];
      o := Done;
    }

    /** `CvController::deleteCV`. */
    method DeleteCv(actor: UserId, id: CvId) returns (o: Outcome)
      requires Valid()
      modifies this
      ensures Valid()
      ensures Step(Snapshot(), o) == Cvs.DeleteCv(old(Snapshot()), actor, id)
      ensures o.Refused? ==> unchanged(this)
    {
      Cvs.DeleteCvPreservesConsistent(Snapshot(), actor, id);
      if id !in cvs {
        return Refused(NotFound);
      }
      if actor != cvs[id].userId {
        return Refused(NotOwner);
      }
      cvs := cvs - {id};
      o := Done;
    }

    /** `CompanyController::store`; `path` is where the storage layer put the upload. */
    method StoreCompany(auth: User, requestUserId: UserId, req: map<string, string>, fieldsValid: bool,
                        upload: Option<Companies.Upload>, path: string) returns (o: Outcome)
      requires Valid()
      modifies this
      ensures Valid()
      ensures Step(Snapshot(), o) == Companies.StoreCompany(old(Snapshot()), auth, requestUserId, req, fieldsValid, upload, path)
      ensures o.Refused? ==> unchanged(this)
    {
      Companies.StoreCompanyPreservesConsistent(Snapshot(), auth, requestUserId, req, fieldsValid, upload, path);
      if auth.role == Employee {
        return Refused(WrongRole);
      }
      if !fieldsValid {
        return Refused(ValidationFailed);
      }
      if upload.None? || !upload.value.valid {
        return Refused(NoValidFile);
      }
      stored := stored + {path};
      var id := nextCompanyId;
      var fields := Companies.Only(req, Companies.ProfileKeys)["image" := path];
      companies := companies[id := Company(requestUserId, fields)];
      nextCompanyId := nextCompanyId + 1;
      o := Done;
    }

    /** `CompanyController::update`. */
    method UpdateCompany(actor: UserId, id: CompanyId, req: map<string, string>, fieldsValid: bool) returns (o: Outcome)
      requires Valid()
      modifies this
      ensures Valid()
      ensures Step(Snapshot(), o) == Companies.UpdateCompany(old(Snapshot()), actor, id, req, fieldsValid)
      ensures o.Refused? ==> unchanged(this)
    {
      Companies.UpdateCompanyPreservesConsistent(Snapshot(), actor, id, req, fieldsValid);
      var company := Companies.OwnedCompany(Snapshot(), actor, id);
      if !fieldsValid {
        return Refused(ValidationFailed);
      }
      if company.None? {
        return Refused(ServerError);
      }
      var c := company.value;
      var attrs := Companies.Only(req - {"user_id"}, Companies.Assignable);
      companies := companies[id := c.(fields := c.fields + attrs)];
      o := Done;
    }

    /** `CompanyController::updateImage`, with the self-deletion of a re-uploaded file avoided. */
    method UpdateImage(id: CompanyId, fieldsValid: bool, upload: Option<Companies.Upload>, now: nat) returns (o: Outcome)
      requires Valid()
      modifies this
      ensures Valid()
      ensures Step(Snapshot(), o) == Companies.UpdateImage(old(Snapshot()), id, fieldsValid, upload, now)
      ensures o.Refused? ==> unchanged(this)
    {
      Companies.UpdateImagePreservesConsistent(Snapshot(), id, fieldsValid, upload, now);
      if !fieldsValid {
        return Refused(ValidationFailed);
      }
      if id !in companies {
        return Refused(NotFound);
      }
      if upload.None? {
        return Refused(NoImage);
      }
      var c := companies[id];
      var path := Companies.StoredPath(ImageName(now, upload.value.originalName));
      stored := stored + {path};
      var previous := Companies.ImageOf(c);
      if Companies.Truthy(previous) && previous in stored && previous != path {
        stored := stored - {previous};
      }
      companies := companies[id := c.(fields := c.fields["image" := path])];
      o := Done;
    }

    /** `CompanyController::deleteCompany`. */
    method DeleteCompany(actor: UserId, id: CompanyId) returns (o: Outcome)
      requires Valid()
      modifies this
      ensures Valid()
      ensures Step(Snapshot(), o) == Companies.DeleteCompany(old(Snapshot()), actor, id)
      ensures o.Refused? ==> unchanged(this)
    {
      Companies.DeleteCompanyPreservesConsistent(Snapshot(), actor, id);
      if !(id in companies && companies[id].userId == actor) {
        return Refused(ServerError);
      }
      companies := companies - {id};
      o := Done;
    }
  }

  /**
   * A client of the class: on a post with one free slot, the first of two
   * applicants gets it and the second is refused, and the slot count ends at 0;
   * withdrawing the first application gives the slot back.
   */
  method TwoApplicantsOneSlot(board: JobBoard, pid: PostId, alice: User, bob: User)
    returns (first: Outcome, slotsBetween: int, second: Outcome, back: Outcome)
    requires board.Valid()
    requires pid in board.posts && board.posts[pid].nrWorkers == 1
    requires alice.role == Employee && bob.role == Employee && alice.id != bob.id
    requires HasCv(board.cvs, alice.id) && HasCv(board.cvs, bob.id)
    requires !HasApplied(board.applications, alice.id, pid) && !HasApplied(board.applications, bob.id, pid)
    modifies board
    ensures board.Valid()
    ensures first == Done && slotsBetween == 0
    ensures second == Refused(NoFreeSlots)
    ensures back == Done
    ensures pid in board.posts && board.posts[pid] == old(board.posts[pid])
  {
    var id := board.nextAppId;
    first := board.Apply(alice, Applications.ApplyRequest(alice.id, pid), true);
    slotsBetween := board.posts[pid].nrWorkers;
    second := board.Apply(bob, Applications.ApplyRequest(bob.id, pid), true);
    back := board.Withdraw(alice.id, id);
  }
}
