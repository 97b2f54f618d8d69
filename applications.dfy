/**
 * The application workflow of `ApplicationController`: apply (`store`),
 * withdraw (`delete`), `accept` and `reject`, as transitions of the database.
 */
module Applications {
  import opened Domain

  /** The request fields of an apply: the `user_id` and `post_id` it names. */
  datatype ApplyRequest = ApplyRequest(userId: UserId, postId: PostId)

  /**
   * `store`: apply for a job. The checks run in the source's order: the role
   * of the authenticated user, the post lookup, the free slots (compared with
   * 0 for equality), a duplicate for the REQUEST's user, a CV of the
   * AUTHENTICATED user, and only then the field validation.
   */
  function Apply(s: Db, auth: User, req: ApplyRequest, fieldsValid: bool): (r: Step)
    ensures r.outcome.Refused? ==> r.db == s
    ensures r.outcome == Done ==>
      && req.postId in s.posts && req.postId in r.db.posts
      && r.db.posts[req.postId].nrWorkers == s.posts[req.postId].nrWorkers - 1
      && !HasApplied(s.applications, req.userId, req.postId)
      && HasApplied(r.db.applications, req.userId, req.postId)
      && |r.db.mails| == |s.mails| + 2
  {
    if auth.role == Employer then Step(s, Refused(WrongRole))
    else if req.postId !in s.posts then Step(s, Refused(NotFound))
    else if s.posts[req.postId].nrWorkers == 0 then Step(s, Refused(NoFreeSlots))
    else if HasApplied(s.applications, req.userId, req.postId) then Step(s, Refused(AlreadyApplied))
    else if !HasCv(s.cvs, auth.id) then Step(s, Refused(MissingCv))
    else if !fieldsValid then Step(s, Refused(ValidationFailed))
    else
      var id := s.nextAppId;
      var post := s.posts[req.postId];
      var apps := s.applications[id := Application(req.userId, req.postId, Pending)];
      assert apps[id].userId == req.userId && apps[id].postId == req.postId;
      Step(s.(applications := apps,
              nextAppId := id + 1,
              posts := s.posts[req.postId := post.(nrWorkers := post.nrWorkers - 1)],
              mails := s.mails + [NewApplicationMail(id), AppliedMail(id)]),
           Done)
  }

  /**
   * `delete`: withdraw an application. Only its owner may; the application
   * is removed and one slot is given back to its post, with no upper bound.
   * Should the post be gone, the row is already deleted when the increment
   * fails on the missing post.
   */
  function Withdraw(s: Db, actor: UserId, id: AppId): (r: Step)
    ensures r.outcome == Done ==>
      && id in s.applications && actor == s.applications[id].userId
      && id !in r.db.applications
      && s.applications[id].postId in s.posts && s.applications[id].postId in r.db.posts
      && r.db.posts[s.applications[id].postId].nrWorkers == s.posts[s.applications[id].postId].nrWorkers + 1
    ensures r.outcome.Refused? && r.outcome.error != ServerError ==> r.db == s
  {
    if id !in s.applications then Step(s, Refused(NotFound))
    else if actor != s.applications[id].userId then Step(s, Refused(NotOwner))
    else
      var app := s.applications[id];
      var removed := s.(applications := s.applications - {id});
      if app.postId !in s.posts then Step(removed, Refused(ServerError))
      else
        var post := s.posts[app.postId];
        Step(removed.(posts := s.posts[app.postId := post.(nrWorkers := post.nrWorkers + 1)]), Done)
  }

  /** `accept`: the status becomes accepted when pending or rejected; the mail is queued in every case. */
  function Accept(s: Db, id: AppId): (r: Step)
    ensures r.outcome == Done <==> id in s.applications
    ensures r.outcome.Refused? ==> r.db == s
    ensures r.outcome == Done ==>
      && id in r.db.applications && r.db.applications[id].status == Accepted
      && r.db.mails == s.mails + [AcceptedMail(id)]
  {
    if id !in s.applications then Step(s, Refused(NotFound))
    else
      var app := s.applications[id];
      var apps := if app.status == Pending || app.status == Rejected
                  then s.applications[id := app.(status := Accepted)]
                  else s.applications;
      assert apps[id].status == Accepted;
      Step(s.(applications := apps, mails := s.mails + [AcceptedMail(id)]), Done)
  }

  /** `reject`: the status becomes rejected when pending or accepted; the mail is queued in every case. */
  function Reject(s: Db, id: AppId): (r: Step)
    ensures r.outcome == Done <==> id in s.applications
    ensures r.outcome.Refused? ==> r.db == s
    ensures r.outcome == Done ==>
      && id in r.db.applications && r.db.applications[id].status == Rejected
      && r.db.mails == s.mails + [RejectedMail(id)]
  {
    if id !in s.applications then Step(s, Refused(NotFound))
    else
      var app := s.applications[id];
      var apps := if app.status == Pending || app.status == Accepted
                  then s.applications[id := app.(status := Rejected)]
                  else s.applications;
      assert apps[id].status == Rejected;
      Step(s.(applications := apps, mails := s.mails + [RejectedMail(id)]), Done)
  }

  // ---------------------------------------------------------------------
  // Apply

  /** An employer is turned away before anything else is looked at. */
  lemma ApplyRefusesEmployer(s: Db, auth: User, req: ApplyRequest, fieldsValid: bool)
    requires auth.role == Employer
    ensures Apply(s, auth, req, fieldsValid) == Step(s, Refused(WrongRole))
  {
  }

  /** A post without free slots refuses every further applicant and keeps its count. */
  lemma ApplyRefusesFullPost(s: Db, auth: User, req: ApplyRequest, fieldsValid: bool)
    requires auth.role != Employer && req.postId in s.posts
    requires s.posts[req.postId].nrWorkers == 0
    ensures Apply(s, auth, req, fieldsValid) == Step(s, Refused(NoFreeSlots))
  {
  }

  /** A second application for the same (user_id, post_id) is refused. */
  lemma ApplyRefusesDuplicate(s: Db, auth: User, req: ApplyRequest, fieldsValid: bool, other: AppId)
    requires auth.role != Employer && req.postId in s.posts && s.posts[req.postId].nrWorkers != 0
    requires other in s.applications
    requires s.applications[other].userId == req.userId && s.applications[other].postId == req.postId
    ensures Apply(s, auth, req, fieldsValid) == Step(s, Refused(AlreadyApplied))
  {
  }

  /** An applicant whose own account has no CV is refused, whatever user_id the request names. */
  lemma ApplyRefusesWithoutCv(s: Db, auth: User, req: ApplyRequest, fieldsValid: bool)
    requires auth.role != Employer && req.postId in s.posts && s.posts[req.postId].nrWorkers != 0
    requires !HasApplied(s.applications, req.userId, req.postId)
    requires forall c | c in s.cvs :: s.cvs[c].userId != auth.id
    ensures Apply(s, auth, req, fieldsValid) == Step(s, Refused(MissingCv))
  {
  }

  /** Apply succeeds exactly when every check passes, and a refusal changes nothing. */
  lemma ApplySucceedsIff(s: Db, auth: User, req: ApplyRequest, fieldsValid: bool)
    ensures Apply(s, auth, req, fieldsValid).outcome == Done <==>
      && auth.role != Employer
      && req.postId in s.posts
      && s.posts[req.postId].nrWorkers != 0
      && !HasApplied(s.applications, req.userId, req.postId)
      && HasCv(s.cvs, auth.id)
      && fieldsValid
    ensures Apply(s, auth, req, fieldsValid).outcome != Done ==> Apply(s, auth, req, fieldsValid).db == s
  {
  }

  /**
   * A successful apply adds one pending application for the request's user
   * and post under a fresh id, takes one slot from that post, queues the
   * new-application mail and then the applied mail, and changes nothing else.
   */
  lemma ApplyEffects(s: Db, auth: User, req: ApplyRequest, fieldsValid: bool)
    requires Consistent(s)
    requires Apply(s, auth, req, fieldsValid).outcome == Done
    ensures var t := Apply(s, auth, req, fieldsValid).db;
      && var id := s.nextAppId;
      && id !in s.applications
      && t.applications.Keys == s.applications.Keys + {id}
      && t.applications[id] == Application(req.userId, req.postId, Pending)
      && (forall a | a in s.applications :: t.applications[a] == s.applications[a])
      && t.posts.Keys == s.posts.Keys
      && t.posts[req.postId].nrWorkers == s.posts[req.postId].nrWorkers - 1
      && (forall p | p in s.posts && p != req.postId :: t.posts[p] == s.posts[p])
      && t.mails == s.mails + [NewApplicationMail(id), AppliedMail(id)]
      && t.cvs == s.cvs && t.companies == s.companies && t.stored == s.stored
  {
  }

  /** Apply keeps the invariant: in particular slots stay non-negative and pairs stay unique. */
  lemma ApplyPreservesConsistent(s: Db, auth: User, req: ApplyRequest, fieldsValid: bool)
    requires Consistent(s)
    ensures Consistent(Apply(s, auth, req, fieldsValid).db)
  {
    var t := Apply(s, auth, req, fieldsValid).db;
    if t != s {
      var id := s.nextAppId;
      var row := Application(req.userId, req.postId, Pending);
      forall a, b | a in t.applications && b in t.applications && a != b
        ensures t.applications[a].userId != t.applications[b].userId
             || t.applications[a].postId != t.applications[b].postId
      {
        if a == id {
          assert t.applications[a] == row;
        } else if b == id {
          assert t.applications[b] == row;
        }
      }
    }
  }

  // ---------------------------------------------------------------------
  // Withdraw

  /** Anyone but the owner is refused: the application stays and no slot count moves. */
  lemma WithdrawRefusesNonOwner(s: Db, actor: UserId, id: AppId)
    requires id in s.applications && actor != s.applications[id].userId
    ensures Withdraw(s, actor, id) == Step(s, Refused(NotOwner))
  {
  }

  /** The owner's withdraw removes exactly that application and gives its post one slot back. */
  lemma WithdrawByOwner(s: Db, id: AppId)
    requires Consistent(s) && id in s.applications
    ensures var app := s.applications[id];
      var r := Withdraw(s, app.userId, id);
      && r.outcome == Done
      && r.db.applications == s.applications - {id}
      && r.db == s.(applications := s.applications - {id},
                    posts := s.posts[app.postId := Post(s.posts[app.postId].nrWorkers + 1)])
  {
  }

  /** Withdraw keeps the invariant. */
  lemma WithdrawPreservesConsistent(s: Db, actor: UserId, id: AppId)
    requires Consistent(s)
    ensures Consistent(Withdraw(s, actor, id).db)
  {
  }

  /**
   * Apply followed by the withdraw of the new application by the user the
   * request named gives back the original posts and applications: the slot
   * count is restored. Only the id counter and the mail log remember it.
   */
  lemma {:induction false} ApplyThenWithdrawRestores(s: Db, auth: User, req: ApplyRequest, fieldsValid: bool)
    requires Consistent(s)
    requires Apply(s, auth, req, fieldsValid).outcome == Done
    ensures var t := Apply(s, auth, req, fieldsValid).db;
      var r := Withdraw(t, req.userId, s.nextAppId);
      && r.outcome == Done
      && r.db.posts == s.posts
      && r.db.applications == s.applications
      && r.db == s.(nextAppId := s.nextAppId + 1, mails := t.mails)
  {
    var t := Apply(s, auth, req, fieldsValid).db;
    var id := s.nextAppId;
    assert id !in s.applications;
    assert t.applications - {id} == s.applications;
    var post := s.posts[req.postId];
    assert t.posts[req.postId := Post(post.nrWorkers - 1 + 1)] == s.posts;
  }

  // ---------------------------------------------------------------------
  // Accept and reject

  /**
   * After accept the status is accepted whatever it was; it changed exactly
   * when it was pending or rejected; one accepted mail is queued even when
   * nothing changed; no other application and no slot count moves.
   */
  lemma AcceptEffects(s: Db, id: AppId)
    requires id in s.applications
    ensures var r := Accept(s, id);
      && r.outcome == Done
      && r.db.applications.Keys == s.applications.Keys
      && r.db.applications[id] == s.applications[id].(status := Accepted)
      && (r.db.applications[id] != s.applications[id] <==> s.applications[id].status in {Pending, Rejected})
      && (forall a | a in s.applications && a != id :: r.db.applications[a] == s.applications[a])
      && r.db.mails == s.mails + [AcceptedMail(id)]
      && r.db == s.(applications := r.db.applications, mails := r.db.mails)
  {
  }

  /** The mirror image of AcceptEffects for reject. */
  lemma RejectEffects(s: Db, id: AppId)
    requires id in s.applications
    ensures var r := Reject(s, id);
      && r.outcome == Done
      && r.db.applications.Keys == s.applications.Keys
      && r.db.applications[id] == s.applications[id].(status := Rejected)
      && (r.db.applications[id] != s.applications[id] <==> s.applications[id].status in {Pending, Accepted})
      && (forall a | a in s.applications && a != id :: r.db.applications[a] == s.applications[a])
      && r.db.mails == s.mails + [RejectedMail(id)]
      && r.db == s.(applications := r.db.applications, mails := r.db.mails)
  {
  }

  /** Accepting an unknown id is a 404: no mail is queued and nothing changes. */
  lemma AcceptUnknownRefused(s: Db, id: AppId)
    requires id !in s.applications
    ensures Accept(s, id) == Step(s, Refused(NotFound))
  {
  }

  /** Rejecting an unknown id is a 404: no mail is queued and nothing changes. */
  lemma RejectUnknownRefused(s: Db, id: AppId)
    requires id !in s.applications
    ensures Reject(s, id) == Step(s, Refused(NotFound))
  {
  }

  /** Accepting twice leaves the state of accepting once, but queues a second accepted mail. */
  lemma AcceptTwice(s: Db, id: AppId)
    requires id in s.applications
    ensures var once := Accept(s, id).db;
      var twice := Accept(once, id).db;
      && twice.applications == once.applications
      && twice.posts == once.posts
      && twice.mails == s.mails + [AcceptedMail(id), AcceptedMail(id)]
  {
  }

  /** Rejecting twice leaves the state of rejecting once, but queues a second rejected mail. */
  lemma RejectTwice(s: Db, id: AppId)
    requires id in s.applications
    ensures var once := Reject(s, id).db;
      var twice := Reject(once, id).db;
      && twice.applications == once.applications
      && twice.posts == once.posts
      && twice.mails == s.mails + [RejectedMail(id), RejectedMail(id)]
  {
  }

  /** A pending application can be rejected and then accepted: rejection is not final. */
  lemma RejectThenAccept(s: Db, id: AppId)
    requires id in s.applications && s.applications[id].status == Pending
    ensures Reject(s, id).db.applications[id].status == Rejected
    ensures Accept(Reject(s, id).db, id).db.applications[id].status == Accepted
  {
  }

  /** Accept and reject keep the invariant. */
  lemma DecidePreservesConsistent(s: Db, id: AppId)
    requires Consistent(s)
    ensures Consistent(Accept(s, id).db)
    ensures Consistent(Reject(s, id).db)
  {
  }
}
