/**
 * `CvController::deleteCV`: the owner-only removal of a CV row.
 */
module Cvs {
  import opened Domain
  import Applications

  /** Removes CV `id` when the acting user owns it. The stored file is left on disk. */
  function DeleteCv(s: Db, actor: UserId, id: CvId): (r: Step)
    ensures r.outcome == Done <==> id in s.cvs && s.cvs[id].userId == actor
    ensures r.db.cvs == if r.outcome == Done then s.cvs - {id} else s.cvs
    ensures r.db.(cvs := s.cvs) == s
  {
    if id !in s.cvs then Step(s, Refused(NotFound))
    else if actor != s.cvs[id].userId then Step(s, Refused(NotOwner))
    else Step(s.(cvs := s.cvs - {id}), Done)
  }

  /** An unknown id is a 404 and nothing changes. */
  lemma DeleteCvUnknown(s: Db, actor: UserId, id: CvId)
    requires id !in s.cvs
    ensures DeleteCv(s, actor, id) == Step(s, Refused(NotFound))
  {
  }

  /** Someone other than the owner is refused and the CV stays. */
  lemma DeleteCvRefusesNonOwner(s: Db, actor: UserId, id: CvId)
    requires id in s.cvs && actor != s.cvs[id].userId
    ensures DeleteCv(s, actor, id) == Step(s, Refused(NotOwner))
    ensures id in DeleteCv(s, actor, id).db.cvs
  {
  }

  /** The owner removes exactly that CV; every other CV and every other table is unchanged. */
  lemma DeleteCvByOwner(s: Db, id: CvId)
    requires id in s.cvs
    ensures var r := DeleteCv(s, s.cvs[id].userId, id);
      && r.outcome == Done
      && r.db.cvs.Keys == s.cvs.Keys - {id}
      && (forall c | c in r.db.cvs :: r.db.cvs[c] == s.cvs[c])
      && r.db == s.(cvs := r.db.cvs)
  {
  }

  /** Deleting a CV keeps the invariant. */
  lemma DeleteCvPreservesConsistent(s: Db, actor: UserId, id: CvId)
    requires Consistent(s)
    ensures Consistent(DeleteCv(s, actor, id).db)
  {
  }

  /**
   * Once a user has deleted their CV, their next apply is refused: by the
   * missing-CV check when the earlier checks (role, post, slots, duplicate)
   * pass, and by one of those otherwise.
   */
  lemma DeleteCvThenApplyRefused(s: Db, auth: User, req: Applications.ApplyRequest, id: CvId, fieldsValid: bool)
    requires Consistent(s)
    requires id in s.cvs && s.cvs[id].userId == auth.id
    ensures var t := DeleteCv(s, auth.id, id).db;
      var r := Applications.Apply(t, auth, req, fieldsValid);
      && r.outcome != Done
      && r.db == t
      && ((auth.role != Employer && req.postId in t.posts && t.posts[req.postId].nrWorkers != 0 &&
           !HasApplied(t.applications, req.userId, req.postId)) ==> r.outcome == Refused(MissingCv))
  {
    var t := DeleteCv(s, auth.id, id).db;
    assert !HasCv(t.cvs, auth.id) by {
      forall c | c in t.cvs ensures t.cvs[c].userId != auth.id {
        assert c in s.cvs && c != id;
      }
    }
  }
}
