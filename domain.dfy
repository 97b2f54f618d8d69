/**
 * The tables of the job board and the values that travel between them.
 *
 * The database is modelled as a value `Db`: one map per table, the
 * auto-increment counters the database uses for new rows, the set of paths
 * present on the public storage disk and the log of queued mail jobs.
 * Every controller action is a transition from one `Db` to the next together
 * with an `Outcome` (the redirect with a success or an error message).
 */
module Domain {

  datatype Option<T> = None | Some(value: T)

  type UserId = int
  type PostId = int
  type AppId = nat
  type CvId = int
  type CompanyId = nat

  /** A role name other than the two the controllers test for. */
  type OtherRoleName = r: string | r != "employee" && r != "employer" witness "admin"

  /** The `role` column of a user: the two roles the controllers test for, or any other string. */
  datatype Role = Employee | Employer | OtherRole(name: OtherRoleName)

  /** The authenticated user of a request (`auth()->user()`). */
  datatype User = User(id: UserId, role: Role)

  /** A job post; the core only reads and writes its open-slot counter. */
  datatype Post = Post(nrWorkers: int)

  datatype Status = Pending | Accepted | Rejected

  /** A row of the applications table. */
  datatype Application = Application(userId: UserId, postId: PostId, status: Status)

  /** A row of the cvs table: its owner and the stored file's path. */
  datatype Cv = Cv(userId: UserId, file: string)

  /**
   * A row of the companies table: its owner and its other mass-assignable
   * attributes (name, image, description, address, phone, website, email),
   * keyed by column name. An absent key is a NULL column.
   */
  datatype Company = Company(userId: UserId, fields: map<string, string>)

  /** A queued mail job, naming the application it is about. */
  datatype Mail =
    | NewApplicationMail(app: AppId)
    | AppliedMail(app: AppId)
    | AcceptedMail(app: AppId)
    | RejectedMail(app: AppId)

  /** The reason a request is turned away (the error flash message, a 404, or a 500). */
  datatype Error =
    | WrongRole         // "You are registered as a employer" / "... as an Employee"
    | NotFound          // findOrFail found no row
    | NoFreeSlots       // the post's nrWorkers is 0
    | AlreadyApplied    // an application for the same (user_id, post_id) exists
    | MissingCv         // the authenticated user has no CV
    | ValidationFailed  // $request->validate rejected the input
    | NotOwner          // the acting user does not own the row
    | NoValidFile       // company store: no valid uploaded image
    | NoImage           // updateImage: no image in the request
    | ServerError       // a property read or method call on a null model

  datatype Outcome = Done | Refused(error: Error)

  datatype Db = Db(
    posts: map<PostId, Post>,
    applications: map<AppId, Application>,
    nextAppId: nat,
    cvs: map<CvId, Cv>,
    companies: map<CompanyId, Company>,
    nextCompanyId: nat,
    stored: set<string>,
    mails: seq<Mail>)

  /** The database after a request, and what the request answered. */
  datatype Step = Step(db: Db, outcome: Outcome)

  /** Whether `apps` holds an application of user `u` to post `p`. */
  predicate HasApplied(apps: map<AppId, Application>, u: UserId, p: PostId) {
    exists a | a in apps :: apps[a].userId == u && apps[a].postId == p
  }

  /** Whether user `u` has a CV (`$user->cv`, a has-one relation on cvs.user_id). */
  predicate HasCv(cvs: map<CvId, Cv>, u: UserId) {
    exists c | c in cvs :: cvs[c].userId == u
  }

  /** At most one application per (user, post) pair. */
  predicate UniquePairs(apps: map<AppId, Application>) {
    forall a, b | a in apps && b in apps && a != b ::
      apps[a].userId != apps[b].userId || apps[a].postId != apps[b].postId
  }

  /** At most one CV per user, the has-one relation of the users table. */
  predicate OneCvPerUser(cvs: map<CvId, Cv>) {
    forall c, d | c in cvs && d in cvs && c != d :: cvs[c].userId != cvs[d].userId
  }

  predicate SlotsNonNegative(posts: map<PostId, Post>) {
    forall p | p in posts :: posts[p].nrWorkers >= 0
  }

  /**
   * The invariant the core keeps: no post has a negative slot count, every
   * application belongs to an existing post and is unique for its pair,
   * every user has at most one CV, and the id counters are past every id in use.
   */
  predicate Consistent(s: Db) {
    && SlotsNonNegative(s.posts)
    && UniquePairs(s.applications)
    && OneCvPerUser(s.cvs)
    && (forall a | a in s.applications :: a < s.nextAppId && s.applications[a].postId in s.posts)
    && (forall c | c in s.companies :: c < s.nextCompanyId)
  }
}
