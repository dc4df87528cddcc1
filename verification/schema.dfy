/** Start-up initialisation of the two tables and their seed rows, once for
    each engine. The two initialisers differ in what they seed and when:
    the embedded one inserts its administrator with "insert or ignore" and
    the sample post whenever `posts` is empty; the client-server one first
    counts its administrator and does everything else, sample post included,
    only when that count is zero. */
module Schema {
  import opened Common
  import opened Sql
  import opened PostRules
  import opened Posts

  // ---------------------------------------------------------------------
  // Users and the store

  datatype UserRow = UserRow(id: nat, username: string, passwordHash: string, createdAt: int)

  datatype UserTable = UserTable(rows: map<nat, UserRow>, nextId: nat)

  /** Primary key is the row's own id below the counter; `username` is
      `UNIQUE`. */
  predicate UsersValid(u: UserTable)
  {
    (forall id | id in u.rows :: u.rows[id].id == id && id < u.nextId) &&
    (forall a, b | a in u.rows && b in u.rows && u.rows[a].username == u.rows[b].username :: a == b)
  }

  predicate HasUser(u: UserTable, name: string)
  {
    exists id | id in u.rows :: u.rows[id].username == name
  }

  /** The database: each table exists (`Some`) or not yet (`None`). */
  datatype Store = Store(users: Option<UserTable>, posts: Option<PostTable>)

  predicate StoreValid(s: Store)
  {
    (s.users.Some? ==> UsersValid(s.users.value)) && (s.posts.Some? ==> Valid(s.posts.value))
  }

  const EmptyUsers: UserTable := UserTable(map[], 1)
  const EmptyPosts: PostTable := PostTable(map[], 1)

  /** `CREATE TABLE IF NOT EXISTS`: an existing table is left as it is. */
  function CreateUsersTable(s: Store): Store
  {
    if s.users.Some? then s else s.(users := Some(EmptyUsers))
  }

  function CreatePostsTable(s: Store): Store
  {
    if s.posts.Some? then s else s.(posts := Some(EmptyPosts))
  }

  /** `INSERT INTO users`: a duplicate username violates `UNIQUE`. */
  function InsertUser(u: UserTable, name: string, hash: string, now: int): (r: Result<UserTable, DbError>)
    requires UsersValid(u)
    ensures r.Err? <==> HasUser(u, name)
    ensures r.Ok? ==> UsersValid(r.value) && HasUser(r.value, name) &&
                      r.value.rows == u.rows[u.nextId := UserRow(u.nextId, name, hash, now)]
  {
    if HasUser(u, name) then Err(UniqueViolation)
    else
      var u' := UserTable(u.rows[u.nextId := UserRow(u.nextId, name, hash, now)], u.nextId + 1);
      assert u'.rows[u.nextId].username == name;
      Ok(u')
  }

  /** `INSERT OR IGNORE INTO users`: a duplicate username leaves the table
      as it is. */
  function InsertOrIgnoreUser(u: UserTable, name: string, hash: string, now: int): (r: UserTable)
    requires UsersValid(u)
    ensures UsersValid(r) && HasUser(r, name)
    ensures HasUser(u, name) ==> r == u
    ensures !HasUser(u, name) ==> r.rows == u.rows[u.nextId := UserRow(u.nextId, name, hash, now)]
  {
    match InsertUser(u, name, hash, now)
    case Err(_) => u
    case Ok(u') => u'
  }

  // ---------------------------------------------------------------------
  // The sample post

  const SampleTitle: string := "Welcome to Your New Blog"
  const SampleSlug: string := "welcome-to-your-new-blog"
  const SampleExcerpt: string := "This is a sample post to get you started with your new blog."
  const SampleAuthor: string := "Admin"
  const SampleCategory: string := "Getting Started"
  const SampleReadingTime: int := 2

  /** The sample row. Its body is a fixed Markdown text, taken here as a
      parameter; the columns the seeding insert does not name are `NULL`. */
  function SampleRow(id: nat, body: string, now: int): Row
  {
    Row(id, SampleTitle, SampleSlug, body, Some(SampleExcerpt), None, None, None, None,
        SampleAuthor, SampleReadingTime, SampleCategory, 1, now, now)
  }

  /** The seeded slug is the slug the create handler would derive from the
      seeded title, so the sample post behaves like any created post. */
  lemma SampleSlugIsGenerated()
    ensures SampleSlug == GenerateSlug(SampleTitle) && IsSlug(SampleSlug)
  {
    SampleTitleSlug();
  }

  /** The seeding insert; `slug` is `UNIQUE`. */
  function InsertSample(t: PostTable, body: string, now: int): (r: Result<PostTable, DbError>)
    requires Valid(t)
    ensures r.Err? <==> SlugTaken(t, SampleSlug, None)
    ensures r.Ok? ==> Valid(r.value) && r.value.rows == t.rows[t.nextId := SampleRow(t.nextId, body, now)]
  {
    if SlugTaken(t, SampleSlug, None) then Err(UniqueViolation)
    else Ok(PostTable(t.rows[t.nextId := SampleRow(t.nextId, body, now)], t.nextId + 1))
  }

  // ---------------------------------------------------------------------
  // Initialisation

  /** The steps of either initialiser, each of which can fail. */
  datatype Step =
    | CreateUsers | CreatePosts | CountAdmin | HashPassword | InsertAdmin | CountPosts | SeedPost

  /** `Ready`: the promise resolves. `Aborted(step)`: that step failed and
      the promise rejects with its error; nothing after it runs, nothing
      before it is undone. */
  datatype Outcome = Ready | Aborted(step: Step)

  datatype InitResult = InitResult(outcome: Outcome, store: Store)

  /** The step that fails when it is reached, if any. */
  type Failure = Option<Step>

  /** Seeds the sample post into an existing posts table when it is empty. */
  function SeedIfEmpty(s: Store, body: string, now: int, failing: Failure): (r: InitResult)
    requires StoreValid(s) && s.posts.Some?
    ensures StoreValid(r.store) && r.store.users == s.users && r.store.posts.Some?
    ensures r.outcome != Ready ==>
      r.store == s && r.outcome.step in {CountPosts, SeedPost} && failing == Some(r.outcome.step)
  {
    if failing == Some(CountPosts) then InitResult(Aborted(CountPosts), s)
    else if |s.posts.value.rows| != 0 then InitResult(Ready, s)
    else if failing == Some(SeedPost) then InitResult(Aborted(SeedPost), s)
    else
      match InsertSample(s.posts.value, body, now)
      case Err(_) => InitResult(Aborted(SeedPost), s)
      case Ok(t) => InitResult(Ready, s.(posts := Some(t)))
  }

  const SqliteAdmin: string := "admin"
  const MysqlAdmin: string := "saeidnimi"

  /** The embedded engine's `initDatabase`: create both tables, hash the
      default password, insert-or-ignore the administrator, then seed the
      sample post if `posts` is empty. `hash` is the digest the password
      hash yields on this run. */
  function SqliteInit(s: Store, hash: string, body: string, now: int, failing: Failure): (r: InitResult)
    requires StoreValid(s)
    ensures StoreValid(r.store)
  {
    if failing == Some(CreateUsers) then InitResult(Aborted(CreateUsers), s)
    else
      var s1 := CreateUsersTable(s);
      if failing == Some(CreatePosts) then InitResult(Aborted(CreatePosts), s1)
      else
        var s2 := CreatePostsTable(s1);
        if failing == Some(HashPassword) then InitResult(Aborted(HashPassword), s2)
        else if failing == Some(InsertAdmin) then InitResult(Aborted(InsertAdmin), s2)
        else
          var s3 := s2.(users := Some(InsertOrIgnoreUser(s2.users.value, SqliteAdmin, hash, now)));
          SeedIfEmpty(s3, body, now, failing)
  }

  /** The client-server engine's `initDatabase`: create both tables, count
      the administrator, and only when there is none hash the password,
      insert the administrator and then seed the sample post if `posts` is
      empty. */
  function MysqlInit(s: Store, hash: string, body: string, now: int, failing: Failure): (r: InitResult)
    requires StoreValid(s)
    ensures StoreValid(r.store)
  {
    if failing == Some(CreateUsers) then InitResult(Aborted(CreateUsers), s)
    else
      var s1 := CreateUsersTable(s);
      if failing == Some(CreatePosts) then InitResult(Aborted(CreatePosts), s1)
      else
        var s2 := CreatePostsTable(s1);
        if failing == Some(CountAdmin) then InitResult(Aborted(CountAdmin), s2)
        else if HasUser(s2.users.value, MysqlAdmin) then InitResult(Ready, s2)
        else if failing == Some(HashPassword) then InitResult(Aborted(HashPassword), s2)
        else if failing == Some(InsertAdmin) then InitResult(Aborted(InsertAdmin), s2)
        else
          match InsertUser(s2.users.value, MysqlAdmin, hash, now)
          case Err(_) => InitResult(Aborted(InsertAdmin), s2)
          case Ok(u) => SeedIfEmpty(s2.(users := Some(u)), body, now, failing)
  }

  /** The initialiser the engine switch picks. */
  function Initialize(engine: Engine, s: Store, hash: string, body: string, now: int, failing: Failure): (r: InitResult)
    requires StoreValid(s)
    ensures StoreValid(r.store)
  {
    match engine
    case Sqlite => SqliteInit(s, hash, body, now, failing)
    case Mysql => MysqlInit(s, hash, body, now, failing)
  }

  // ---------------------------------------------------------------------
  // Properties

  function AdminName(engine: Engine): string
  {
    if engine == Sqlite then SqliteAdmin else MysqlAdmin
  }

  /** A successful run leaves both tables in place and the administrator of
      that engine present. */
  lemma ReadyMeansInitialised(engine: Engine, s: Store, hash: string, body: string, now: int, failing: Failure)
    requires StoreValid(s)
    requires Initialize(engine, s, hash, body, now, failing).outcome == Ready
    ensures var r := Initialize(engine, s, hash, body, now, failing).store;
      r.users.Some? && r.posts.Some? && HasUser(r.users.value, AdminName(engine))
  {
  }

  /** Running the embedded initialiser again after a successful run changes
      nothing and succeeds, whatever digest and clock the second run sees:
      no second administrator and no second sample post. */
  lemma SqliteInitIdempotent(s: Store, hash: string, body: string, now: int, failing: Failure,
                             hash2: string, now2: int)
    requires StoreValid(s)
    requires SqliteInit(s, hash, body, now, failing).outcome == Ready
    ensures var s1 := SqliteInit(s, hash, body, now, failing).store;
      SqliteInit(s1, hash2, body, now2, None) == InitResult(Ready, s1)
  {
    var s1 := SqliteInit(s, hash, body, now, failing).store;
    SqliteReadyHasPosts(s, hash, body, now, failing);
    assert CreatePostsTable(CreateUsersTable(s1)) == s1;
    var u := InsertOrIgnoreUser(s1.users.value, SqliteAdmin, hash2, now2);
    assert s1.(users := Some(u)) == s1;
    assert SeedIfEmpty(s1, body, now2, None) == InitResult(Ready, s1);
  }

  /** After a successful embedded run the administrator exists and `posts`
      holds at least one row, seeded or kept. */
  lemma SqliteReadyHasPosts(s: Store, hash: string, body: string, now: int, failing: Failure)
    requires StoreValid(s)
    requires SqliteInit(s, hash, body, now, failing).outcome == Ready
    ensures var r := SqliteInit(s, hash, body, now, failing).store;
      r.users.Some? && r.posts.Some? && HasUser(r.users.value, SqliteAdmin) && |r.posts.value.rows| != 0
  {
    ReadyMeansInitialised(Sqlite, s, hash, body, now, failing);
    SqliteSeedsIffEmpty(s, hash, body, now, failing);
  }

  /** The same for the client-server initialiser. */
  lemma MysqlInitIdempotent(s: Store, hash: string, body: string, now: int, failing: Failure,
                            hash2: string, now2: int)
    requires StoreValid(s)
    requires MysqlInit(s, hash, body, now, failing).outcome == Ready
    ensures var s1 := MysqlInit(s, hash, body, now, failing).store;
      MysqlInit(s1, hash2, body, now2, None) == InitResult(Ready, s1)
  {
    var s1 := MysqlInit(s, hash, body, now, failing).store;
    ReadyMeansInitialised(Mysql, s, hash, body, now, failing);
    assert CreatePostsTable(CreateUsersTable(s1)) == s1;
    assert HasUser(s1.users.value, MysqlAdmin);
  }

  /** From an empty database, a run without failures leaves exactly one
      user, the engine's administrator, and exactly one post, the sample
      post under its slug. */
  lemma EmptyStoreSeeded(engine: Engine, hash: string, body: string, now: int)
    ensures var r := Initialize(engine, Store(None, None), hash, body, now, None);
      r.outcome == Ready &&
      r.store.users.Some? && r.store.users.value.rows == map[1 := UserRow(1, AdminName(engine), hash, now)] &&
      r.store.posts.Some? && r.store.posts.value.rows == map[1 := SampleRow(1, body, now)] &&
      r.store.posts.value.rows[1].slug == SampleSlug
  {
    assert !HasUser(EmptyUsers, AdminName(engine));
    assert !SlugTaken(EmptyPosts, SampleSlug, None);
  }

  /** The number of posts a table has, counting a missing table as empty. */
  function PostCount(s: Store): nat
  {
    if s.posts.Some? then |s.posts.value.rows| else 0
  }

  /** The embedded initialiser, when it succeeds, adds the sample post
      exactly when `posts` was missing or empty, whether or not the
      administrator existed before; existing posts are never touched. */
  lemma SqliteSeedsIffEmpty(s: Store, hash: string, body: string, now: int, failing: Failure)
    requires StoreValid(s)
    requires SqliteInit(s, hash, body, now, failing).outcome == Ready
    ensures var r := SqliteInit(s, hash, body, now, failing).store;
      r.posts.Some? &&
      (PostCount(s) == 0 ==> r.posts.value.rows == map[EmptyOrExisting(s).nextId := SampleRow(EmptyOrExisting(s).nextId, body, now)]) &&
      (PostCount(s) != 0 ==> r.posts == s.posts)
  {
  }

  /** The posts table as the table-creation steps leave it. */
  function EmptyOrExisting(s: Store): PostTable
  {
    if s.posts.Some? then s.posts.value else EmptyPosts
  }

  /** The client-server initialiser, when it succeeds, adds the sample post
      exactly when the administrator was missing and `posts` was missing or
      empty. */
  lemma MysqlSeedsOnlyWithNewAdmin(s: Store, hash: string, body: string, now: int, failing: Failure)
    requires StoreValid(s)
    requires MysqlInit(s, hash, body, now, failing).outcome == Ready
    ensures var r := MysqlInit(s, hash, body, now, failing).store;
      var adminBefore := s.users.Some? && HasUser(s.users.value, MysqlAdmin);
      r.posts.Some? &&
      (!adminBefore && PostCount(s) == 0 ==>
         r.posts.value.rows == map[EmptyOrExisting(s).nextId := SampleRow(EmptyOrExisting(s).nextId, body, now)]) &&
      (adminBefore || PostCount(s) != 0 ==> r.posts.value == EmptyOrExisting(s))
  {
  }

  /** Where the two engines part ways: with the administrator already in
      place and no posts, the embedded engine seeds the sample post and the
      client-server engine does not. */
  lemma EnginesDisagreeOnEmptyPosts(hash: string, body: string, now: int)
    ensures var s := Store(Some(UserTable(map[1 := UserRow(1, SqliteAdmin, hash, now)], 2)), Some(EmptyPosts));
      PostCount(SqliteInit(s, hash, body, now, None).store) == 1
    ensures var s := Store(Some(UserTable(map[1 := UserRow(1, MysqlAdmin, hash, now)], 2)), Some(EmptyPosts));
      PostCount(MysqlInit(s, hash, body, now, None).store) == 0
  {
    var u1 := UserTable(map[1 := UserRow(1, SqliteAdmin, hash, now)], 2);
    assert u1.rows[1].username == SqliteAdmin;
    assert HasUser(u1, SqliteAdmin);
    var u2 := UserTable(map[1 := UserRow(1, MysqlAdmin, hash, now)], 2);
    assert u2.rows[1].username == MysqlAdmin;
    assert HasUser(u2, MysqlAdmin);
    assert !SlugTaken(EmptyPosts, SampleSlug, None);
  }

  /** A failing step stops the run there without undoing what came before:
      once table creation has passed, both tables exist; a later failure
      leaves `posts` as table creation left it;
      and a failure of the client-server engine after its administrator
      insert keeps the new administrator. */
  lemma AbortKeepsEarlierEffects(engine: Engine, s: Store, hash: string, body: string, now: int, step: Step)
    requires StoreValid(s)
    ensures var r := Initialize(engine, s, hash, body, now, Some(step)).store;
      var out := Initialize(engine, s, hash, body, now, Some(step)).outcome;
      (out != Ready ==> out == Aborted(step)) &&
      (step == CreateUsers ==> r == s) &&
      (step != CreateUsers ==> r.users.Some?) &&
      (step != CreateUsers && step != CreatePosts && out != Ready ==> r.posts == Some(EmptyOrExisting(s))) &&
      (engine == Mysql && (step == CountPosts || step == SeedPost) && out != Ready ==>
         HasUser(r.users.value, MysqlAdmin))
  {
  }
}
