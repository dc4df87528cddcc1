/** The `posts` table and the write handlers of the posts router (create,
    update, delete) as pure transitions: each takes the table as it stands,
    the request, the clock reading and the point at which the engine fails
    (if it does), and yields the HTTP response together with the table as it
    stands afterwards. */
module Posts {
  import opened Common
  import opened Sql
  import opened PostRules

  // ---------------------------------------------------------------------
  // Rows, posts and the table

  /** A stored row of `posts`. The nullable text columns are options; the
      columns with defaults are always written by the program, so they are
      plain values. Timestamps are abstract clock readings. */
  datatype Row = Row(
    id: nat,
    title: string,
    slug: string,
    content: string,
    excerpt: Option<string>,
    coverImage: Option<string>,
    metaDescription: Option<string>,
    metaKeywords: Option<string>,
    tags: Option<string>,
    author: string,
    readingTime: int,
    category: string,
    published: int,
    createdAt: int,
    updatedAt: int)

  /** A post as the API sends it. Create and update echo a post without
      timestamps (`None`); reads include them. */
  datatype Post = Post(
    id: nat,
    title: string,
    slug: string,
    content: string,
    excerpt: Option<string>,
    coverImage: Option<string>,
    metaDescription: Option<string>,
    metaKeywords: Option<string>,
    tags: Option<string>,
    author: string,
    readingTime: int,
    category: string,
    published: int,
    createdAt: Option<int>,
    updatedAt: Option<int>)

  /** The table: rows by id, and the id the engine hands out next (one past
      the largest id ever used, so deleted ids are never reused). */
  datatype PostTable = PostTable(rows: map<nat, Row>, nextId: nat)

  /** What the schema guarantees: the primary key is the row's own id and
      lies below the counter, and `slug` is `UNIQUE`. */
  predicate Valid(t: PostTable)
  {
    (forall id | id in t.rows :: t.rows[id].id == id && id < t.nextId) &&
    (forall a, b | a in t.rows && b in t.rows && t.rows[a].slug == t.rows[b].slug :: a == b)
  }

  /** `SELECT id FROM posts WHERE slug = ? [AND id != ?]` finds a row. */
  predicate SlugTaken(t: PostTable, slug: string, except: Option<nat>)
  {
    exists id | id in t.rows :: t.rows[id].slug == slug && except != Some(id)
  }

  // ---------------------------------------------------------------------
  // Request bodies and the columns they produce

  /** The JSON body of a create or update request. String fields are absent
      (`None`) or strings; `published` is any JSON value. */
  datatype PostBody = PostBody(
    title: Option<string>,
    content: Option<string>,
    excerpt: Option<string>,
    coverImage: Option<string>,
    metaDescription: Option<string>,
    metaKeywords: Option<string>,
    tags: Option<string>,
    author: Option<string>,
    category: Option<string>,
    published: JsValue)

  /** `!title || !content` is false. */
  predicate HasTitleAndContent(b: PostBody)
  {
    Present(b.title) && Present(b.content)
  }

  /** The twelve column values create and update write. */
  datatype Columns = Columns(
    title: string,
    slug: string,
    content: string,
    excerpt: string,
    coverImage: string,
    metaDescription: string,
    metaKeywords: string,
    tags: string,
    author: string,
    readingTime: int,
    category: string,
    published: int)

  function ColumnsOf(b: PostBody): Columns
    requires HasTitleAndContent(b)
  {
    var excerpt := OrElse(b.excerpt, "");
    Columns(
      b.title.value,
      GenerateSlug(b.title.value),
      b.content.value,
      excerpt,
      OrElse(b.coverImage, ""),
      OrElse(b.metaDescription, excerpt),
      OrElse(b.metaKeywords, ""),
      OrElse(b.tags, ""),
      OrElse(b.author, "Admin"),
      ReadingTime(b.content.value),
      OrElse(b.category, "Uncategorized"),
      if Truthy(b.published) then 1 else 0)
  }

  /** The defaults a write applies: title and content are stored as sent;
      each optional field is the given value when one is present and its
      default otherwise (the empty text for excerpt, cover image, keywords
      and tags); the meta description falls back to the excerpt; the flag is
      0 or 1 by truthiness; the slug is a well-formed slug of the title; the
      reading time is that of the content, at least one minute; author and
      category are never empty. */
  lemma ColumnDefaults(b: PostBody)
    requires HasTitleAndContent(b)
    ensures var c := ColumnsOf(b);
      c.title == b.title.value && c.content == b.content.value &&
      (Present(b.excerpt) ==> c.excerpt == b.excerpt.value) && (!Present(b.excerpt) ==> c.excerpt == "") &&
      (Present(b.coverImage) ==> c.coverImage == b.coverImage.value) && (!Present(b.coverImage) ==> c.coverImage == "") &&
      (Present(b.metaKeywords) ==> c.metaKeywords == b.metaKeywords.value) && (!Present(b.metaKeywords) ==> c.metaKeywords == "") &&
      (Present(b.tags) ==> c.tags == b.tags.value) && (!Present(b.tags) ==> c.tags == "") &&
      c.readingTime == ReadingTime(c.content) &&
      (Present(b.category) ==> c.category == b.category.value) &&
      IsSlug(c.slug) && c.slug == GenerateSlug(c.title) &&
      (c.published == 1 <==> Truthy(b.published)) && (c.published == 0 || c.published == 1) &&
      c.readingTime >= 1 &&
      c.author != "" && (Present(b.author) ==> c.author == b.author.value) &&
      (!Present(b.author) ==> c.author == "Admin") &&
      c.category != "" && (!Present(b.category) ==> c.category == "Uncategorized") &&
      (Present(b.metaDescription) ==> c.metaDescription == b.metaDescription.value) &&
      (!Present(b.metaDescription) && Present(b.excerpt) ==> c.metaDescription == b.excerpt.value) &&
      (c.metaDescription == "" <==> !Present(b.metaDescription) && !Present(b.excerpt))
  {
  }

  /** The row an insert stores for the given columns. */
  function NewRow(id: nat, c: Columns, now: int): Row
  {
    Row(id, c.title, c.slug, c.content, Some(c.excerpt), Some(c.coverImage),
        Some(c.metaDescription), Some(c.metaKeywords), Some(c.tags),
        c.author, c.readingTime, c.category, c.published, now, now)
  }

  /** `r` with the twelve written columns replaced; id and timestamps kept. */
  function Overwrite(r: Row, c: Columns): Row
  {
    r.(title := c.title, slug := c.slug, content := c.content,
       excerpt := Some(c.excerpt), coverImage := Some(c.coverImage),
       metaDescription := Some(c.metaDescription), metaKeywords := Some(c.metaKeywords),
       tags := Some(c.tags), author := c.author, readingTime := c.readingTime,
       category := c.category, published := c.published)
  }

  /** The post object create and update send back: the written columns and
      the id, without timestamps. */
  function Echo(id: nat, c: Columns): Post
  {
    Post(id, c.title, c.slug, c.content, Some(c.excerpt), Some(c.coverImage),
         Some(c.metaDescription), Some(c.metaKeywords), Some(c.tags),
         c.author, c.readingTime, c.category, c.published, None, None)
  }

  /** `mapRowToPost`: the row's fields, with the flag normalised to 0 or 1
      by truthiness. */
  function MapRowToPost(r: Row): Post
  {
    Post(r.id, r.title, r.slug, r.content, r.excerpt, r.coverImage,
         r.metaDescription, r.metaKeywords, r.tags, r.author, r.readingTime,
         r.category, if r.published != 0 then 1 else 0, Some(r.createdAt), Some(r.updatedAt))
  }

  /** Reading a post back gives what the write echoed, plus the timestamps:
      the echo and the mapped row agree on every other field. */
  lemma ReadBackMatchesEcho(id: nat, c: Columns, r: Row)
    requires c.published == 0 || c.published == 1
    requires r == NewRow(id, c, r.createdAt) || (r.id == id && r == Overwrite(r, c))
    ensures MapRowToPost(r).(createdAt := None, updatedAt := None) == Echo(id, c)
    ensures MapRowToPost(r).createdAt == Some(r.createdAt)
  {
  }

  /** Every mapped post carries a flag of 0 or 1, which is 1 exactly when the
      stored flag is non-zero, and keeps the row's id and slug. */
  lemma MapRowToPostNormalises(r: Row)
    ensures var p := MapRowToPost(r);
      (p.published == 0 || p.published == 1) && (p.published == 1 <==> r.published != 0) &&
      p.id == r.id && p.slug == r.slug && p.createdAt == Some(r.createdAt)
  {
  }

  // ---------------------------------------------------------------------
  // What the engine does with a write

  /** `INSERT INTO posts ...`: a duplicate slug violates the `UNIQUE`
      constraint; otherwise the row gets the next id. */
  function Insert(t: PostTable, c: Columns, now: int): (r: Result<(nat, PostTable), DbError>)
    requires Valid(t)
    ensures r.Err? <==> SlugTaken(t, c.slug, None)
    ensures r.Ok? ==> (r.value.0 !in t.rows && Valid(r.value.1) &&
                       r.value.1.rows == t.rows[r.value.0 := NewRow(r.value.0, c, now)])
  {
    if SlugTaken(t, c.slug, None) then Err(UniqueViolation)
    else
      var id := t.nextId;
      Ok((id, PostTable(t.rows[id := NewRow(id, c, now)], t.nextId + 1)))
  }

  /** When a row's stored `updated_at` moves on an update. The client-server
      engine's column is `ON UPDATE CURRENT_TIMESTAMP`, which fires only when
      some value actually changes; the embedded engine's column has no such
      clause. */
  function UpdatedAt(engine: Engine, before: Row, after: Row, now: int): int
  {
    if engine == Mysql && after != before then now else before.updatedAt
  }

  /** The row a successful update leaves under the id. */
  function UpdatedRow(before: Row, c: Columns, now: int, engine: Engine): Row
  {
    var written := Overwrite(before, c);
    written.(updatedAt := UpdatedAt(engine, before, written, now))
  }

  /** `UPDATE posts SET ... WHERE id = ?`, yielding the number of rows
      matched (`affectedRows`). An id that names no row matches nothing. */
  function Update(t: PostTable, id: Option<nat>, c: Columns, now: int, engine: Engine)
    : (r: Result<(nat, PostTable), DbError>)
    requires Valid(t)
    ensures r.Err? <==> id.Some? && id.value in t.rows && SlugTaken(t, c.slug, id)
    ensures r.Ok? && r.value.0 == 0 ==> r.value.1 == t && (id.None? || id.value !in t.rows)
    ensures r.Ok? && r.value.0 != 0 ==> r.value.0 == 1 && id.Some? && id.value in t.rows && Valid(r.value.1)
  {
    if id.None? || id.value !in t.rows then Ok((0, t))
    else if SlugTaken(t, c.slug, id) then Err(UniqueViolation)
    else
      Ok((1, t.(rows := t.rows[id.value := UpdatedRow(t.rows[id.value], c, now, engine)])))
  }

  /** `DELETE FROM posts WHERE id = ?`, yielding the number of rows removed. */
  function Delete(t: PostTable, id: Option<nat>): (r: (nat, PostTable))
    requires Valid(t)
    ensures Valid(r.1) && r.1.nextId == t.nextId
    ensures r.0 == 0 <==> id.None? || id.value !in t.rows
    ensures r.0 == 0 ==> r.1 == t
    ensures r.0 != 0 ==> r.1.rows == t.rows - {id.value} && id.value in t.rows
  {
    if id.None? || id.value !in t.rows then (0, t)
    else (1, t.(rows := t.rows - {id.value}))
  }

  // ---------------------------------------------------------------------
  // Handlers

  const TitleAndContentRequired: string := "Title and content required"
  const CreateDuplicate: string := "A post with this title/slug already exists"
  const UpdateDuplicate: string := "A post with this title already exists"
  const PostNotFound: string := "Post not found"
  const DatabaseError: string := "Database error"
  const PostDeleted: string := "Post deleted"

  /** The JSON bodies the posts router sends. `Saved` is
      `{ success: true, post }` and `Removed` is `{ success: true, message }`. */
  datatype Reply =
    | Failure(error: string)
    | Saved(post: Post)
    | Removed(message: string)
    | Found(post: Post)
    | Listing(posts: seq<Post>)
    | CategoryList(categories: seq<string>)

  datatype Response = Response(status: int, reply: Reply)

  datatype Transition = Transition(response: Response, table: PostTable)

  function Fail(status: int, message: string): Response
  {
    Response(status, Failure(message))
  }

  /** `POST /api/posts`. Queries: 0 the slug check, 1 the insert. */
  function CreatePost(t: PostTable, b: PostBody, now: int, failAt: FailurePoint): (out: Transition)
    requires Valid(t)
    ensures Valid(out.table)
    ensures out.response.status == 201 || out.response.status == 400 || out.response.status == 500
    ensures out.response.status != 201 ==> out.table == t
  {
    if !HasTitleAndContent(b) then Transition(Fail(400, TitleAndContentRequired), t)
    else
      var c := ColumnsOf(b);
      if FailsAt(failAt, 0) then Transition(Fail(500, DatabaseError), t)
      else if SlugTaken(t, c.slug, None) then Transition(Fail(400, CreateDuplicate), t)
      else if FailsAt(failAt, 1) then Transition(Fail(500, DatabaseError), t)
      else
        match Insert(t, c, now)
        case Err(_) => Transition(Fail(500, DatabaseError), t)
        case Ok((id, t')) => Transition(Response(201, Saved(Echo(id, c))), t')
  }

  /** `PUT /api/posts/:id`. The path parameter is modelled as the row id it
      designates (`None` when it designates no row). Queries: 0 the slug
      check that skips the post itself, 1 the update. */
  function UpdatePost(t: PostTable, id: Option<nat>, b: PostBody, now: int, engine: Engine,
                      failAt: FailurePoint): (out: Transition)
    requires Valid(t)
    ensures Valid(out.table) && out.table.nextId == t.nextId
    ensures out.response.status == 200 || out.response.status == 400 ||
            out.response.status == 404 || out.response.status == 500
    ensures out.response.status != 200 ==> out.table == t
    ensures out.response.status == 200 ==>
      id.Some? && id.value in t.rows && out.table.rows.Keys == t.rows.Keys
  {
    if !HasTitleAndContent(b) then Transition(Fail(400, TitleAndContentRequired), t)
    else
      var c := ColumnsOf(b);
      if FailsAt(failAt, 0) then Transition(Fail(500, DatabaseError), t)
      else if SlugTaken(t, c.slug, id) then Transition(Fail(400, UpdateDuplicate), t)
      else if FailsAt(failAt, 1) then Transition(Fail(500, DatabaseError), t)
      else
        match Update(t, id, c, now, engine)
        case Err(_) => Transition(Fail(500, DatabaseError), t)
        case Ok((affected, t')) =>
          if affected == 0 then Transition(Fail(404, PostNotFound), t')
          else Transition(Response(200, Saved(Echo(id.value, c))), t')
  }

  /** `DELETE /api/posts/:id`. Query 0 is the delete. */
  function DeletePost(t: PostTable, id: Option<nat>, failAt: FailurePoint): (out: Transition)
    requires Valid(t)
    ensures Valid(out.table) && out.table.nextId == t.nextId
    ensures out.response.status == 200 || out.response.status == 404 || out.response.status == 500
    ensures out.response.status != 200 ==> out.table == t
  {
    if FailsAt(failAt, 0) then Transition(Fail(500, DatabaseError), t)
    else
      var (removed, t') := Delete(t, id);
      if removed == 0 then Transition(Fail(404, PostNotFound), t')
      else Transition(Response(200, Removed(PostDeleted)), t')
  }

  // ---------------------------------------------------------------------
  // Properties of the write handlers

  /** A create succeeds exactly when title and content are present, neither
      query fails and no post has the title's slug; the storage constraint
      then never fires, so a healthy engine never yields 500. */
  lemma CreateSucceedsIff(t: PostTable, b: PostBody, now: int, failAt: FailurePoint)
    requires Valid(t)
    ensures CreatePost(t, b, now, failAt).response.status == 201 <==>
      HasTitleAndContent(b) && failAt != Some(0) && failAt != Some(1) &&
      !SlugTaken(t, GenerateSlug(b.title.value), None)
    ensures failAt.None? ==> CreatePost(t, b, now, failAt).response.status != 500
  {
  }

  /** The responses a create gives when it does not succeed, and in which
      order the checks apply. */
  lemma CreateRejections(t: PostTable, b: PostBody, now: int, failAt: FailurePoint)
    requires Valid(t)
    ensures !HasTitleAndContent(b) ==>
      CreatePost(t, b, now, failAt).response == Fail(400, TitleAndContentRequired)
    ensures HasTitleAndContent(b) && failAt != Some(0) && SlugTaken(t, GenerateSlug(b.title.value), None) ==>
      CreatePost(t, b, now, failAt).response == Fail(400, CreateDuplicate)
    ensures (HasTitleAndContent(b) &&
             (failAt == Some(0) || (failAt == Some(1) && !SlugTaken(t, GenerateSlug(b.title.value), None)))) ==>
      CreatePost(t, b, now, failAt).response == Fail(500, DatabaseError)
  {
  }

  /** A successful create adds exactly one row, under a fresh id, holding
      the title's slug, created and updated now; it echoes that id. */
  lemma CreateAddsOneRow(t: PostTable, b: PostBody, now: int, failAt: FailurePoint)
    requires Valid(t)
    requires CreatePost(t, b, now, failAt).response.status == 201
    ensures var out := CreatePost(t, b, now, failAt);
      HasTitleAndContent(b) &&
      t.nextId !in t.rows &&
      out.table.rows == t.rows[t.nextId := NewRow(t.nextId, ColumnsOf(b), now)] &&
      out.table.nextId == t.nextId + 1 &&
      out.table.rows[t.nextId].slug == GenerateSlug(b.title.value) &&
      out.table.rows[t.nextId].createdAt == now &&
      out.response.reply == Saved(Echo(t.nextId, ColumnsOf(b)))
  {
    assert HasTitleAndContent(b);
    var c := ColumnsOf(b);
    assert !FailsAt(failAt, 0) && !SlugTaken(t, c.slug, None) && !FailsAt(failAt, 1);
    var row := NewRow(t.nextId, c, now);
    assert Insert(t, c, now) == Ok((t.nextId, PostTable(t.rows[t.nextId := row], t.nextId + 1)));
  }

  /** Two titles with the same slug cannot both be created: once one is
      stored, the other is turned away. */
  lemma SecondTitleWithSameSlugRejected(t: PostTable, b1: PostBody, b2: PostBody, now: int)
    requires Valid(t)
    requires CreatePost(t, b1, now, None).response.status == 201
    requires HasTitleAndContent(b2) && GenerateSlug(b2.title.value) == GenerateSlug(b1.title.value)
    ensures var t1 := CreatePost(t, b1, now, None).table;
      CreatePost(t1, b2, now, None) == Transition(Fail(400, CreateDuplicate), t1)
  {
    var t1 := CreatePost(t, b1, now, None).table;
    CreateAddsOneRow(t, b1, now, None);
    assert t1.rows[t.nextId].slug == GenerateSlug(b2.title.value);
  }

  /** An update succeeds exactly when title and content are present, neither
      query fails, the id names a row and no other post has the new slug. */
  lemma UpdateSucceedsIff(t: PostTable, id: Option<nat>, b: PostBody, now: int, engine: Engine,
                          failAt: FailurePoint)
    requires Valid(t)
    ensures UpdatePost(t, id, b, now, engine, failAt).response.status == 200 <==>
      HasTitleAndContent(b) && failAt != Some(0) && failAt != Some(1) &&
      id.Some? && id.value in t.rows && !SlugTaken(t, GenerateSlug(b.title.value), id)
    ensures failAt.None? ==> UpdatePost(t, id, b, now, engine, failAt).response.status != 500
  {
    if HasTitleAndContent(b) {
      var c := ColumnsOf(b);
      assert c.slug == GenerateSlug(b.title.value);
      if !FailsAt(failAt, 0) && !SlugTaken(t, c.slug, id) && !FailsAt(failAt, 1) {
        assert Update(t, id, c, now, engine).Ok?;
      }
    }
  }

  /** A post can always keep its own title: the duplicate check skips the
      post being updated. */
  lemma UpdateKeepsOwnSlug(t: PostTable, id: nat, b: PostBody, now: int, engine: Engine)
    requires Valid(t) && id in t.rows
    requires HasTitleAndContent(b) && GenerateSlug(b.title.value) == t.rows[id].slug
    ensures UpdatePost(t, Some(id), b, now, engine, None).response.status == 200
  {
    var slug := GenerateSlug(b.title.value);
    forall k | k in t.rows && t.rows[k].slug == slug ensures k == id {
    }
    assert !SlugTaken(t, slug, Some(id));
    UpdateSucceedsIff(t, Some(id), b, now, engine, None);
  }

  /** A valid update of an id that names no row reports 404 and changes
      nothing, unless another post already has the slug, which is reported
      first. */
  lemma UpdateMissingPost(t: PostTable, id: Option<nat>, b: PostBody, now: int, engine: Engine)
    requires Valid(t) && (id.None? || id.value !in t.rows)
    requires HasTitleAndContent(b)
    ensures var out := UpdatePost(t, id, b, now, engine, None);
      out.table == t &&
      out.response == (if SlugTaken(t, GenerateSlug(b.title.value), id) then Fail(400, UpdateDuplicate)
                       else Fail(404, PostNotFound))
  {
  }

  lemma UpdateSuccessShape(t: PostTable, id: Option<nat>, b: PostBody, now: int, engine: Engine,
                           failAt: FailurePoint)
    requires Valid(t)
    requires UpdatePost(t, id, b, now, engine, failAt).response.status == 200
    ensures id.Some? && id.value in t.rows && HasTitleAndContent(b)
    ensures UpdatePost(t, id, b, now, engine, failAt) ==
      Transition(Response(200, Saved(Echo(id.value, ColumnsOf(b)))),
                 t.(rows := t.rows[id.value := UpdatedRow(t.rows[id.value], ColumnsOf(b), now, engine)]))
  {
    UpdateSucceedsIff(t, id, b, now, engine, failAt);
  }

  /** A successful update rewrites the written columns of that one row and
      nothing else: other rows, the row's id and its creation time are kept.
      The client-server engine moves `updated_at` to now exactly when some
      value changed; the embedded engine never moves it. The echo carries
      the id from the path. */
  lemma UpdateChangesOneRow(t: PostTable, id: Option<nat>, b: PostBody, now: int, engine: Engine,
                            failAt: FailurePoint)
    requires Valid(t)
    requires UpdatePost(t, id, b, now, engine, failAt).response.status == 200
    ensures id.Some? && id.value in t.rows && HasTitleAndContent(b)
    ensures var out := UpdatePost(t, id, b, now, engine, failAt);
      var before := t.rows[id.value];
      var written := Overwrite(before, ColumnsOf(b));
      var after := out.table.rows[id.value];
      out.table.rows.Keys == t.rows.Keys &&
      (forall k | k in t.rows && k != id.value :: out.table.rows[k] == t.rows[k]) &&
      after == written.(updatedAt := after.updatedAt) &&
      after.id == id.value && after.createdAt == before.createdAt &&
      (engine == Sqlite ==> after.updatedAt == before.updatedAt) &&
      (engine == Mysql && written != before ==> after.updatedAt == now) &&
      (engine == Mysql && written == before ==> after == before) &&
      out.response.reply == Saved(Echo(id.value, ColumnsOf(b)))
  {
    UpdateSuccessShape(t, id, b, now, engine, failAt);
  }

  /** A delete removes exactly the named row when it exists, and otherwise
      reports 404 and changes nothing. */
  lemma DeleteRemovesRow(t: PostTable, id: Option<nat>)
    requires Valid(t)
    ensures var out := DeletePost(t, id, None);
      (id.Some? && id.value in t.rows ==>
         out.response == Response(200, Removed(PostDeleted)) && out.table.rows == t.rows - {id.value} &&
         out.table.nextId == t.nextId) &&
      (id.None? || id.value !in t.rows ==> out == Transition(Fail(404, PostNotFound), t))
  {
  }

  /** Adding a fresh key and removing it again gives the map back. */
  lemma RemoveAdded<K, V>(m: map<K, V>, k: K, v: V)
    requires k !in m
    ensures m[k := v] - {k} == m
  {
  }

  /** Deleting the post just created restores the rows as they were; the id
      counter stays advanced, so the id is not handed out again. */
  lemma CreateThenDelete(t: PostTable, b: PostBody, now: int)
    requires Valid(t)
    requires CreatePost(t, b, now, None).response.status == 201
    ensures var created := CreatePost(t, b, now, None);
      created.response.reply.Saved? &&
      var deleted := DeletePost(created.table, Some(created.response.reply.post.id), None);
      deleted.response.status == 200 && deleted.table.rows == t.rows &&
      deleted.table.nextId == t.nextId + 1
  {
    CreateAddsOneRow(t, b, now, None);
    var created := CreatePost(t, b, now, None);
    var id := t.nextId;
    assert created.response.reply.post.id == id;
    RemoveAdded(t.rows, id, NewRow(id, ColumnsOf(b), now));
    DeleteRemovesRow(created.table, Some(id));
  }
}
