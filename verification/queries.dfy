/** The read handlers of the posts router: the public listing (optionally
    by category), the admin listing, a single published post by slug, and
    the sorted list of categories in use. */
module PostQueries {
  import opened Common
  import opened JsText
  import opened Sql
  import opened Posts

  // ---------------------------------------------------------------------
  // Listings

  /** Which rows a listing selects: every row (admin), or the published ones,
      optionally of one category. */
  datatype Filter = AllRows | PublishedIn(category: Option<string>)

  predicate Keeps(f: Filter, r: Row)
  {
    match f
    case AllRows => true
    case PublishedIn(None) => r.published == 1
    case PublishedIn(Some(c)) => r.published == 1 && r.category == c
  }

  /** `ORDER BY created_at DESC`. Rows created at the same moment may come
      in any order. */
  predicate NewestFirst(s: seq<Row>)
  {
    forall i, j | 0 <= i < j < |s| :: s[i].createdAt >= s[j].createdAt
  }

  predicate DistinctIds(s: seq<Row>)
  {
    forall i, j | 0 <= i < j < |s| :: s[i].id != s[j].id
  }

  /** Places `r` in front of the first row created strictly earlier. */
  function InsertByDate(r: Row, s: seq<Row>): (out: seq<Row>)
    requires NewestFirst(s)
    ensures NewestFirst(out)
    ensures |out| == |s| + 1
    ensures forall x :: x in out <==> x == r || x in s
    ensures DistinctIds(s) && (forall x | x in s :: x.id != r.id) ==> DistinctIds(out)
  {
    if |s| == 0 || s[0].createdAt < r.createdAt then [r] + s
    else
      var rest := InsertByDate(r, s[1..]);
      HeadPrecedes(r, s, rest);
      [s[0]] + rest
  }

  /** The first row of a sorted listing, created no earlier than `r`, may
      stay in front of the tail with `r` inserted. */
  lemma HeadPrecedes(r: Row, s: seq<Row>, rest: seq<Row>)
    requires |s| > 0 && NewestFirst(s) && s[0].createdAt >= r.createdAt
    requires forall x :: x in rest <==> x == r || x in s[1..]
    ensures forall k | 0 <= k < |rest| :: s[0].createdAt >= rest[k].createdAt
    ensures DistinctIds(s) && s[0].id != r.id ==> forall k | 0 <= k < |rest| :: s[0].id != rest[k].id
  {
    forall k | 0 <= k < |rest|
      ensures s[0].createdAt >= rest[k].createdAt
      ensures DistinctIds(s) && s[0].id != r.id ==> s[0].id != rest[k].id
    {
      if rest[k] != r {
        assert rest[k] in s[1..];
        var m :| 0 <= m < |s[1..]| && s[1..][m] == rest[k];
        assert s[m + 1] == rest[k];
      }
    }
  }

  /** The rows the filter keeps, each once, newest first. */
  method SelectRows(t: PostTable, f: Filter) returns (rs: seq<Row>)
    requires Valid(t)
    ensures NewestFirst(rs) && DistinctIds(rs)
    ensures forall x | x in rs :: x.id in t.rows && t.rows[x.id] == x && Keeps(f, x)
    ensures forall id | id in t.rows && Keeps(f, t.rows[id]) :: t.rows[id] in rs
  {
    rs := [];
    var todo := t.rows.Keys;
    ghost var done: set<nat> := {};
    while todo != {}
      invariant todo + done == t.rows.Keys && todo !! done
      invariant NewestFirst(rs) && DistinctIds(rs)
      invariant forall x | x in rs :: x.id in done && t.rows[x.id] == x && Keeps(f, x)
      invariant forall id | id in done && Keeps(f, t.rows[id]) :: t.rows[id] in rs
      decreases todo
    {
      var id :| id in todo;
      var r := t.rows[id];
      if Keeps(f, r) {
        rs := InsertByDate(r, rs);
      }
      todo := todo - {id};
      done := done + {id};
    }
  }

  /** What a listing response carries: exactly the kept rows, each once,
      mapped with `mapRowToPost`, newest first. */
  predicate IsListing(t: PostTable, f: Filter, posts: seq<Post>)
  {
    (forall i | 0 <= i < |posts| ::
       posts[i].id in t.rows && posts[i] == MapRowToPost(t.rows[posts[i].id]) &&
       Keeps(f, t.rows[posts[i].id])) &&
    (forall id | id in t.rows && Keeps(f, t.rows[id]) :: exists i | 0 <= i < |posts| :: posts[i].id == id) &&
    (forall i, j | 0 <= i < j < |posts| ::
       posts[i].id != posts[j].id && posts[i].createdAt.value >= posts[j].createdAt.value)
  }

  method ListRows(t: PostTable, f: Filter) returns (posts: seq<Post>)
    requires Valid(t)
    ensures IsListing(t, f, posts)
  {
    var rs := SelectRows(t, f);
    posts := seq(|rs|, i requires 0 <= i < |rs| => MapRowToPost(rs[i]));
    forall i | 0 <= i < |posts|
      ensures posts[i].id == rs[i].id && posts[i].createdAt == Some(rs[i].createdAt)
      ensures posts[i].id in t.rows && posts[i] == MapRowToPost(t.rows[posts[i].id])
      ensures Keeps(f, t.rows[posts[i].id])
    {
      assert rs[i] in rs;
    }
    forall i, j | 0 <= i < j < |posts|
      ensures posts[i].id != posts[j].id && posts[i].createdAt.value >= posts[j].createdAt.value
    {
    }
    forall id | id in t.rows && Keeps(f, t.rows[id])
      ensures exists i | 0 <= i < |posts| :: posts[i].id == id
    {
      var i :| 0 <= i < |rs| && rs[i] == t.rows[id];
      assert posts[i].id == id;
    }
  }

  /** `GET /api/posts[?category=...]`: the category narrows the listing
      only when it is a non-empty string. Query 0 is the select. */
  method ListPosts(t: PostTable, category: Option<string>, failAt: FailurePoint) returns (resp: Response)
    requires Valid(t)
    ensures FailsAt(failAt, 0) ==> resp == Fail(500, DatabaseError)
    ensures !FailsAt(failAt, 0) ==>
      resp.status == 200 && resp.reply.Listing? &&
      IsListing(t, PublishedIn(if Present(category) then category else None), resp.reply.posts)
  {
    if FailsAt(failAt, 0) {
      return Fail(500, DatabaseError);
    }
    var f := PublishedIn(if Present(category) then category else None);
    var posts := ListRows(t, f);
    resp := Response(200, Listing(posts));
  }

  /** `GET /api/admin/posts`: every post, published or not. */
  method AdminPosts(t: PostTable, failAt: FailurePoint) returns (resp: Response)
    requires Valid(t)
    ensures FailsAt(failAt, 0) ==> resp == Fail(500, DatabaseError)
    ensures !FailsAt(failAt, 0) ==> resp.status == 200 && resp.reply.Listing? && IsListing(t, AllRows, resp.reply.posts)
  {
    if FailsAt(failAt, 0) {
      return Fail(500, DatabaseError);
    }
    var posts := ListRows(t, AllRows);
    resp := Response(200, Listing(posts));
  }

  /** The public listing never shows a draft, and the admin listing shows
      every row. */
  lemma ListingsSeparateDrafts(t: PostTable, c: Option<string>, pub: seq<Post>, all: seq<Post>)
    requires IsListing(t, PublishedIn(c), pub) && IsListing(t, AllRows, all)
    ensures forall i | 0 <= i < |pub| :: pub[i].published == 1 && t.rows[pub[i].id].published == 1
    ensures |all| == |t.rows|
  {
    var ids := set i | 0 <= i < |all| :: all[i].id;
    assert ids == t.rows.Keys by {
      forall id | id in t.rows ensures id in ids {
        var i :| 0 <= i < |all| && all[i].id == id;
      }
    }
    DistinctCount(all, ids);
  }

  lemma {:induction false} DistinctCount(s: seq<Post>, ids: set<nat>)
    requires ids == set i | 0 <= i < |s| :: s[i].id
    requires forall i, j | 0 <= i < j < |s| :: s[i].id != s[j].id
    ensures |ids| == |s|
    decreases |s|
  {
    if |s| > 0 {
      var rest := s[..|s| - 1];
      var restIds := set i | 0 <= i < |rest| :: rest[i].id;
      assert ids == restIds + {s[|s| - 1].id};
      assert s[|s| - 1].id !in restIds;
      DistinctCount(rest, restIds);
    }
  }

  // ---------------------------------------------------------------------
  // A single post

  /** `GET /api/posts/:slug`: the published post with that slug, or 404.
      Drafts are not served. */
  method GetPostBySlug(t: PostTable, slug: string, failAt: FailurePoint) returns (resp: Response)
    requires Valid(t)
    ensures FailsAt(failAt, 0) ==> resp == Fail(500, DatabaseError)
    ensures !FailsAt(failAt, 0) ==>
      (resp.status == 200 <==> exists id | id in t.rows :: t.rows[id].slug == slug && t.rows[id].published == 1)
    ensures !FailsAt(failAt, 0) && resp.status != 200 ==> resp == Fail(404, PostNotFound)
    ensures resp.status == 200 ==>
      resp.reply.Found? && resp.reply.post.id in t.rows &&
      resp.reply.post == MapRowToPost(t.rows[resp.reply.post.id]) &&
      resp.reply.post.slug == slug && t.rows[resp.reply.post.id].published == 1
  {
    if FailsAt(failAt, 0) {
      return Fail(500, DatabaseError);
    }
    var todo := t.rows.Keys;
    while todo != {}
      invariant todo <= t.rows.Keys
      invariant forall id | id in t.rows && id !in todo :: !(t.rows[id].slug == slug && t.rows[id].published == 1)
      decreases todo
    {
      var id :| id in todo;
      var r := t.rows[id];
      if r.slug == slug && r.published == 1 {
        return Response(200, Found(MapRowToPost(r)));
      }
      todo := todo - {id};
    }
    resp := Fail(404, PostNotFound);
  }

  // ---------------------------------------------------------------------
  // Categories

  /** The categories of the published posts, as a set. */
  function PublishedCategories(t: PostTable): set<string>
  {
    set id | id in t.rows && t.rows[id].published == 1 :: t.rows[id].category
  }

  /** Strictly increasing in string order: sorted and free of repeats. */
  predicate StrictlyAscending(s: seq<string>)
  {
    forall i, j | 0 <= i < j < |s| :: LexLess(s[i], s[j])
  }

  /** Adds `c` to a strictly ascending list unless it is already there. */
  function InsertCategory(c: string, s: seq<string>): (out: seq<string>)
    requires StrictlyAscending(s)
    ensures StrictlyAscending(out)
    ensures forall x :: x in out <==> x == c || x in s
  {
    if |s| == 0 then [c]
    else if c == s[0] then s
    else if LexLess(c, s[0]) then
      (forall j | 0 < j < |s| ensures LexLess(c, s[j]) { LexTransitive(c, s[0], s[j]); }
       [c] + s)
    else
      LexTotal(c, s[0]);
      var rest := InsertCategory(c, s[1..]);
      HeadBelow(c, s, rest);
      [s[0]] + rest
  }

  lemma HeadBelow(c: string, s: seq<string>, rest: seq<string>)
    requires |s| > 0 && StrictlyAscending(s) && LexLess(s[0], c)
    requires forall x :: x in rest <==> x == c || x in s[1..]
    ensures forall k | 0 <= k < |rest| :: LexLess(s[0], rest[k])
  {
    forall k | 0 <= k < |rest|
      ensures LexLess(s[0], rest[k])
    {
      if rest[k] != c {
        assert rest[k] in s[1..];
        var m :| 0 <= m < |s[1..]| && s[1..][m] == rest[k];
        assert s[m + 1] == rest[k];
      }
    }
  }

  /** `GET /api/categories`: the distinct categories of published posts,
      sorted. Query 0 is the select. */
  method ListCategories(t: PostTable, failAt: FailurePoint) returns (resp: Response)
    ensures FailsAt(failAt, 0) ==> resp == Fail(500, DatabaseError)
    ensures !FailsAt(failAt, 0) ==>
      resp.status == 200 && resp.reply.CategoryList? &&
      StrictlyAscending(resp.reply.categories) &&
      forall c :: c in resp.reply.categories <==> c in PublishedCategories(t)
  {
    if FailsAt(failAt, 0) {
      return Fail(500, DatabaseError);
    }
    var cats: seq<string> := [];
    var todo := t.rows.Keys;
    while todo != {}
      invariant todo <= t.rows.Keys
      invariant StrictlyAscending(cats)
      invariant forall c :: c in cats <==>
        exists id | id in t.rows && id !in todo :: t.rows[id].published == 1 && t.rows[id].category == c
      decreases todo
    {
      var id :| id in todo;
      var r := t.rows[id];
      if r.published == 1 {
        cats := InsertCategory(r.category, cats);
      }
      todo := todo - {id};
    }
    resp := Response(200, CategoryList(cats));
  }
}
