# SOCSignal blog back end and post page — a Dafny model

This project models the core of the SOCSignal blog: an Express back end
that stores posts and an administrator account in SQLite (locally) or MySQL
(in production), guards its write routes with a JSON Web Token check, and a
public page script that turns a stored post into HTML. The model covers:

- the posts router (`routes/posts.js`): slug generation, reading time,
  `mapRowToPost`, the public and admin listings, the categories list, the
  single-post lookup, and the create, update and delete handlers, each a pure
  transition from the table before to the response and the table after;
- the storage layer: the engine switch (`config/database.js`), the SQLite
  adapter's `execute` (read/write classification and result shaping), both
  initialisers (table creation, administrator, sample post) and the MySQL
  connection configuration;
- authentication: the token middleware and the login route;
- the post page (`public/js/main.js`): the block renderer, the choice
  between block rendering and the legacy renderer, the meta-description
  fallback and the tag list.

Engines, the clock, the password hash, the token signer and verifier,
`JSON.parse` and the Markdown converter are parameters. A failure of the
engine is a parameter too: a handler is given the index of the first query
that the engine rejects, if any. Timestamps are abstract integers.

Modules: `Common` (options, results, JavaScript truthiness), `JsText`
(`trim`, `split`, `join`, `String(n)`, `parseInt`, string order), `Sql`
(engine selection, errors, failure points), `PostRules` (slugs, reading
time), `Posts` (table, write handlers), `PostQueries` (read handlers),
`Adapter` (SQLite `execute`), `Schema` (both initialisers), `MysqlConfig`,
`Auth`, `Login`, `Routes` (middleware composed with the write handlers),
`Render` (block renderer) and `PostPage` (the post page).

Two behaviours of the code are easy to miss:

- the MySQL configuration accepts a connection URI in `DATABASE_URL`
  (`config/database.mysql.js:5-19`), but the engine switch tests `DB_HOST`
  alone (`config/database.js:2-4`); a MySQL deployment configured only by
  `DATABASE_URL` therefore runs on SQLite;
- the MySQL initialiser seeds the sample post only inside the branch that
  has just created its administrator (`config/database.mysql.js:68-92`),
  while the SQLite initialiser seeds whenever `posts` is empty.

## Model

| member | source | states |
|---|---|---|
| Sql.SelectEngine | config/database.js:2-4 | MySQL is chosen exactly when `DB_HOST` is set to a non-empty value |
| JsText.TrimSpec | config/database.sqlite.js:12 | `trim` yields a string with no space at either end that the input surrounds with all-space margins |
| JsText.TrimSurrounded | public/js/main.js:236 | `trim` removes all-space margins from a trimmed string and nothing else |
| JsText.JoinSplit | public/js/main.js:218 | joining the pieces of `split(c)` with `c` gives back the input |
| JsText.SplitJoin | public/js/main.js:236 | splitting a join of separator-free pieces gives back the pieces |
| JsText.ParseIntOfIntToString | config/database.mysql.js:12 | `parseInt(String(i))` is `i` for every integer |
| JsText.ParseIntWithoutDigits | config/database.mysql.js:12 | a text without a decimal digit parses to NaN |
| JsText.LexTotal | routes/posts.js:64 | string order relates any two distinct strings one way or the other |
| JsText.LexTransitive | routes/posts.js:64 | string order is transitive |
| PostRules.GenerateSlug | routes/posts.js:8-13 | every slug is over `[a-z0-9-]`, with no leading, trailing or doubled hyphen (and may be empty) |
| PostRules.SlugIsJoinedWords | routes/posts.js:8-13 | the slug is the maximal `[a-z0-9]` runs of the lower-cased title joined by single hyphens |
| PostRules.GenerateSlugIdempotent | routes/posts.js:8-13 | slugging a slug changes nothing |
| PostRules.SlugIsFixpoint | routes/posts.js:8-13 | a string that already has the slug shape is its own slug |
| PostRules.SlugOfSeparatedWords | routes/posts.js:8-13 | whatever separators stand between and around words, the slug is the words joined by hyphens |
| PostRules.SampleTitleSlug | config/database.sqlite.js:101-102 | the sample title slugs to the seeded slug |
| PostRules.SlugExamplePunctuation | routes/posts.js:8-13 | `Hello, World!` slugs to `hello-world` |
| PostRules.SlugExampleSpaces | routes/posts.js:8-13 | spaces around and between words leave no stray hyphen: `  Multiple   Spaces  ` slugs to `multiple-spaces` |
| PostRules.ReadingTime | routes/posts.js:126-127 | the reading time is the least number of minutes covering the word count at 200 words a minute, at least one |
| PostRules.SplitJoinedWords | routes/posts.js:126 | words joined by single spaces split back into exactly those words |
| PostRules.ReadingTimeOfWords | routes/posts.js:126-127 | `n` space-separated words read in `ceil(n / 200)` minutes |
| PostRules.EmptyContentReadingTime | routes/posts.js:126-127 | empty text counts as one word and reads in one minute |
| PostRules.ReadingTimeExamples | routes/posts.js:126-127 | 400 words read in two minutes and a single word in one |
| Posts.ColumnDefaults | routes/posts.js:123-132 | title and content are stored as sent; excerpt, cover image, keywords and tags default to empty text, author to `Admin`, category to `Uncategorized`, each taking the request value when given; the meta description falls back to the excerpt; the reading time is that of the content; the flag is 1 exactly when `published` is truthy |
| Posts.ReadBackMatchesEcho | routes/posts.js:16-34 | a stored row read back through `mapRowToPost` matches the post the write echoed, plus timestamps |
| Posts.MapRowToPostNormalises | routes/posts.js:16-34 | the mapped flag is 0 or 1 and is 1 exactly when the stored flag is non-zero |
| Posts.Insert | config/database.sqlite.js:53-68 | an insert fails exactly when the slug is taken, else stores the row under the next id and keeps the table valid |
| Posts.Update | config/database.mysql.js:62 | an update matches the row under the id, or nothing when there is none, and fails exactly on another row's slug |
| Posts.Delete | routes/posts.js:254-268 | a delete removes exactly the named row, if any, and reports whether it did |
| Posts.CreatePost | routes/posts.js:104-162 | a create answers 201, 400 or 500, keeps the table valid and changes it only on 201 |
| Posts.CreateSucceedsIff | routes/posts.js:104-162 | a create succeeds exactly when title and content are present, no query fails and the slug is free |
| Posts.CreateRejections | routes/posts.js:109-121 | missing fields give 400 first, a taken slug gives 400 with the duplicate message, failures give 500 |
| Posts.CreateAddsOneRow | routes/posts.js:129-157 | a successful create adds one row under a fresh id with the title's slug and echoes that id |
| Posts.SecondTitleWithSameSlugRejected | routes/posts.js:113-121 | two titles with the same slug cannot both be created |
| Posts.UpdatePost | routes/posts.js:165-251 | an update answers 200, 400, 404 or 500, keeps the table valid and changes it only on 200 |
| Posts.UpdateSucceedsIff | routes/posts.js:165-251 | an update succeeds exactly when the fields are present, no query fails, the id names a row and no other row has the slug |
| Posts.UpdateSuccessShape | routes/posts.js:188-246 | a successful update names an existing row and rewrites exactly that row, echoing the request under its id |
| Posts.UpdateKeepsOwnSlug | routes/posts.js:178-183 | a post can always keep its own title |
| Posts.UpdateMissingPost | routes/posts.js:178-223 | an id that names no row leaves the table unchanged and gives 404, or 400 first when another post already has the title's slug |
| Posts.UpdateChangesOneRow | routes/posts.js:188-246 | a successful update rewrites that row's written columns only; MySQL moves `updated_at` exactly when a value changed |
| Posts.DeletePost | routes/posts.js:254-268 | a delete answers 200, 404 or 500 and changes the table only on 200 |
| Posts.DeleteRemovesRow | routes/posts.js:254-268 | a delete removes exactly the named row, and otherwise answers 404 with the table unchanged |
| Posts.CreateThenDelete | routes/posts.js:104-162 | deleting a just-created post restores the rows; its id is not reused |
| PostQueries.InsertByDate | routes/posts.js:49 | inserting into a newest-first list keeps it newest first and adds exactly that row |
| PostQueries.SelectRows | routes/posts.js:41-51 | the selection holds exactly the rows the filter keeps, each once, newest first |
| PostQueries.ListRows | routes/posts.js:51-52 | the listing holds exactly the kept rows mapped by `mapRowToPost`, newest first |
| PostQueries.ListPosts | routes/posts.js:37-58 | the public listing shows published posts, narrowed by category only when one is given, or 500 |
| PostQueries.AdminPosts | routes/posts.js:93-101 | the admin listing shows every post, drafts included, newest first, or 500 |
| PostQueries.ListingsSeparateDrafts | routes/posts.js:41 | the public listing never shows a draft and the admin listing shows every row |
| PostQueries.GetPostBySlug | routes/posts.js:73-89 | 200 with the post exactly when a published row has the slug, else 404, or 500 |
| PostQueries.InsertCategory | routes/posts.js:63-64 | inserting into a strictly ascending list keeps it so and adds exactly that category |
| PostQueries.ListCategories | routes/posts.js:61-70 | the categories are exactly those of published posts, distinct and ascending, or 500 |
| Adapter.UpperCaseConcat | config/database.sqlite.js:12 | upper-casing works character by character: the upper case of a concatenation is the concatenation of the upper cases |
| Adapter.IsSelectIff | config/database.sqlite.js:12 | a query is a read exactly when, after leading spaces, five characters upper-case to SELECT's first five letters and the sixth to text beginning with T |
| Adapter.SelectInAnyCase | config/database.sqlite.js:12 | any spelling of SELECT after any spaces is a read |
| Adapter.OtherKeywordIsWrite | config/database.sqlite.js:12 | a query whose first word does not begin with an s is a write |
| Adapter.ProgramReadsClassified | config/database.sqlite.js:12 | the program's SELECT queries are reads |
| Adapter.CaseMappingEdges | config/database.sqlite.js:12 | under full case mapping, `selec` followed by t with diaeresis is a read, and a leading sharp s is a write |
| Adapter.WritesAndCommonTableExpressions | config/database.sqlite.js:12 | CREATE, INSERT, UPDATE, DELETE and WITH queries are writes |
| Adapter.Execute | config/database.sqlite.js:9-31 | a successful call returns rows exactly for reads |
| Adapter.ExecuteRoutes | config/database.sqlite.js:14-28 | reads pass the fetched rows through, writes report last id and change count, errors reject with no result |
| Schema.InsertUser | config/database.mysql.js:70-73 | an insert fails exactly when the username exists, else adds that user |
| Schema.InsertOrIgnoreUser | config/database.sqlite.js:83-86 | the user is present afterwards; an existing one leaves the table as it was |
| Schema.SampleSlugIsGenerated | config/database.sqlite.js:100-108 | the seeded slug is the create handler's slug of the seeded title |
| Schema.InsertSample | config/database.sqlite.js:111-122 | seeding fails exactly on a taken slug, else adds the sample row under the next id |
| Schema.SeedIfEmpty | config/database.sqlite.js:93-131 | seeding never touches `users`; a failing count or insert aborts at that step and leaves the store as it was |
| Schema.Initialize | config/database.js:2-4 | the chosen initialiser keeps the store valid |
| Schema.ReadyMeansInitialised | config/database.sqlite.js:34-143 | a successful run leaves both tables and the engine's administrator in place |
| Schema.SqliteInitIdempotent | config/database.sqlite.js:34-143 | a second SQLite run changes nothing and succeeds |
| Schema.SqliteReadyHasPosts | config/database.sqlite.js:34-143 | after a successful SQLite run the administrator exists and `posts` holds at least one row |
| Schema.MysqlInitIdempotent | config/database.mysql.js:33-99 | a second MySQL run changes nothing and succeeds |
| Schema.EmptyStoreSeeded | config/database.sqlite.js:38-131 | from an empty database a clean run leaves one administrator and one sample post |
| Schema.SqliteSeedsIffEmpty | config/database.sqlite.js:93-131 | SQLite adds the sample post exactly when `posts` was missing or empty, and never touches existing posts |
| Schema.MysqlSeedsOnlyWithNewAdmin | config/database.mysql.js:67-92 | MySQL adds the sample post exactly when the administrator was new and `posts` was empty |
| Schema.EnginesDisagreeOnEmptyPosts | config/database.mysql.js:67-92 | with the administrator present and no posts, SQLite seeds and MySQL does not |
| Schema.AbortKeepsEarlierEffects | config/database.mysql.js:95-98 | a failing step stops the run without undoing earlier steps |
| MysqlConfig.ConfigFields | config/database.mysql.js:5-17 | URI mode exactly when `DATABASE_URL` is non-empty; host, user, password and database are each their variable when non-empty, else the default; the port is `parseInt(DB_PORT) \|\| 3306`, never zero; SSL exactly when `DB_HOST` is set |
| MysqlConfig.EmptyEnvironmentDefaults | config/database.mysql.js:10-17 | with nothing set, every default applies and there is no SSL |
| MysqlConfig.PortParsing | config/database.mysql.js:12 | a decimal port is used unless zero; a value without digits gives 3306 |
| MysqlConfig.PoolUriShape | config/database.mysql.js:26 | the URI is kept as a prefix, then one separator (`&` exactly when it has a `?`) and the SSL parameter |
| MysqlConfig.PoolUriQueryMarks | config/database.mysql.js:26 | suffixing never starts a second query string |
| MysqlConfig.PoolFromConfig | config/database.mysql.js:25-27 | field pools carry the fields and the fixed pool options; URI pools use the suffixed URI |
| Auth.JwtSecret | middleware/auth.js:4 | the secret is `JWT_SECRET` when non-empty, else the default |
| Auth.TokenIsSecondField | middleware/auth.js:9-10 | the token is the second space-separated field of the header |
| Auth.NoSpaceNoToken | middleware/auth.js:9-10 | a header without a space carries no token |
| Auth.MissingTokenIs401 | middleware/auth.js:12-14 | no token gives 401 without calling the verifier or the next handler |
| Auth.RejectedTokenIs403 | middleware/auth.js:17-20 | a rejected token gives 403 and the next handler does not run |
| Auth.Authenticate | middleware/auth.js:7-25 | a request the middleware does not pass on is always answered with a status |
| Auth.AdmittedIff | middleware/auth.js:7-25 | a request is passed on exactly when a token is present and verifies; then the claims are recorded and the next handler runs once |
| Login.FindUser | routes/auth.js:20-21 | the lookup finds a row exactly when the username exists, and it is that user's row |
| Login.MissingFieldIs400 | routes/auth.js:14-16 | a missing username or password gives 400 before any query |
| Login.FailuresIndistinguishable | routes/auth.js:23-32 | an unknown user and a wrong password get the same response |
| Login.SuccessIff | routes/auth.js:10-53 | login succeeds exactly when the fields are present, nothing throws, the user exists and the password matches; the token is signed for that user for 24 hours |
| Login.ThrowIs500 | routes/auth.js:49-52 | any throw after validation gives 500 with a generic message |
| Login.LoginStatuses | routes/auth.js:10-53 | the outcomes are exactly 200, 400, 401 and 500 |
| Routes.GuardedWrite | routes/posts.js:104 | a guarded write keeps the table valid |
| Routes.Handle | routes/posts.js:104-268 | an admitted write keeps the table valid, and a 400, 404 or 500 answer leaves it unchanged |
| Routes.WritesNeedAcceptedToken | routes/posts.js:165 | without a token a write gets 401 and with a rejected one 403, the table unchanged; with an accepted one the handler runs |
| Routes.ChangesOnlyWhenAdmitted | routes/posts.js:254 | the table changes only through an admitted request answered with 200 or 201 |
| Routes.GuardedAdminPosts | routes/posts.js:92-101 | the admin listing is refused with 401 without a token and 403 with a rejected one; posts, drafts included, are listed exactly when the token is accepted and the select succeeds |
| Render.EscapeHtml | public/js/main.js:256-260 | escaped text contains no `<` or `>` |
| Render.UnescapeEscape | public/js/main.js:256-260 | escaped text reads back as the original |
| Render.RenderBlocksConcat | public/js/main.js:12-47 | rendering a document split in two concatenates the two renderings |
| Render.UnknownBlocksVanish | public/js/main.js:43-44 | a document renders as its known blocks alone |
| Render.ListItemsConcat | public/js/main.js:21 | item markup is made item by item, in order |
| Render.UnwrapElement | public/js/main.js:18 | an element made from a tag and its contents gives the contents back when unwrapped |
| Render.ListShape | public/js/main.js:19-22 | a list is `ol` exactly for the ordered style, else `ul`, wrapping one `li` per item |
| Render.HeaderShape | public/js/main.js:16 | a header opens and closes with the same tag, whose number reads back as the level |
| Render.CaptionSlotIff | public/js/main.js:27 | a caption element appears exactly when the caption is non-empty, and wraps it |
| Render.CodeShape | public/js/main.js:37-40 | the language class defaults to `plaintext`; the code is escaped and reads back unchanged |
| Render.FixedRenderings | public/js/main.js:41-44 | a delimiter is a fixed rule, an unknown block renders as nothing |
| PostPage.MetaDescription | public/js/main.js:176 | the description is the meta description, else the excerpt, else the title |
| PostPage.MetaDescriptionOfStoredPost | public/js/main.js:176 | for a stored post the page shows the request's meta description, else its excerpt, else its title |
| PostPage.TagList | public/js/main.js:234-236 | no tags when the field is empty; otherwise one tag per comma plus one |
| PostPage.TagsAreTrimmedPieces | public/js/main.js:236 | every tag is trimmed and comma-free |
| PostPage.TagListRoundTrip | public/js/main.js:234-236 | trimmed, comma-free tags, each between its own space margins and joined by commas, split back into exactly those tags |
| PostPage.TagFieldShape | public/js/main.js:234-236 | every non-empty tag field is its tags, each between its own space margins, joined by commas; with the round trip this fixes the tag list of every field |
| PostPage.ContentHtml | public/js/main.js:189-220 | a block document renders through the block renderer; anything else goes to the legacy renderer |
| PostPage.LineBreaksRoundTrip | public/js/main.js:218 | the line-break fallback leaves no newline, and for markup-free content its breaks read back as the newlines |

## Left out

- Rendering of the admin panel, the listing cards and dates, image upload, Firebase, the HTTP server and the static file routes: none is part of this core.
- Concurrency: requests run one at a time; the race between the slug check and the insert (which the `UNIQUE` key would catch as a 500) is not modelled.
- MySQL compares slugs, usernames and categories under a case-insensitive collation; the model compares strings exactly.
- The categories are sorted by code point; JavaScript's `sort` compares UTF-16 code units, which differs only beyond the Basic Multilingual Plane.
- Request body fields that are neither absent nor strings (numbers, arrays) are not modelled; truthiness is modelled only for `published`.
- Column width limits (`VARCHAR(255)`, `VARCHAR(500)`) and MySQL's truncation or rejection of longer values are not modelled.
- Adapter.UpperText: characters whose upper case begins with a character outside ASCII are kept as they are rather than upper-cased, since the classifier compares only with ASCII letters and gives the same answer either way.
- MysqlConfig.PortOf: `parseInt` results that exceed the float range or the TCP port range are not modelled.
- Schema.SampleRow: the sample post's Markdown body is a parameter rather than the fixed text.
- PostPage.TagList: the `<span class="tag">` badge markup around each tag and the escaping of each tag are not modelled; the model stops at the list of trimmed tags, and the escaping itself is `Render.EscapeHtml`.
- PostPage.ContentHtml: a block whose data is malformed makes the renderer throw and fall back to the legacy renderer; the model assumes well-formed blocks.
- Posts.UpdatePost: the path parameter is modelled as the row id it designates; the textual `:id` and its conversion by the engine are not modelled.
- Posts.Update: MySQL's `affectedRows` is taken to count matched rows (the driver's default found-rows flag), so an update that changes nothing still answers 200.
- PostRules.GenerateSlug: `toLowerCase` is modelled for ASCII letters only. The few other characters that lower-case to an ASCII letter (the Kelvin sign, the dotted capital I) are treated as separators instead of letters.
- The Markdown converter, `JSON.parse`, password hashing, token signing and verification, the clock and the engines' I/O are parameters.
- Login.HandleLogin: the password hash comparison is a parameter; its timing behaviour is not modelled.
