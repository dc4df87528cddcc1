/** The post page (`loadSinglePost` in the public script): which
    description the page advertises, how the tag field becomes tag badges,
    and how the stored content is turned into the article's markup — a
    block document when the content parses as one, the legacy renderer
    otherwise. */
module PostPage {
  import opened Common
  import opened JsText
  import opened Posts
  import opened Render

  // ---------------------------------------------------------------------
  // Meta description

  /** `post.meta_description || post.excerpt || post.title`. */
  function MetaDescription(p: Post): (d: string)
    ensures Present(p.metaDescription) ==> d == p.metaDescription.value
    ensures !Present(p.metaDescription) && Present(p.excerpt) ==> d == p.excerpt.value
    ensures !Present(p.metaDescription) && !Present(p.excerpt) ==> d == p.title
  {
    OrElse(p.metaDescription, OrElse(p.excerpt, p.title))
  }

  /** The page and the write handlers apply the same fallback: for a post
      stored from a request body, the page's description is the body's meta
      description if given, else its excerpt if given, else its title — the
      empty meta description the handler stores when neither was given
      defers to the title. */
  lemma MetaDescriptionOfStoredPost(id: nat, b: PostBody, now: int)
    requires HasTitleAndContent(b)
    ensures MetaDescription(MapRowToPost(NewRow(id, ColumnsOf(b), now))) ==
      if Present(b.metaDescription) then b.metaDescription.value
      else if Present(b.excerpt) then b.excerpt.value
      else b.title.value
  {
    ColumnDefaults(b);
  }

  // ---------------------------------------------------------------------
  // Tags

  function TrimAll(parts: seq<string>): (r: seq<string>)
    ensures |r| == |parts|
    ensures forall i | 0 <= i < |r| :: r[i] == Trim(parts[i])
  {
    seq(|parts|, i requires 0 <= i < |parts| => Trim(parts[i]))
  }

  /** The tags the page shows as badges: nothing when the field is falsy,
      otherwise the comma-separated pieces of the field, each trimmed. The
      badge markup and the escaping of each tag are not part of this
      function. */
  function TagList(tags: Option<string>): (r: seq<string>)
    ensures !Present(tags) ==> r == []
    ensures Present(tags) ==> |r| == Occurrences(tags.value, ',') + 1
  {
    if Present(tags) then TrimAll(Split(tags.value, ',')) else []
  }

  /** Every badge is a trimmed piece without a comma. */
  lemma TagsAreTrimmedPieces(tags: Option<string>)
    ensures forall i | 0 <= i < |TagList(tags)| :: IsTrimmed(TagList(tags)[i]) && ',' !in TagList(tags)[i]
  {
    if Present(tags) {
      var parts := Split(tags.value, ',');
      forall i | 0 <= i < |parts| ensures IsTrimmed(Trim(parts[i])) && ',' !in Trim(parts[i]) {
        TrimIsTrimmed(parts[i]);
      }
    }
  }

  /** Each tag between its own all-space margins. */
  function Pad(tags: seq<string>, befores: seq<string>, afters: seq<string>): (r: seq<string>)
    requires |befores| == |tags| && |afters| == |tags|
    ensures |r| == |tags|
    ensures forall i | 0 <= i < |r| :: r[i] == befores[i] + tags[i] + afters[i]
  {
    seq(|tags|, i requires 0 <= i < |tags| => befores[i] + tags[i] + afters[i])
  }

  /** The spaces `trim` removes from the front of each piece. */
  function LeadMargins(parts: seq<string>): (r: seq<string>)
    ensures |r| == |parts|
  {
    seq(|parts|, i requires 0 <= i < |parts| => parts[i][..|parts[i]| - |TrimStart(parts[i])|])
  }

  /** The spaces `trim` removes from the back of each piece. */
  function TrailMargins(parts: seq<string>): (r: seq<string>)
    ensures |r| == |parts|
  {
    seq(|parts|, i requires 0 <= i < |parts| => TrimStart(parts[i])[|Trim(parts[i])|..])
  }

  /** Every non-empty tag field is its tags, each between its own all-space
      margins, joined with commas: the shape the round trip below starts
      from. */
  lemma TagFieldShape(s: string)
    requires s != ""
    ensures var parts := Split(s, ',');
      (forall i | 0 <= i < |parts| :: AllSpace(LeadMargins(parts)[i]) && AllSpace(TrailMargins(parts)[i])) &&
      s == JoinWith(Pad(TagList(Some(s)), LeadMargins(parts), TrailMargins(parts)), ",")
  {
    var parts := Split(s, ',');
    var tags := TagList(Some(s));
    var befores := LeadMargins(parts);
    var afters := TrailMargins(parts);
    forall i | 0 <= i < |parts|
      ensures AllSpace(befores[i]) && AllSpace(afters[i])
      ensures parts[i] == befores[i] + tags[i] + afters[i]
    {
      TrimSpec(parts[i]);
    }
    assert Pad(tags, befores, afters) == parts;
    JoinSplit(s, ',');
  }

  /** Tags typed as a comma-separated list, with any spaces around each
      tag, come back as the tags: trimmed, comma-free tags, each padded
      with its own margins and joined with commas, split into exactly those
      tags. Every non-empty tag field has this shape, so this fixes the
      tag list of every field. */
  lemma TagListRoundTrip(tags: seq<string>, befores: seq<string>, afters: seq<string>)
    requires |tags| >= 1 && |befores| == |tags| && |afters| == |tags|
    requires forall i | 0 <= i < |tags| :: IsTrimmed(tags[i]) && ',' !in tags[i]
    requires forall i | 0 <= i < |tags| :: AllSpace(befores[i]) && AllSpace(afters[i])
    requires JoinWith(Pad(tags, befores, afters), ",") != ""
    ensures TagList(Some(JoinWith(Pad(tags, befores, afters), ","))) == tags
  {
    var padded := Pad(tags, befores, afters);
    forall i | 0 <= i < |padded| ensures ',' !in padded[i] {
      assert ',' !in befores[i] && ',' !in afters[i] by {
        assert !IsSpace(',');
      }
      assert padded[i] == befores[i] + tags[i] + afters[i];
    }
    SplitJoin(padded, ',');
    assert Split(JoinWith(padded, ","), ',') == padded;
    forall i | 0 <= i < |tags| ensures Trim(padded[i]) == tags[i] {
      TrimSurrounded(befores[i], tags[i], afters[i]);
    }
  }

  // ---------------------------------------------------------------------
  // Content

  /** What `JSON.parse` makes of the stored content, as far as the page
      looks at it: not JSON at all, or a JSON value whose `blocks` property
      is a non-null array (`Some`) or anything else (`None`). */
  datatype ParsedContent = NotJson | Json(blocks: Option<seq<Block>>)

  /** `post.content.replace(/\n/g, '<br>')`. */
  function LineBreaks(content: string): string
  {
    JoinWith(Split(content, '\n'), "<br>")
  }

  /** The legacy renderer: the Markdown converter when the page loaded one,
      line breaks otherwise. */
  function Legacy(content: string, markdown: Option<string -> string>): string
  {
    if markdown.Some? then markdown.value(content) else LineBreaks(content)
  }

  /** The article's inner markup. `parse` is `JSON.parse` and `markdown` the
      optional Markdown converter; both are outside the model. An empty
      block array is still a block document and renders as nothing. */
  function ContentHtml(content: string, parse: string -> ParsedContent,
                       markdown: Option<string -> string>): (html: string)
    ensures parse(content).Json? && parse(content).blocks.Some? ==>
      html == RenderBlocks(parse(content).blocks.value)
    ensures !(parse(content).Json? && parse(content).blocks.Some?) ==>
      html == Legacy(content, markdown)
  {
    match parse(content)
    case Json(Some(blocks)) => RenderBlocks(blocks)
    case _ => Legacy(content, markdown)
  }

  /** Reads line breaks back as newlines. */
  function BreaksToNewlines(s: string): string
  {
    if |s| == 0 then ""
    else if |s| >= 4 && s[..4] == "<br>" then "\n" + BreaksToNewlines(s[4..])
    else [s[0]] + BreaksToNewlines(s[1..])
  }

  lemma {:induction false} BreaksAfterPlainText(p: string, rest: string)
    requires '<' !in p
    ensures BreaksToNewlines(p + rest) == p + BreaksToNewlines(rest)
    decreases |p|
  {
    if |p| == 0 {
      assert p + rest == rest;
    } else {
      var s := p + rest;
      assert s[0] == p[0] && s[0] != '<';
      assert s[1..] == p[1..] + rest;
      assert '<' !in p[1..] by {
        forall i | 0 <= i < |p[1..]| ensures p[1..][i] != '<' {
          assert p[1..][i] == p[i + 1];
        }
      }
      BreaksAfterPlainText(p[1..], rest);
      ConcatAssoc([p[0]], p[1..], BreaksToNewlines(rest));
      assert [p[0]] + p[1..] == p;
    }
  }

  lemma BreakThenRest(rest: string)
    ensures BreaksToNewlines("<br>" + rest) == "\n" + BreaksToNewlines(rest)
  {
    var s := "<br>" + rest;
    assert s[..4] == "<br>" && s[4..] == rest;
  }

  lemma {:induction false} BreaksOfJoin(parts: seq<string>)
    requires forall i | 0 <= i < |parts| :: '<' !in parts[i]
    ensures BreaksToNewlines(JoinWith(parts, "<br>")) == JoinWith(parts, "\n")
    decreases |parts|
  {
    if |parts| == 1 {
      BreaksAfterPlainText(parts[0], "");
      assert parts[0] + "" == parts[0];
    } else if |parts| > 1 {
      var rest := JoinWith(parts[1..], "<br>");
      BreaksOfJoin(parts[1..]);
      assert parts[0] + "<br>" + rest == parts[0] + ("<br>" + rest);
      BreaksAfterPlainText(parts[0], "<br>" + rest);
      BreakThenRest(rest);
      assert JoinWith(parts, "\n") == parts[0] + "\n" + JoinWith(parts[1..], "\n");
    }
  }

  /** Without a Markdown converter, the legacy renderer leaves no newline
      in the markup, and for content without markup every line break reads
      back as the newline it replaced. */
  lemma LineBreaksRoundTrip(content: string)
    ensures '\n' !in LineBreaks(content)
    ensures '<' !in content ==> BreaksToNewlines(LineBreaks(content)) == content
  {
    var parts := Split(content, '\n');
    JoinWithout(parts, "<br>", '\n');
    if '<' !in content {
      SplitPiecesWithout(content, '\n', '<');
      BreaksOfJoin(parts);
      JoinSplit(content, '\n');
    }
  }
}
