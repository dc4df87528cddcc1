/** The post page's serialiser for block documents (`renderEditorJsBlocks`):
    each block becomes an HTML fragment and the fragments are concatenated
    in order. Text fields are inserted as they are (they are inline markup);
    only code is escaped. */
module Render {
  import opened Common
  import opened JsText

  /** A block of the block editor's document, by its `type`; `Unknown`
      stands for every other type. */
  datatype Block =
    | Header(level: int, text: string)
    | Paragraph(text: string)
    | ListBlock(style: string, items: seq<string>)
    | Image(url: string, caption: Option<string>)
    | Quote(text: string, caption: Option<string>)
    | Code(language: Option<string>, code: string)
    | Delimiter
    | Unknown(kind: string)

  // ---------------------------------------------------------------------
  // Escaping

  /** How the text-content serialiser writes one character. */
  function EscapeChar(c: char): string
  {
    if c == '&' then "&amp;"
    else if c == '<' then "&lt;"
    else if c == '>' then "&gt;"
    else if c == '\U{00A0}' then "&nbsp;"
    else [c]
  }

  /** `escapeHtml`: the markup a text node with this content serialises to. */
  function EscapeHtml(s: string): (r: string)
    ensures '<' !in r && '>' !in r
  {
    if |s| == 0 then "" else EscapeChar(s[0]) + EscapeHtml(s[1..])
  }

  /** Reads the four entities back. */
  function Unescape(s: string): string
  {
    if |s| == 0 then ""
    else if |s| >= 5 && s[..5] == "&amp;" then "&" + Unescape(s[5..])
    else if |s| >= 4 && s[..4] == "&lt;" then "<" + Unescape(s[4..])
    else if |s| >= 4 && s[..4] == "&gt;" then ">" + Unescape(s[4..])
    else if |s| >= 6 && s[..6] == "&nbsp;" then "\U{00A0}" + Unescape(s[6..])
    else [s[0]] + Unescape(s[1..])
  }

  /** Each of the four entities reads back as the character it stands for. */
  lemma UnescapeEntity(e: string, c: char, rest: string)
    requires || (e == "&amp;" && c == '&') || (e == "&lt;" && c == '<')
             || (e == "&gt;" && c == '>') || (e == "&nbsp;" && c == '\U{00A0}')
    ensures Unescape(e + rest) == [c] + Unescape(rest)
  {
    var s := e + rest;
    assert s[..|e|] == e && s[|e|..] == rest;
    if e == "&lt;" {
      assert s[1] == 'l';
    } else if e == "&gt;" {
      assert s[1] == 'g';
    } else if e == "&nbsp;" {
      assert s[1] == 'n';
    }
  }

  lemma UnescapePlain(c: char, rest: string)
    requires c != '&'
    ensures Unescape([c] + rest) == [c] + Unescape(rest)
  {
    var s := [c] + rest;
    assert s[0] == c && s[1..] == rest;
  }

  lemma UnescapeStep(c: char, rest: string)
    ensures Unescape(EscapeChar(c) + rest) == [c] + Unescape(rest)
  {
    if c == '&' {
      UnescapeEntity("&amp;", c, rest);
    } else if c == '<' {
      UnescapeEntity("&lt;", c, rest);
    } else if c == '>' {
      UnescapeEntity("&gt;", c, rest);
    } else if c == '\U{00A0}' {
      UnescapeEntity("&nbsp;", c, rest);
    } else {
      UnescapePlain(c, rest);
    }
  }

  /** Escaping loses nothing: the escaped code reads back as the code. */
  lemma {:induction false} UnescapeEscape(s: string)
    ensures Unescape(EscapeHtml(s)) == s
    decreases |s|
  {
    if |s| > 0 {
      UnescapeEscape(s[1..]);
      UnescapeStep(s[0], EscapeHtml(s[1..]));
      assert [s[0]] + s[1..] == s;
    }
  }

  // ---------------------------------------------------------------------
  // Templates

  /** `<tag>inner</tag>`. */
  function Element(tag: string, inner: string): string
  {
    "<" + tag + ">" + inner + "</" + tag + ">"
  }

  /** The inner text of `<tag>...</tag>`, when `html` has that shape. */
  function Unwrap(tag: string, html: string): Option<string>
  {
    var open := "<" + tag + ">";
    var close := "</" + tag + ">";
    if |html| >= |open| + |close| && html[..|open|] == open && html[|html| - |close|..] == close
    then Some(html[|open|..|html| - |close|])
    else None
  }

  lemma UnwrapElement(tag: string, inner: string)
    ensures Unwrap(tag, Element(tag, inner)) == Some(inner)
  {
    var open := "<" + tag + ">";
    var close := "</" + tag + ">";
    var html := Element(tag, inner);
    assert html == open + inner + close;
    assert html[..|open|] == open;
    assert html[|html| - |close|..] == close;
    assert html[|open|..|html| - |close|] == inner;
  }

  function Indent(n: nat): string
  {
    seq(n, _ => ' ')
  }

  /** A template line: a line break, then indentation, then the text. */
  function Line(indent: nat, text: string): string
  {
    "\n" + Indent(indent) + text
  }

  /** The tail of a multi-line template: line break and the indentation of
      the closing backtick. */
  const TemplateEnd: string := "\n" + Indent(8)

  /** `caption ? <tag>caption</tag> : ''`. */
  function CaptionSlot(tag: string, caption: Option<string>): string
  {
    if Present(caption) then Element(tag, caption.value) else ""
  }

  function ListTag(style: string): string
  {
    if style == "ordered" then "ol" else "ul"
  }

  /** `items.map(item => <li>item</li>).join('')`. */
  function ListItems(items: seq<string>): string
  {
    if |items| == 0 then "" else Element("li", items[0]) + ListItems(items[1..])
  }

  function CodeLanguage(language: Option<string>): string
  {
    OrElse(language, "plaintext")
  }

  const DelimiterHtml: string := "<hr class=\"post-divider\">"

  function RenderBlock(b: Block): string
  {
    match b
    case Header(level, text) => Element("h" + IntToString(level), text)
    case Paragraph(text) => Element("p", text)
    case ListBlock(style, items) => Element(ListTag(style), ListItems(items))
    case Image(url, caption) =>
      Line(10, "<figure class=\"post-image\">") +
      Line(12, "<img src=\"" + url + "\" alt=\"" + OrElse(caption, "") + "\">") +
      Line(12, CaptionSlot("figcaption", caption)) +
      Line(10, "</figure>") + TemplateEnd
    case Quote(text, caption) =>
      Line(10, "<blockquote class=\"post-quote\">") +
      Line(12, Element("p", text)) +
      Line(12, CaptionSlot("cite", caption)) +
      Line(10, "</blockquote>") + TemplateEnd
    case Code(language, code) =>
      Line(10, "<pre><code class=\"language-" + CodeLanguage(language) + "\">" + EscapeHtml(code) + "</code></pre>") +
      TemplateEnd
    case Delimiter => DelimiterHtml
    case Unknown(_) => ""
  }

  /** `renderEditorJsBlocks`: `blocks.map(render).join('')`. */
  function RenderBlocks(blocks: seq<Block>): string
  {
    if |blocks| == 0 then "" else RenderBlock(blocks[0]) + RenderBlocks(blocks[1..])
  }

  // ---------------------------------------------------------------------
  // Properties

  /** Rendering a document split in two renders the parts and concatenates
      them. */
  lemma {:induction false} RenderBlocksConcat(a: seq<Block>, b: seq<Block>)
    ensures RenderBlocks(a + b) == RenderBlocks(a) + RenderBlocks(b)
    decreases |a|
  {
    if |a| == 0 {
      assert a + b == b;
    } else {
      assert (a + b)[1..] == a[1..] + b;
      RenderBlocksConcat(a[1..], b);
      ConcatAssoc(RenderBlock(a[0]), RenderBlocks(a[1..]), RenderBlocks(b));
    }
  }

  /** The blocks of a known type. */
  function KnownBlocks(blocks: seq<Block>): (r: seq<Block>)
    ensures forall i | 0 <= i < |r| :: !r[i].Unknown?
  {
    if |blocks| == 0 then []
    else if blocks[0].Unknown? then KnownBlocks(blocks[1..])
    else [blocks[0]] + KnownBlocks(blocks[1..])
  }

  /** Blocks of an unknown type contribute nothing: the document renders as
      its known blocks alone. */
  lemma {:induction false} UnknownBlocksVanish(blocks: seq<Block>)
    ensures RenderBlocks(blocks) == RenderBlocks(KnownBlocks(blocks))
    decreases |blocks|
  {
    if |blocks| > 0 {
      UnknownBlocksVanish(blocks[1..]);
      if !blocks[0].Unknown? {
        var k := [blocks[0]] + KnownBlocks(blocks[1..]);
        assert k[0] == blocks[0] && k[1..] == KnownBlocks(blocks[1..]);
      } else {
        assert RenderBlock(blocks[0]) == "";
        assert RenderBlocks(blocks) == "" + RenderBlocks(blocks[1..]);
      }
    }
  }

  /** Item markup is made item by item, in order. */
  lemma {:induction false} ListItemsConcat(a: seq<string>, b: seq<string>)
    ensures ListItems(a + b) == ListItems(a) + ListItems(b)
    decreases |a|
  {
    if |a| == 0 {
      assert a + b == b;
    } else {
      assert (a + b)[1..] == a[1..] + b;
      ListItemsConcat(a[1..], b);
      ConcatAssoc(Element("li", a[0]), ListItems(a[1..]), ListItems(b));
    }
  }

  /** A list is an `ol` exactly when its style is "ordered", otherwise a
      `ul`, and holds one `li` per item in the items' order. */
  lemma ListShape(style: string, items: seq<string>, more: string)
    ensures Unwrap(ListTag(style), RenderBlock(ListBlock(style, items))) == Some(ListItems(items))
    ensures ListTag(style) == "ol" <==> style == "ordered"
    ensures ListTag(style) == "ul" <==> style != "ordered"
    ensures ListItems(items + [more]) == ListItems(items) + Element("li", more)
  {
    UnwrapElement(ListTag(style), ListItems(items));
    ListItemsConcat(items, [more]);
    assert ListItems([more]) == Element("li", more) + "";
  }

  /** A header opens and closes with the same `h` tag, whose number reads
      back as the block's level. */
  lemma HeaderShape(level: int, text: string)
    ensures var tag := "h" + IntToString(level);
      Unwrap(tag, RenderBlock(Header(level, text))) == Some(text) &&
      tag[0] == 'h' && ParseInt(tag[1..]) == Some(level)
  {
    var tag := "h" + IntToString(level);
    UnwrapElement(tag, text);
    assert tag[1..] == IntToString(level);
    ParseIntOfIntToString(level);
  }

  /** A caption element is emitted exactly when the caption is a non-empty
      string, and then wraps it. */
  lemma CaptionSlotIff(tag: string, caption: Option<string>)
    ensures CaptionSlot(tag, caption) != "" <==> Present(caption)
    ensures Present(caption) ==> Unwrap(tag, CaptionSlot(tag, caption)) == Some(caption.value)
  {
    if Present(caption) {
      UnwrapElement(tag, caption.value);
    }
  }

  /** A code block's language class falls back to `plaintext`, and its code
      is escaped so that it carries no markup and reads back unchanged. */
  lemma CodeShape(language: Option<string>, code: string)
    ensures CodeLanguage(language) == (if Present(language) then language.value else "plaintext")
    ensures '<' !in EscapeHtml(code) && Unescape(EscapeHtml(code)) == code
    ensures RenderBlock(Code(language, code)) ==
      Line(10, "<pre><code class=\"language-" + CodeLanguage(language) + "\">" + EscapeHtml(code) + "</code></pre>") + TemplateEnd
  {
    UnescapeEscape(code);
  }

  /** A delimiter is the same rule whatever surrounds it, and an empty
      document renders as the empty string. */
  lemma FixedRenderings(kind: string)
    ensures RenderBlock(Delimiter) == "<hr class=\"post-divider\">"
    ensures RenderBlock(Unknown(kind)) == ""
    ensures RenderBlocks([]) == ""
  {
  }
}
