/**
  Page data extraction (page_analyzer/parser.py).

  `get_data` reads three things from a parsed HTML page: the text of the
  first `<h1>`, the text of `<title>`, and the `content` attribute of the
  first `<meta name="description">`. The HTML parser is not modelled: a
  page is given as what the parser would find in it.
 */
module Parser {
  import opened Wrappers

  /** A `<meta name="description">` tag; its `content` attribute may be missing. */
  datatype MetaTag = MetaTag(content: Option<string>)

  /**
    A parsed page: the text of its first `<h1>` and of its `<title>` when
    the page has them, and its first description meta tag when it has one.
   */
  datatype Document = Document(h1: Option<string>, title: Option<string>, description: Option<MetaTag>)

  /**
    The dictionary `get_data` returns. `h1` and `title` are always strings;
    `description` is `None` exactly when the meta tag exists but has no
    `content` (`Tag.get` returns `None` then).
   */
  datatype PageData = PageData(statusCode: nat, h1: string, title: string, description: Option<string>)

  /** Text of an optional element, or `''` when the page has none. */
  function TextOrBlank(e: Option<string>): (t: string)
    ensures e.Some? ==> t == e.value
    ensures e.None? ==> t == ""
  {
    if e.Some? then e.value else ""
  }

  /**
    `get_data`: the status code of the response and the three extracted
    fields. A missing element gives `''`. Parsed tags are always truthy,
    so a present meta tag yields its `content`, which may be `None`.
   */
  function GetData(statusCode: nat, doc: Document): (d: PageData)
    ensures d.statusCode == statusCode
    ensures d.h1 == TextOrBlank(doc.h1) && d.title == TextOrBlank(doc.title)
    ensures d.description.None? <==> doc.description == Some(MetaTag(None))
    ensures d.description.Some? ==>
      if doc.description.Some? then doc.description.value.content == d.description
      else d.description.value == ""
  {
    var description :=
      if doc.description.Some? then doc.description.value.content else Some("");
    PageData(statusCode, TextOrBlank(doc.h1), TextOrBlank(doc.title), description)
  }
}
