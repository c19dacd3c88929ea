/** Profile field extraction (`scrape_professor_details`, src/scraper.py) and the
    file-name part of `process_image`. The HTML parser is abstracted away: a profile
    page is the set of selector results the scraper reads, each optional. */
module Extraction {
  import opened Wrappers
  import opened PyStr

  /** The name a profile keeps when neither strategy finds one. */
  const Unknown: string := "Unknown"

  /** Where cropped portraits are written. */
  const ImageDir: string := "data/images/"

  /** One direct child of the `.faculty-data` block: its tag name (`None` for a
      bare text node) and its `.string` (`None` when it has no single string). */
  datatype Child = Child(tag: Option<string>, text: Option<string>)

  /** The `.faculty-data` block: its whole text joined with spaces, and its children. */
  datatype FacultyData = FacultyData(fullText: string, children: seq<Child>)

  /** What the scraper reads from a fetched profile page:
      - `heading`: text of `h1.entry-title`, joined with spaces and stripped;
      - `docTitle`: stripped text of the `<title>` element;
      - `faculty`: the `.faculty-data` block;
      - `entryContent`, `article`: text of `.entry-content` and `#main article`, lines joined with newlines;
      - `mainTag`, `mainId`: stripped paragraph texts under `main` and under `#main`;
      - `bgImage`: the `data-bg-image` attribute of `.jumbotron`;
      - `thumbnail`: the `.post-thumbnail img` element, with its `src` if it has one. */
  datatype ProfilePage = ProfilePage(
    heading: Option<string>,
    docTitle: Option<string>,
    faculty: Option<FacultyData>,
    entryContent: Option<string>,
    article: Option<string>,
    mainTag: Option<seq<string>>,
    mainId: Option<seq<string>>,
    bgImage: Option<string>,
    thumbnail: Option<Option<string>>)

  /** The scraped record; `imageUrl` is `None` when a thumbnail without `src` was used. */
  datatype Details = Details(url: string, name: string, title: string, department: string,
                             bio: string, imageUrl: Option<string>)

  /** Name: the heading text; failing that (or when the heading reads "Unknown"), the
      document title up to its first `|`, stripped; failing that, "Unknown". */
  function ProfessorName(heading: Option<string>, docTitle: Option<string>): (r: string)
    ensures heading.Some? && heading.value != Unknown ==> r == heading.value
    ensures (heading.None? || heading.value == Unknown) && docTitle.None? ==> r == Unknown
    ensures (heading.None? || heading.value == Unknown) && docTitle.Some? ==>
              IsStripped(r) && '|' !in r && |r| <= |docTitle.value|
              && r == Strip(BeforeFirst(docTitle.value, "|"))
  {
    var name := heading.GetOr(Unknown);
    if name == Unknown && docTitle.Some? then
      var head := BeforeFirst(docTitle.value, "|");
      ContainsChar(head, '|');
      StripKeepsAbsent(head, '|');
      Strip(head)
    else name
  }

  /** A site title such as "Jane Doe | IESE" gives back the name in front of the
      first bar, without the surrounding spaces. */
  lemma NameFromTitle(name: string, site: string)
    requires '|' !in name
    ensures ProfessorName(None, Some(name + "|" + site)) == Strip(name)
  {
    var t := name + "|" + site;
    assert OccursAt(t, "|", |name|);
    NoEarlierOccurrence(t, "|", |name|);
    SplitAtFirst(t, "|", |name|);
    assert t[..|name|] == name;
  }

  /** A title without a bar gives the whole title, stripped. */
  lemma NameFromBarlessTitle(title: string)
    requires '|' !in title
    ensures ProfessorName(None, Some(title)) == Strip(title)
  {
    ContainsChar(title, '|');
    BeforeFirstAbsent(title, "|");
  }

  /** The title fragments among the children: skip `h1` children, stop at the first
      `ul`, keep the stripped `.string` of every other child whose string is not blank. */
  function TitleParts(children: seq<Child>): (r: seq<string>)
    ensures |r| <= |children|
    ensures forall k :: 0 <= k < |r| ==> r[k] != "" && IsStripped(r[k])
    decreases |children|
  {
    if |children| == 0 then []
    else
      var c := children[0];
      if c.tag == Some("h1") then TitleParts(children[1..])
      else if c.tag == Some("ul") then []
      else if c.text.Some? && Strip(c.text.value) != "" then [Strip(c.text.value)] + TitleParts(children[1..])
      else TitleParts(children[1..])
  }

  /** What one child contributes to the title on its own: the stripped `.string` of a
      child that is neither `h1` nor `ul` and whose string is not blank. */
  function Fragment(c: Child): Option<string>
  {
    if c.tag != Some("h1") && c.tag != Some("ul") && c.text.Some? && Strip(c.text.value) != ""
    then Some(Strip(c.text.value))
    else None
  }

  /** A single child yields exactly its fragment. */
  lemma TitleOfOne(c: Child)
    ensures TitleParts([c]) == if Fragment(c).Some? then [Fragment(c).value] else []
  {
    assert [c][1..] == [];
  }

  /** Before any `ul`, the fragments of consecutive runs of children are concatenated
      in order. */
  lemma TitlePartsConcat(a: seq<Child>, b: seq<Child>)
    requires forall c :: c in a ==> c.tag != Some("ul")
    ensures TitleParts(a + b) == TitleParts(a) + TitleParts(b)
  {
    TitleIsParts(a);
    TitleIsParts(b);
    TitleIsParts(a + b);
    PartsConcat(Fragment, a, b);
  }

  /** The fragments of the children up to the first `ul`, with `frag` deciding what
      each contributes. */
  function PartsWith(frag: Child -> Option<string>, children: seq<Child>): seq<string>
    decreases |children|
  {
    if |children| == 0 || children[0].tag == Some("ul") then []
    else OptionList(frag(children[0])) + PartsWith(frag, children[1..])
  }

  /** The title fragments are `PartsWith` the fragment of each child. */
  lemma {:induction false} TitleIsParts(children: seq<Child>)
    ensures TitleParts(children) == PartsWith(Fragment, children)
    decreases |children|
  {
    if |children| > 0 && children[0].tag != Some("ul") {
      TitleStep(children);
      TitleIsParts(children[1..]);
    }
  }

  /** Before any `ul`, `PartsWith` distributes over concatenation. */
  lemma {:induction false} PartsConcat(frag: Child -> Option<string>, a: seq<Child>, b: seq<Child>)
    requires forall c :: c in a ==> c.tag != Some("ul")
    ensures PartsWith(frag, a + b) == PartsWith(frag, a) + PartsWith(frag, b)
    decreases |a|
  {
    if |a| == 0 {
      assert a + b == b;
    } else {
      assert a[0] in a;
      assert (a + b)[0] == a[0] && (a + b)[1..] == a[1..] + b;
      PartsConcat(frag, a[1..], b);
    }
  }

  /** A first child that is not a `ul` contributes its fragment, and the rest follows. */
  lemma TitleStep(children: seq<Child>)
    requires |children| > 0 && children[0].tag != Some("ul")
    ensures TitleParts(children) == OptionList(Fragment(children[0])) + TitleParts(children[1..])
  {
  }

  /** The list holding an optional value, or the empty list. */
  function OptionList(o: Option<string>): seq<string>
  {
    if o.Some? then [o.value] else []
  }

  /** Nothing from the first `ul` on contributes to the title. */
  lemma {:induction false} TitleStopsAtList(pre: seq<Child>, list: Child, post: seq<Child>)
    requires list.tag == Some("ul")
    ensures TitleParts(pre + [list] + post) == TitleParts(pre)
    decreases |pre|
  {
    if |pre| > 0 {
      assert (pre + [list] + post)[1..] == pre[1..] + [list] + post;
      TitleStopsAtList(pre[1..], list, post);
    } else {
      assert pre + [list] + post == [list] + post;
    }
  }

  /** An `h1` child contributes nothing, wherever it stands. */
  lemma {:induction false} TitleSkipsHeading(pre: seq<Child>, heading: Child, post: seq<Child>)
    requires heading.tag == Some("h1")
    ensures TitleParts(pre + [heading] + post) == TitleParts(pre + post)
    decreases |pre|
  {
    if |pre| > 0 {
      assert (pre + [heading] + post)[1..] == pre[1..] + [heading] + post;
      assert (pre + post)[1..] == pre[1..] + post;
      TitleSkipsHeading(pre[1..], heading, post);
    } else {
      assert (pre + [heading] + post)[1..] == post;
      assert pre + post == post;
    }
  }

  /** Title: when the block's text mentions the name, the title fragments joined with
      single spaces; otherwise empty. */
  function ProfessorTitle(name: string, faculty: Option<FacultyData>): (r: string)
    ensures faculty.None? ==> r == ""
    ensures r != "" ==> faculty.Some? && Contains(faculty.value.fullText, name)
    ensures IsStripped(r)
    ensures faculty.Some? && Contains(faculty.value.fullText, name) ==>
              r == Join(TitleParts(faculty.value.children), " ")
    ensures (faculty.Some? && Contains(faculty.value.fullText, name)
             && |TitleParts(faculty.value.children)| > 0) ==> r != ""
  {
    if faculty.Some? && Contains(faculty.value.fullText, name) then
      var parts := TitleParts(faculty.value.children);
      if |parts| > 0 then
        JoinEnds(parts, " ");
        Join(parts, " ")
      else ""
    else ""
  }

  /** Department: what follows the last `" of "` cut in the title; failing that, the
      last `" in "` cut; failing both, empty. */
  function Department(title: string): (r: string)
    ensures |r| <= |title| && r == title[|title| - |r|..]
    ensures Contains(title, " of ") ==>
              !Contains(r, " of ") && OccursAt(title, " of ", |title| - |r| - 4)
    ensures !Contains(title, " of ") && Contains(title, " in ") ==>
              !Contains(r, " in ") && OccursAt(title, " in ", |title| - |r| - 4)
    ensures !Contains(title, " of ") && !Contains(title, " in ") ==> r == ""
  {
    var ofSep, inSep := " of ", " in ";
    assert |ofSep| == 4 && |inSep| == 4;
    if Contains(title, ofSep) then AfterLast(title, ofSep)
    else if Contains(title, inSep) then AfterLast(title, inSep)
    else ""
  }

  /** "Professor of Marketing" and the like: with a single `" of "` and nothing
      overlapping it, the department is exactly the text after it. */
  lemma DepartmentAfterOf(role: string, dept: string)
    requires forall j :: 0 <= j < |role| ==> !OccursAt(role + " of " + dept, " of ", j)
    requires !Contains(dept, " of ")
    ensures Department(role + " of " + dept) == dept
  {
    var t := role + " of " + dept;
    assert OccursAt(t, " of ", |role|);
    SplitAtFirst(t, " of ", |role|);
    assert t[|role| + 4..] == dept;
    SplitAbsent(dept, " of ");
  }

  /** "Professor in Finance": without any `" of "`, the single `" in "` decides. */
  lemma DepartmentAfterIn(role: string, dept: string)
    requires !Contains(role + " in " + dept, " of ")
    requires forall j :: 0 <= j < |role| ==> !OccursAt(role + " in " + dept, " in ", j)
    requires !Contains(dept, " in ")
    ensures Department(role + " in " + dept) == dept
  {
    var t := role + " in " + dept;
    assert OccursAt(t, " in ", |role|);
    SplitAtFirst(t, " in ", |role|);
    assert t[|role| + 4..] == dept;
    SplitAbsent(dept, " in ");
  }

  /** Bio: the entry content if non-empty, else the article text if non-empty, else
      the paragraphs of the main area joined with newlines, else empty. */
  function Bio(entry: Option<string>, article: Option<string>, mainArea: Option<seq<string>>): (r: string)
    ensures entry.Some? && entry.value != "" ==> r == entry.value
    ensures r != "" ==> r == entry.GetOr("") || r == article.GetOr("") || (mainArea.Some? && r == Join(mainArea.value, "\n"))
    ensures r == "" <==>
              && entry.GetOr("") == ""
              && article.GetOr("") == ""
              && (mainArea.None? || |mainArea.value| == 0 || mainArea.value == [""])
    ensures entry.GetOr("") == "" && article.GetOr("") != "" ==> r == article.value
    ensures entry.GetOr("") == "" && article.GetOr("") == "" ==>
              r == if mainArea.Some? then Join(mainArea.value, "\n") else ""
  {
    JoinEmpty(mainArea.GetOr([]), "\n");
    var fromEntry := entry.GetOr("");
    var fromArticle := if fromEntry == "" && article.Some? then article.value else fromEntry;
    if fromArticle == "" && mainArea.Some? then Join(mainArea.value, "\n") else fromArticle
  }

  /** `soup.select_one("main") or soup.select_one("#main")`: a found element is always truthy. */
  function MainArea(page: ProfilePage): (r: Option<seq<string>>)
    ensures page.mainTag.Some? ==> r == page.mainTag
    ensures page.mainTag.None? ==> r == page.mainId
  {
    if page.mainTag.Some? then page.mainTag else page.mainId
  }

  /** Python's `bg.split("url(")[1].split(")")[0]` when `"url(" in bg`, else `bg`. */
  function UnwrapBackground(bg: string): (r: string)
    ensures Contains(bg, "url(") ==> ')' !in r && !Contains(r, "url(") && |r| <= |bg|
    ensures !Contains(bg, "url(") ==> r == bg
  {
    if Contains(bg, "url(") then
      var inner := AfterFirst(bg, "url(");
      var r := BeforeFirst(inner, ")");
      ContainsChar(r, ')');
      PrefixAvoids(inner, "url(", |r|);
      r
    else bg
  }

  /** The `url(...)` wrapper is undone for a URL without parentheses. */
  lemma UnwrapRoundTrip(u: string)
    requires '(' !in u && ')' !in u
    ensures UnwrapBackground("url(" + u + ")") == u
  {
    var bg := "url(" + u + ")";
    OpenedUrl(u);
    assert Contains(bg, "url(");
    ClosedUrl(u);
  }

  /** After the opening `url(` comes the rest of the value, closing bracket included. */
  lemma OpenedUrl(u: string)
    requires '(' !in u
    ensures Contains("url(" + u + ")", "url(")
    ensures AfterFirst("url(" + u + ")", "url(") == u + ")"
  {
    AfterLeadingThen("url(", u, ")", 3);
  }

  /** The text before the closing bracket is the URL itself. */
  lemma ClosedUrl(u: string)
    requires ')' !in u
    ensures BeforeFirst(u + ")", ")") == u
  {
    var tail := u + ")";
    assert OccursAt(tail, ")", |u|);
    NoEarlierOccurrence(tail, ")", |u|);
    SplitAtFirst(tail, ")", |u|);
    assert tail[..|u|] == u;
  }

  /** Only the first `url(` counts: in `pre + "url(" + u + ")" + post`, where `pre`
      has no `url(` and `u` has neither `url(` nor a closing bracket, the unwrapped
      value is `u`, whatever `post` holds. */
  lemma UnwrapFirst(pre: string, u: string, post: string)
    requires !Contains(pre, "url(") && !Contains(u, "url(") && ')' !in u
    ensures UnwrapBackground(pre + "url(" + u + ")" + post) == u
  {
    var rest := u + ")" + post;
    assert pre + "url(" + u + ")" + post == pre + "url(" + rest;
    OpenAt(pre, rest);
    CloseAfter(u, post);
  }

  /** The first `url(` of `pre + "url(" + rest` is the one after `pre`. */
  lemma OpenAt(pre: string, rest: string)
    requires !Contains(pre, "url(")
    ensures Contains(pre + "url(" + rest, "url(")
    ensures AfterFirst(pre + "url(" + rest, "url(") == BeforeFirst(rest, "url(")
  {
    var open := "url(";
    var t := pre + open + rest;
    var i := |pre|;
    assert t[i..i + 4] == open;
    forall j | 0 <= j < i
      ensures !OccursAt(t, open, j)
    {
      if j + 4 <= i {
        assert t[j..j + 4] == pre[j..j + 4];
        assert !OccursAt(pre, open, j);
      } else {
        var d := i - j;
        assert t[j + d] == 'u';
        assert open[d] != 'u';
        assert t[j..j + 4][d] == t[j + d];
      }
    }
    SplitAtFirst(t, open, i);
    assert t[i + 4..] == rest;
  }

  /** Cutting `u + ")" + post` at its first `url(` and then at its first `)` leaves `u`. */
  lemma CloseAfter(u: string, post: string)
    requires !Contains(u, "url(") && ')' !in u
    ensures BeforeFirst(BeforeFirst(u + ")" + post, "url("), ")") == u
  {
    var n := |u|;
    var head := BeforeFirst(u + ")" + post, "url(");
    KeepsClose(u, post);
    assert OccursAt(head, ")", n);
    NoEarlierOccurrence(head, ")", n);
    SplitAtFirst(head, ")", n);
  }

  /** No `url(` starts within `u + ")"`, so the first cut keeps `u` and the `)`. */
  lemma KeepsClose(u: string, post: string)
    requires !Contains(u, "url(") && ')' !in u
    ensures var head := BeforeFirst(u + ")" + post, "url(");
            |head| > |u| && head[..|u|] == u && head[|u|] == ')'
  {
    var open := "url(";
    var rest := u + ")" + post;
    var n := |u|;
    forall j | 0 <= j <= n
      ensures !OccursAt(rest, open, j)
    {
      if j + 4 <= n {
        assert rest[j..j + 4] == u[j..j + 4];
        assert !OccursAt(u, open, j);
      } else if j + 4 <= |rest| {
        var d := n - j;
        assert rest[j + d] == ')';
        assert open[d] != ')';
        assert rest[j..j + 4][d] == rest[j + d];
      }
    }
    var head := BeforeFirst(rest, open);
    assert |head| > n;
  }

  /** The image reference before downloading: the unwrapped `data-bg-image` if it
      gives a non-empty value; otherwise the thumbnail's `src` if there is a thumbnail
      (`None` when it has no `src`); otherwise the empty string. */
  function ImageRef(bg: Option<string>, thumbnail: Option<Option<string>>): (r: Option<string>)
    ensures bg.Some? && UnwrapBackground(bg.value) != "" ==> r == Some(UnwrapBackground(bg.value))
    ensures r.None? ==> thumbnail == Some(None)
    ensures r == Some("") ==> thumbnail.None? || thumbnail == Some(Some(""))
    ensures r.Some? && r.value != "" ==>
              (bg.Some? && r.value == UnwrapBackground(bg.value)) || thumbnail == Some(r)
  {
    var fromBg := if bg.Some? && bg.value != "" then UnwrapBackground(bg.value) else "";
    if fromBg != "" then Some(fromBg)
    else if thumbnail.Some? then thumbnail.value
    else Some("")
  }

  /** A `url(...)` background wins over any thumbnail. */
  lemma BackgroundWins(u: string, thumbnail: Option<Option<string>>)
    requires u != "" && '(' !in u && ')' !in u
    ensures ImageRef(Some("url(" + u + ")"), thumbnail) == Some(u)
  {
    UnwrapRoundTrip(u);
  }

  /** The characters `[a-zA-Z0-9]` matches. */
  predicate IsAsciiAlnum(c: char)
  {
    'a' <= c <= 'z' || 'A' <= c <= 'Z' || '0' <= c <= '9'
  }

  /** `re.sub(r'[^a-zA-Z0-9]', '_', name)`: every other character becomes `_`. */
  function SafeName(name: string): (r: string)
    ensures |r| == |name|
    ensures forall k :: 0 <= k < |r| ==> IsAsciiAlnum(r[k]) || r[k] == '_'
    ensures forall k :: 0 <= k < |r| ==> (IsAsciiAlnum(name[k]) ==> r[k] == name[k])
    ensures forall k :: 0 <= k < |r| ==> (!IsAsciiAlnum(name[k]) ==> r[k] == '_')
    decreases |name|
  {
    if |name| == 0 then ""
    else [if IsAsciiAlnum(name[0]) then name[0] else '_'] + SafeName(name[1..])
  }

  /** A safe name is its own safe name. */
  lemma SafeNameIdempotent(name: string)
    ensures SafeName(SafeName(name)) == SafeName(name)
  {
  }

  /** Different names can share a file: names that differ in one character that is
      not an ASCII letter or digit (say "Jean-Luc" and "Jean Luc") get the same safe name. */
  lemma SafeNameCollision(pre: string, c: char, d: char, post: string)
    requires !IsAsciiAlnum(c) && !IsAsciiAlnum(d)
    ensures SafeName(pre + [c] + post) == SafeName(pre + [d] + post)
  {
    var a, b := pre + [c] + post, pre + [d] + post;
    forall k | 0 <= k < |a|
      ensures a[k] == b[k] || (!IsAsciiAlnum(a[k]) && !IsAsciiAlnum(b[k]))
    {
      if k < |pre| {
        assert a[k] == pre[k] == b[k];
      } else if k > |pre| {
        assert a[k] == post[k - |pre| - 1] == b[k];
      }
    }
    SafeNameAgree(a, b);
  }

  /** Names that agree wherever either has an ASCII letter or digit get the same safe name. */
  lemma SafeNameAgree(a: string, b: string)
    requires |a| == |b|
    requires forall k :: 0 <= k < |a| ==> a[k] == b[k] || (!IsAsciiAlnum(a[k]) && !IsAsciiAlnum(b[k]))
    ensures SafeName(a) == SafeName(b)
  {
    var ra, rb := SafeName(a), SafeName(b);
    assert forall k :: 0 <= k < |ra| ==> ra[k] == rb[k];
  }

  /** The path `process_image` saves to and returns. */
  function ImagePath(name: string): (r: string)
    ensures StartsWith(r, ImageDir) && |r| == |ImageDir| + |name| + 4
    ensures r[|r| - 4..] == ".jpg"
    ensures '\\' !in r
    ensures forall k :: |ImageDir| <= k < |r| - 4 ==> r[k] != '/'
  {
    ImageDir + SafeName(name) + ".jpg"
  }

  /** Two professors share an image file exactly when their safe names agree. */
  lemma ImagePathSameFile(a: string, b: string)
    ensures ImagePath(a) == ImagePath(b) <==> SafeName(a) == SafeName(b)
  {
    if ImagePath(a) == ImagePath(b) {
      var pa := ImagePath(a);
      assert SafeName(a) == pa[|ImageDir|..|pa| - 4];
      assert SafeName(b) == ImagePath(b)[|ImageDir|..|pa| - 4];
    }
  }

  /** A path to a JPEG file directly inside the image folder. */
  predicate IsLocalImage(p: string)
  {
    StartsWith(p, ImageDir) && |p| >= |ImageDir| + 4 && p[|p| - 4..] == ".jpg"
      && forall k :: |ImageDir| <= k < |p| - 4 ==> p[k] != '/'
  }

  /** A reference that is present and non-empty (`if data["image_url"]`). */
  predicate IsRef(o: Option<string>)
  {
    o.Some? && o.value != ""
  }

  /** `process_image`: when the download, crop and save succeed (`saved`), a JPEG in
      the image folder whose file name is the professor's safe name; else `None`. */
  function ProcessImage(name: string, saved: bool): (r: Option<string>)
    ensures r.Some? <==> saved
    ensures r.Some? ==> IsLocalImage(r.value)
    ensures r.Some? ==> r.value[|ImageDir|..|r.value| - 4] == SafeName(name)
  {
    if saved then Some(ImagePath(name)) else None
  }

  /** The image reference kept in the record: either the reference found on the page
      or the professor's saved local file. A found reference is never lost, and once
      the file is saved it is the local file that is kept. */
  function StoredImage(found: Option<string>, name: string, saved: bool): (r: Option<string>)
    ensures r == found || (saved && r == Some(ImagePath(name)))
    ensures IsRef(found) ==> IsRef(r)
    ensures IsRef(found) && saved ==> r.Some? && IsLocalImage(r.value)
    ensures IsRef(found) && saved ==> r == Some(ImagePath(name))
    ensures !IsRef(found) || !saved ==> r == found
  {
    if found.Some? && found.value != "" then
      match ProcessImage(name, saved)
      case Some(path) => Some(path)
      case None => found
    else found
  }

  /** `scrape_professor_details`: `None` when the page cannot be fetched; otherwise the
      extracted record. */
  function ScrapeDetails(url: string, page: Option<ProfilePage>, saved: bool): (r: Option<Details>)
    ensures r.None? <==> page.None?
    ensures r.Some? ==> r.value.url == url && IsStripped(r.value.title)
    ensures r.Some? ==> |r.value.department| <= |r.value.title|
    ensures r.Some? && page.value.faculty.None? ==> r.value.title == "" && r.value.department == ""
    ensures r.Some? ==>
              r.value.imageUrl == StoredImage(ImageRef(page.value.bgImage, page.value.thumbnail), r.value.name, saved)
    ensures r.Some? ==>
              var p := page.value;
              && r.value.name == ProfessorName(p.heading, p.docTitle)
              && r.value.title == ProfessorTitle(r.value.name, p.faculty)
              && r.value.department == (if p.faculty.Some? then Department(r.value.title) else "")
              && r.value.bio == Bio(p.entryContent, p.article, MainArea(p))
  {
    match page
    case None => None
    case Some(p) =>
      var name := ProfessorName(p.heading, p.docTitle);
      var title := ProfessorTitle(name, p.faculty);
      var department := if p.faculty.Some? then Department(title) else "";
      var bio := Bio(p.entryContent, p.article, MainArea(p));
      var image := StoredImage(ImageRef(p.bgImage, p.thumbnail), name, saved);
      Some(Details(url, name, title, department, bio, image))
  }

  /** Storing again what was stored changes nothing: a second pass keeps the local file. */
  lemma StoredImageSettles(found: Option<string>, name: string, saved: bool)
    ensures StoredImage(StoredImage(found, name, saved), name, saved) == StoredImage(found, name, saved)
  {
  }

  /** A stored image reference is the professor's own saved file when a usable
      reference was found and saving succeeded, and the found reference otherwise. */
  lemma ImageIsLocalOrFound(url: string, p: ProfilePage, saved: bool)
    ensures var d := ScrapeDetails(url, Some(p), saved).value;
            d.imageUrl == Some(ImagePath(d.name)) || d.imageUrl == ImageRef(p.bgImage, p.thumbnail)
    ensures var d := ScrapeDetails(url, Some(p), saved).value;
            IsRef(ImageRef(p.bgImage, p.thumbnail)) && saved ==> d.imageUrl == Some(ImagePath(d.name))
    ensures var d := ScrapeDetails(url, Some(p), saved).value;
            !IsRef(ImageRef(p.bgImage, p.thumbnail)) || !saved ==> d.imageUrl == ImageRef(p.bgImage, p.thumbnail)
  {
  }

  /** Python's `split(" of ")` cuts left to right without overlap, so in
      "Professor of of Marketing" the department keeps the second "of" rather than
      being the text after the last " of ". */
  lemma DepartmentOverlap()
    ensures Department("Professor" + " of " + "of Marketing") == "of Marketing"
  {
    var role, dept := "Professor", "of Marketing";
    var t := role + " of " + dept;
    assert t[..|role|] == role;
    NoEarlierOccurrence(t, " of ", |role|);
    forall j | 0 <= j <= |dept| - 4
      ensures !OccursAt(dept, " of ", j)
    {
      assert dept[j..j + 4][0] == dept[j] && dept[j..j + 4][1] == dept[j + 1];
    }
    DepartmentAfterOf(role, dept);
  }
}
