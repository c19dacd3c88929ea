/** Saving a scraped profile (`save_professor`, src/scraper.py). A known URL can only
    have its image reference refreshed. A new URL is inserted, and when it has a bio,
    the industries and sectors the analyzer names are fetched or created by name and
    linked. Any exception rolls the session back, which leaves the store as it was. */
module Upsert {
  import opened Wrappers
  import opened Json
  import opened Analyzer
  import opened Extraction
  import opened Database

  /** The scraped record a stored row reads back as: a NULL text column reads as "". */
  function RowDetails(p: Professor): Details
  {
    Details(p.url, p.name, p.title.GetOr(""), p.department.GetOr(""), p.bio.GetOr(""), p.imageUrl)
  }

  /** The row inserted for a new profile: filed under the profile's URL, with every
      text column filled, and reading back as the scraped record, so nothing is lost. */
  function NewRow(d: Details): (p: Professor)
    ensures p.url == d.url
    ensures p.title.Some? && p.department.Some? && p.bio.Some?
    ensures RowDetails(p) == d
  {
    Professor(d.name, d.url, Some(d.title), Some(d.department), Some(d.bio), d.imageUrl)
  }

  /** The names found by iterating a list: `None` when an element is not a string
      (which cannot be stored as a tag name). */
  function ListNames(items: seq<Json>): (r: Option<set<string>>)
    ensures r.Some? <==> forall k :: 0 <= k < |items| ==> items[k].JStr?
    ensures r.Some? ==> forall n :: n in r.value <==> JStr(n) in items
    decreases |items|
  {
    if |items| == 0 then Some({})
    else match items[0]
      case JStr(n) =>
        (match ListNames(items[1..])
         case Some(rest) =>
           assert forall x :: x in items <==> x == items[0] || x in items[1..];
           Some({n} + rest)
         case None => None)
      case _ => None
  }

  /** The tag names a `for name in value` loop visits: list elements, the characters
      of a string, the keys of an object; `None` when iteration raises. */
  function TagNames(v: Json): (r: Option<set<string>>)
    ensures v.JArr? ==> r == ListNames(v.items)
    ensures v.JStr? ==> r.Some? && forall n :: n in r.value <==> |n| == 1 && n[0] in v.s
    ensures v.JObj? ==> r == Some(v.fields.Keys)
    ensures v.JNull? || v.JBool? || v.JNum? ==> r.None?
  {
    match v
    case JArr(items) => ListNames(items)
    case JStr(s) =>
      var names := set c | c in s :: [c];
      assert forall n :: n in names <==> |n| == 1 && n[0] in s by {
        forall n | |n| == 1 && n[0] in s
          ensures n in names
        {
          assert n == [n[0]];
        }
      }
      Some(names)
    case JObj(fields) => Some(fields.Keys)
    case _ => None
  }

  /** `result.get(key, [])` on an object. */
  function GetOrEmpty(fields: map<string, Json>, key: string): (r: Json)
    ensures key in fields ==> r == fields[key]
    ensures key !in fields ==> r == JArr([])
  {
    if key in fields then fields[key] else JArr([])
  }

  /** The industry and sector names an analysis result yields, or `None` when reading
      them raises: `.get` on a non-object, or iteration over a value that cannot be
      iterated or holds a non-string. */
  function AnalysisTags(analysis: Json): (r: Option<(set<string>, set<string>)>)
    ensures !analysis.JObj? ==> r.None?
    ensures analysis.JObj? ==>
              (r.Some? <==> TagNames(GetOrEmpty(analysis.fields, "industries")).Some?
                            && TagNames(GetOrEmpty(analysis.fields, "sectors")).Some?)
    ensures r.Some? ==>
              r.value == (TagNames(GetOrEmpty(analysis.fields, "industries")).value,
                          TagNames(GetOrEmpty(analysis.fields, "sectors")).value)
  {
    match analysis
    case JObj(fields) =>
      (match (TagNames(GetOrEmpty(fields, "industries")), TagNames(GetOrEmpty(fields, "sectors")))
       case (Some(inds), Some(secs)) => Some((inds, secs))
       case _ => None)
    case _ => None
  }

  /** Insert the row and get-or-create every tag, linking it to the professor. */
  function InsertTagged(s: Store, row: Professor, inds: set<string>, secs: set<string>): (r: Store)
    ensures r.professors == s.professors[row.url := row]
    ensures r.industries == s.industries + inds && r.sectors == s.sectors + secs
    ensures forall l :: l in r.industryLinks <==> l in s.industryLinks || (l.0 == row.url && l.1 in inds)
    ensures forall l :: l in r.sectorLinks <==> l in s.sectorLinks || (l.0 == row.url && l.1 in secs)
  {
    Store(s.professors[row.url := row],
          s.industries + inds,
          s.sectors + secs,
          s.industryLinks + (set n | n in inds :: (row.url, n)),
          s.sectorLinks + (set n | n in secs :: (row.url, n)))
  }

  /** `save_professor`, as written. `analyze` stands for `analyze_bio_for_industries`
      and is only consulted for a new profile with a non-empty bio. */
  function Save(s: Store, d: Details, analyze: string -> Json): (r: Store)
    ensures d.url in s.professors ==>
              && r.professors.Keys == s.professors.Keys
              && r.industries == s.industries && r.sectors == s.sectors
              && r.industryLinks == s.industryLinks && r.sectorLinks == s.sectorLinks
              && (forall u :: u in s.professors && u != d.url ==> r.professors[u] == s.professors[u])
              && r.professors[d.url].(imageUrl := s.professors[d.url].imageUrl) == s.professors[d.url]
              && (r.professors[d.url].imageUrl != s.professors[d.url].imageUrl ==>
                    HasText(d.imageUrl) && r.professors[d.url].imageUrl == d.imageUrl)
              && (HasText(d.imageUrl) ==> r.professors[d.url].imageUrl == d.imageUrl)
    ensures d.url !in s.professors ==> r == s || r.professors == s.professors[d.url := NewRow(d)]
    ensures d.url !in s.professors && d.bio == "" ==> r == s.(professors := s.professors[d.url := NewRow(d)])
  {
    if d.url in s.professors then
      var existing := s.professors[d.url];
      if HasText(d.imageUrl) && existing.imageUrl != d.imageUrl then
        s.(professors := s.professors[d.url := existing.(imageUrl := d.imageUrl)])
      else s
    else if d.bio == "" then
      s.(professors := s.professors[d.url := NewRow(d)])
    else
      match AnalysisTags(analyze(d.bio))
      case Some((inds, secs)) => InsertTagged(s, NewRow(d), inds, secs)
      case None => s
  }

  /** A new profile with a bio is inserted exactly when its analysis can be read, and
      then carries the tags the analysis names. */
  lemma SaveNewTagged(s: Store, d: Details, analyze: string -> Json)
    requires Valid(s) && d.url !in s.professors && d.bio != ""
    ensures var r := Save(s, d, analyze);
            match AnalysisTags(analyze(d.bio))
            case None => r == s
            case Some((inds, secs)) =>
              && r.professors == s.professors[d.url := NewRow(d)]
              && IndustriesOf(r, d.url) == inds && SectorsOf(r, d.url) == secs
              && r.industries == s.industries + inds && r.sectors == s.sectors + secs
  {
    match AnalysisTags(analyze(d.bio))
    case None =>
    case Some((inds, secs)) =>
      var r := Save(s, d, analyze);
      assert r == InsertTagged(s, NewRow(d), inds, secs);
      forall n ensures n in IndustriesOf(r, d.url) <==> n in inds {
        assert (d.url, n) !in s.industryLinks;
        assert (d.url, n) in r.industryLinks <==> n in inds;
      }
      forall n ensures n in SectorsOf(r, d.url) <==> n in secs {
        assert (d.url, n) !in s.sectorLinks;
        assert (d.url, n) in r.sectorLinks <==> n in secs;
      }
  }

  /** Saving keeps every row under its own URL and every link pointing at existing rows. */
  lemma SavePreservesValid(s: Store, d: Details, analyze: string -> Json)
    requires Valid(s)
    ensures Valid(Save(s, d, analyze))
  {
  }

  /** Saving the same profile twice is saving it once. */
  lemma SaveIdempotent(s: Store, d: Details, analyze: string -> Json)
    ensures Save(Save(s, d, analyze), d, analyze) == Save(s, d, analyze)
  {
  }

  /** As written, without an API key a new profile with a bio is never stored: the
      analyzer answers with a list, `.get` raises on it, and the session rolls back. */
  lemma NoKeyDropsNewProfile(s: Store, d: Details, respond: (string, nat) -> Attempt,
                             parse: string -> Parsed)
    requires d.url !in s.professors && d.bio != ""
    ensures Save(s, d, bio => AnalyzeBio(bio, None, respond, parse).result) == s
    ensures d.url !in Save(s, d, bio => AnalyzeBio(bio, None, respond, parse).result).professors
  {
  }

  /** `save_professor` with the analyzer's list answer read as "no tags": the insert
      goes ahead whenever the analysis is not an object. */
  function SaveTolerant(s: Store, d: Details, analyze: string -> Json): (r: Store)
    ensures d.url !in s.professors && !analyze(d.bio).JObj? ==>
              r == s.(professors := s.professors[d.url := NewRow(d)])
    ensures d.url in s.professors || d.bio == "" || analyze(d.bio).JObj? ==> r == Save(s, d, analyze)
  {
    if d.url !in s.professors && d.bio != "" && !analyze(d.bio).JObj? then
      s.(professors := s.professors[d.url := NewRow(d)])
    else Save(s, d, analyze)
  }

  /** With the tolerant reading, a profile is stored even without an API key, with
      no industries and no sectors. */
  lemma NoKeyStillSaves(s: Store, d: Details, respond: (string, nat) -> Attempt, parse: string -> Parsed)
    requires Valid(s) && d.url !in s.professors
    ensures var r := SaveTolerant(s, d, bio => AnalyzeBio(bio, None, respond, parse).result);
            d.url in r.professors && r.professors[d.url] == NewRow(d)
            && IndustriesOf(r, d.url) == {} && SectorsOf(r, d.url) == {}
  {
    var r := SaveTolerant(s, d, bio => AnalyzeBio(bio, None, respond, parse).result);
    assert r.industryLinks == s.industryLinks && r.sectorLinks == s.sectorLinks;
    forall n ensures n !in IndustriesOf(r, d.url) && n !in SectorsOf(r, d.url) {
      assert (d.url, n) !in s.industryLinks && (d.url, n) !in s.sectorLinks;
    }
  }

  /** The tolerant save keeps the store valid too. */
  lemma SaveTolerantPreservesValid(s: Store, d: Details, analyze: string -> Json)
    requires Valid(s)
    ensures Valid(SaveTolerant(s, d, analyze))
  {
    SavePreservesValid(s, d, analyze);
  }
}
