/** The browsing side (src/app.py): the one-off path migration run on start-up, the
    sidebar's department options, the conjunctive filter query, the bio preview and
    the three-column card layout. */
module Browser {
  import opened Wrappers
  import opened PyStr
  import opened Database

  /** `image_url LIKE '%\%'`: a non-NULL reference holding a backslash. */
  predicate HasBackslash(o: Option<string>)
  {
    o.Some? && '\\' in o.value
  }

  /** One row of `fix_db_paths`: a reference with a backslash gets every backslash
      turned into a forward slash; every other row is untouched. */
  function FixPath(p: Professor): (q: Professor)
    ensures !HasBackslash(q.imageUrl)
    ensures q.(imageUrl := p.imageUrl) == p
    ensures !HasBackslash(p.imageUrl) ==> q == p
    ensures HasBackslash(p.imageUrl) ==> q.imageUrl == Some(SwapChar(p.imageUrl.value, '\\', '/'))
  {
    if HasBackslash(p.imageUrl) then
      var fixed := ReplaceAll(p.imageUrl.value, "\\", "/");
      ReplaceCharRemoves(p.imageUrl.value, '\\', '/');
      ReplaceCharIsSwap(p.imageUrl.value, '\\', '/');
      p.(imageUrl := Some(fixed))
    else p
  }

  /** `fix_db_paths`: migrate every row whose image reference holds a backslash. */
  function FixDbPaths(s: Store): (r: Store)
    ensures r.professors.Keys == s.professors.Keys
    ensures r.industries == s.industries && r.sectors == s.sectors
    ensures r.industryLinks == s.industryLinks && r.sectorLinks == s.sectorLinks
    ensures forall u :: u in r.professors ==> !HasBackslash(r.professors[u].imageUrl)
    ensures forall u :: u in s.professors ==>
              r.professors[u].(imageUrl := s.professors[u].imageUrl) == s.professors[u]
    ensures forall u :: u in s.professors && !HasBackslash(s.professors[u].imageUrl) ==>
              r.professors[u] == s.professors[u]
  {
    s.(professors := map u | u in s.professors :: FixPath(s.professors[u]))
  }

  /** Running the migration again changes nothing. */
  lemma FixIdempotent(s: Store)
    ensures FixDbPaths(FixDbPaths(s)) == FixDbPaths(s)
  {
    var once := FixDbPaths(s);
    assert FixDbPaths(once).professors == once.professors;
  }

  /** The migration keeps the store valid. */
  lemma FixPreservesValid(s: Store)
    requires Valid(s)
    ensures Valid(FixDbPaths(s))
  {
  }

  /** The department options: the distinct departments that are neither NULL nor empty. */
  function DepartmentOptions(s: Store): (r: set<string>)
    ensures "" !in r
    ensures forall d :: d in r <==> exists u :: u in s.professors && s.professors[u].department == Some(d) && d != ""
  {
    set u | u in s.professors && HasText(s.professors[u].department) :: s.professors[u].department.value
  }

  /** The professor at `url` has an industry named in `selected`. */
  predicate HasIndustryIn(s: Store, url: string, selected: set<string>)
  {
    exists n :: n in selected && (url, n) in s.industryLinks
  }

  /** The professor at `url` has a sector named in `selected`. */
  predicate HasSectorIn(s: Store, url: string, selected: set<string>)
  {
    exists n :: n in selected && (url, n) in s.sectorLinks
  }

  /** The professor at `url` has a non-NULL department named in `selected`. */
  predicate InDepartment(s: Store, url: string, selected: set<string>)
    requires url in s.professors
  {
    s.professors[url].department.Some? && s.professors[url].department.value in selected
  }

  /** The filter query, built step by step as the page builds it: start from every
      professor, then narrow by industry, sector and department, each only when
      something is selected. Joins can repeat a professor; `distinct()` makes the
      result a set. */
  function Browse(s: Store, industries: set<string>, sectors: set<string>, departments: set<string>): (r: set<string>)
    ensures r <= s.professors.Keys
  {
    var all := s.professors.Keys;
    var byIndustry := if industries == {} then all else set u | u in all && HasIndustryIn(s, u, industries);
    var bySector := if sectors == {} then byIndustry else set u | u in byIndustry && HasSectorIn(s, u, sectors);
    if departments == {} then bySector else set u | u in bySector && InDepartment(s, u, departments)
  }

  /** The filters combine by conjunction; an empty selection imposes nothing. */
  lemma BrowseIsConjunction(s: Store, industries: set<string>, sectors: set<string>, departments: set<string>, u: string)
    ensures u in Browse(s, industries, sectors, departments) <==>
              && u in s.professors
              && (industries == {} || HasIndustryIn(s, u, industries))
              && (sectors == {} || HasSectorIn(s, u, sectors))
              && (departments == {} || InDepartment(s, u, departments))
  {
  }

  /** With nothing selected, every professor is listed. */
  lemma BrowseUnfiltered(s: Store)
    ensures Browse(s, {}, {}, {}) == s.professors.Keys
  {
  }

  /** Selecting one industry lists exactly the professors linked to it. */
  lemma BrowseOneIndustry(s: Store, name: string)
    ensures Browse(s, {name}, {}, {}) == set u | u in s.professors && name in IndustriesOf(s, u)
  {
    forall u | u in s.professors
      ensures HasIndustryIn(s, u, {name}) <==> name in IndustriesOf(s, u)
    {
      if name in IndustriesOf(s, u) {
        assert (u, name) in s.industryLinks;
      }
    }
  }

  /** Selecting more industries can only widen the listing. */
  lemma BrowseMonotone(s: Store, fewer: set<string>, more: set<string>, sectors: set<string>, departments: set<string>)
    requires fewer != {} && fewer <= more
    ensures Browse(s, fewer, sectors, departments) <= Browse(s, more, sectors, departments)
  {
    forall u | u in Browse(s, fewer, sectors, departments)
      ensures u in Browse(s, more, sectors, departments)
    {
      BrowseIsConjunction(s, fewer, sectors, departments, u);
      BrowseIsConjunction(s, more, sectors, departments, u);
    }
  }

  /** How many characters of the bio a card shows. */
  const PreviewLength: nat := 500

  /** What a card shows when there is no bio. */
  const NoBio: string := "No bio available."

  /** `prof.bio[:500] + "..." if prof.bio else "No bio available."`. */
  function BioPreview(bio: Option<string>): (r: string)
    ensures !HasText(bio) ==> r == NoBio
    ensures HasText(bio) ==>
              && |r| == (if |bio.value| < PreviewLength then |bio.value| else PreviewLength) + 3
              && r[..|r| - 3] <= bio.value
              && r[|r| - 3..] == "..."
  {
    if HasText(bio) then
      var shown := Slice(bio.value, 0, PreviewLength);
      var r := shown + "...";
      assert r[..|r| - 3] == shown;
      r
    else NoBio
  }

  /** A bio of at most 500 characters is shown whole. */
  lemma ShortBioShownWhole(bio: string)
    requires bio != "" && |bio| <= PreviewLength
    ensures BioPreview(Some(bio)) == bio + "..."
  {
    var r := BioPreview(Some(bio));
    assert r[..|r| - 3] == bio;
    assert r == r[..|r| - 3] + r[|r| - 3..];
  }

  /** The number of card columns. */
  const Columns: nat := 3

  /** `cols[idx % 3]`: the column of the card at position `idx`. */
  function CardColumn(idx: nat): (c: nat)
    ensures c < Columns
    ensures idx < Columns ==> c == idx
  {
    idx % Columns
  }

  /** Card positions three apart share a column. */
  lemma ColumnsCycle(idx: nat)
    ensures CardColumn(idx + Columns) == CardColumn(idx)
  {
  }

  /** The positions, among the first `n` cards, that land in column `c`. */
  function CardsIn(n: nat, c: nat): set<nat>
  {
    set i: nat | i < n && CardColumn(i) == c
  }

  /** The count formula grows by one exactly at the positions of column `c`. */
  lemma CountStep(m: nat, c: nat)
    requires c < Columns
    ensures CardColumn(m) == c ==> (m + Columns - c) / Columns == (m + Columns - 1 - c) / Columns + 1
    ensures CardColumn(m) != c ==> (m + Columns - c) / Columns == (m + Columns - 1 - c) / Columns
  {
    var q, r := m / Columns, m % Columns;
    assert m == Columns * q + r;
    assert (m + Columns - c) / Columns == q + (r + Columns - c) / Columns;
    assert (m + Columns - 1 - c) / Columns == q + (r + Columns - 1 - c) / Columns;
  }

  /** Column `c` holds `(n + 2 - c) / 3` of `n` cards. */
  lemma {:induction false} ColumnCounts(n: nat, c: nat)
    requires c < Columns
    ensures |CardsIn(n, c)| == (n + Columns - 1 - c) / Columns
  {
    if n > 0 {
      ColumnCounts(n - 1, c);
      CountStep(n - 1, c);
      CardsInStep(n - 1, c);
    }
  }

  /** One more card adds its position to its own column and nothing elsewhere. */
  lemma CardsInStep(m: nat, c: nat)
    ensures |CardsIn(m + 1, c)| == |CardsIn(m, c)| + (if CardColumn(m) == c then 1 else 0)
  {
    var before, after := CardsIn(m, c), CardsIn(m + 1, c);
    assert m !in before;
    forall i: nat
      ensures i in after <==> i in before || (i == m && CardColumn(m) == c)
    {
    }
    if CardColumn(m) == c {
      assert after == before + {m};
    } else {
      assert after == before;
    }
  }
}
