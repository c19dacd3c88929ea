/** The relational store (src/database.py): professors keyed by their unique URL,
    the industry and sector vocabularies with unique names, and the two
    professor-to-tag association tables, whose composite primary keys make every
    pair occur at most once. Also the directory `init_db` creates for a SQLite file. */
module Database {
  import opened Wrappers
  import opened PyStr

  /** A `professors` row. `name` and `url` are NOT NULL; the other columns may be NULL.
      The surrogate integer id is left out: the URL is the natural key. */
  datatype Professor = Professor(name: string, url: string, title: Option<string>,
                                 department: Option<string>, bio: Option<string>,
                                 imageUrl: Option<string>)

  /** The database contents. A map from URL gives URL uniqueness, sets of names give
      name uniqueness, and sets of (professor URL, tag name) pairs give the composite
      keys of `professor_industries` and `professor_sectors`. */
  datatype Store = Store(professors: map<string, Professor>,
                         industries: set<string>,
                         sectors: set<string>,
                         industryLinks: set<(string, string)>,
                         sectorLinks: set<(string, string)>)

  /** Each row is filed under its own URL, and every association row points at an
      existing professor and an existing tag (the foreign keys). */
  predicate Valid(s: Store)
  {
    && (forall u :: u in s.professors ==> s.professors[u].url == u)
    && (forall l :: l in s.industryLinks ==> l.0 in s.professors && l.1 in s.industries)
    && (forall l :: l in s.sectorLinks ==> l.0 in s.professors && l.1 in s.sectors)
  }

  /** A freshly created database. */
  function EmptyStore(): (s: Store)
    ensures Valid(s) && s.professors == map[]
  {
    Store(map[], {}, {}, {}, {})
  }

  /** Python's `if x` on a nullable text column: present and non-empty. */
  predicate HasText(o: Option<string>)
  {
    o.Some? && o.value != ""
  }

  /** The industries linked to the professor at `url`. */
  function IndustriesOf(s: Store, url: string): set<string>
  {
    set l | l in s.industryLinks && l.0 == url :: l.1
  }

  /** The sectors linked to the professor at `url`. */
  function SectorsOf(s: Store, url: string): set<string>
  {
    set l | l in s.sectorLinks && l.0 == url :: l.1
  }

  /** The URL prefix that marks a SQLite database file. */
  const SqlitePrefix: string := "sqlite:///"

  /** One past the last `/` in `p`, or 0 when there is none: `p.rfind('/') + 1`. */
  function HeadEnd(p: string): (i: nat)
    ensures i <= |p|
    ensures i > 0 ==> p[i - 1] == '/'
    ensures forall k :: i <= k < |p| ==> p[k] != '/'
    decreases |p|
  {
    if |p| == 0 then 0
    else if p[|p| - 1] == '/' then |p|
    else HeadEnd(p[..|p| - 1])
  }

  /** Every character is a slash. */
  predicate AllSlashes(h: string)
  {
    forall k :: 0 <= k < |h| ==> h[k] == '/'
  }

  /** POSIX `os.path.dirname`: everything up to the last `/`, with trailing slashes
      removed unless the head is nothing but slashes. */
  function DirName(p: string): (r: string)
    ensures |r| <= |p| && r == p[..|r|]
    ensures '/' !in p ==> r == ""
    ensures r != "" && !AllSlashes(r) ==> r[|r| - 1] != '/'
  {
    var head := p[..HeadEnd(p)];
    if head != "" && !AllSlashes(head) then RStripChar(head, '/') else head
  }

  /** The directory of `dir/file` is `dir`. */
  lemma DirNameJoin(dir: string, file: string)
    requires dir != "" && dir[|dir| - 1] != '/' && '/' !in file
    ensures DirName(dir + "/" + file) == dir
  {
    var p := dir + "/" + file;
    var i := HeadEnd(p);
    assert p[|dir|] == '/';
    forall k | |dir| < k < |p|
      ensures p[k] != '/'
    {
      assert p[k] == file[k - |dir| - 1];
    }
    assert i == |dir| + 1;
    var head := p[..i];
    assert head == dir + "/";
    var r := RStripChar(head, '/');
    assert head[|dir| - 1] != '/';
    assert r == dir;
  }

  /** `init_db`'s directory step: the folder it creates for a `sqlite:///` URL, if any.
      The file path is the URL with every `sqlite:///` removed; the folder is its
      directory, created only when non-empty. */
  function DbDirectory(dbUrl: string): (r: Option<string>)
    ensures r.Some? ==> StartsWith(dbUrl, SqlitePrefix) && r.value != ""
    ensures !StartsWith(dbUrl, SqlitePrefix) ==> r.None?
  {
    if StartsWith(dbUrl, SqlitePrefix) then
      var folder := DirName(ReplaceAll(dbUrl, SqlitePrefix, ""));
      if folder != "" then Some(folder) else None
    else None
  }

  /** `sqlite:///<dir>/<file>` creates `<dir>`. */
  lemma DbDirectoryOfPath(dir: string, file: string)
    requires ':' !in dir && ':' !in file && '/' !in file
    requires dir != "" && dir[|dir| - 1] != '/'
    ensures DbDirectory(SqlitePrefix + dir + "/" + file) == Some(dir)
  {
    var path := dir + "/" + file;
    var url := SqlitePrefix + path;
    assert SqlitePrefix + dir + "/" + file == url;
    assert ':' !in path by {
      assert forall c :: c in path ==> c in dir || c == '/' || c in file;
    }
    ReplacedPrefix(path);
    DirNameJoin(dir, file);
    assert DirName(ReplaceAll(url, SqlitePrefix, "")) == dir;
  }

  /** A bare `sqlite:///<file>` creates nothing. */
  lemma DbDirectoryOfBareFile(file: string)
    requires ':' !in file && '/' !in file
    ensures DbDirectory(SqlitePrefix + file) == None
  {
    ReplacedPrefix(file);
  }

  /** Removing `sqlite:///` from `sqlite:///<path>` leaves `<path>` when `<path>` has no colon. */
  lemma ReplacedPrefix(path: string)
    requires ':' !in path
    ensures StartsWith(SqlitePrefix + path, SqlitePrefix)
    ensures ReplaceAll(SqlitePrefix + path, SqlitePrefix, "") == path
  {
    var u := SqlitePrefix + path;
    assert SqlitePrefix[6] == ':';
    MissingCharAbsent(path, SqlitePrefix, 6);
    SplitAbsent(path, SqlitePrefix);
    assert u[..|SqlitePrefix|] == SqlitePrefix;
    assert OccursAt(u, SqlitePrefix, 0);
    SplitAtFirst(u, SqlitePrefix, 0);
    assert u[|SqlitePrefix|..] == path;
    assert Split(u, SqlitePrefix) == ["", path];
    assert Join(["", path], "") == "" + "" + Join([path], "");
  }

  /** The URL `init_db` uses by default, `sqlite:///data/faculty_v2.db`. */
  const DefaultDbUrl: string := SqlitePrefix + "data" + "/" + "faculty_v2.db"

  /** The default URL creates the `data` folder. */
  lemma DefaultDbDirectory(dbUrl: string)
    requires dbUrl == DefaultDbUrl
    ensures DbDirectory(dbUrl) == Some("data")
  {
    var dir, file := "data", "faculty_v2.db";
    DbDirectoryOfPath(dir, file);
  }
}
