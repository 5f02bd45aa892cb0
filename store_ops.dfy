/** The document logic of the bookmark store, on values: what loading makes of
    a parsed file, what each create/update/delete does to a `Data`, the sorted
    views, and the id discipline that the shared counter gives. The
    `BookmarkStore` class applies these to its `data` field. */
module StoreOps {
  import opened Chars
  import opened Types
  import opened Fs

  // ─── Loading and writing ────────────────────────────────────────────────

  /** A data file as `JSON.parse` returns it: files written by older versions
      may lack any of the three top-level fields. */
  datatype RawData = RawData(
    idCounter: Option<int>,
    projects: Option<seq<Project>>,
    bookmarks: Option<seq<Bookmark>>)

  /** The defaulting applied after every parse: a missing list becomes empty
      and a falsy counter (missing, or 0) becomes 0. */
  function Normalize(raw: RawData): Data
  {
    Data(
      match raw.idCounter case Some(n) => n case None => 0,
      match raw.projects case Some(ps) => ps case None => [],
      match raw.bookmarks case Some(bs) => bs case None => [])
  }

  /** What `JSON.stringify(data)` puts in the file: all three fields. */
  function Encode(d: Data): RawData
  {
    RawData(Some(d.idCounter), Some(d.projects), Some(d.bookmarks))
  }

  /** Reading a data file: the read, then `JSON.parse`, then the defaulting. */
  function Load(r: ReadResult<RawData>): Result<Data>
  {
    match r
    case ReadFailed(reason) => Err(reason)
    case Read(Garbled) => Err(SyntaxError)
    case Read(Json(raw)) => Ok(Normalize(raw))
  }

  /** Reading back what a save wrote gives the saved document. */
  lemma LoadAfterWrite(d: Data)
    ensures Load(Read(Json(Encode(d)))) == Ok(d)
  {
  }

  /** Each missing field takes its default and each present one is kept;
      a file with none of them loads as the empty document. */
  lemma LoadMissingFields(raw: RawData)
    ensures var d := Load(Read(Json(raw))).value;
      && d.idCounter == (if raw.idCounter.Some? then raw.idCounter.value else 0)
      && d.projects == (if raw.projects.Some? then raw.projects.value else [])
      && d.bookmarks == (if raw.bookmarks.Some? then raw.bookmarks.value else [])
      && (raw == RawData(None, None, None) ==> d == EmptyData)
  {
  }

  /** Loading, saving and loading again gives the same document. */
  lemma LoadSaveLoad(raw: RawData)
    ensures Load(Read(Json(Encode(Normalize(raw))))) == Load(Read(Json(raw)))
  {
  }

  // ─── Searching, filtering and sorting by id ─────────────────────────────

  /** Index `i` holds the first entry whose key is `k`. */
  predicate IsFirstKey<T>(s: seq<T>, key: T -> int, k: int, i: int)
  {
    0 <= i < |s| && key(s[i]) == k && forall j :: 0 <= j < i ==> key(s[j]) != k
  }

  /** `findIndex(x => key(x) === k)`: the first index holding key `k`, or -1. */
  function FirstIndex<T>(s: seq<T>, key: T -> int, k: int): (r: int)
    ensures -1 <= r < |s|
    ensures r == -1 <==> forall i :: 0 <= i < |s| ==> key(s[i]) != k
    ensures r >= 0 ==> IsFirstKey(s, key, k, r)
  {
    if s == [] then -1
    else if key(s[0]) == k then 0
    else
      var r := FirstIndex(s[1..], key, k);
      if r == -1 then -1 else r + 1
  }

  /** No two entries share a key. */
  predicate UniqueKeys<T>(s: seq<T>, key: T -> int)
  {
    forall i, j :: 0 <= i < j < |s| ==> key(s[i]) != key(s[j])
  }

  /** `filter(x => key(x) !== k)`: the entries whose key is not `k`, in order. */
  function Without<T(!new)>(s: seq<T>, key: T -> int, k: int): (r: seq<T>)
    ensures |r| <= |s|
    ensures forall x :: x in r <==> x in s && key(x) != k
    ensures (forall i :: 0 <= i < |s| ==> key(s[i]) != k) ==> r == s
  {
    if s == [] then []
    else
      var rest := Without(s[1..], key, k);
      if key(s[0]) == k then rest else [s[0]] + rest
  }

  /** Each entry keyed `k` is dropped as often as it occurs; every other
      entry is kept as often as it occurs. */
  lemma {:induction false} WithoutCounts<T(!new)>(s: seq<T>, key: T -> int, k: int)
    ensures forall x :: multiset(Without(s, key, k))[x] == if key(x) == k then 0 else multiset(s)[x]
    decreases |s|
  {
    if s != [] {
      WithoutCounts(s[1..], key, k);
      assert s == [s[0]] + s[1..];
      assert multiset(s) == multiset{s[0]} + multiset(s[1..]);
    }
  }

  /** Filtering keeps keys distinct. */
  lemma {:induction false} WithoutUnique<T(!new)>(s: seq<T>, key: T -> int, k: int)
    requires UniqueKeys(s, key)
    ensures UniqueKeys(Without(s, key, k), key)
    decreases |s|
  {
    if s != [] {
      var rest := Without(s[1..], key, k);
      WithoutUnique(s[1..], key, k);
      if key(s[0]) != k {
        forall x | x in rest ensures key(x) != key(s[0]) {
          var m :| 0 <= m < |s[1..]| && s[1..][m] == x;
          assert s[m + 1] == x;
        }
        var r := [s[0]] + rest;
        forall i, j | 0 <= i < j < |r| ensures key(r[i]) != key(r[j]) {
          if i == 0 {
            assert r[j] in rest;
          } else {
            assert r[i] == rest[i - 1] && r[j] == rest[j - 1];
          }
        }
      }
    }
  }

  /** The filter works entry by entry: filtering a concatenation filters each
      part, so the survivors keep their order. */
  lemma {:induction false} WithoutAppend<T(!new)>(a: seq<T>, b: seq<T>, key: T -> int, k: int)
    ensures Without(a + b, key, k) == Without(a, key, k) + Without(b, key, k)
    decreases |a|
  {
    if a == [] {
      assert a + b == b;
    } else {
      assert (a + b)[0] == a[0] && (a + b)[1..] == a[1..] + b;
      WithoutAppend(a[1..], b, key, k);
    }
  }

  /** A single entry survives exactly when its key is not `k`. */
  lemma WithoutSingle<T(!new)>(x: T, key: T -> int, k: int)
    ensures Without([x], key, k) == if key(x) == k then [] else [x]
  {
    assert [x][1..] == [];
  }

  /** The key of a bookmark reference inside a project is the id itself. */
  function RefId(x: int): int { x }

  /** Entries sorted by decreasing key: `sort((a, b) => key(b) - key(a))`. */
  predicate SortedDesc<T>(s: seq<T>, key: T -> int)
  {
    forall i, j :: 0 <= i < j < |s| ==> key(s[i]) >= key(s[j])
  }

  function InsertDesc<T>(x: T, s: seq<T>, key: T -> int): (r: seq<T>)
    requires SortedDesc(s, key)
    ensures SortedDesc(r, key)
    ensures multiset(r) == multiset(s) + multiset{x}
    ensures r[0] == x || (s != [] && r[0] == s[0])
  {
    if s == [] || key(x) >= key(s[0]) then [x] + s
    else
      var rest := InsertDesc(x, s[1..], key);
      assert s == [s[0]] + s[1..];
      assert multiset(s) == multiset{s[0]} + multiset(s[1..]);
      assert key(rest[0]) <= key(s[0]);
      assert forall j :: 0 <= j < |rest| ==> key(rest[j]) <= key(s[0]);
      [s[0]] + rest
  }

  /** The derived views `sortedBookmarks` / `sortedProjects`: a sorted permutation. */
  function SortDesc<T>(s: seq<T>, key: T -> int): (r: seq<T>)
    ensures SortedDesc(r, key)
    ensures multiset(r) == multiset(s)
  {
    if s == [] then []
    else
      assert s == [s[0]] + s[1..];
      InsertDesc(s[0], SortDesc(s[1..], key), key)
  }

  // ─── Create, update, delete ─────────────────────────────────────────────

  /** The bookmark `addBookmark` builds: the incremented counter as id, the stamp, the caller's fields. */
  function NewBookmark(d: Data, f: BookmarkFields, stamp: string): Bookmark
  {
    Bookmark(d.idCounter + 1, f.url, f.title, f.note, f.tags, stamp)
  }

  function NewProject(d: Data, f: ProjectFields, stamp: string): Project
  {
    Project(d.idCounter + 1, f.title, f.note, f.bookmarks, stamp)
  }

  /** `addBookmark`: bump the counter, prepend the new bookmark. */
  function AddBookmarkTo(d: Data, f: BookmarkFields, stamp: string): Data
  {
    d.(idCounter := d.idCounter + 1, bookmarks := [NewBookmark(d, f, stamp)] + d.bookmarks)
  }

  /** `addProject`: bump the counter, prepend the new project. */
  function AddProjectTo(d: Data, f: ProjectFields, stamp: string): Data
  {
    d.(idCounter := d.idCounter + 1, projects := [NewProject(d, f, stamp)] + d.projects)
  }

  /** Writing `x` over the first entry whose key is `k`, if there is one. */
  function ReplaceFirst<T>(s: seq<T>, key: T -> int, k: int, x: T): (r: seq<T>)
    ensures |r| == |s|
    ensures forall i :: 0 <= i < |s| ==> r[i] == if IsFirstKey(s, key, k, i) then x else s[i]
    ensures (forall i :: 0 <= i < |s| ==> key(s[i]) != k) ==> r == s
  {
    var idx := FirstIndex(s, key, k);
    if idx == -1 then s else s[idx := x]
  }

  /** `updateBookmark`: the first bookmark with the same id becomes `u` stamped with `stamp`. */
  function UpdateBookmarkIn(d: Data, u: Bookmark, stamp: string): Data
  {
    d.(bookmarks := ReplaceFirst(d.bookmarks, BookmarkId, u.id, u.(lastUpdated := stamp)))
  }

  /** `updateProject`: the first project with the same id becomes `u` stamped with `stamp`. */
  function UpdateProjectIn(d: Data, u: Project, stamp: string): Data
  {
    d.(projects := ReplaceFirst(d.projects, ProjectId, u.id, u.(lastUpdated := stamp)))
  }

  /** `deleteBookmark`: drop the bookmarks with that id and the id from every project's list. */
  function DeleteBookmarkFrom(d: Data, id: int): (r: Data)
    ensures r.idCounter == d.idCounter
    ensures r.bookmarks == Without(d.bookmarks, BookmarkId, id)
    ensures forall b :: b in r.bookmarks <==> b in d.bookmarks && b.id != id
    ensures |r.projects| == |d.projects|
    ensures forall i :: 0 <= i < |r.projects| ==>
      var p, q := d.projects[i], r.projects[i];
      && q == p.(bookmarks := Without(p.bookmarks, RefId, id))
      && forall x :: x in q.bookmarks <==> x in p.bookmarks && x != id
  {
    d.(bookmarks := Without(d.bookmarks, BookmarkId, id),
       projects := seq(|d.projects|, i requires 0 <= i < |d.projects| =>
         d.projects[i].(bookmarks := Without(d.projects[i].bookmarks, RefId, id))))
  }

  /** `deleteProject`: drop the projects with that id; bookmarks are not touched. */
  function DeleteProjectFrom(d: Data, id: int): (r: Data)
    ensures r.idCounter == d.idCounter && r.bookmarks == d.bookmarks
    ensures r.projects == Without(d.projects, ProjectId, id)
    ensures forall p :: p in r.projects <==> p in d.projects && p.id != id
  {
    d.(projects := Without(d.projects, ProjectId, id))
  }

  // ─── Properties of the operations ───────────────────────────────────────

  /** Some bookmark or project carries `id`. */
  predicate HasId(d: Data, id: int)
  {
    (exists b :: b in d.bookmarks && b.id == id) || (exists p :: p in d.projects && p.id == id)
  }

  /** The id discipline of a document built by this store from the empty one:
      every id is at most the counter and no id is used twice, across both kinds. */
  predicate WellNumbered(d: Data)
  {
    && (forall b :: b in d.bookmarks ==> b.id <= d.idCounter)
    && (forall p :: p in d.projects ==> p.id <= d.idCounter)
    && UniqueKeys(d.bookmarks, BookmarkId)
    && UniqueKeys(d.projects, ProjectId)
    && (forall b, p :: b in d.bookmarks && p in d.projects ==> b.id != p.id)
  }

  lemma EmptyDataWellNumbered()
    ensures WellNumbered(EmptyData) && !HasId(EmptyData, 1)
  {
  }

  /** `addBookmark` takes a fresh id, one above the old counter, and keeps the discipline. */
  lemma AddBookmarkFresh(d: Data, f: BookmarkFields, stamp: string)
    requires WellNumbered(d)
    ensures var r := AddBookmarkTo(d, f, stamp);
      && r.bookmarks[0].id == r.idCounter == d.idCounter + 1
      && !HasId(d, r.bookmarks[0].id)
      && WellNumbered(r)
  {
    var r := AddBookmarkTo(d, f, stamp);
    var b := r.bookmarks[0];
    assert forall i :: 1 <= i < |r.bookmarks| ==> r.bookmarks[i] in d.bookmarks;
    assert forall i :: 1 <= i < |r.bookmarks| ==> r.bookmarks[i].id < b.id;
  }

  /** Loading does not restore the discipline: a file whose counter is
      missing (read as 0) or stale while it holds a bookmark with the next id
      loads as is, and the next `addBookmark` hands out that id a second time. */
  lemma StaleCounterReusesId(raw: RawData, f: BookmarkFields, stamp: string)
    requires raw.bookmarks.Some?
    requires exists b :: b in raw.bookmarks.value && b.id == Normalize(raw).idCounter + 1
    ensures var d := Normalize(raw);
      var r := AddBookmarkTo(d, f, stamp);
      && HasId(d, r.bookmarks[0].id)
      && !WellNumbered(d)
      && !WellNumbered(r)
  {
    var d := Normalize(raw);
    var r := AddBookmarkTo(d, f, stamp);
    var b :| b in d.bookmarks && b.id == d.idCounter + 1;
    var i :| 0 <= i < |d.bookmarks| && d.bookmarks[i] == b;
    assert r.bookmarks[i + 1] == b;
    assert BookmarkId(r.bookmarks[0]) == BookmarkId(r.bookmarks[i + 1]);
  }

  /** `addProject` takes a fresh id, one above the old counter, and keeps the discipline. */
  lemma AddProjectFresh(d: Data, f: ProjectFields, stamp: string)
    requires WellNumbered(d)
    ensures var r := AddProjectTo(d, f, stamp);
      && r.projects[0].id == r.idCounter == d.idCounter + 1
      && !HasId(d, r.projects[0].id)
      && WellNumbered(r)
  {
    var r := AddProjectTo(d, f, stamp);
    var p := r.projects[0];
    assert forall i :: 1 <= i < |r.projects| ==> r.projects[i] in d.projects;
    assert forall i :: 1 <= i < |r.projects| ==> r.projects[i].id < p.id;
  }

  /** `updateBookmark` on an absent id changes nothing; otherwise it rewrites
      exactly the first slot with that id, keeps the length and every id, and
      keeps the discipline. */
  lemma UpdateBookmarkEffect(d: Data, u: Bookmark, stamp: string)
    ensures var r := UpdateBookmarkIn(d, u, stamp);
      && r.idCounter == d.idCounter && r.projects == d.projects
      && |r.bookmarks| == |d.bookmarks|
      && (forall i :: 0 <= i < |d.bookmarks| ==>
            r.bookmarks[i] == if IsFirstKey(d.bookmarks, BookmarkId, u.id, i) then u.(lastUpdated := stamp) else d.bookmarks[i])
      && (forall i :: 0 <= i < |d.bookmarks| ==> r.bookmarks[i].id == d.bookmarks[i].id)
      && (!(exists b :: b in d.bookmarks && b.id == u.id) ==> r == d)
      && (WellNumbered(d) ==> WellNumbered(r))
  {
    var r := UpdateBookmarkIn(d, u, stamp);
    if !(exists b :: b in d.bookmarks && b.id == u.id) {
      assert forall i :: 0 <= i < |d.bookmarks| ==> BookmarkId(d.bookmarks[i]) != u.id;
    }
    if WellNumbered(d) {
      BookmarkIdsKept(d, r);
    }
  }

  /** Rewriting bookmarks slot by slot without changing their ids keeps the
      discipline. */
  lemma BookmarkIdsKept(d: Data, r: Data)
    requires WellNumbered(d)
    requires r.idCounter == d.idCounter && r.projects == d.projects
    requires |r.bookmarks| == |d.bookmarks|
    requires forall i :: 0 <= i < |d.bookmarks| ==> r.bookmarks[i].id == d.bookmarks[i].id
    ensures WellNumbered(r)
  {
    SameBookmarkIds(d.bookmarks, r.bookmarks);
  }

  /** Bookmarks with the same ids, slot by slot, as a list that keeps the
      id discipline keep it too. */
  lemma SameBookmarkIds(bs: seq<Bookmark>, cs: seq<Bookmark>)
    requires |bs| == |cs| && forall i :: 0 <= i < |bs| ==> cs[i].id == bs[i].id
    ensures forall c :: c in cs ==> exists b :: b in bs && b.id == c.id
    ensures UniqueKeys(bs, BookmarkId) ==> UniqueKeys(cs, BookmarkId)
  {
    forall c | c in cs ensures exists b :: b in bs && b.id == c.id {
      var i :| 0 <= i < |cs| && cs[i] == c;
      assert bs[i] in bs;
    }
  }

  /** `updateProject` on an absent id changes nothing; otherwise it rewrites
      exactly the first slot with that id, keeps the length and every id, and
      keeps the discipline. */
  lemma UpdateProjectEffect(d: Data, u: Project, stamp: string)
    ensures var r := UpdateProjectIn(d, u, stamp);
      && r.idCounter == d.idCounter && r.bookmarks == d.bookmarks
      && |r.projects| == |d.projects|
      && (forall i :: 0 <= i < |d.projects| ==>
            r.projects[i] == if IsFirstKey(d.projects, ProjectId, u.id, i) then u.(lastUpdated := stamp) else d.projects[i])
      && (forall i :: 0 <= i < |d.projects| ==> r.projects[i].id == d.projects[i].id)
      && (!(exists p :: p in d.projects && p.id == u.id) ==> r == d)
      && (WellNumbered(d) ==> WellNumbered(r))
  {
    var r := UpdateProjectIn(d, u, stamp);
    if !(exists p :: p in d.projects && p.id == u.id) {
      assert forall i :: 0 <= i < |d.projects| ==> ProjectId(d.projects[i]) != u.id;
    }
    if WellNumbered(d) {
      ProjectIdsKept(d, r);
    }
  }

  /** Rewriting projects slot by slot without changing their ids keeps the
      discipline. */
  lemma ProjectIdsKept(d: Data, r: Data)
    requires WellNumbered(d)
    requires r.idCounter == d.idCounter && r.bookmarks == d.bookmarks
    requires |r.projects| == |d.projects|
    requires forall i :: 0 <= i < |d.projects| ==> r.projects[i].id == d.projects[i].id
    ensures WellNumbered(r)
  {
    SameProjectIds(d.projects, r.projects);
  }

  /** Referential integrity: after `deleteBookmark(id)` no bookmark has that id
      and no project lists it, and the discipline is kept. */
  lemma DeleteBookmarkIntegrity(d: Data, id: int)
    ensures var r := DeleteBookmarkFrom(d, id);
      && (forall b :: b in r.bookmarks ==> b.id != id)
      && (forall p :: p in r.projects ==> id !in p.bookmarks)
      && (WellNumbered(d) ==> WellNumbered(r))
  {
    var r := DeleteBookmarkFrom(d, id);
    forall p | p in r.projects ensures id !in p.bookmarks {
      var i :| 0 <= i < |r.projects| && r.projects[i] == p;
    }
    if WellNumbered(d) {
      WithoutUnique(d.bookmarks, BookmarkId, id);
      SameProjectIds(d.projects, r.projects);
    }
  }

  /** Projects with the same ids, slot by slot, as a list that keeps the
      id discipline keep it too. */
  lemma SameProjectIds(ps: seq<Project>, qs: seq<Project>)
    requires |ps| == |qs| && forall i :: 0 <= i < |ps| ==> qs[i].id == ps[i].id
    ensures forall q :: q in qs ==> exists p :: p in ps && p.id == q.id
    ensures UniqueKeys(ps, ProjectId) ==> UniqueKeys(qs, ProjectId)
  {
    forall q | q in qs ensures exists p :: p in ps && p.id == q.id {
      var i :| 0 <= i < |qs| && qs[i] == q;
      assert ps[i] in ps;
    }
  }

  /** Deleting an id that no bookmark has and no project lists leaves the
      document as it was. */
  lemma DeleteAbsentBookmark(d: Data, id: int)
    requires forall b :: b in d.bookmarks ==> b.id != id
    requires forall p :: p in d.projects ==> id !in p.bookmarks
    ensures DeleteBookmarkFrom(d, id) == d
  {
    var r := DeleteBookmarkFrom(d, id);
    assert forall i :: 0 <= i < |d.bookmarks| ==> BookmarkId(d.bookmarks[i]) != id;
    forall i | 0 <= i < |d.projects| ensures r.projects[i] == d.projects[i] {
      var p := d.projects[i];
      assert p in d.projects;
      assert forall j :: 0 <= j < |p.bookmarks| ==> RefId(p.bookmarks[j]) != id;
    }
  }

  /** `deleteProject` keeps the discipline. */
  lemma DeleteProjectKeepsNumbering(d: Data, id: int)
    requires WellNumbered(d)
    ensures WellNumbered(DeleteProjectFrom(d, id))
    ensures !(exists p :: p in DeleteProjectFrom(d, id).projects && p.id == id)
  {
    WithoutUnique(d.projects, ProjectId, id);
  }

  // ─── Sequences of additions ─────────────────────────────────────────────

  /** One `addBookmark` or `addProject` call. */
  datatype Addition =
    | AddsBookmark(fields: BookmarkFields, stamp: string)
    | AddsProject(projectFields: ProjectFields, stamp: string)

  function ApplyAddition(d: Data, a: Addition): Data
  {
    match a
    case AddsBookmark(f, s) => AddBookmarkTo(d, f, s)
    case AddsProject(f, s) => AddProjectTo(d, f, s)
  }

  /** The document after the calls, in order. */
  function ApplyAdditions(d: Data, adds: seq<Addition>): Data
    decreases |adds|
  {
    if adds == [] then d else ApplyAdditions(ApplyAddition(d, adds[0]), adds[1..])
  }

  /** The ids the calls hand out, in order. */
  function AssignedIds(d: Data, adds: seq<Addition>): seq<int>
    decreases |adds|
  {
    if adds == [] then []
    else
      var next := ApplyAddition(d, adds[0]);
      [next.idCounter] + AssignedIds(next, adds[1..])
  }

  /** Whatever mix of bookmarks and projects is added, the ids handed out
      are the consecutive values after the old counter: strictly increasing
      and pairwise distinct. */
  lemma {:induction false} AdditionsAssignIncreasingIds(d: Data, adds: seq<Addition>)
    ensures var ids := AssignedIds(d, adds);
      && |ids| == |adds|
      && (forall i :: 0 <= i < |ids| ==> ids[i] == d.idCounter + 1 + i)
      && (forall i, j :: 0 <= i < j < |ids| ==> ids[i] < ids[j])
      && ApplyAdditions(d, adds).idCounter == d.idCounter + |adds|
    decreases |adds|
  {
    if adds != [] {
      var next := ApplyAddition(d, adds[0]);
      AdditionsAssignIncreasingIds(next, adds[1..]);
      var ids := AssignedIds(d, adds);
      assert ids == [next.idCounter] + AssignedIds(next, adds[1..]);
      assert forall i :: 1 <= i < |ids| ==> ids[i] == AssignedIds(next, adds[1..])[i - 1];
    }
  }

  /** On a well-numbered document every id the calls hand out is fresh, and
      the document stays well numbered. */
  lemma {:induction false} AdditionsKeepNumbering(d: Data, adds: seq<Addition>)
    requires WellNumbered(d)
    ensures WellNumbered(ApplyAdditions(d, adds))
    ensures forall i :: 0 <= i < |AssignedIds(d, adds)| ==> !HasId(d, AssignedIds(d, adds)[i])
    decreases |adds|
  {
    AdditionsAssignIncreasingIds(d, adds);
    if adds != [] {
      var next := ApplyAddition(d, adds[0]);
      match adds[0] {
        case AddsBookmark(f, s) => AddBookmarkFresh(d, f, s);
        case AddsProject(f, s) => AddProjectFresh(d, f, s);
      }
      AdditionsKeepNumbering(next, adds[1..]);
      var ids := AssignedIds(d, adds);
      forall i | 0 <= i < |ids| ensures !HasId(d, ids[i]) {
        assert ids[i] > d.idCounter;
      }
    }
  }
}
