/** The records of a bookmark document and the empty document. */
module Types {

  datatype Bookmark = Bookmark(
    id: int,
    url: string,
    title: string,
    note: string,
    tags: seq<string>,
    lastUpdated: string)

  /** A project refers to bookmarks only through their ids. */
  datatype Project = Project(
    id: int,
    title: string,
    note: string,
    bookmarks: seq<int>,
    lastUpdated: string)

  /** One counter hands out the ids of bookmarks and of projects alike. */
  datatype Data = Data(idCounter: int, projects: seq<Project>, bookmarks: seq<Bookmark>)

  const EmptyData := Data(0, [], [])

  /** What a caller supplies to `addBookmark`: a bookmark without `id` and `lastUpdated`. */
  datatype BookmarkFields = BookmarkFields(url: string, title: string, note: string, tags: seq<string>)

  /** What a caller supplies to `addProject`: a project without `id` and `lastUpdated`. */
  datatype ProjectFields = ProjectFields(title: string, note: string, bookmarks: seq<int>)

  function BookmarkId(b: Bookmark): int { b.id }

  function ProjectId(p: Project): int { p.id }
}
