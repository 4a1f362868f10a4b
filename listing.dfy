/** What `fs.readdirSync(path, { withFileTypes: true })` reports, and the
    release tree the catalog is read from. */
module Listing {

  datatype EntryKind = File | Directory | Other

  /** One directory entry, with its name exactly as stored. */
  datatype Dirent = Dirent(name: string, kind: EntryKind)

  /** The release tree: the listing of `files/`, and the listing of each
      directory `files/<dir>` keyed by `<dir>`, each in the order the file
      system yields it. */
  datatype FileTree = FileTree(root: seq<Dirent>, dirs: map<string, seq<Dirent>>)

  /** A tree a file system produces: the directories that have a listing are
      exactly the directories `files/` lists. */
  ghost predicate WellFormed(fs: FileTree) {
    forall d :: d in fs.dirs <==> Dirent(d, Directory) in fs.root
  }

  /** `.filter(dirent => dirent.isDirectory()).map(dirent => dirent.name)` */
  function DirNames(listing: seq<Dirent>): (names: seq<string>)
    ensures |names| <= |listing|
    ensures forall n :: n in names <==> exists i :: 0 <= i < |listing| && listing[i] == Dirent(n, Directory)
  {
    if listing == [] then []
    else
      var rest := DirNames(listing[1..]);
      assert forall i :: 0 < i < |listing| ==> listing[i] == listing[1..][i - 1];
      if listing[0].kind == Directory then [listing[0].name] + rest else rest
  }

  /** `.filter(dirent => dirent.isFile()).map(dirent => dirent.name)` */
  function FileNames(listing: seq<Dirent>): (names: seq<string>)
    ensures |names| <= |listing|
    ensures forall n :: n in names <==> exists i :: 0 <= i < |listing| && listing[i] == Dirent(n, File)
  {
    if listing == [] then []
    else
      var rest := FileNames(listing[1..]);
      assert forall i :: 0 < i < |listing| ==> listing[i] == listing[1..][i - 1];
      if listing[0].kind == File then [listing[0].name] + rest else rest
  }
}
