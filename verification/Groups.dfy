/** The small mutable holders of the result views: a group of files sharing
    one hash, and a selectable folder-tree node. Files are identified by
    their path, as java.io.File.equals does. */
module Groups {
  import opened JavaText

  type FilePath = string

  predicate NoDuplicates(xs: seq<FilePath>) {
    forall i, j :: 0 <= i < j < |xs| ==> xs[i] != xs[j]
  }

  /** List.remove(Object): the first occurrence removed, the rest in order. */
  function RemoveFirst(xs: seq<FilePath>, x: FilePath): (r: seq<FilePath>)
    ensures x in xs ==> |r| == |xs| - 1
    ensures x !in xs ==> r == xs
  {
    if xs == [] then []
    else if xs[0] == x then xs[1..]
    else [xs[0]] + RemoveFirst(xs[1..], x)
  }

  /** Removing from a duplicate-free list keeps it duplicate-free and drops
      exactly the removed element. */
  lemma {:induction false} RemoveFirstFromSet(xs: seq<FilePath>, x: FilePath)
    requires NoDuplicates(xs)
    ensures NoDuplicates(RemoveFirst(xs, x))
    ensures forall y :: y in RemoveFirst(xs, x) <==> y in xs && y != x
  {
    if xs != [] && xs[0] != x {
      assert NoDuplicates(xs[1..]);
      RemoveFirstFromSet(xs[1..], x);
      assert xs[0] !in xs[1..];
    }
    if xs != [] && xs[0] == x {
      assert x !in xs[1..];
    }
  }

  /** Removal keeps the order of the other files: what is left is a
      subsequence of what was there. */
  lemma {:induction false} RemoveFirstKeepsOrder(xs: seq<FilePath>, x: FilePath)
    requires x in xs
    ensures exists i :: 0 <= i < |xs| && xs[i] == x && RemoveFirst(xs, x) == xs[..i] + xs[i + 1..]
  {
    if xs[0] == x {
      assert RemoveFirst(xs, x) == xs[..0] + xs[1..];
    } else {
      RemoveFirstKeepsOrder(xs[1..], x);
      var i :| 0 <= i < |xs[1..]| && xs[1..][i] == x && RemoveFirst(xs[1..], x) == xs[1..][..i] + xs[1..][i + 1..];
      assert RemoveFirst(xs, x) == xs[..i + 1] + xs[i + 2..];
    }
  }

  /** DuplicateGroup: a hash and the duplicate-free list of its files. */
  class DuplicateGroup {
    const hash: string
    var files: seq<FilePath>

    predicate Valid()
      reads this
    {
      NoDuplicates(files)
    }

    constructor (hash: string)
      ensures this.hash == hash && files == [] && Valid()
    {
      this.hash := hash;
      files := [];
    }

    /** addFile: null and files already present are refused; a new file is
        appended at the end. */
    method AddFile(file: Option<FilePath>) returns (added: bool)
      requires Valid()
      modifies this
      ensures Valid()
      ensures added <==> file.Some? && file.value !in old(files)
      ensures added ==> files == old(files) + [file.value]
      ensures !added ==> files == old(files)
    {
      if file.None? {
        return false;
      }
      if file.value !in files {
        files := files + [file.value];
        return true;
      }
      return false;
    }

    /** removeFile: true iff the file was there; it is then gone and the
        other files keep their order. */
    method RemoveFile(file: FilePath) returns (removed: bool)
      requires Valid()
      modifies this
      ensures Valid()
      ensures removed <==> file in old(files)
      ensures files == RemoveFirst(old(files), file)
      ensures file !in files
    {
      removed := file in files;
      RemoveFirstFromSet(files, file);
      files := RemoveFirst(files, file);
    }

    /** getFiles: the current list (a read-only view in the source). */
    function GetFiles(): (r: seq<FilePath>)
      reads this
      ensures r == files
    {
      files
    }

    function GetHash(): (r: string)
      ensures r == hash
    {
      hash
    }

    function Size(): (n: nat)
      reads this
      ensures n == |files|
    {
      |files|
    }
  }

  /** new DuplicateGroup(hash): requireNonNull refuses a null hash. */
  method NewDuplicateGroup(hash: Option<string>) returns (g: DuplicateGroup?)
    ensures hash.None? <==> g == null
    ensures g != null ==> fresh(g) && g.hash == hash.value && g.files == [] && g.Valid()
  {
    if hash.None? {
      return null;
    }
    g := new DuplicateGroup(hash.value);
  }

  /** A file of the folder tree: its path and its last name segment. */
  datatype FileRef = FileRef(path: string, name: string)

  /** CheckBoxNode: a folder with a selection flag. */
  class CheckBoxNode {
    const file: FileRef
    var selected: bool

    /** A new node is unselected. */
    constructor (file: FileRef)
      ensures this.file == file && !selected
    {
      this.file := file;
      selected := false;
    }

    function GetFile(): (r: FileRef)
      ensures r == file
    {
      file
    }

    function IsSelected(): bool
      reads this
    {
      selected
    }

    method SetSelected(b: bool)
      modifies this
      ensures IsSelected() == b
    {
      selected := b;
    }

    /** The name, or the whole path for a root whose name is empty. */
    function ToString(): (r: string)
      ensures file.name != [] ==> r == file.name
      ensures file.name == [] ==> r == file.path
    {
      if file.name == [] then file.path else file.name
    }
  }
}
