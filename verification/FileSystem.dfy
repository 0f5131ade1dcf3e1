/** A snapshot of the filesystem the searches run over, and the two ways the
    controllers enumerate it: the recursive collection of the duplicate search
    and the explicit-stack walk of the plain file search. */
module FileSystem {
  import opened JavaText
  import opened Prefixes

  newtype byte = b: int | 0 <= b < 256

  /** java.time.LocalDate; compared field by field, as isBefore/isAfter do. */
  datatype Date = Date(year: int, month: int, day: int)

  predicate IsBefore(a: Date, b: Date) {
    a.year < b.year
    || (a.year == b.year && a.month < b.month)
    || (a.year == b.year && a.month == b.month && a.day < b.day)
  }

  predicate IsAfter(a: Date, b: Date) {
    IsBefore(b, a)
  }

  lemma DateTrichotomy(a: Date, b: Date)
    ensures IsBefore(a, b) || a == b || IsAfter(a, b)
    ensures !(IsBefore(a, b) && IsAfter(a, b))
    ensures IsBefore(a, b) ==> a != b
  {
  }

  /** What Files.readAttributes yields, already converted to local dates. */
  datatype Attributes = Attributes(created: Date, modified: Date)

  /** A regular file at scan time. `content` is None when the file cannot be
      opened for reading; `attrs` is None when its attributes cannot be read. */
  datatype FileInfo = FileInfo(
    path: string,
    name: string,
    parent: Option<string>,
    size: nat,
    content: Option<seq<byte>>,
    attrs: Option<Attributes>)

  /** An entry of a directory listing. An unlistable directory is one whose
      File.listFiles() yields null (no permission, I/O error). */
  datatype Entry =
    | RegularFile(file: FileInfo)
    | Directory(path: string, listable: bool, children: seq<Entry>)
    | Special(path: string)

  /** A selected root folder as new File(path) sees it; None when nothing exists there. */
  type Root = Option<Entry>

  predicate IsDirectoryRoot(r: Root) {
    r.Some? && r.value.Directory?
  }

  // ------------------------------------------------------------ measures

  function EntrySize(e: Entry): nat
    decreases e
  {
    match e
    case Directory(_, _, es) => 1 + ListSize(es)
    case _ => 1
  }

  function ListSize(es: seq<Entry>): nat
    decreases es
  {
    if es == [] then 0 else EntrySize(es[0]) + ListSize(es[1..])
  }

  lemma {:induction false} ListSizeAppend(a: seq<Entry>, b: seq<Entry>)
    ensures ListSize(a + b) == ListSize(a) + ListSize(b)
  {
    if a == [] {
      assert a + b == b;
    } else {
      assert (a + b)[1..] == a[1..] + b;
      ListSizeAppend(a[1..], b);
    }
  }

  // ------------------------------------------- recursive collection order

  /** The regular files reachable through a list of entries, depth first, in
      listing order; subdirectories are entered only when includeSubfolders
      holds and only when they can be listed. */
  function CollectList(es: seq<Entry>, includeSubfolders: bool): seq<FileInfo>
    decreases es
  {
    if es == [] then []
    else
      (match es[0]
       case RegularFile(f) => [f]
       case Directory(_, listable, children) =>
         if includeSubfolders && listable then CollectList(children, includeSubfolders) else []
       case Special(_) => [])
      + CollectList(es[1..], includeSubfolders)
  }

  /** The files gathered from one folder: nothing when it cannot be listed. */
  function Collected(folder: Entry, includeSubfolders: bool): seq<FileInfo> {
    if folder.Directory? && folder.listable then CollectList(folder.children, includeSubfolders) else []
  }

  lemma {:induction false} CollectListAppend(a: seq<Entry>, b: seq<Entry>, inc: bool)
    ensures CollectList(a + b, inc) == CollectList(a, inc) + CollectList(b, inc)
  {
    if a == [] {
      assert a + b == b;
    } else {
      var ab := a + b;
      assert ab[0] == a[0] && ab[1..] == a[1..] + b;
      CollectListAppend(a[1..], b, inc);
      var head := match a[0]
                  case RegularFile(f) => [f]
                  case Directory(_, listable, children) =>
                    if inc && listable then CollectList(children, inc) else []
                  case Special(_) => [];
      assert CollectList(ab, inc) == head + CollectList(a[1..] + b, inc);
      AppendAssociates(head, CollectList(a[1..], inc), CollectList(b, inc));
    }
  }

  /** The files the duplicate search collects from all selected roots. */
  function CollectRoots(roots: seq<Root>, inc: bool): seq<FileInfo> {
    if roots == [] then []
    else
      CollectRoots(roots[..|roots| - 1], inc)
      + (var r := roots[|roots| - 1]; if IsDirectoryRoot(r) then Collected(r.value, inc) else [])
  }

  // -------------------------------------------------- explicit-stack walk

  /** The regular files directly inside a listing, in order. */
  function FilesIn(es: seq<Entry>): (r: seq<FileInfo>)
    ensures |r| <= |es|
  {
    if es == [] then []
    else FilesIn(es[..|es| - 1]) + (if es[|es| - 1].RegularFile? then [es[|es| - 1].file] else [])
  }

  /** The subdirectories directly inside a listing, in order. */
  function DirsIn(es: seq<Entry>): seq<Entry> {
    if es == [] then []
    else DirsIn(es[..|es| - 1]) + (if es[|es| - 1].Directory? then [es[|es| - 1]] else [])
  }

  /** What one pop of the stack pushes back: the subdirectories of the listing
      (the last one ends on top), or nothing when subfolders are excluded. */
  function Pushed(es: seq<Entry>, inc: bool): seq<Entry> {
    if inc then DirsIn(es) else []
  }

  lemma {:induction false} DirsInSize(es: seq<Entry>)
    ensures ListSize(DirsIn(es)) <= ListSize(es)
  {
    if es != [] {
      var init, last := es[..|es| - 1], es[|es| - 1];
      assert es == init + [last];
      DirsInSize(init);
      ListSizeAppend(init, [last]);
      ListSizeAppend(DirsIn(init), if last.Directory? then [last] else []);
      assert ListSize([last]) == EntrySize(last) by {
        assert [last][1..] == [];
      }
    }
  }

  lemma PopShrinks(stack: seq<Entry>, inc: bool)
    requires stack != []
    ensures var d := stack[|stack| - 1];
            var rest := stack[..|stack| - 1];
            && ListSize(rest) < ListSize(stack)
            && (d.Directory? ==> ListSize(rest + Pushed(d.children, inc)) < ListSize(stack))
  {
    var d, rest := stack[|stack| - 1], stack[..|stack| - 1];
    assert stack == rest + [d];
    ListSizeAppend(rest, [d]);
    assert ListSize([d]) == EntrySize(d) by {
      assert [d][1..] == [];
    }
    if d.Directory? {
      DirsInSize(d.children);
      ListSizeAppend(rest, Pushed(d.children, inc));
    }
  }

  /** The regular files the iterative walk visits, in visiting order, starting
      from the given stack (top at the end): pop a directory, visit the files
      of its listing, push its subdirectories; an unlistable one is skipped. */
  function Walk(stack: seq<Entry>, inc: bool): seq<FileInfo>
    decreases ListSize(stack)
  {
    if stack == [] then []
    else
      var d := stack[|stack| - 1];
      var rest := stack[..|stack| - 1];
      PopShrinks(stack, inc);
      if d.Directory? && d.listable then FilesIn(d.children) + Walk(rest + Pushed(d.children, inc), inc)
      else Walk(rest, inc)
  }

  /** The files the plain search visits over all selected roots. */
  function WalkRoots(roots: seq<Root>, inc: bool): seq<FileInfo> {
    if roots == [] then []
    else
      WalkRoots(roots[..|roots| - 1], inc)
      + (var r := roots[|roots| - 1]; if IsDirectoryRoot(r) then Walk([r.value], inc) else [])
  }

  // ------------------------------------------ both orders, the same files

  /** The files collected from every folder on a stack. */
  function CollectedAll(stack: seq<Entry>, inc: bool): seq<FileInfo> {
    if stack == [] then []
    else CollectedAll(stack[..|stack| - 1], inc) + Collected(stack[|stack| - 1], inc)
  }

  lemma {:induction false} CollectedAllAppend(a: seq<Entry>, b: seq<Entry>, inc: bool)
    ensures CollectedAll(a + b, inc) == CollectedAll(a, inc) + CollectedAll(b, inc)
    decreases |b|
  {
    if b == [] {
      assert a + b == a;
    } else {
      var init, last := b[..|b| - 1], b[|b| - 1];
      var ab := a + b;
      assert ab[..|ab| - 1] == a + init;
      assert ab[|ab| - 1] == last;
      assert CollectedAll(ab, inc) == CollectedAll(a + init, inc) + Collected(last, inc);
      CollectedAllAppend(a, init, inc);
      AppendAssociates(CollectedAll(a, inc), CollectedAll(init, inc), Collected(last, inc));
    }
  }

  lemma CollectSingleton(e: Entry, inc: bool)
    ensures CollectList([e], inc)
         == if e.RegularFile? then [e.file] else if e.Directory? && inc then Collected(e, inc) else []
  {
    assert [e][0] == e;
    assert [e][1..] == [];
  }

  lemma {:induction false} FilesInAppend(a: seq<Entry>, b: seq<Entry>)
    ensures FilesIn(a + b) == FilesIn(a) + FilesIn(b)
    decreases |b|
  {
    if b == [] {
      assert a + b == a;
    } else {
      var init, last := b[..|b| - 1], b[|b| - 1];
      var ab := a + b;
      assert ab[..|ab| - 1] == a + init && ab[|ab| - 1] == last;
      FilesInAppend(a, init);
      AppendAssociates(FilesIn(a), FilesIn(init), if last.RegularFile? then [last.file] else []);
    }
  }

  lemma {:induction false} DirsInAppend(a: seq<Entry>, b: seq<Entry>)
    ensures DirsIn(a + b) == DirsIn(a) + DirsIn(b)
    decreases |b|
  {
    if b == [] {
      assert a + b == a;
    } else {
      var init, last := b[..|b| - 1], b[|b| - 1];
      var ab := a + b;
      assert ab[..|ab| - 1] == a + init && ab[|ab| - 1] == last;
      DirsInAppend(a, init);
      AppendAssociates(DirsIn(a), DirsIn(init), if last.Directory? then [last] else []);
    }
  }

  /** One entry's recursive collection: its own file, or what the folder
      it would push contributes. */
  lemma EntrySplit(e: Entry, inc: bool)
    ensures CollectList([e], inc) == FilesIn([e]) + CollectedAll(Pushed([e], inc), inc)
  {
    CollectSingleton(e, inc);
    assert [e][..0] == [] && [e][0] == e;
    assert FilesIn([e]) == [] + (if e.RegularFile? then [e.file] else []);
    assert DirsIn([e]) == [] + (if e.Directory? then [e] else []);
    if inc && e.Directory? {
      assert Pushed([e], inc) == [e];
      assert CollectedAll([e], inc) == [] + Collected(e, inc);
    }
  }

  /** The three sequences of a listing that starts with e, each split into
      e's part and the rest's part. */
  lemma ListingParts(es: seq<Entry>, inc: bool)
    requires es != []
    ensures var e, rest := es[0], es[1..];
            && CollectList(es, inc) == (FilesIn([e]) + CollectedAll(Pushed([e], inc), inc)) + CollectList(rest, inc)
            && FilesIn(es) == FilesIn([e]) + FilesIn(rest)
            && CollectedAll(Pushed(es, inc), inc) == CollectedAll(Pushed([e], inc), inc) + CollectedAll(Pushed(rest, inc), inc)
  {
    var e, rest := es[0], es[1..];
    assert es == [e] + rest;
    EntrySplit(e, inc);
    CollectListAppend([e], rest, inc);
    FilesInAppend([e], rest);
    if inc {
      DirsInAppend([e], rest);
    }
    CollectedAllAppend(Pushed([e], inc), Pushed(rest, inc), inc);
  }

  lemma MultisetRegroup<T>(fe: seq<T>, ce: seq<T>, rest: seq<T>, fr: seq<T>, cr: seq<T>)
    requires multiset(rest) == multiset(fr) + multiset(cr)
    ensures multiset((fe + ce) + rest) == multiset(fe + fr) + multiset(ce + cr)
  {
  }

  /** A listing's recursive collection splits into its own files and what
      its subdirectories contribute. */
  lemma {:induction false} CollectListSplit(es: seq<Entry>, inc: bool)
    ensures multiset(CollectList(es, inc))
         == multiset(FilesIn(es)) + multiset(CollectedAll(Pushed(es, inc), inc))
    decreases |es|
  {
    if es != [] {
      var e, rest := es[0], es[1..];
      CollectListSplit(rest, inc);
      ListingParts(es, inc);
      MultisetRegroup(FilesIn([e]), CollectedAll(Pushed([e], inc), inc), CollectList(rest, inc),
                      FilesIn(rest), CollectedAll(Pushed(rest, inc), inc));
    }
  }

  /** The explicit-stack walk visits exactly the files the recursive
      collection gathers from the same folders, each as often, in another order. */
  lemma {:induction false} WalkCollectsSameFiles(stack: seq<Entry>, inc: bool)
    ensures multiset(Walk(stack, inc)) == multiset(CollectedAll(stack, inc))
    decreases ListSize(stack)
  {
    if stack != [] {
      var d, rest := stack[|stack| - 1], stack[..|stack| - 1];
      PopShrinks(stack, inc);
      if d.Directory? && d.listable {
        WalkCollectsSameFiles(rest + Pushed(d.children, inc), inc);
        CollectedAllAppend(rest, Pushed(d.children, inc), inc);
        CollectListSplit(d.children, inc);
      } else {
        WalkCollectsSameFiles(rest, inc);
      }
    }
  }

  /** Over the selected roots, the plain search's walk and the duplicate
      search's collection find the same files. */
  lemma {:induction false} WalkRootsMatchesCollectRoots(roots: seq<Root>, inc: bool)
    ensures multiset(WalkRoots(roots, inc)) == multiset(CollectRoots(roots, inc))
  {
    if roots != [] {
      var r := roots[|roots| - 1];
      WalkRootsMatchesCollectRoots(roots[..|roots| - 1], inc);
      if IsDirectoryRoot(r) {
        WalkCollectsSameFiles([r.value], inc);
        assert CollectedAll([r.value], inc) == Collected(r.value, inc) by {
          assert [r.value][..0] == [];
        }
      }
    }
  }
}
