/** What the duplicate search reports, as functions of what it has collected:
    the two removeIf filters, the grouping by length, the grouping of each
    length bucket by hash, and the numbering of the groups that hold more
    than one file. DuplicateSearch.dfy proves the controller computes this. */
module DuplicateGrouping {
  import opened JavaText
  import opened FileSystem
  import opened Grouping
  import opened Records
  import opened Options
  import opened Prefixes

  // ------------------------------------------------------------- filters

  /** safe(s): null read as the empty string. */
  function Safe(s: Option<string>): string {
    if s.None? then "" else s.value
  }

  /** The length filter, on raw byte counts; a zero bound is no bound. */
  predicate KeepsSize(o: SearchOptions, f: FileInfo) {
    !(o.minFileSize > 0 && f.size < o.minFileSize) && !(o.maxFileSize > 0 && f.size > o.maxFileSize)
  }

  /** The comparison one of the five operators asks for; any other text,
      the empty string of a null operator included, asks for nothing. */
  predicate OperatorHolds(op: string, d: Date, filter: Date) {
    if op == "<" then IsBefore(d, filter)
    else if op == "<=" then !IsAfter(d, filter)
    else if op == "=" then d == filter
    else if op == ">=" then !IsBefore(d, filter)
    else if op == ">" then IsAfter(d, filter)
    else true
  }

  /** One date condition: with a filter date set, a file without that date
      is removed, and so is one on the wrong side of the filter. */
  predicate DateKeeps(filter: Option<Date>, op: Option<string>, fileDate: Option<Date>) {
    filter.None? || (fileDate.Some? && OperatorHolds(Safe(op), fileDate.value, filter.value))
  }

  /** The dates a DuplicateSearchModel built for f reports. */
  function CreatedOf(f: FileInfo): Option<Date> {
    if f.attrs.Some? then Some(f.attrs.value.created) else None
  }

  function ModifiedOf(f: FileInfo): Option<Date> {
    if f.attrs.Some? then Some(f.attrs.value.modified) else None
  }

  predicate KeepsDates(o: SearchOptions, f: FileInfo) {
    && DateKeeps(o.creationDate, o.fileCreationDateOperator, CreatedOf(f))
    && DateKeeps(o.modificationDate, o.fileModificationDateOperator, ModifiedOf(f))
  }

  function SizeFilter(o: SearchOptions): FileInfo -> bool {
    f => KeepsSize(o, f)
  }

  function DateFilter(o: SearchOptions): FileInfo -> bool {
    f => KeepsDates(o, f)
  }

  /** The collected files that survive both removeIf passes, in order. */
  function Survivors(files: seq<FileInfo>, o: SearchOptions): seq<FileInfo> {
    Filter(Filter(files, SizeFilter(o)), DateFilter(o))
  }

  /** A file survives iff it was collected and passes the length and both
      date conditions. */
  lemma SurvivorsExactly(files: seq<FileInfo>, o: SearchOptions, f: FileInfo)
    ensures f in Survivors(files, o) <==> f in files && KeepsSize(o, f) && KeepsDates(o, f)
  {
    FilterMembers(Filter(files, SizeFilter(o)), DateFilter(o), f);
    FilterMembers(files, SizeFilter(o), f);
  }

  /** With both bounds zero the length pass would remove nothing, which is
      why the source skips it. */
  lemma SizePassIdle(files: seq<FileInfo>, o: SearchOptions)
    requires o.minFileSize == 0 && o.maxFileSize == 0
    ensures Filter(files, SizeFilter(o)) == files
  {
    FilterAll(files, SizeFilter(o));
  }

  /** With no filter date set the date pass would remove nothing. */
  lemma DatePassIdle(files: seq<FileInfo>, o: SearchOptions)
    requires o.creationDate.None? && o.modificationDate.None?
    ensures Filter(files, DateFilter(o)) == files
  {
    FilterAll(files, DateFilter(o));
  }

  // ------------------------------------------------------------ grouping

  function SizeOf(f: FileInfo): nat {
    f.size
  }

  function HashKey(md5: seq<byte> -> seq<byte>): FileInfo -> string {
    f => HashOf(md5, f)
  }

  /** The files among `files` with f's length and f's hash string, in order. */
  function ClassOf(files: seq<FileInfo>, md5: seq<byte> -> seq<byte>, f: FileInfo): seq<FileInfo> {
    SelectBoth(files, SizeOf, HashKey(md5), f.size, HashOf(md5, f))
  }

  /** f has at least one other copy (a second file, or the same file
      collected twice) of its length and hash. */
  function Duplicated(files: seq<FileInfo>, md5: seq<byte> -> seq<byte>): FileInfo -> bool {
    f => |ClassOf(files, md5, f)| >= 2
  }

  /** sizeGroups.values(): the files bucketed by length. */
  function SizeBuckets(files: seq<FileInfo>): seq<seq<FileInfo>> {
    GroupByValid(files, SizeOf);
    Values(GroupBy(files, SizeOf))
  }

  /** hashGroups.values() for one length bucket. */
  function HashBuckets(bucket: seq<FileInfo>, md5: seq<byte> -> seq<byte>): seq<seq<FileInfo>> {
    GroupByValid(bucket, HashKey(md5));
    Values(GroupBy(bucket, HashKey(md5)))
  }

  /** The buckets with more than one member, in order. */
  function MoreThanOne(vs: seq<seq<FileInfo>>): (r: seq<seq<FileInfo>>)
    ensures |r| <= |vs|
    ensures forall j :: 0 <= j < |r| ==> |r[j]| > 1
  {
    if vs == [] then []
    else MoreThanOne(vs[..|vs| - 1]) + (if |vs[|vs| - 1]| > 1 then [vs[|vs| - 1]] else [])
  }

  /** The groups one length bucket contributes; a bucket of one file is
      not hashed at all. */
  function BucketGroups(bucket: seq<FileInfo>, md5: seq<byte> -> seq<byte>): (r: seq<seq<FileInfo>>)
    ensures forall j :: 0 <= j < |r| ==> |r[j]| > 1
  {
    if |bucket| < 2 then [] else MoreThanOne(HashBuckets(bucket, md5))
  }

  /** The groups of a sequence of length buckets, bucket after bucket. */
  function AllGroups(sbs: seq<seq<FileInfo>>, md5: seq<byte> -> seq<byte>): (r: seq<seq<FileInfo>>)
    ensures forall j :: 0 <= j < |r| ==> |r[j]| > 1
  {
    if sbs == [] then []
    else AllGroups(sbs[..|sbs| - 1], md5) + BucketGroups(sbs[|sbs| - 1], md5)
  }

  /** The duplicate groups of a list of files, in reporting order. */
  function DuplicateGroups(files: seq<FileInfo>, md5: seq<byte> -> seq<byte>): seq<seq<FileInfo>> {
    AllGroups(SizeBuckets(files), md5)
  }

  // ----------------------------------------------------------- numbering

  /** One call of resultConsumer.accept(model, groupId). */
  datatype Found = Found(file: FileInfo, groupId: nat)

  function Numbered(g: seq<FileInfo>, id: nat): (r: seq<Found>)
    ensures |r| == |g|
    ensures forall i :: 0 <= i < |r| ==> r[i] == Found(g[i], id)
  {
    seq(|g|, i requires 0 <= i < |g| => Found(g[i], id))
  }

  /** The groups reported one after the other, the first with number
      `first` and every further one with the next number. */
  function Tag(gs: seq<seq<FileInfo>>, first: nat): seq<Found> {
    if gs == [] then []
    else Tag(gs[..|gs| - 1], first) + Numbered(gs[|gs| - 1], first + |gs| - 1)
  }

  /** Where group j starts among the reported files. */
  function Offset(gs: seq<seq<FileInfo>>, j: nat): nat
    requires j <= |gs|
  {
    |Flatten(gs[..j])|
  }

  /** Everything the search reports for the files that survive the filters. */
  function Report(files: seq<FileInfo>, md5: seq<byte> -> seq<byte>): seq<Found> {
    Tag(DuplicateGroups(files, md5), 1)
  }

  /** Everything a search over the given roots reports when it is not cancelled. */
  function Expected(roots: seq<Root>, o: SearchOptions, md5: seq<byte> -> seq<byte>): seq<Found> {
    Report(Survivors(CollectRoots(roots, o.subFolderBoo), o), md5)
  }

  // ------------------------------------------------ the buckets are classes

  predicate IsSizeBucket(files: seq<FileInfo>, b: seq<FileInfo>) {
    b != [] && b == Select(files, SizeOf, b[0].size)
  }

  predicate IsHashBucket(bucket: seq<FileInfo>, md5: seq<byte> -> seq<byte>, v: seq<FileInfo>) {
    v != [] && v == Select(bucket, HashKey(md5), HashOf(md5, v[0]))
  }

  lemma SizeBucketsAreSelections(files: seq<FileInfo>)
    ensures forall i :: 0 <= i < |SizeBuckets(files)| ==> IsSizeBucket(files, SizeBuckets(files)[i])
  {
    var b := GroupBy(files, SizeOf);
    GroupBySelects(files, SizeOf);
    GroupByValid(files, SizeOf);
    forall i | 0 <= i < |SizeBuckets(files)|
      ensures IsSizeBucket(files, SizeBuckets(files)[i])
    {
      var k := b.keys[i];
      SelectHasKey(files, SizeOf, k);
    }
  }

  lemma HashBucketsAreSelections(bucket: seq<FileInfo>, md5: seq<byte> -> seq<byte>)
    ensures forall i :: 0 <= i < |HashBuckets(bucket, md5)| ==> IsHashBucket(bucket, md5, HashBuckets(bucket, md5)[i])
  {
    var b := GroupBy(bucket, HashKey(md5));
    GroupBySelects(bucket, HashKey(md5));
    GroupByValid(bucket, HashKey(md5));
    forall i | 0 <= i < |HashBuckets(bucket, md5)|
      ensures IsHashBucket(bucket, md5, HashBuckets(bucket, md5)[i])
    {
      var k := b.keys[i];
      SelectHasKey(bucket, HashKey(md5), k);
    }
  }

  /** Every member of a hash bucket of a length bucket has that bucket as
      its class. */
  lemma BucketIsClass(files: seq<FileInfo>, md5: seq<byte> -> seq<byte>, b: seq<FileInfo>, v: seq<FileInfo>, m: FileInfo)
    requires IsSizeBucket(files, b) && IsHashBucket(b, md5, v) && m in v
    ensures m in b
    ensures ClassOf(files, md5, m) == v
  {
    SelectMembers(b, HashKey(md5), HashOf(md5, v[0]), m);
    SelectMembers(files, SizeOf, b[0].size, m);
    SelectTwice(files, SizeOf, HashKey(md5), m.size, HashOf(md5, m));
  }

  lemma {:induction false} MoreThanOneMembers(vs: seq<seq<FileInfo>>, g: seq<FileInfo>)
    requires g in MoreThanOne(vs)
    ensures g in vs && |g| > 1
  {
    var init := vs[..|vs| - 1];
    if g in MoreThanOne(init) {
      MoreThanOneMembers(init, g);
    }
  }

  lemma {:induction false} AllGroupsMembers(sbs: seq<seq<FileInfo>>, md5: seq<byte> -> seq<byte>, g: seq<FileInfo>)
    requires g in AllGroups(sbs, md5)
    ensures exists i :: 0 <= i < |sbs| && g in BucketGroups(sbs[i], md5)
  {
    var init := sbs[..|sbs| - 1];
    if g in AllGroups(init, md5) {
      AllGroupsMembers(init, md5, g);
      var i :| 0 <= i < |init| && g in BucketGroups(init[i], md5);
      assert sbs[i] == init[i];
    } else {
      assert g in BucketGroups(sbs[|sbs| - 1], md5);
    }
  }

  /** Every reported group has at least two members and is exactly the list
      of collected files with its first member's length and hash, in order. */
  lemma GroupsAreClasses(files: seq<FileInfo>, md5: seq<byte> -> seq<byte>)
    ensures forall j :: 0 <= j < |DuplicateGroups(files, md5)| ==>
              var g := DuplicateGroups(files, md5)[j];
              |g| >= 2 && g == ClassOf(files, md5, g[0])
  {
    var sbs := SizeBuckets(files);
    SizeBucketsAreSelections(files);
    forall j | 0 <= j < |DuplicateGroups(files, md5)|
      ensures var g := DuplicateGroups(files, md5)[j];
              |g| >= 2 && g == ClassOf(files, md5, g[0])
    {
      var g := DuplicateGroups(files, md5)[j];
      AllGroupsMembers(sbs, md5, g);
      var i :| 0 <= i < |sbs| && g in BucketGroups(sbs[i], md5);
      var b := sbs[i];
      MoreThanOneMembers(HashBuckets(b, md5), g);
      HashBucketsAreSelections(b, md5);
      var k :| 0 <= k < |HashBuckets(b, md5)| && HashBuckets(b, md5)[k] == g;
      BucketIsClass(files, md5, b, g, g[0]);
    }
  }

  /** The members of one group all have the same length, and either all
      are unreadable or all have the same MD5 digest. */
  lemma GroupMembersAreDuplicates(files: seq<FileInfo>, md5: seq<byte> -> seq<byte>, j: nat, m: FileInfo)
    requires j < |DuplicateGroups(files, md5)| && m in DuplicateGroups(files, md5)[j]
    ensures var first := DuplicateGroups(files, md5)[j][0];
            && m in files
            && m.size == first.size
            && ((m.content.None? && first.content.None?)
                || (m.content.Some? && first.content.Some? && md5(m.content.value) == md5(first.content.value)))
  {
    var g := DuplicateGroups(files, md5)[j];
    GroupsAreClasses(files, md5);
    SelectTwice(files, SizeOf, HashKey(md5), g[0].size, HashOf(md5, g[0]));
    SelectMembers(Select(files, SizeOf, g[0].size), HashKey(md5), HashOf(md5, g[0]), m);
    SelectMembers(files, SizeOf, g[0].size, m);
    SameHashString(md5, m, g[0]);
  }

  // ---------------------------------------- what is reported, and how often

  /** Keeping the buckets of more than one member keeps exactly the members
      of duplicated classes, when each bucket is a whole class. */
  lemma {:induction false} MoreThanOneIsFilter(vs: seq<seq<FileInfo>>, p: FileInfo -> bool)
    requires forall k, m :: 0 <= k < |vs| && m in vs[k] ==> (p(m) <==> |vs[k]| > 1)
    ensures Flatten(MoreThanOne(vs)) == Filter(Flatten(vs), p)
  {
    if vs != [] {
      var init, v := vs[..|vs| - 1], vs[|vs| - 1];
      MoreThanOneIsFilter(init, p);
      FlattenAppend(MoreThanOne(init), if |v| > 1 then [v] else []);
      FilterAppend(Flatten(init), v, p);
      if |v| > 1 {
        FilterAll(v, p);
        assert Flatten([v]) == v by {
          assert [v][..0] == [];
        }
      } else {
        FilterNone(v, p);
      }
    }
  }

  /** A length bucket of one file holds no duplicated file. */
  lemma SingleBucketNotDuplicated(files: seq<FileInfo>, md5: seq<byte> -> seq<byte>, b: seq<FileInfo>)
    requires IsSizeBucket(files, b) && |b| < 2
    ensures forall f :: f in b ==> !Duplicated(files, md5)(f)
  {
    forall f | f in b
      ensures !Duplicated(files, md5)(f)
    {
      SelectMembers(files, SizeOf, b[0].size, f);
      SelectTwice(files, SizeOf, HashKey(md5), f.size, HashOf(md5, f));
    }
  }

  /** In a bucket of two or more, the groups are the duplicated files of the
      bucket, in hash-bucket order. */
  lemma LargeBucketGroups(files: seq<FileInfo>, md5: seq<byte> -> seq<byte>, b: seq<FileInfo>)
    requires IsSizeBucket(files, b) && |b| >= 2
    ensures Flatten(BucketGroups(b, md5)) == Filter(Flatten(HashBuckets(b, md5)), Duplicated(files, md5))
  {
    var p := Duplicated(files, md5);
    var hv := HashBuckets(b, md5);
    HashBucketsAreSelections(b, md5);
    forall k, m | 0 <= k < |hv| && m in hv[k]
      ensures p(m) <==> |hv[k]| > 1
    {
      BucketIsClass(files, md5, b, hv[k], m);
    }
    MoreThanOneIsFilter(hv, p);
  }

  /** One length bucket contributes each of its files as often as it occurs
      in the bucket when the file is duplicated, and not at all otherwise. */
  lemma BucketGroupsCount(files: seq<FileInfo>, md5: seq<byte> -> seq<byte>, b: seq<FileInfo>)
    requires IsSizeBucket(files, b)
    ensures forall f :: multiset(Flatten(BucketGroups(b, md5)))[f]
                        == if Duplicated(files, md5)(f) then multiset(b)[f] else 0
  {
    var p := Duplicated(files, md5);
    if |b| < 2 {
      SingleBucketNotDuplicated(files, md5, b);
      assert BucketGroups(b, md5) == [];
      forall f
        ensures multiset(Flatten(BucketGroups(b, md5)))[f] == if p(f) then multiset(b)[f] else 0
      {
        if f in b {
          assert !p(f);
        }
      }
    } else {
      var hv := HashBuckets(b, md5);
      LargeBucketGroups(files, md5, b);
      GroupByIsPartition(b, HashKey(md5));
      forall f
        ensures multiset(Flatten(BucketGroups(b, md5)))[f] == if p(f) then multiset(b)[f] else 0
      {
        FilterCount(Flatten(hv), p, f);
      }
    }
  }

  lemma {:induction false} AllGroupsCount(files: seq<FileInfo>, md5: seq<byte> -> seq<byte>, sbs: seq<seq<FileInfo>>)
    requires forall i :: 0 <= i < |sbs| ==> IsSizeBucket(files, sbs[i])
    ensures forall f :: multiset(Flatten(AllGroups(sbs, md5)))[f]
                        == if Duplicated(files, md5)(f) then multiset(Flatten(sbs))[f] else 0
  {
    if sbs != [] {
      var init, b := sbs[..|sbs| - 1], sbs[|sbs| - 1];
      AllGroupsCount(files, md5, init);
      BucketGroupsCount(files, md5, b);
      FlattenAppend(AllGroups(init, md5), BucketGroups(b, md5));
    }
  }

  /** The groups, laid end to end, hold every collected file whose class
      has at least two members exactly as often as it was collected, and no
      other file. */
  lemma GroupsCoverDuplicates(files: seq<FileInfo>, md5: seq<byte> -> seq<byte>)
    ensures forall f :: multiset(Flatten(DuplicateGroups(files, md5)))[f]
                        == if |ClassOf(files, md5, f)| >= 2 then multiset(files)[f] else 0
  {
    SizeBucketsAreSelections(files);
    AllGroupsCount(files, md5, SizeBuckets(files));
    GroupByIsPartition(files, SizeOf);
    assert forall f :: Duplicated(files, md5)(f) == (|ClassOf(files, md5, f)| >= 2);
  }

  // ------------------------------------------------------ group numbers

  lemma {:induction false} TagAppend(a: seq<seq<FileInfo>>, b: seq<seq<FileInfo>>, first: nat)
    ensures Tag(a + b, first) == Tag(a, first) + Tag(b, first + |a|)
    decreases |b|
  {
    if b == [] {
      assert a + b == a;
    } else {
      var init, last := b[..|b| - 1], b[|b| - 1];
      var ab := a + b;
      assert ab[..|ab| - 1] == a + init && ab[|ab| - 1] == last;
      TagAppend(a, init, first);
      AppendAssociates(Tag(a, first), Tag(init, first + |a|), Numbered(last, first + |a| + |b| - 1));
    }
  }

  lemma TagPrefix(a: seq<seq<FileInfo>>, b: seq<seq<FileInfo>>, first: nat)
    requires a <= b
    ensures Tag(a, first) <= Tag(b, first)
  {
    assert b == a + b[|a|..];
    TagAppend(a, b[|a|..], first);
  }

  /** The reported files, in order, are the groups laid end to end. */
  lemma {:induction false} TagFiles(gs: seq<seq<FileInfo>>, first: nat)
    ensures |Tag(gs, first)| == |Flatten(gs)|
    ensures forall k :: 0 <= k < |Tag(gs, first)| ==> Tag(gs, first)[k].file == Flatten(gs)[k]
  {
    if gs != [] {
      TagFiles(gs[..|gs| - 1], first);
    }
  }

  /** Numbers run from `first` up by one from one reported file to the
      next, and end at the number of the last group. */
  lemma {:induction false} TagSteps(gs: seq<seq<FileInfo>>, first: nat)
    requires forall j :: 0 <= j < |gs| ==> gs[j] != []
    ensures var t := Tag(gs, first);
            && (forall k :: 0 <= k < |t| ==> first <= t[k].groupId < first + |gs|)
            && (forall k :: 0 < k < |t| ==> t[k - 1].groupId <= t[k].groupId <= t[k - 1].groupId + 1)
            && (t != [] ==> t[0].groupId == first && t[|t| - 1].groupId == first + |gs| - 1)
  {
    if gs != [] {
      var init := gs[..|gs| - 1];
      TagSteps(init, first);
      var ti := Tag(init, first);
      var t := Tag(gs, first);
      assert t == ti + Numbered(gs[|gs| - 1], first + |gs| - 1);
      if ti != [] {
        assert ti[0] == t[0];
        assert t[|ti|].groupId == first + |gs| - 1;
      }
    }
  }

  /** Group j is reported as one run of its members, all numbered first + j. */
  lemma {:induction false} TagRuns(gs: seq<seq<FileInfo>>, first: nat)
    ensures var t := Tag(gs, first);
            forall j :: 0 <= j < |gs| ==>
              Offset(gs, j) + |gs[j]| <= |t| && t[Offset(gs, j)..Offset(gs, j) + |gs[j]|] == Numbered(gs[j], first + j)
  {
    if gs != [] {
      var init, g := gs[..|gs| - 1], gs[|gs| - 1];
      TagRuns(init, first);
      TagFiles(init, first);
      var ti := Tag(init, first);
      var t := Tag(gs, first);
      var n := Numbered(g, first + |gs| - 1);
      assert t == ti + n;
      forall j | 0 <= j < |gs|
        ensures Offset(gs, j) + |gs[j]| <= |t| && t[Offset(gs, j)..Offset(gs, j) + |gs[j]|] == Numbered(gs[j], first + j)
      {
        if j < |init| {
          assert gs[..j] == init[..j];
          assert gs[j] == init[j];
          assert t[Offset(gs, j)..Offset(gs, j) + |gs[j]|] == ti[Offset(init, j)..Offset(init, j) + |init[j]|];
        } else {
          assert gs[..j] == init;
          assert t[Offset(gs, j)..Offset(gs, j) + |gs[j]|] == n;
        }
      }
    }
  }

  /** The report of a search that runs to the end numbers its groups 1, 2,
      ... without gaps, and reports group j as one run of its members, all
      numbered j + 1 (the groups themselves are GroupsAreClasses'). */
  lemma ReportNumbering(files: seq<FileInfo>, md5: seq<byte> -> seq<byte>)
    ensures var gs := DuplicateGroups(files, md5);
            var r := Report(files, md5);
            && (forall k :: 0 <= k < |r| ==> 1 <= r[k].groupId <= |gs|)
            && (forall k :: 0 < k < |r| ==> r[k - 1].groupId <= r[k].groupId <= r[k - 1].groupId + 1)
            && (r != [] ==> r[0].groupId == 1 && r[|r| - 1].groupId == |gs|)
            && (forall j :: 0 <= j < |gs| ==>
                  Offset(gs, j) + |gs[j]| <= |r| && r[Offset(gs, j)..Offset(gs, j) + |gs[j]|] == Numbered(gs[j], 1 + j))
  {
    var gs := DuplicateGroups(files, md5);
    assert Report(files, md5) == Tag(gs, 1);
    TagSteps(gs, 1);
    TagRuns(gs, 1);
  }
}
