/** The duplicate search controller: collect the files under the selected
    folders, drop those the length and date options exclude, bucket the rest
    by length, hash every bucket of two or more, and report each set of
    files sharing length and hash, numbered from 1.

    The controller runs on a worker thread while the user may press cancel.
    A cancel request arriving between two checks of the flag is modelled by
    an oracle: `requests(n)` tells whether a request has arrived by the n-th
    check. The two callbacks are modelled by what they have received:
    `found` for resultConsumer, `progress` for progressUpdater. */
module DuplicateSearch {
  import opened JavaText
  import opened FileSystem
  import opened Grouping
  import opened Records
  import opened Options
  import opened DuplicateGrouping
  import opened Progress
  import opened Prefixes

  /** What updateProgress reports while the count goes from `from` up by
      one n times: nothing when total is 0. */
  function Reports(from: nat, n: nat, total: nat): (r: seq<int>)
    ensures |r| == if total == 0 then 0 else n
  {
    if total == 0 || n == 0 then [] else Reports(from, n - 1, total) + [Percent(from + n, total)]
  }

  lemma ReportsAppend(ps: seq<int>, from: nat, n: nat, total: nat)
    ensures ps + Reports(from, n + 1, total)
         == (ps + Reports(from, n, total)) + (if total > 0 then [Percent(from + n + 1, total)] else [])
  {
  }

  /** One more report keeps the reports rising and makes it the last one. */
  lemma ReportsStep(ps: seq<int>, from: nat, n: nat, total: nat)
    requires total > 0 && n > 0
    requires ProgressUpTo(ps + Reports(from, n - 1, total), Percent(from + n - 1, total))
    ensures ProgressUpTo(ps + Reports(from, n, total), Percent(from + n, total))
    ensures EndsAt(ps + Reports(from, n, total), Percent(from + n, total))
  {
    var before := Reports(from, n - 1, total);
    var p := Percent(from + n, total);
    ProgressGrows(ps + before, from + n - 1, from + n, total);
    assert Reports(from, n, total) == before + [p];
    AppendAssociates(ps, before, [p]);
  }

  lemma {:induction false} ReportsRise(ps: seq<int>, from: nat, n: nat, total: nat)
    requires ProgressUpTo(ps, Percent(from, total))
    ensures ProgressUpTo(ps + Reports(from, n, total), Percent(from + n, total))
    ensures n > 0 && total > 0 ==> EndsAt(ps + Reports(from, n, total), Percent(from + n, total))
  {
    if total > 0 && n > 0 {
      ReportsRise(ps, from, n - 1, total);
      ReportsStep(ps, from, n, total);
    } else {
      assert ps + Reports(from, n, total) == ps;
      PercentMonotone(from, from + n, total);
    }
  }

  // -------------------------------------------------------- sequence help

  lemma {:induction false} CollectRootsPrefix(roots: seq<Root>, i: nat, inc: bool)
    requires i <= |roots|
    ensures CollectRoots(roots[..i], inc) <= CollectRoots(roots, inc)
    decreases |roots| - i
  {
    if i < |roots| {
      CollectRootsPrefix(roots, i + 1, inc);
      assert roots[..i + 1][..i] == roots[..i];
      PrefixTransitive(CollectRoots(roots[..i], inc), CollectRoots(roots[..i + 1], inc), CollectRoots(roots, inc));
    } else {
      assert roots[..i] == roots;
    }
  }

  lemma {:induction false} MoreThanOnePrefix(vs: seq<seq<FileInfo>>, k: nat)
    requires k <= |vs|
    ensures MoreThanOne(vs[..k]) <= MoreThanOne(vs)
    decreases |vs| - k
  {
    if k < |vs| {
      MoreThanOnePrefix(vs, k + 1);
      assert vs[..k + 1][..k] == vs[..k];
      PrefixTransitive(MoreThanOne(vs[..k]), MoreThanOne(vs[..k + 1]), MoreThanOne(vs));
    } else {
      assert vs[..k] == vs;
    }
  }

  lemma {:induction false} AllGroupsPrefix(sbs: seq<seq<FileInfo>>, i: nat, md5: seq<byte> -> seq<byte>)
    requires i <= |sbs|
    ensures AllGroups(sbs[..i], md5) <= AllGroups(sbs, md5)
    decreases |sbs| - i
  {
    if i < |sbs| {
      AllGroupsPrefix(sbs, i + 1, md5);
      assert sbs[..i + 1][..i] == sbs[..i];
      PrefixTransitive(AllGroups(sbs[..i], md5), AllGroups(sbs[..i + 1], md5), AllGroups(sbs, md5));
    } else {
      assert sbs[..i] == sbs;
    }
  }

  lemma CollectStep(es: seq<Entry>, i: nat, inc: bool)
    requires i < |es|
    ensures CollectList(es[..i + 1], inc) <= CollectList(es, inc)
    ensures CollectList(es[..i + 1], inc)
         == CollectList(es[..i], inc)
            + (if es[i].RegularFile? then [es[i].file] else if es[i].Directory? && inc then Collected(es[i], inc) else [])
  {
    assert es == es[..i + 1] + es[i + 1..];
    CollectListAppend(es[..i + 1], es[i + 1..], inc);
    assert es[..i + 1] == es[..i] + [es[i]];
    CollectListAppend(es[..i], [es[i]], inc);
    CollectSingleton(es[i], inc);
  }

  lemma CollectWithin(result: seq<FileInfo>, r: seq<FileInfo>, es: seq<Entry>, i: nat, inc: bool)
    requires i < |es| && r <= result + CollectList(es[..i + 1], inc)
    ensures r <= result + CollectList(es, inc)
  {
    CollectStep(es, i, inc);
    PrefixExtend(result, CollectList(es[..i + 1], inc), CollectList(es, inc));
    PrefixTransitive(r, result + CollectList(es[..i + 1], inc), result + CollectList(es, inc));
  }

  /** Reporting bucket k after the buckets before it: a bucket of more than
      one file adds its members under the next number, a smaller one adds
      nothing; either way what has been reported stays a prefix of the full
      report of `vs`. */
  lemma EmitStep(vs: seq<seq<FileInfo>>, k: nat, first: nat)
    requires k < |vs|
    ensures Tag(MoreThanOne(vs[..k]), first) <= Tag(MoreThanOne(vs), first)
    ensures Tag(MoreThanOne(vs[..k + 1]), first) <= Tag(MoreThanOne(vs), first)
    ensures |vs[k]| > 1 ==> && |MoreThanOne(vs[..k + 1])| == |MoreThanOne(vs[..k])| + 1
                            && Tag(MoreThanOne(vs[..k + 1]), first)
                               == Tag(MoreThanOne(vs[..k]), first) + Numbered(vs[k], first + |MoreThanOne(vs[..k])|)
    ensures |vs[k]| <= 1 ==> MoreThanOne(vs[..k + 1]) == MoreThanOne(vs[..k])
  {
    var before := MoreThanOne(vs[..k]);
    assert vs[..k + 1][..k] == vs[..k];
    MoreThanOnePrefix(vs, k);
    MoreThanOnePrefix(vs, k + 1);
    TagPrefix(before, MoreThanOne(vs), first);
    TagPrefix(MoreThanOne(vs[..k + 1]), MoreThanOne(vs), first);
    if |vs[k]| > 1 {
      assert MoreThanOne(vs[..k + 1]) == before + [vs[k]];
      TagAppend(before, [vs[k]], first);
      assert Tag([vs[k]], first + |before|) == Numbered(vs[k], first + |before|) by {
        assert [vs[k]][..0] == [];
      }
    } else {
      assert MoreThanOne(vs[..k + 1]) == before;
    }
  }

  /** EmitStep for a caller that holds the next group number. */
  lemma EmitStepAt(vs: seq<seq<FileInfo>>, k: nat, first: nat, id: nat)
    requires k < |vs| && id == first + |MoreThanOne(vs[..k])|
    ensures Tag(MoreThanOne(vs[..k]), first) <= Tag(MoreThanOne(vs), first)
    ensures Tag(MoreThanOne(vs[..k + 1]), first) <= Tag(MoreThanOne(vs), first)
    ensures |vs[k]| > 1 ==> && first + |MoreThanOne(vs[..k + 1])| == id + 1
                            && Tag(MoreThanOne(vs[..k + 1]), first) == Tag(MoreThanOne(vs[..k]), first) + Numbered(vs[k], id)
    ensures |vs[k]| <= 1 ==> MoreThanOne(vs[..k + 1]) == MoreThanOne(vs[..k])
  {
    EmitStep(vs, k, first);
  }

  /** The groups of the first i + 1 length buckets are those of the first i
      followed by those of bucket i, and a prefix of the groups of all. */
  lemma SizeBucketStep(sbs: seq<seq<FileInfo>>, i: nat, md5: seq<byte> -> seq<byte>)
    requires i < |sbs|
    ensures AllGroups(sbs[..i + 1], md5) == AllGroups(sbs[..i], md5) + BucketGroups(sbs[i], md5)
    ensures AllGroups(sbs[..i + 1], md5) <= AllGroups(sbs, md5)
  {
    assert sbs[..i + 1][..i] == sbs[..i];
    AllGroupsPrefix(sbs, i + 1, md5);
  }

  /** What a search stopped before length bucket i has reported is a
      prefix of the whole report, and its progress stays within 100 %. */
  lemma ReportedSoFar(sbs: seq<seq<FileInfo>>, i: nat, md5: seq<byte> -> seq<byte>, total: nat, ps: seq<int>)
    requires i <= |sbs| && |Flatten(sbs)| == total
    requires ProgressUpTo(ps, Percent(|Flatten(sbs[..i])|, total))
    ensures Tag(AllGroups(sbs[..i], md5), 1) <= Tag(AllGroups(sbs, md5), 1)
    ensures ProgressUpTo(ps, 100)
  {
    FlattenPrefix(sbs, i);
    PercentMonotone(|Flatten(sbs[..i])|, total, total);
    AllGroupsPrefix(sbs, i, md5);
    TagPrefix(AllGroups(sbs[..i], md5), AllGroups(sbs, md5), 1);
  }

  /** Numbering groups a and then b inside a longer list of groups. */
  lemma TagStep(a: seq<seq<FileInfo>>, b: seq<seq<FileInfo>>, all: seq<seq<FileInfo>>, first: nat)
    requires a + b <= all
    ensures Tag(a + b, first) == Tag(a, first) + Tag(b, first + |a|)
    ensures Tag(a, first) <= Tag(all, first) && Tag(a + b, first) <= Tag(all, first)
  {
    TagAppend(a, b, first);
    assert a <= a + b;
    PrefixTransitive(a, a + b, all);
    TagPrefix(a, all, first);
    TagPrefix(a + b, all, first);
  }

  /** Length buckets are never empty and hold every file once. */
  lemma SizeBucketsCover(files: seq<FileInfo>)
    ensures forall i :: 0 <= i < |SizeBuckets(files)| ==> SizeBuckets(files)[i] != []
    ensures |Flatten(SizeBuckets(files))| == |files|
  {
    GroupByIsPartition(files, SizeOf);
    assert |multiset(Flatten(SizeBuckets(files)))| == |multiset(files)|;
    SizeBucketsAreSelections(files);
  }

  // ---------------------------------------------------------- controller

  class DuplicateSearchController {
    /** The volatile cancel flag. */
    var cancelled: bool
    /** How often the flag has been read. */
    var checks: nat
    /** Whether a cancel request has arrived by the n-th read of the flag. */
    const requests: nat -> bool
    const md5: seq<byte> -> seq<byte>
    /** What resultConsumer has received during the current search. */
    var found: seq<Found>
    /** What progressUpdater has received during the current search. */
    var progress: seq<int>

    constructor (requests: nat -> bool, md5: seq<byte> -> seq<byte>)
      ensures this.requests == requests && this.md5 == md5
      ensures !cancelled && checks == 0 && found == [] && progress == []
    {
      this.requests := requests;
      this.md5 := md5;
      cancelled := false;
      checks := 0;
      found := [];
      progress := [];
    }

    /** cancel(): a running search stops at its next check of the flag. */
    method Cancel()
      modifies this`cancelled
      ensures cancelled
    {
      cancelled := true;
    }

    /** One read of the flag; a request that has arrived by now sets it, and
        it stays set. */
    method Poll() returns (c: bool)
      modifies this`cancelled, this`checks
      ensures cancelled == (old(cancelled) || requests(old(checks)))
      ensures c == cancelled && checks == old(checks) + 1
    {
      cancelled := cancelled || requests(checks);
      checks := checks + 1;
      c := cancelled;
    }

    /** updateProgress: nothing for an empty search. */
    method UpdateProgress(processed: nat, total: nat)
      modifies this`progress
      ensures progress == old(progress) + (if total > 0 then [Percent(processed, total)] else [])
    {
      if total > 0 {
        QuotientIsDivision(processed * 100, total);
        progress := progress + [processed * 100 / total];
      }
    }

    /** collectRecursive: appends the files of one folder, depth first; a
        cancelled collection leaves a prefix of them. */
    method CollectRecursive(folder: Entry, result: seq<FileInfo>, inc: bool) returns (r: seq<FileInfo>)
      modifies this`cancelled, this`checks
      ensures result <= r && r <= result + Collected(folder, inc)
      ensures !cancelled ==> r == result + Collected(folder, inc)
      ensures old(cancelled) ==> cancelled
      decreases folder
    {
      r := result;
      var c := Poll();
      if c {
        return;
      }
      if !(folder.Directory? && folder.listable) {
        return;
      }
      var es := folder.children;
      for i := 0 to |es|
        invariant result <= r && r <= result + CollectList(es, inc)
        invariant !cancelled ==> r == result + CollectList(es[..i], inc)
        invariant old(cancelled) ==> cancelled
      {
        c := Poll();
        if c {
          return;
        }
        CollectStep(es, i, inc);
        var f := es[i];
        AppendAssociates(result, CollectList(es[..i], inc),
                         if f.RegularFile? then [f.file] else if f.Directory? && inc then Collected(f, inc) else []);
        if f.RegularFile? {
          r := r + [f.file];
        } else if f.Directory? && inc {
          r := CollectRecursive(f, r, true);
        }
        CollectWithin(result, r, es, i, inc);
      }
      assert es[..|es|] == es;
    }

    /** collectFiles: the files of every selected root that exists and is a
        directory, root after root. */
    method CollectFiles(roots: seq<Root>, inc: bool) returns (result: seq<FileInfo>)
      modifies this`cancelled, this`checks
      ensures result <= CollectRoots(roots, inc)
      ensures !cancelled ==> result == CollectRoots(roots, inc)
      ensures old(cancelled) ==> cancelled
    {
      result := [];
      for i := 0 to |roots|
        invariant result <= CollectRoots(roots[..i], inc)
        invariant !cancelled ==> result == CollectRoots(roots[..i], inc)
        invariant old(cancelled) ==> cancelled
      {
        assert roots[..i + 1][..i] == roots[..i];
        var c := Poll();
        if c {
          CollectRootsPrefix(roots, i, inc);
          PrefixTransitive(result, CollectRoots(roots[..i], inc), CollectRoots(roots, inc));
          return;
        }
        var root := roots[i];
        if root.Some? && root.value.Directory? {
          result := CollectRecursive(root.value, result, inc);
        }
      }
      assert roots[..|roots|] == roots;
    }

    /** The length removeIf: a flag raised before the pass removes every
        file; one first seen mid-pass keeps the verdicts already made and
        removes the rest, so the kept list is a prefix of the full filter. */
    method RemoveBySize(files: seq<FileInfo>, o: SearchOptions) returns (kept: seq<FileInfo>)
      modifies this`cancelled, this`checks
      ensures old(cancelled) ==> cancelled && kept == []
      ensures !cancelled ==> kept == Filter(files, SizeFilter(o))
      ensures kept <= Filter(files, SizeFilter(o))
    {
      kept := [];
      for k := 0 to |files|
        invariant old(cancelled) ==> cancelled && kept == []
        invariant !cancelled ==> kept == Filter(files[..k], SizeFilter(o))
        invariant kept <= Filter(files[..k], SizeFilter(o))
      {
        FilterStep(files, k, SizeFilter(o));
        var c := Poll();
        var size := files[k].size;
        var remove := c
          || (o.minFileSize > 0 && size < o.minFileSize)
          || (o.maxFileSize > 0 && size > o.maxFileSize);
        if !remove {
          kept := kept + [files[k]];
        }
      }
      assert files[..|files|] == files;
    }

    /** The date removeIf: the dates come from a DuplicateSearchModel built
        for each file; a flag raised before the pass removes every file, one
        first seen mid-pass keeps the verdicts already made and removes the
        rest, so the kept list is a prefix of the full filter. */
    method RemoveByDate(files: seq<FileInfo>, o: SearchOptions) returns (kept: seq<FileInfo>)
      modifies this`cancelled, this`checks
      ensures old(cancelled) ==> cancelled && kept == []
      ensures !cancelled ==> kept == Filter(files, DateFilter(o))
      ensures kept <= Filter(files, DateFilter(o))
    {
      kept := [];
      for k := 0 to |files|
        invariant old(cancelled) ==> cancelled && kept == []
        invariant !cancelled ==> kept == Filter(files[..k], DateFilter(o))
        invariant kept <= Filter(files[..k], DateFilter(o))
      {
        FilterStep(files, k, DateFilter(o));
        var c := Poll();
        var remove := true;
        if !c {
          var m := new DuplicateSearchModel(files[k], md5);
          remove := !DateKeeps(o.creationDate, o.fileCreationDateOperator, m.creationDate)
                 || !DateKeeps(o.modificationDate, o.fileModificationDateOperator, m.modificationDate);
        }
        if !remove {
          kept := kept + [files[k]];
        }
      }
      assert files[..|files|] == files;
    }

    /** The bucketing by length; stops at a raised flag. */
    method BucketBySize(files: seq<FileInfo>) returns (sizeGroups: Buckets<nat, FileInfo>, stopped: bool)
      modifies this`cancelled, this`checks
      ensures stopped ==> cancelled
      ensures !stopped ==> sizeGroups == GroupBy(files, SizeOf) && cancelled == old(cancelled)
      ensures !stopped && cancelled ==> files == []
      ensures old(cancelled) ==> cancelled
    {
      sizeGroups := Buckets([], map[]);
      for k := 0 to |files|
        invariant sizeGroups == GroupBy(files[..k], SizeOf)
        invariant cancelled == old(cancelled) && (cancelled ==> k == 0)
      {
        GroupByStep(files, k, SizeOf);
        var c := Poll();
        if c {
          return sizeGroups, true;
        }
        sizeGroups := Add(sizeGroups, files[k].size, files[k]);
      }
      assert files[..|files|] == files;
      stopped := false;
    }

    /** A new model for a file, asked for its hash. */
    method HashFile(file: FileInfo) returns (model: DuplicateSearchModel, hash: string)
      ensures fresh(model) && model.file == file && hash == HashOf(md5, file)
    {
      model := new DuplicateSearchModel(file, md5);
      hash := model.GetFileHash();
    }

    /** File j of a length bucket, after the files before it: the flag is
        checked, a new model hashes the file, the file joins the list of its
        hash and is counted. */
    method HashNext(group: seq<FileInfo>, j: nat, processed0: nat, total: nat,
                    hashGroups: Buckets<string, FileInfo>, ghost base: seq<int>)
        returns (next: Buckets<string, FileInfo>, stopped: bool)
      requires j < |group| && !cancelled
      requires hashGroups == GroupBy(group[..j], HashKey(md5))
      requires progress == base + Reports(processed0, j, total)
      modifies this`cancelled, this`checks, this`progress
      ensures stopped == cancelled
      ensures stopped ==> progress == base + Reports(processed0, j, total)
      ensures !stopped ==> && next == GroupBy(group[..j + 1], HashKey(md5))
                           && progress == base + Reports(processed0, j + 1, total)
    {
      GroupByStep(group, j, HashKey(md5));
      ReportsAppend(base, processed0, j, total);
      next := hashGroups;
      stopped := Poll();
      if stopped {
        return;
      }
      var model, hash := HashFile(group[j]);
      next := Add(hashGroups, hash, model.file);
      UpdateProgress(processed0 + j + 1, total);
    }

    /** The hashing of one length bucket: one new model per file, counted in
        the progress as it is hashed; stops at a raised flag. */
    method HashBucket(group: seq<FileInfo>, processed0: nat, total: nat)
        returns (hashGroups: Buckets<string, FileInfo>, processed: nat, stopped: bool)
      requires !cancelled
      modifies this`cancelled, this`checks, this`progress
      ensures processed0 <= processed <= processed0 + |group|
      ensures progress == old(progress) + Reports(processed0, processed - processed0, total)
      ensures stopped ==> cancelled
      ensures !stopped ==> !cancelled && hashGroups == GroupBy(group, HashKey(md5)) && processed == processed0 + |group|
    {
      ghost var base := progress;
      hashGroups := Buckets([], map[]);
      processed := processed0;
      for j := 0 to |group|
        invariant !cancelled && processed == processed0 + j
        invariant hashGroups == GroupBy(group[..j], HashKey(md5))
        invariant progress == base + Reports(processed0, j, total)
      {
        hashGroups, stopped := HashNext(group, j, processed0, total, hashGroups, base);
        if stopped {
          return;
        }
        processed := processed + 1;
      }
      assert group[..|group|] == group;
      stopped := false;
    }

    /** The report of one hash bucket: each member in turn, all with the
        same number; stops at a raised flag, checked after every file. */
    method EmitGroup(duplicates: seq<FileInfo>, groupId: nat) returns (stopped: bool)
      requires !cancelled
      modifies this`cancelled, this`checks, this`found
      ensures old(found) <= found && found <= old(found) + Numbered(duplicates, groupId)
      ensures stopped ==> cancelled
      ensures !stopped ==> !cancelled && found == old(found) + Numbered(duplicates, groupId)
    {
      for m := 0 to |duplicates|
        invariant !cancelled
        invariant found == old(found) + Numbered(duplicates[..m], groupId)
      {
        assert Numbered(duplicates[..m + 1], groupId) == Numbered(duplicates[..m], groupId) + [Found(duplicates[m], groupId)];
        found := found + [Found(duplicates[m], groupId)];
        var c := Poll();
        if c {
          assert Numbered(duplicates[..m + 1], groupId) <= Numbered(duplicates, groupId);
          PrefixExtend(old(found), Numbered(duplicates[..m + 1], groupId), Numbered(duplicates, groupId));
          return true;
        }
      }
      assert duplicates[..|duplicates|] == duplicates;
      stopped := false;
    }

    /** Hash bucket k of a length bucket, after the buckets before it: the
        flag is checked, then a bucket of more than one file is reported
        under the next number. */
    method EmitNext(hvs: seq<seq<FileInfo>>, k: nat, groupId0: nat, groupId: nat, ghost base: seq<Found>)
        returns (next: nat, stopped: bool)
      requires k < |hvs| && !cancelled
      requires found == base + Tag(MoreThanOne(hvs[..k]), groupId0)
      requires groupId == groupId0 + |MoreThanOne(hvs[..k])|
      modifies this`cancelled, this`checks, this`found
      ensures base <= found && found <= base + Tag(MoreThanOne(hvs), groupId0)
      ensures stopped ==> cancelled
      ensures !stopped ==> && !cancelled
                           && found == base + Tag(MoreThanOne(hvs[..k + 1]), groupId0)
                           && next == groupId0 + |MoreThanOne(hvs[..k + 1])|
    {
      EmitStepAt(hvs, k, groupId0, groupId);
      ghost var done := Tag(MoreThanOne(hvs[..k]), groupId0);
      ghost var all := Tag(MoreThanOne(hvs), groupId0);
      PrefixExtend(base, done, all);
      next := groupId;
      stopped := Poll();
      if stopped {
        return;
      }
      var duplicates := hvs[k];
      if |duplicates| > 1 {
        stopped := EmitBucket(duplicates, groupId, base, done, Tag(MoreThanOne(hvs[..k + 1]), groupId0), all);
        if !stopped {
          next := groupId + 1;
        }
      }
    }

    /** One hash bucket of more than one file reported under its number,
        after the groups done before it: what is reported stays a prefix of
        all groups. */
    method EmitBucket(duplicates: seq<FileInfo>, groupId: nat, ghost base: seq<Found>,
                      ghost done: seq<Found>, ghost after: seq<Found>, ghost all: seq<Found>)
        returns (stopped: bool)
      requires !cancelled && found == base + done
      requires after == done + Numbered(duplicates, groupId) && after <= all
      modifies this`cancelled, this`checks, this`found
      ensures base <= found && found <= base + all
      ensures stopped ==> cancelled
      ensures !stopped ==> !cancelled && found == base + after
    {
      ghost var start := found;
      AppendAssociates(base, done, Numbered(duplicates, groupId));
      PrefixExtend(base, after, all);
      stopped := EmitGroup(duplicates, groupId);
      assert base <= start;
      PrefixTransitive(base, start, found);
      PrefixTransitive(found, base + after, base + all);
    }

    /** The report of one length bucket: every hash bucket of more than one
        file, numbered from groupId0 on, the number advanced after each such
        bucket; stops at a raised flag. */
    method EmitGroups(hvs: seq<seq<FileInfo>>, groupId0: nat) returns (groupId: nat, stopped: bool)
      requires !cancelled
      modifies this`cancelled, this`checks, this`found
      ensures old(found) <= found && found <= old(found) + Tag(MoreThanOne(hvs), groupId0)
      ensures stopped ==> cancelled
      ensures !stopped ==> !cancelled && found == old(found) + Tag(MoreThanOne(hvs), groupId0)
      ensures !stopped ==> groupId == groupId0 + |MoreThanOne(hvs)|
    {
      ghost var base := found;
      groupId := groupId0;
      for k := 0 to |hvs|
        invariant !cancelled
        invariant found == base + Tag(MoreThanOne(hvs[..k]), groupId0)
        invariant groupId == groupId0 + |MoreThanOne(hvs[..k])|
      {
        groupId, stopped := EmitNext(hvs, k, groupId0, groupId, base);
        if stopped {
          return;
        }
      }
      assert hvs[..|hvs|] == hvs;
      stopped := false;
    }

    /** One length bucket of step 5: a bucket of one file is only counted;
        a larger one is hashed file by file and its groups reported; stops
        at a raised flag. */
    method ReportBucket(group: seq<FileInfo>, processed0: nat, total: nat, groupId0: nat)
        returns (processed: nat, groupId: nat, stopped: bool)
      requires !cancelled && group != [] && ProgressUpTo(progress, Percent(processed0, total))
      modifies this
      ensures processed0 <= processed <= processed0 + |group|
      ensures ProgressUpTo(progress, Percent(processed, total))
      ensures old(found) <= found && found <= old(found) + Tag(BucketGroups(group, md5), groupId0)
      ensures stopped ==> cancelled
      ensures !stopped ==> && !cancelled
                           && processed == processed0 + |group|
                           && found == old(found) + Tag(BucketGroups(group, md5), groupId0)
                           && groupId == groupId0 + |BucketGroups(group, md5)|
                           && (total > 0 ==> EndsAt(progress, Percent(processed, total)))
    {
      if |group| < 2 {
        processed := processed0 + |group|;
        ProgressGrows(progress, processed0, processed, total);
        UpdateProgress(processed, total);
        return processed, groupId0, false;
      }
      groupId := groupId0;
      var hashGroups;
      hashGroups, processed, stopped := HashBucket(group, processed0, total);
      ReportsRise(old(progress), processed0, processed - processed0, total);
      if stopped {
        return;
      }
      GroupByValid(group, HashKey(md5));
      groupId, stopped := EmitGroups(Values(hashGroups), groupId0);
    }

    /** Length bucket i of step 5, after the buckets before it have been
        reported: the flag is checked, then the bucket is reported. */
    method ReportNext(sbs: seq<seq<FileInfo>>, i: nat, processed0: nat, groupId0: nat, total: nat)
        returns (processed: nat, groupId: nat, stopped: bool)
      requires i < |sbs| && sbs[i] != [] && |Flatten(sbs)| == total
      requires found == Tag(AllGroups(sbs[..i], md5), 1) && groupId0 == 1 + |AllGroups(sbs[..i], md5)|
      requires processed0 == |Flatten(sbs[..i])|
      requires ProgressUpTo(progress, Percent(processed0, total))
      modifies this
      ensures old(cancelled) ==> stopped && found == old(found)
      ensures stopped ==> && cancelled
                          && found <= Tag(AllGroups(sbs, md5), 1)
                          && ProgressUpTo(progress, 100)
      ensures !stopped ==> && !cancelled
                           && found == Tag(AllGroups(sbs[..i + 1], md5), 1)
                           && groupId == 1 + |AllGroups(sbs[..i + 1], md5)|
                           && processed == |Flatten(sbs[..i + 1])|
                           && ProgressUpTo(progress, Percent(processed, total))
                           && EndsAt(progress, Percent(processed, total))
    {
      processed, groupId := processed0, groupId0;
      stopped := Poll();
      if stopped {
        ReportedSoFar(sbs, i, md5, total, progress);
        return;
      }
      processed, groupId, stopped := ReportAfter(sbs, i, processed0, groupId0, total);
    }

    /** Length bucket i of step 5 reported after the buckets before it: the
        groups found so far stay a prefix of all groups. */
    method ReportAfter(sbs: seq<seq<FileInfo>>, i: nat, processed0: nat, groupId0: nat, total: nat)
        returns (processed: nat, groupId: nat, stopped: bool)
      requires i < |sbs| && sbs[i] != [] && |Flatten(sbs)| == total && !cancelled
      requires found == Tag(AllGroups(sbs[..i], md5), 1) && groupId0 == 1 + |AllGroups(sbs[..i], md5)|
      requires processed0 == |Flatten(sbs[..i])|
      requires ProgressUpTo(progress, Percent(processed0, total))
      modifies this
      ensures stopped ==> && cancelled
                          && found <= Tag(AllGroups(sbs, md5), 1)
                          && ProgressUpTo(progress, 100)
      ensures !stopped ==> && !cancelled
                           && found == Tag(AllGroups(sbs[..i + 1], md5), 1)
                           && groupId == 1 + |AllGroups(sbs[..i + 1], md5)|
                           && processed == |Flatten(sbs[..i + 1])|
                           && ProgressUpTo(progress, Percent(processed, total))
                           && EndsAt(progress, Percent(processed, total))
    {
      FlattenPrefix(sbs, i + 1);
      FlattenPrefix(sbs, i);
      SizeBucketStep(sbs, i, md5);
      ghost var done, groups := AllGroups(sbs[..i], md5), BucketGroups(sbs[i], md5);
      TagStep(done, groups, AllGroups(sbs, md5), 1);
      assert Tag(done + groups, 1) == found + Tag(groups, groupId0);
      processed, groupId, stopped := ReportBucket(sbs[i], processed0, total, groupId0);
      PercentMonotone(processed, total, total);
      if stopped {
        PrefixTransitive(found, Tag(done + groups, 1), Tag(AllGroups(sbs, md5), 1));
      }
    }

    /** Step 5 of the search: the length buckets one after the other. */
    method ReportSizeGroups(sbs: seq<seq<FileInfo>>, total: nat)
      requires forall i :: 0 <= i < |sbs| ==> sbs[i] != []
      requires |Flatten(sbs)| == total
      requires found == [] && progress == []
      modifies this
      ensures found <= Tag(AllGroups(sbs, md5), 1)
      ensures !cancelled ==> found == Tag(AllGroups(sbs, md5), 1)
      ensures old(cancelled) ==> cancelled && found == []
      ensures ProgressUpTo(progress, 100)
      ensures !cancelled && sbs != [] ==> EndsAt(progress, 100)
    {
      var processed := 0;
      var groupId := 1;
      for i := 0 to |sbs|
        invariant cancelled == old(cancelled) && (cancelled ==> found == [])
        invariant found == Tag(AllGroups(sbs[..i], md5), 1)
        invariant groupId == 1 + |AllGroups(sbs[..i], md5)|
        invariant processed == |Flatten(sbs[..i])|
        invariant ProgressUpTo(progress, Percent(processed, total))
        invariant i > 0 ==> EndsAt(progress, Percent(processed, total))
      {
        var stopped;
        processed, groupId, stopped := ReportNext(sbs, i, processed, groupId, total);
        if stopped {
          return;
        }
      }
      assert sbs[..|sbs|] == sbs;
      PercentMonotone(processed, total, total);
    }

    /** Steps 4 and 5 of the search: the surviving files bucketed by length
        and the buckets reported; a search cancelled before reports nothing. */
    method ReportFiles(files: seq<FileInfo>)
      requires found == [] && progress == []
      modifies this
      ensures found <= Report(files, md5)
      ensures !cancelled ==> found == Report(files, md5)
      ensures old(cancelled) ==> cancelled && found == []
      ensures ProgressUpTo(progress, 100)
      ensures !cancelled && files != [] ==> EndsAt(progress, 100)
    {
      var total := |files|;
      var sizeGroups, stopped := BucketBySize(files);
      if stopped {
        return;
      }
      GroupByValid(files, SizeOf);
      SizeBucketsCover(files);
      ReportSizeGroups(Values(sizeGroups), total);
    }

    /** Steps 1 to 3 of the search: the files under the roots, then the
        length and the date options applied, each only when it is set. */
    method CollectSurvivors(o: SearchOptions, roots: seq<Root>) returns (allFiles: seq<FileInfo>)
      modifies this`cancelled, this`checks
      ensures !cancelled ==> allFiles == Survivors(CollectRoots(roots, o.subFolderBoo), o)
      ensures old(cancelled) ==> cancelled
    {
      ghost var collected := CollectRoots(roots, o.subFolderBoo);
      allFiles := CollectFiles(roots, o.subFolderBoo);
      ghost var afterSize := Filter(collected, SizeFilter(o));
      if o.minFileSize > 0 || o.maxFileSize > 0 {
        allFiles := RemoveBySize(allFiles, o);
      } else {
        SizePassIdle(allFiles, o);
        SizePassIdle(collected, o);
      }
      if o.creationDate.Some? || o.modificationDate.Some? {
        allFiles := RemoveByDate(allFiles, o);
      } else {
        DatePassIdle(allFiles, o);
        DatePassIdle(afterSize, o);
      }
    }

    /** searchDuplicates: a search that runs to the end reports exactly the
        duplicate groups of the files that pass the options, numbered from 1;
        a cancelled one reports a prefix of that. Progress never goes down,
        stays within 0..100 and ends at 100 when there was anything to do. */
    method SearchDuplicates(options: DuplicateSearchOptionsModel, roots: seq<Root>)
      modifies this
      ensures found <= Expected(roots, options.base.Value(), md5)
      ensures !cancelled ==> found == Expected(roots, options.base.Value(), md5)
      ensures ProgressUpTo(progress, 100)
      ensures var o := options.base.Value();
              !cancelled && Survivors(CollectRoots(roots, o.subFolderBoo), o) != [] ==> EndsAt(progress, 100)
    {
      cancelled := false;
      found := [];
      progress := [];
      var o := options.base.Value();
      var allFiles := CollectSurvivors(o, roots);
      ReportFiles(allFiles);
    }
  }
}
