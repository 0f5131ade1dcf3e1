/** The plain file search: a counting walk that fixes the total, then an
    explicit-stack walk over every selected root that counts each regular
    file, reports the ones passing the filter and drives a throttled
    percentage display. */
module FileSearch {
  import opened JavaText
  import opened FileSystem
  import opened Grouping
  import opened Records
  import opened Options
  import opened Progress
  import opened Prefixes
  import opened FileSearchFilter

  // ------------------------------------------------- what gets reported

  /** The records the result consumer receives for a run of visited files
      under a filter. */
  function Hits(files: seq<FileInfo>, keep: FileInfo -> bool): seq<FileSearchModel> {
    if files == [] then []
    else
      var last := files[|files| - 1];
      Hits(files[..|files| - 1], keep) + (if keep(last) then [NewFileSearchModel(last)] else [])
  }

  lemma {:induction false} HitsAppend(a: seq<FileInfo>, b: seq<FileInfo>, keep: FileInfo -> bool)
    ensures Hits(a + b, keep) == Hits(a, keep) + Hits(b, keep)
    decreases |b|
  {
    if b == [] {
      assert a + b == a;
    } else {
      var init, last := b[..|b| - 1], b[|b| - 1];
      var ab := a + b;
      assert ab[..|ab| - 1] == a + init && ab[|ab| - 1] == last;
      HitsAppend(a, init, keep);
      AppendAssociates(Hits(a, keep), Hits(init, keep), if keep(last) then [NewFileSearchModel(last)] else []);
    }
  }

  /** A visited prefix reports a prefix of the results. */
  lemma HitsPrefix(a: seq<FileInfo>, b: seq<FileInfo>, keep: FileInfo -> bool)
    requires a <= b
    ensures Hits(a, keep) <= Hits(b, keep)
  {
    assert b == a + b[|a|..];
    HitsAppend(a, b[|a|..], keep);
  }

  /** The results are the records of exactly the visited files that pass
      the filter, in visiting order. */
  lemma {:induction false} HitsAreMatches(files: seq<FileInfo>, keep: FileInfo -> bool)
    ensures var passing := Filter(files, keep);
            && |Hits(files, keep)| == |passing|
            && forall i :: 0 <= i < |passing| ==> Hits(files, keep)[i] == NewFileSearchModel(passing[i])
  {
    if files != [] {
      HitsAreMatches(files[..|files| - 1], keep);
    }
  }

  // ------------------------------------------------- steps of the walks

  lemma ListingStep(es: seq<Entry>, i: nat, inc: bool)
    requires i < |es|
    ensures FilesIn(es[..i + 1]) == FilesIn(es[..i]) + (if es[i].RegularFile? then [es[i].file] else [])
    ensures Pushed(es[..i + 1], inc) == Pushed(es[..i], inc) + (if inc && es[i].Directory? then [es[i]] else [])
  {
    assert es[..i + 1][..i] == es[..i];
  }

  /** Stopping inside a listing leaves a prefix of what the walk would visit. */
  lemma StoppedWithin(before: seq<FileInfo>, files: seq<FileInfo>, v: seq<FileInfo>, after: seq<FileInfo>)
    requires |v| <= |files| && v == files[..|v|]
    ensures before + v <= before + files + after
  {
    assert v <= files + after;
    PrefixExtend(before, v, files + after);
    AppendAssociates(before, files, after);
  }

  /** Finishing the listing of a popped folder completes one step of Walk. */
  lemma ListingDone(before: seq<FileInfo>, popped: seq<Entry>, inc: bool)
    requires popped != [] && popped[|popped| - 1].Directory? && popped[|popped| - 1].listable
    ensures var d := popped[|popped| - 1];
            (before + FilesIn(d.children)) + Walk(popped[..|popped| - 1] + Pushed(d.children, inc), inc)
            == before + Walk(popped, inc)
  {
    var d := popped[|popped| - 1];
    AppendAssociates(before, FilesIn(d.children), Walk(popped[..|popped| - 1] + Pushed(d.children, inc), inc));
  }

  lemma WalkRootsStep(roots: seq<Root>, k: nat, inc: bool)
    requires k < |roots|
    ensures WalkRoots(roots[..k + 1], inc)
         == WalkRoots(roots[..k], inc) + (if IsDirectoryRoot(roots[k]) then Walk([roots[k].value], inc) else [])
  {
    assert roots[..k + 1][..k] == roots[..k];
  }

  lemma {:induction false} WalkRootsPrefix(roots: seq<Root>, k: nat, inc: bool)
    requires k <= |roots|
    ensures WalkRoots(roots[..k], inc) <= WalkRoots(roots, inc)
    decreases |roots| - k
  {
    if k == |roots| {
      assert roots[..k] == roots;
    } else {
      WalkRootsStep(roots, k, inc);
      WalkRootsPrefix(roots, k + 1, inc);
      PrefixTransitive(WalkRoots(roots[..k], inc), WalkRoots(roots[..k + 1], inc), WalkRoots(roots, inc));
    }
  }

  // ----------------------------------------------------- the display

  /** The percentages shown so far and the one remembered as last shown:
      nothing and -1 before the first showing, otherwise the last element. */
  ghost predicate Shown(ps: seq<int>, last: int) {
    (ps == [] && last == -1) || EndsAt(ps, last)
  }

  /** Moreover they never go down and start at 0 or above. */
  ghost predicate Rising(ps: seq<int>) {
    |ps| <= 1 || (Rising(ps[..|ps| - 1]) && ps[|ps| - 2] <= ps[|ps| - 1])
  }

  ghost predicate Display(ps: seq<int>, last: int) {
    Shown(ps, last) && Rising(ps) && (ps != [] ==> 0 <= ps[0])
  }

  lemma DisplayGrows(ps: seq<int>, last: int, p: int)
    requires Display(ps, last) && last <= p && 0 <= p
    ensures Display(ps + [p], p)
  {
    assert (ps + [p])[..|ps|] == ps;
  }

  lemma {:induction false} DisplayBounded(ps: seq<int>, last: int, top: int)
    requires Display(ps, last) && last <= top
    ensures ProgressUpTo(ps, top)
    decreases |ps|
  {
    if |ps| > 1 {
      var init := ps[..|ps| - 1];
      DisplayBounded(init, init[|init| - 1], top);
    }
  }

  // ------------------------------------------------------ the controller

  /** FileSearchController. The cancel flag is consulted at the points the
      source consults it; `requests(n)` says whether cancel() has been
      called by the time of the n-th check. `clock(n)` is the n-th reading
      of System.nanoTime. `found` and `progress` are what the result and
      progress consumers receive; `counter`, `lastProgress` and
      `nextUpdateNs` are the one-element array cells a search shares with
      its helpers. */
  class FileSearchController {
    var cancelled: bool
    var checks: nat
    const requests: nat -> bool
    const clock: nat -> int
    var readings: nat
    var counter: nat
    var lastProgress: int
    var nextUpdateNs: int
    var found: seq<FileSearchModel>
    var progress: seq<int>

    constructor (requests: nat -> bool, clock: nat -> int)
      ensures this.requests == requests && this.clock == clock
      ensures !cancelled && checks == 0 && readings == 0 && found == [] && progress == []
    {
      this.requests := requests;
      this.clock := clock;
      cancelled := false;
      checks := 0;
      readings := 0;
      counter := 0;
      lastProgress := -1;
      nextUpdateNs := 0;
      found := [];
      progress := [];
    }

    /** cancel: only sets the flag. */
    method Cancel()
      modifies this`cancelled
      ensures cancelled
    {
      cancelled := true;
    }

    /** One read of the flag; a request that has arrived by now sets it, and
        it stays set. */
    method Poll() returns (c: bool)
      modifies this`cancelled, this`checks
      ensures cancelled == (old(cancelled) || requests(old(checks)))
      ensures c == cancelled && checks == old(checks) + 1
    {
      cancelled := cancelled || requests(checks);
      checks := checks + 1;
      c := cancelled;
    }

    /** updateProgress: nothing without a total; otherwise the percentage is
        shown when forced, when it differs from the last one shown, or when
        50 ms have passed since the last showing. Whatever the throttle
        decides, afterwards the display shows the current percentage. */
    method UpdateProgress(current: nat, total: nat, force: bool)
      requires Shown(progress, lastProgress)
      modifies this`readings, this`lastProgress, this`nextUpdateNs, this`progress
      ensures Shown(progress, lastProgress)
      ensures total > 0 ==> lastProgress == Percent(current, total) && EndsAt(progress, Percent(current, total))
      ensures var emit := total > 0 && (force || Percent(current, total) != old(lastProgress)
                                        || clock(old(readings)) >= old(nextUpdateNs));
              && progress == old(progress) + (if emit then [Percent(current, total)] else [])
              && nextUpdateNs == (if emit then clock(old(readings)) + 50_000_000 else old(nextUpdateNs))
      ensures readings == old(readings) + (if total > 0 then 1 else 0)
      ensures total == 0 ==> lastProgress == old(lastProgress)
    {
      if total == 0 {
        return;
      }
      var p := Percent(current, total);
      var now := clock(readings);
      readings := readings + 1;
      var timeOk := now >= nextUpdateNs;
      if force || p != lastProgress || timeOk {
        lastProgress := p;
        nextUpdateNs := now + 50_000_000;
        progress := progress + [p];
      }
    }

    /** The counter goes up by one and an accepted file goes to the
        result consumer. */
    method CountAndReport(f: FileInfo, keep: FileInfo -> bool)
      modifies this`counter, this`found
      ensures counter == old(counter) + 1
      ensures found == old(found) + Hits([f], keep)
    {
      assert [f][..0] == [];
      counter := counter + 1;
      if keep(f) {
        found := found + [NewFileSearchModel(f)];
      }
    }

    /** One regular file of a listing: count it, report it when the
        search's filter accepts it, update the progress. */
    method VisitFile(f: FileInfo, keep: FileInfo -> bool, total: nat)
      requires Display(progress, lastProgress) && lastProgress <= Percent(counter, total)
      modifies this`readings, this`lastProgress, this`nextUpdateNs, this`progress, this`counter, this`found
      ensures old(progress) != [] ==> progress != [] && progress[0] == old(progress)[0]
      ensures Display(progress, lastProgress) && lastProgress <= Percent(counter, total)
      ensures counter == old(counter) + 1
      ensures found == old(found) + Hits([f], keep)
    {
      CountAndReport(f, keep);
      PercentMonotone(counter - 1, counter, total);
      ghost var before, last := progress, lastProgress;
      UpdateProgress(counter, total, false);
      if progress != before {
        DisplayGrows(before, last, lastProgress);
      }
    }

    /** One entry of a listing: a subfolder is to be pushed when subfolders
        are included, a regular file is visited, anything else is skipped.
        The results and the counter go on standing for the files visited so
        far, `seen` followed by `v`. */
    method ProcessEntry(f: Entry, inc: bool, keep: FileInfo -> bool, total: nat,
                        ghost base: seq<FileSearchModel>, ghost start: nat, ghost seen: seq<FileInfo>)
      returns (push: seq<Entry>, ghost v: seq<FileInfo>)
      requires Display(progress, lastProgress) && lastProgress <= Percent(counter, total)
      requires found == base + Hits(seen, keep) && counter == start + |seen|
      modifies this`readings, this`lastProgress, this`nextUpdateNs, this`progress, this`counter, this`found
      ensures old(progress) != [] ==> progress != [] && progress[0] == old(progress)[0]
      ensures Display(progress, lastProgress) && lastProgress <= Percent(counter, total)
      ensures push == if inc && f.Directory? then [f] else []
      ensures v == if f.RegularFile? then [f.file] else []
      ensures found == base + Hits(seen + v, keep) && counter == start + |seen + v|
    {
      push := [];
      v := [];
      if f.Directory? {
        if inc {
          push := [f];
        }
      } else if f.RegularFile? {
        v := [f.file];
        VisitFile(f.file, keep, total);
        HitsAppend(seen, v, keep);
        AppendAssociates(base, Hits(seen, keep), Hits(v, keep));
      }
      assert seen + [] == seen;
    }

    /** The entry at position i of a listing, taken after a check of the
        flag that did not stop the walk: the stack and the run of visited
        files grow from those of entries[..i] to those of entries[..i + 1]. */
    method TakeEntry(entries: seq<Entry>, i: nat, inc: bool, keep: FileInfo -> bool, total: nat,
                     stack0: seq<Entry>, stack: seq<Entry>,
                     ghost base: seq<FileSearchModel>, ghost start: nat, ghost visited: seq<FileInfo>)
      returns (stack': seq<Entry>, ghost visited': seq<FileInfo>)
      requires i < |entries|
      requires stack == stack0 + Pushed(entries[..i], inc) && visited == FilesIn(entries[..i])
      requires found == base + Hits(visited, keep) && counter == start + |visited|
      requires Display(progress, lastProgress) && lastProgress <= Percent(counter, total)
      modifies this`readings, this`lastProgress, this`nextUpdateNs, this`progress, this`counter, this`found
      ensures old(progress) != [] ==> progress != [] && progress[0] == old(progress)[0]
      ensures stack' == stack0 + Pushed(entries[..i + 1], inc) && visited' == FilesIn(entries[..i + 1])
      ensures found == base + Hits(visited', keep) && counter == start + |visited'|
      ensures Display(progress, lastProgress) && lastProgress <= Percent(counter, total)
    {
      ListingStep(entries, i, inc);
      var push, v := ProcessEntry(entries[i], inc, keep, total, base, start, visited);
      AppendAssociates(stack0, Pushed(entries[..i], inc), push);
      stack' := stack + push;
      visited' := visited + v;
    }

    /** The entries of one listing in order: each check of the flag comes
        first; a subfolder is pushed when subfolders are included; a regular
        file is visited. The ghost result is the run of files visited: all
        of the listing's files unless stopped, a prefix of them otherwise. */
    method ProcessEntries(entries: seq<Entry>, inc: bool, keep: FileInfo -> bool, total: nat, stack0: seq<Entry>)
      returns (stack: seq<Entry>, ghost visited: seq<FileInfo>, stopped: bool)
      requires Display(progress, lastProgress) && lastProgress <= Percent(counter, total)
      modifies this
      ensures old(progress) != [] ==> progress != [] && progress[0] == old(progress)[0]
      ensures Display(progress, lastProgress) && lastProgress <= Percent(counter, total)
      ensures stopped == cancelled && (old(cancelled) ==> stopped)
      ensures 0 <= |visited| <= |FilesIn(entries)| && visited == FilesIn(entries)[..|visited|]
      ensures !stopped ==> visited == FilesIn(entries) && stack == stack0 + Pushed(entries, inc)
      ensures found == old(found) + Hits(visited, keep)
      ensures counter == old(counter) + |visited|
    {
      ghost var base, start, shown := found, counter, progress;
      stack := stack0;
      visited := [];
      stopped := false;
      var i := 0;
      while i < |entries|
        invariant shown != [] ==> progress != [] && progress[0] == shown[0]
        invariant 0 <= i <= |entries|
        invariant stack == stack0 + Pushed(entries[..i], inc)
        invariant visited == FilesIn(entries[..i])
        invariant found == base + Hits(visited, keep)
        invariant counter == start + |visited|
        invariant Display(progress, lastProgress) && lastProgress <= Percent(counter, total)
        invariant old(cancelled) ==> cancelled
        invariant !stopped && (i > 0 ==> !cancelled)
      {
        var c := Poll();
        if c {
          assert entries == entries[..i] + entries[i..];
          FilesInAppend(entries[..i], entries[i..]);
          return stack, visited, true;
        }
        stack, visited := TakeEntry(entries, i, inc, keep, total, stack0, stack, base, start, visited);
        i := i + 1;
      }
      assert entries[..i] == entries;
      stopped := cancelled;
    }

    /** One turn of the walk's loop: check the flag, pop the top folder and,
        when it can be listed, process its entries. Unless stopped, the
        files visited and the walk from the new stack make up the walk from
        the old one. */
    method PopAndProcess(stack0: seq<Entry>, inc: bool, keep: FileInfo -> bool, total: nat)
      returns (stack: seq<Entry>, ghost visited: seq<FileInfo>, stopped: bool)
      requires stack0 != []
      requires Display(progress, lastProgress) && lastProgress <= Percent(counter, total)
      modifies this
      ensures old(progress) != [] ==> progress != [] && progress[0] == old(progress)[0]
      ensures Display(progress, lastProgress) && lastProgress <= Percent(counter, total)
      ensures stopped == cancelled && (old(cancelled) ==> stopped && visited == [])
      ensures stopped ==> visited <= Walk(stack0, inc)
      ensures !stopped ==> visited + Walk(stack, inc) == Walk(stack0, inc) && ListSize(stack) < ListSize(stack0)
      ensures found == old(found) + Hits(visited, keep)
      ensures counter == old(counter) + |visited|
    {
      var c := Poll();
      if c {
        return stack0, [], true;
      }
      PopShrinks(stack0, inc);
      var dir := stack0[|stack0| - 1];
      stack := stack0[..|stack0| - 1];
      if !(dir.Directory? && dir.listable) {
        return stack, [], false;
      }
      ghost var rest := stack;
      stack, visited, stopped := ProcessEntries(dir.children, inc, keep, total, stack);
      ListingDone([], stack0, inc);
      if stopped {
        StoppedWithin([], FilesIn(dir.children), visited, Walk(rest + Pushed(dir.children, inc), inc));
      }
    }

    /** collectAndProcessFilesIterative: the stack starts with the root
        folder and the loop turns until it is empty or the flag is seen.
        The ghost result is the run of files visited: all of Walk when not
        cancelled, a prefix of it otherwise. */
    method CollectAndProcess(start: Entry, inc: bool, keep: FileInfo -> bool, total: nat) returns (ghost visited: seq<FileInfo>)
      requires Display(progress, lastProgress) && lastProgress <= Percent(counter, total)
      modifies this
      ensures old(progress) != [] ==> progress != [] && progress[0] == old(progress)[0]
      ensures Display(progress, lastProgress) && lastProgress <= Percent(counter, total)
      ensures visited <= Walk([start], inc)
      ensures !cancelled ==> visited == Walk([start], inc)
      ensures old(cancelled) ==> cancelled && visited == []
      ensures found == old(found) + Hits(visited, keep)
      ensures counter == old(counter) + |visited|
    {
      var stack := [start];
      visited := [];
      ghost var whole := Walk(stack, inc);
      while stack != []
        invariant old(progress) != [] ==> progress != [] && progress[0] == old(progress)[0]
        invariant visited + Walk(stack, inc) == whole
        invariant found == old(found) + Hits(visited, keep)
        invariant counter == old(counter) + |visited|
        invariant Display(progress, lastProgress) && lastProgress <= Percent(counter, total)
        invariant old(cancelled) ==> cancelled
        invariant cancelled ==> visited == []
        decreases ListSize(stack)
      {
        ghost var before := visited;
        ghost var w := Walk(stack, inc);
        var next, v, stopped := PopAndProcess(stack, inc, keep, total);
        HitsAppend(before, v, keep);
        AppendAssociates(old(found), Hits(before, keep), Hits(v, keep));
        visited := before + v;
        if stopped {
          PrefixExtend(before, v, w);
          return;
        }
        AppendAssociates(before, v, Walk(next, inc));
        stack := next;
      }
    }

    /** The entries of one listing in the counting walk: each check of the
        flag comes first; a subfolder is pushed when subfolders are
        included; a regular file adds one. */
    method CountEntries(entries: seq<Entry>, inc: bool, rest: seq<Entry>) returns (stack: seq<Entry>, n: nat, stopped: bool)
      requires !cancelled
      modifies this`cancelled, this`checks
      ensures stopped == cancelled
      ensures n <= |FilesIn(entries)|
      ensures !stopped ==> n == |FilesIn(entries)| && stack == rest + Pushed(entries, inc)
    {
      stack := rest;
      n := 0;
      var i := 0;
      while i < |entries|
        invariant 0 <= i <= |entries|
        invariant stack == rest + Pushed(entries[..i], inc)
        invariant n == |FilesIn(entries[..i])|
        invariant !cancelled
      {
        var c := Poll();
        if c {
          assert entries == entries[..i] + entries[i..];
          FilesInAppend(entries[..i], entries[i..]);
          return stack, n, true;
        }
        var f := entries[i];
        ListingStep(entries, i, inc);
        if f.Directory? {
          if inc {
            AppendAssociates(rest, Pushed(entries[..i], inc), [f]);
            stack := stack + [f];
          }
        } else if f.RegularFile? {
          n := n + 1;
        }
        i := i + 1;
      }
      assert entries[..i] == entries;
      stopped := false;
    }

    /** One turn of the counting loop: check the flag, pop, and count the
        regular files of the listing, pushing subfolders when asked to. */
    method CountStep(stack0: seq<Entry>, inc: bool) returns (stack: seq<Entry>, n: nat, stopped: bool)
      requires stack0 != []
      modifies this`cancelled, this`checks
      ensures stopped == cancelled && (old(cancelled) ==> stopped)
      ensures stopped ==> n <= |Walk(stack0, inc)|
      ensures !stopped ==> n + |Walk(stack, inc)| == |Walk(stack0, inc)| && ListSize(stack) < ListSize(stack0)
    {
      n := 0;
      var c := Poll();
      if c {
        return stack0, 0, true;
      }
      PopShrinks(stack0, inc);
      var dir := stack0[|stack0| - 1];
      stack := stack0[..|stack0| - 1];
      stopped := false;
      if !(dir.Directory? && dir.listable) {
        return;
      }
      stack, n, stopped := CountEntries(dir.children, inc, stack);
    }

    /** The counting walk over one root: the same pops, listings and checks
        as the visiting walk, adding one per regular file. */
    method CountTree(root: Entry, inc: bool) returns (n: nat, stopped: bool)
      modifies this`cancelled, this`checks
      ensures n <= |Walk([root], inc)|
      ensures stopped == cancelled && (old(cancelled) ==> cancelled)
      ensures !stopped ==> n == |Walk([root], inc)|
    {
      var stack := [root];
      n := 0;
      stopped := cancelled;
      while stack != []
        invariant n + |Walk(stack, inc)| == |Walk([root], inc)|
        invariant old(cancelled) ==> cancelled
        invariant stopped == cancelled
        decreases ListSize(stack)
      {
        var next, k, s := CountStep(stack, inc);
        n := n + k;
        stopped := s;
        if s {
          return;
        }
        stack := next;
      }
    }

    /** countFiles: the files of every existing directory root, as the walk
        visits them; a cancelled count returns what it has so far. */
    method CountFiles(roots: seq<Root>, inc: bool) returns (total: nat)
      modifies this`cancelled, this`checks
      ensures total <= |WalkRoots(roots, inc)|
      ensures !cancelled ==> total == |WalkRoots(roots, inc)|
      ensures old(cancelled) ==> cancelled && total == 0
    {
      total := 0;
      var k := 0;
      while k < |roots|
        invariant 0 <= k <= |roots|
        invariant total <= |WalkRoots(roots[..k], inc)|
        invariant !cancelled ==> total == |WalkRoots(roots[..k], inc)|
        invariant old(cancelled) ==> cancelled && total == 0
      {
        WalkRootsPrefix(roots, k, inc);
        var c := Poll();
        if c {
          return;
        }
        var r := roots[k];
        WalkRootsStep(roots, k, inc);
        if IsDirectoryRoot(r) {
          var n, stopped := CountTree(r.value, inc);
          total := total + n;
          if stopped {
            WalkRootsPrefix(roots, k + 1, inc);
            return;
          }
        }
        k := k + 1;
      }
      assert roots[..k] == roots;
    }

    /** Root k of the loop over the selected roots, after the roots before
        it: the flag is checked, then an existing directory root is walked.
        The ghost result extends the run of files visited so far. */
    method WalkNext(roots: seq<Root>, k: nat, inc: bool, keep: FileInfo -> bool, total: nat,
                    ghost seen: seq<FileInfo>, ghost base: seq<FileSearchModel>, ghost start: nat, ghost shown: seq<int>)
      returns (ghost seen': seq<FileInfo>, stopped: bool)
      requires k < |roots| && seen <= WalkRoots(roots, inc)
      requires !cancelled ==> seen == WalkRoots(roots[..k], inc)
      requires found == base + Hits(seen, keep) && counter == start + |seen|
      requires Display(progress, lastProgress) && lastProgress <= Percent(counter, total)
      requires shown != [] ==> progress != [] && progress[0] == shown[0]
      modifies this
      ensures shown != [] ==> progress != [] && progress[0] == shown[0]
      ensures Display(progress, lastProgress) && lastProgress <= Percent(counter, total)
      ensures seen' <= WalkRoots(roots, inc)
      ensures (stopped ==> cancelled && seen' == seen) && (old(cancelled) ==> stopped)
      ensures !cancelled ==> seen' == WalkRoots(roots[..k + 1], inc)
      ensures found == base + Hits(seen', keep) && counter == start + |seen'|
    {
      seen' := seen;
      stopped := Poll();
      if stopped {
        return;
      }
      var r := roots[k];
      WalkRootsStep(roots, k, inc);
      WalkRootsPrefix(roots, k + 1, inc);
      if IsDirectoryRoot(r) {
        ghost var v := CollectAndProcess(r.value, inc, keep, total);
        HitsAppend(seen, v, keep);
        AppendAssociates(base, Hits(seen, keep), Hits(v, keep));
        PrefixExtend(seen, v, Walk([r.value], inc));
        PrefixTransitive(seen + v, WalkRoots(roots[..k + 1], inc), WalkRoots(roots, inc));
        seen' := seen + v;
      }
      stopped := false;
    }

    /** The loop over the selected roots: the flag is checked before each
        root, and every existing directory root is walked. The ghost result
        is the run of files visited: all of WalkRoots when not cancelled, a
        prefix of it otherwise. */
    method WalkAllRoots(roots: seq<Root>, inc: bool, keep: FileInfo -> bool, total: nat) returns (ghost seen: seq<FileInfo>)
      requires Display(progress, lastProgress) && lastProgress <= Percent(counter, total)
      modifies this
      ensures old(progress) != [] ==> progress != [] && progress[0] == old(progress)[0]
      ensures Display(progress, lastProgress) && lastProgress <= Percent(counter, total)
      ensures seen <= WalkRoots(roots, inc)
      ensures !cancelled ==> seen == WalkRoots(roots, inc)
      ensures old(cancelled) ==> cancelled && seen == []
      ensures found == old(found) + Hits(seen, keep)
      ensures counter == old(counter) + |seen|
    {
      ghost var base, start, shown := found, counter, progress;
      ghost var was := cancelled;
      seen := [];
      var k := 0;
      while k < |roots|
        invariant shown != [] ==> progress != [] && progress[0] == shown[0]
        invariant 0 <= k <= |roots|
        invariant seen <= WalkRoots(roots, inc)
        invariant !cancelled ==> seen == WalkRoots(roots[..k], inc)
        invariant found == base + Hits(seen, keep) && counter == start + |seen|
        invariant Display(progress, lastProgress) && lastProgress <= Percent(counter, total)
        invariant was ==> cancelled && seen == []
      {
        var stopped;
        seen, stopped := WalkNext(roots, k, inc, keep, total, seen, base, start, shown);
        if stopped {
          return;
        }
        k := k + 1;
      }
      assert roots[..k] == roots;
    }

    /** searchFiles over the snapshot: reset the flag, count, force 0 %,
        walk every existing directory root until cancelled, and show 100 %
        unless cancelled. The results are those of a prefix of the visited
        files, all of them when not cancelled; the counter then ends at the
        total. Progress never goes down, stays within 0..100 and starts at 0
        when there are files. */
    method Search(roots: seq<Root>, inc: bool, keep: FileInfo -> bool)
      modifies this
      ensures found <= Hits(WalkRoots(roots, inc), keep)
      ensures !cancelled ==> found == Hits(WalkRoots(roots, inc), keep) && counter == |WalkRoots(roots, inc)|
      ensures ProgressUpTo(progress, 100)
      ensures !cancelled ==> EndsAt(progress, 100)
      ensures !cancelled && WalkRoots(roots, inc) != [] ==> progress[0] == 0
    {
      var total := Prepare(roots, inc);
      ghost var seen := WalkAllRoots(roots, inc, keep, total);
      HitsPrefix(seen, WalkRoots(roots, inc), keep);
      assert counter <= total by {
        if !cancelled {
          assert counter == |WalkRoots(roots, inc)|;
        }
      }
      ShowDone(total);
    }

    /** The start of searchFiles: reset the flag and the results, count the
        files, and force 0 % when there are any. */
    method Prepare(roots: seq<Root>, inc: bool) returns (total: nat)
      modifies this
      ensures found == [] && counter == 0
      ensures total <= |WalkRoots(roots, inc)| && (!cancelled ==> total == |WalkRoots(roots, inc)|)
      ensures progress == (if total > 0 then [0] else []) && lastProgress == (if total > 0 then 0 else -1)
    {
      cancelled := false;
      found := [];
      progress := [];
      total := CountFiles(roots, inc);
      counter := 0;
      lastProgress := -1;
      nextUpdateNs := 0;
      UpdateProgress(0, total, true);
    }

    /** The end of searchFiles: unless the flag is seen, 100 % is shown. */
    method ShowDone(total: nat)
      requires Display(progress, lastProgress) && lastProgress <= Percent(counter, total) && counter <= total
      modifies this`cancelled, this`checks, this`progress
      ensures ProgressUpTo(progress, 100)
      ensures cancelled == (old(cancelled) || requests(old(checks))) && checks == old(checks) + 1
      ensures progress == old(progress) + (if cancelled then [] else [100])
    {
      PercentMonotone(counter, total, total);
      DisplayBounded(progress, lastProgress, 100);
      var c := Poll();
      if !c {
        progress := progress + [100];
      }
    }

    /** searchFiles: the options decide whether subfolders are walked, and
        matchesOptions is the filter. */
    method SearchFiles(options: FileSearchOptionsModel, roots: seq<Root>)
      modifies this
      ensures var o := options.Value();
              && found <= Hits(WalkRoots(roots, o.subFolderBoo), MatchFilter(o))
              && (!cancelled ==> found == Hits(WalkRoots(roots, o.subFolderBoo), MatchFilter(o))
                                 && counter == |WalkRoots(roots, o.subFolderBoo)|)
      ensures ProgressUpTo(progress, 100)
      ensures !cancelled ==> EndsAt(progress, 100)
      ensures !cancelled && WalkRoots(roots, options.Value().subFolderBoo) != [] ==> progress[0] == 0
    {
      var o := options.Value();
      Search(roots, o.subFolderBoo, MatchFilter(o));
    }

    /** searchFilesAsync: the flag is reset before the search is handed to
        the worker thread, which then runs searchFiles. */
    method SearchFilesAsync(options: FileSearchOptionsModel, roots: seq<Root>)
      modifies this
      ensures var o := options.Value();
              && found <= Hits(WalkRoots(roots, o.subFolderBoo), MatchFilter(o))
              && (!cancelled ==> found == Hits(WalkRoots(roots, o.subFolderBoo), MatchFilter(o)))
      ensures ProgressUpTo(progress, 100)
      ensures !cancelled ==> EndsAt(progress, 100)
    {
      cancelled := false;
      SearchFiles(options, roots);
    }
  }
}
