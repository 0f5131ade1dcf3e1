/** The filter of the plain file search (matchesOptions and compareDate):
    a size window in whole megabytes, an allow-list of extensions, a name
    fragment and two date conditions. Any exception inside the filter
    rejects the file. It differs from the duplicate search's filter in three
    ways, each stated by a lemma at the end of this module. */
module FileSearchFilter {
  import opened JavaText
  import opened FileSystem
  import opened Records
  import opened Options
  import opened DuplicateGrouping

  // ------------------------------------------------------------ extension

  /** getFileExtension: unlike the record classes, a dot at position 0 does
      not start an extension. */
  function GetFileExtension(fileName: string): (r: string)
    ensures '.' !in r && IsLower(r)
  {
    var lastDot := LastIndexOf(fileName, '.');
    if lastDot > 0 && lastDot < |fileName| - 1 then Lower(fileName[lastDot + 1..]) else ""
  }

  /** The two extension rules agree except on names whose only dot is their
      first character, such as ".bashrc". */
  lemma ExtensionRulesDiffer(name: string)
    ensures GetFileExtension(name) == if LastIndexOf(name, '.') == 0 then "" else ExtractExtension(name)
    ensures GetFileExtension(name) != ExtractExtension(name) <==> LastIndexOf(name, '.') == 0 && |name| > 1
  {
    var dot := LastIndexOf(name, '.');
    if dot == 0 && |name| > 1 {
      assert |ExtractExtension(name)| == |name| - 1;
    }
  }

  /** One entry of the allow-list as the loop compares it: a.replace(".", "")
      lowercased. */
  function CleanEntry(a: string): (r: string)
    ensures '.' !in r && IsLower(r)
  {
    LowerIsLower(RemoveChar(a, '.'));
    Lower(RemoveChar(a, '.'))
  }

  /** The allow-list: the option lowercased and split at commas with the
      whitespace around them. */
  function AllowList(list: string): seq<string> {
    SplitOnCommas(Lower(list))
  }

  predicate Listed(ext: string, allowed: seq<string>) {
    exists i :: 0 <= i < |allowed| && ext == CleanEntry(allowed[i])
  }

  /** The extension condition: off for a null or blank option. */
  predicate ExtensionMatches(o: SearchOptions, name: string) {
    o.fileExtention.None? || IsBlank(o.fileExtention.value)
    || Listed(GetFileExtension(name), AllowList(o.fileExtention.value))
  }

  /** The search loop of the extension condition, stopping at the first hit. */
  method FindExtension(ext: string, allowed: seq<string>) returns (found: bool)
    ensures found <==> Listed(ext, allowed)
  {
    found := false;
    var i := 0;
    while i < |allowed|
      invariant 0 <= i <= |allowed|
      invariant forall j :: 0 <= j < i ==> ext != CleanEntry(allowed[j])
    {
      var clean := Lower(RemoveChar(allowed[i], '.'));
      if ext == clean {
        found := true;
        break;
      }
      i := i + 1;
    }
  }

  /** A file base.e, with a non-empty base and a dot-free non-empty e, passes
      a non-blank allow-list exactly when some entry cleans to e lowercased. */
  lemma DottedNamePasses(o: SearchOptions, base: string, e: string)
    requires base != [] && '.' !in e && e != []
    requires o.fileExtention.Some? && !IsBlank(o.fileExtention.value)
    ensures ExtensionMatches(o, base + "." + e) <==> Listed(Lower(e), AllowList(o.fileExtention.value))
  {
    LastDotOf(base, e);
    assert (base + "." + e)[|base| + 1..] == e;
  }

  // ----------------------------------------------------------------- name

  /** The name condition: off for a null or blank fragment; otherwise the
      lowercased name must contain the lowercased fragment. */
  predicate NameMatches(o: SearchOptions, name: string) {
    o.fileNameString.None? || IsBlank(o.fileNameString.value)
    || Contains(Lower(name), Lower(o.fileNameString.value))
  }

  /** Neither the extension nor the name condition depends on the case of
      the file name. */
  lemma NameCaseIrrelevant(o: SearchOptions, name: string)
    ensures ExtensionMatches(o, Lower(name)) == ExtensionMatches(o, name)
    ensures NameMatches(o, Lower(name)) == NameMatches(o, name)
  {
    LowerIsLower(name);
    var dot := LastIndexOf(name, '.');
    var ldot := LastIndexOf(Lower(name), '.');
    assert forall i :: 0 <= i < |name| ==> (Lower(name)[i] == '.' <==> name[i] == '.');
    assert ldot == dot;
    if dot > 0 && dot < |name| - 1 {
      assert Lower(name)[dot + 1..] == Lower(name[dot + 1..]);
      LowerIsLower(name[dot + 1..]);
    }
  }

  // ---------------------------------------------------------------- size

  const MB: nat := 1048576

  /** The size condition on file.length() / (1024.0 * 1024.0) compared
      with the bounds in megabytes; off when both bounds are 0. Dividing by
      2^20 is exact, so the comparison is stated on bytes here and
      SizeInMegabytes relates it to the division. */
  predicate SizeMatches(o: SearchOptions, length: nat) {
    if o.minFileSize > 0 || o.maxFileSize > 0 then
      && !(o.minFileSize > 0 && length < o.minFileSize * MB)
      && !(o.maxFileSize > 0 && length > o.maxFileSize * MB)
    else true
  }

  /** The condition as the source writes it, on the size in megabytes as a
      fraction: the same verdict for every length. */
  lemma SizeInMegabytes(o: SearchOptions, length: nat)
    ensures var sizeMB := length as real / (1024.0 * 1024.0);
            SizeMatches(o, length)
            <==> (o.minFileSize == 0 || !(sizeMB < o.minFileSize as real))
                 && (o.maxFileSize == 0 || !(sizeMB > o.maxFileSize as real))
  {
    var sizeMB := length as real / (1024.0 * 1024.0);
    assert sizeMB * 1048576.0 == length as real;
    assert (o.minFileSize * MB) as real == o.minFileSize as real * 1048576.0;
    assert (o.maxFileSize * MB) as real == o.maxFileSize as real * 1048576.0;
  }

  // ---------------------------------------------------------------- dates

  /** compareDate: false for a missing file date; None where the switch on a
      null operator throws; true for an operator it does not know. */
  function CompareDate(fileDate: Option<Date>, filterDate: Date, operator: Option<string>): Option<bool> {
    if fileDate.None? then Some(false)
    else if operator.None? then None
    else
      var d, op := fileDate.value, operator.value;
      Some(
        if op == "<" then IsBefore(d, filterDate)
        else if op == "<=" then IsBefore(d, filterDate) || d == filterDate
        else if op == "=" then d == filterDate
        else if op == ">=" then IsAfter(d, filterDate) || d == filterDate
        else if op == ">" then IsAfter(d, filterDate)
        else true)
  }

  /** With an operator given, compareDate answers what the duplicate
      search's switch answers. */
  lemma CompareDateAgrees(d: Date, filterDate: Date, op: string)
    ensures CompareDate(Some(d), filterDate, Some(op)) == Some(OperatorHolds(op, d, filterDate))
  {
    DateTrichotomy(d, filterDate);
  }

  /** One date condition: off without a filter date; a thrown exception or a
      false comparison rejects. */
  predicate DateMatches(filter: Option<Date>, operator: Option<string>, fileDate: Date) {
    filter.None? || CompareDate(Some(fileDate), filter.value, operator) == Some(true)
  }

  /** The date conditions; reading the attributes fails for a file whose
      attributes cannot be read, and that rejects it. */
  predicate DatesMatch(o: SearchOptions, f: FileInfo) {
    (o.creationDate.None? && o.modificationDate.None?)
    || (&& f.attrs.Some?
        && DateMatches(o.creationDate, o.fileCreationDateOperator, f.attrs.value.created)
        && DateMatches(o.modificationDate, o.fileModificationDateOperator, f.attrs.value.modified))
  }

  /** matchesOptions as one condition. */
  predicate Matches(o: SearchOptions, f: FileInfo) {
    SizeMatches(o, f.size) && ExtensionMatches(o, f.name) && NameMatches(o, f.name) && DatesMatch(o, f)
  }

  function MatchFilter(o: SearchOptions): FileInfo -> bool {
    f => Matches(o, f)
  }

  /** matchesOptions: the cheap checks first, the attributes only when a
      date condition needs them; every failure path answers false. */
  method MatchesOptions(f: FileInfo, o: SearchOptions) returns (ok: bool)
    ensures ok == Matches(o, f)
  {
    SizeInMegabytes(o, f.size);
    if o.minFileSize > 0 || o.maxFileSize > 0 {
      var sizeMB := f.size as real / (1024.0 * 1024.0);
      if o.minFileSize > 0 && sizeMB < o.minFileSize as real {
        return false;
      }
      if o.maxFileSize > 0 && sizeMB > o.maxFileSize as real {
        return false;
      }
    }
    if o.fileExtention.Some? && !IsBlank(o.fileExtention.value) {
      var ext := GetFileExtension(f.name);
      var allowed := SplitOnCommas(Lower(o.fileExtention.value));
      var hit := FindExtension(ext, allowed);
      if !hit {
        return false;
      }
    }
    if o.fileNameString.Some? && !IsBlank(o.fileNameString.value) {
      if !Contains(Lower(f.name), Lower(o.fileNameString.value)) {
        return false;
      }
    }
    var needsCreation := o.creationDate.Some?;
    var needsModified := o.modificationDate.Some?;
    if needsCreation || needsModified {
      if f.attrs.None? {
        return false;
      }
      var attrs := f.attrs.value;
      if needsCreation {
        var c := CompareDate(Some(attrs.created), o.creationDate.value, o.fileCreationDateOperator);
        if c != Some(true) {
          return false;
        }
      }
      if needsModified {
        var c := CompareDate(Some(attrs.modified), o.modificationDate.value, o.fileModificationDateOperator);
        if c != Some(true) {
          return false;
        }
      }
    }
    return true;
  }

  // ------------------------------------------ the duplicate search's filter

  /** The size windows of the two searches: the plain search divides the
      length by 2^20 before comparing, the duplicate search compares bytes
      with the bounds as they are; so the plain search behaves like the
      duplicate search given bounds scaled to bytes. */
  lemma SizeFiltersScale(o: SearchOptions, f: FileInfo)
    ensures var sizeMB := f.size as real / (1024.0 * 1024.0);
            (o.minFileSize == 0 || !(sizeMB < o.minFileSize as real))
            && (o.maxFileSize == 0 || !(sizeMB > o.maxFileSize as real))
            <==> KeepsSize(o.(minFileSize := o.minFileSize * MB, maxFileSize := o.maxFileSize * MB), f)
  {
    SizeInMegabytes(o, f.size);
  }

  /** With both operators given, the two searches' date conditions agree. */
  lemma DateFiltersAgree(o: SearchOptions, f: FileInfo)
    requires o.fileCreationDateOperator.Some? && o.fileModificationDateOperator.Some?
    ensures DatesMatch(o, f) <==> KeepsDates(o, f)
  {
    if f.attrs.Some? {
      CompareDateAgrees(f.attrs.value.created, if o.creationDate.Some? then o.creationDate.value else f.attrs.value.created,
                        o.fileCreationDateOperator.value);
      CompareDateAgrees(f.attrs.value.modified, if o.modificationDate.Some? then o.modificationDate.value else f.attrs.value.modified,
                        o.fileModificationDateOperator.value);
    }
  }

  /** A null operator next to a filter date: the duplicate search ignores
      the condition, the plain search rejects every file. */
  lemma NullOperatorDiffers(o: SearchOptions, f: FileInfo)
    requires o.creationDate.Some? && o.fileCreationDateOperator.None?
    ensures !Matches(o, f)
    ensures DateKeeps(o.creationDate, o.fileCreationDateOperator, CreatedOf(f)) <==> f.attrs.Some?
  {
  }
}
