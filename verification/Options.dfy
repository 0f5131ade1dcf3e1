/** The filter configuration both searches read: the base option record of
    the plain search and its extension with three checkbox flags. */
module Options {
  import opened JavaText
  import opened FileSystem

  /** A snapshot of the nine base option fields. The size bounds are doubles
      in megabytes; they are modelled as whole numbers. A None is Java's null. */
  datatype SearchOptions = SearchOptions(
    minFileSize: nat,
    maxFileSize: nat,
    fileExtention: Option<string>,
    fileNameString: Option<string>,
    fileCreationDateOperator: Option<string>,
    creationDate: Option<Date>,
    fileModificationDateOperator: Option<string>,
    modificationDate: Option<Date>,
    subFolderBoo: bool)

  /** What the no-argument constructor leaves behind. */
  const NoOptions := SearchOptions(0, 0, None, None, None, None, None, None, false)

  // ------------------------------------------------------------ rendering

  function IntToString(i: int): string {
    if i < 0 then "-" + NatToString(-i) else NatToString(i)
  }

  function Pad4(n: nat): (r: string)
    requires n < 10000
    ensures |r| == 4
  {
    [DigitChar(n / 1000), DigitChar(n / 100 % 10), DigitChar(n / 10 % 10), DigitChar(n % 10)]
  }

  /** LocalDate.toString: ISO yyyy-MM-dd, the year padded to four digits and
      signed with '+' beyond 9999. */
  function DateToString(d: Date): string {
    var year :=
      if -1000 < d.year < 1000 then (if d.year < 0 then "-" + Pad4(-d.year) else Pad4(d.year))
      else if d.year > 9999 then "+" + NatToString(d.year)
      else IntToString(d.year);
    year
    + (if 0 <= d.month < 10 then "-0" else "-") + IntToString(d.month)
    + (if 0 <= d.day < 10 then "-0" else "-") + IntToString(d.day)
  }

  function DateOrNull(d: Option<Date>): string {
    if d.None? then "null" else DateToString(d.value)
  }

  function DropTrailingZeros(s: string): string {
    if s != [] && s[|s| - 1] == '0' then DropTrailingZeros(s[..|s| - 1]) else s
  }

  /** Double.toString of a whole number: "n.0" below 10^7, computerized
      scientific notation ("1.2345678E7") from there on. */
  function WholeDoubleToString(n: nat): (r: string)
    ensures n < 10000000 ==> r == NatToString(n) + ".0"
  {
    if n < 10000000 then NatToString(n) + ".0"
    else
      var digits := NatToString(n);
      var fraction := DropTrailingZeros(digits[1..]);
      [digits[0]] + "." + (if fraction == [] then "0" else fraction) + "E" + NatToString(|digits| - 1)
  }

  /** The class prints itself as "DuplicateSearchOptions{...}", a leftover of
      the class it was derived from. */
  function Render(o: SearchOptions): string {
    "DuplicateSearchOptions{"
    + (Pair("minFileSize", WholeDoubleToString(o.minFileSize))
    + ", " + Pair("maxFileSize", WholeDoubleToString(o.maxFileSize))
    + ", " + Pair("fileExtention", Quoted(OrNull(o.fileExtention)))
    + ", " + Pair("fileNameString", Quoted(OrNull(o.fileNameString)))
    + ", " + Pair("fileCreationDateOperator", Quoted(OrNull(o.fileCreationDateOperator)))
    + ", " + Pair("creationDate", DateOrNull(o.creationDate))
    + ", " + Pair("fileModificationDateOperator", Quoted(OrNull(o.fileModificationDateOperator)))
    + ", " + Pair("modificationDate", DateOrNull(o.modificationDate))
    + ", " + Pair("subFolderBoo", BoolToString(o.subFolderBoo)))
    + "}"
  }

  function Pair(name: string, text: string): string {
    name + "=" + text
  }

  function Quoted(text: string): string {
    "'" + text + "'"
  }

  /** One rendered field: its name and its text, quoted or not. */
  datatype Field = Field(name: string, text: string, quoted: bool)

  /** The nine fields in declaration order. */
  function Fields(o: SearchOptions): (fs: seq<Field>)
    ensures |fs| == 9
  {
    [ Field("minFileSize", WholeDoubleToString(o.minFileSize), false),
      Field("maxFileSize", WholeDoubleToString(o.maxFileSize), false),
      Field("fileExtention", OrNull(o.fileExtention), true),
      Field("fileNameString", OrNull(o.fileNameString), true),
      Field("fileCreationDateOperator", OrNull(o.fileCreationDateOperator), true),
      Field("creationDate", DateOrNull(o.creationDate), false),
      Field("fileModificationDateOperator", OrNull(o.fileModificationDateOperator), true),
      Field("modificationDate", DateOrNull(o.modificationDate), false),
      Field("subFolderBoo", BoolToString(o.subFolderBoo), false) ]
  }

  function RenderField(f: Field): string {
    Pair(f.name, if f.quoted then Quoted(f.text) else f.text)
  }

  /** name=value pairs joined by ", ". */
  function RenderFields(fs: seq<Field>): string {
    if fs == [] then ""
    else if |fs| == 1 then RenderField(fs[0])
    else RenderFields(fs[..|fs| - 1]) + ", " + RenderField(fs[|fs| - 1])
  }

  lemma RenderFieldsSnoc(fs: seq<Field>, k: nat)
    requires 1 <= k < |fs|
    ensures RenderFields(fs[..k + 1]) == RenderFields(fs[..k]) + ", " + RenderField(fs[k])
  {
    assert fs[..k + 1][..k] == fs[..k];
  }

  /** toString lists every field, name=value, in declaration order, strings
      in single quotes. */
  lemma RenderNineFields(fs: seq<Field>)
    requires |fs| == 9
    ensures RenderFields(fs)
         == RenderField(fs[0]) + ", " + RenderField(fs[1]) + ", " + RenderField(fs[2])
          + ", " + RenderField(fs[3]) + ", " + RenderField(fs[4]) + ", " + RenderField(fs[5])
          + ", " + RenderField(fs[6]) + ", " + RenderField(fs[7]) + ", " + RenderField(fs[8])
  {
    assert RenderFields(fs[..1]) == RenderField(fs[0]);
    RenderFieldsSnoc(fs, 1);
    RenderFieldsSnoc(fs, 2);
    RenderFieldsSnoc(fs, 3);
    RenderFieldsSnoc(fs, 4);
    RenderFieldsSnoc(fs, 5);
    RenderFieldsSnoc(fs, 6);
    RenderFieldsSnoc(fs, 7);
    RenderFieldsSnoc(fs, 8);
    assert fs[..9] == fs;
  }

  /** toString lists every field, name=value, strings in single quotes. */
  lemma ToStringListsFields(o: SearchOptions)
    ensures Render(o) == "DuplicateSearchOptions{" + RenderFields(Fields(o)) + "}"
  {
    RenderNineFields(Fields(o));
  }

  // ----------------------------------------------------------- base class

  /** FileSearchOptionsModel: nine mutable fields behind getters and setters. */
  class FileSearchOptionsModel {
    var minFileSize: nat
    var maxFileSize: nat
    var fileExtention: Option<string>
    var fileNameString: Option<string>
    var fileCreationDateOperator: Option<string>
    var creationDate: Option<Date>
    var fileModificationDateOperator: Option<string>
    var modificationDate: Option<Date>
    var subFolderBoo: bool

    /** The current field values. */
    function Value(): SearchOptions
      reads this
    {
      SearchOptions(minFileSize, maxFileSize, fileExtention, fileNameString,
                    fileCreationDateOperator, creationDate,
                    fileModificationDateOperator, modificationDate, subFolderBoo)
    }

    /** Sizes 0, strings and dates null, subfolders off. */
    constructor ()
      ensures Value() == NoOptions
    {
      minFileSize, maxFileSize := 0, 0;
      fileExtention, fileNameString := None, None;
      fileCreationDateOperator, creationDate := None, None;
      fileModificationDateOperator, modificationDate := None, None;
      subFolderBoo := false;
    }

    /** Each argument lands in its own field. */
    constructor Full(minFileSize: nat, maxFileSize: nat,
                     fileExtention: Option<string>, fileNameString: Option<string>,
                     fileCreationDateOperator: Option<string>, creationDate: Option<Date>,
                     fileModificationDateOperator: Option<string>, modificationDate: Option<Date>,
                     subFolderBoo: bool)
      ensures Value() == SearchOptions(minFileSize, maxFileSize, fileExtention, fileNameString,
                                       fileCreationDateOperator, creationDate,
                                       fileModificationDateOperator, modificationDate, subFolderBoo)
    {
      this.minFileSize := minFileSize;
      this.maxFileSize := maxFileSize;
      this.fileExtention := fileExtention;
      this.fileNameString := fileNameString;
      this.fileCreationDateOperator := fileCreationDateOperator;
      this.creationDate := creationDate;
      this.fileModificationDateOperator := fileModificationDateOperator;
      this.modificationDate := modificationDate;
      this.subFolderBoo := subFolderBoo;
    }

    method SetMinFileSize(v: nat)
      modifies this
      ensures Value() == old(Value()).(minFileSize := v)
    {
      minFileSize := v;
    }

    method SetMaxFileSize(v: nat)
      modifies this
      ensures Value() == old(Value()).(maxFileSize := v)
    {
      maxFileSize := v;
    }

    method SetFileExtention(v: Option<string>)
      modifies this
      ensures Value() == old(Value()).(fileExtention := v)
    {
      fileExtention := v;
    }

    method SetFileNameString(v: Option<string>)
      modifies this
      ensures Value() == old(Value()).(fileNameString := v)
    {
      fileNameString := v;
    }

    method SetFileCreationDateOperator(v: Option<string>)
      modifies this
      ensures Value() == old(Value()).(fileCreationDateOperator := v)
    {
      fileCreationDateOperator := v;
    }

    method SetCreationDate(v: Option<Date>)
      modifies this
      ensures Value() == old(Value()).(creationDate := v)
    {
      creationDate := v;
    }

    method SetFileModificationDateOperator(v: Option<string>)
      modifies this
      ensures Value() == old(Value()).(fileModificationDateOperator := v)
    {
      fileModificationDateOperator := v;
    }

    method SetModificationDate(v: Option<Date>)
      modifies this
      ensures Value() == old(Value()).(modificationDate := v)
    {
      modificationDate := v;
    }

    method SetSubFolderBoo(v: bool)
      modifies this
      ensures Value() == old(Value()).(subFolderBoo := v)
    {
      subFolderBoo := v;
    }

    function ToString(): string
      reads this
    {
      Render(Value())
    }
  }

  // ------------------------------------------------------- extended class

  /** DuplicateSearchOptionsModel: every base field through `base`, plus the
      three checkbox flags. */
  class DuplicateSearchOptionsModel {
    const base: FileSearchOptionsModel
    var fileSizeBoo: bool
    var fileNameBoo: bool
    var fileExtentionBoo: bool

    /** Base defaults, all three flags off. */
    constructor ()
      ensures fresh(base) && base.Value() == NoOptions
      ensures !fileSizeBoo && !fileNameBoo && !fileExtentionBoo
    {
      base := new FileSearchOptionsModel();
      fileSizeBoo, fileNameBoo, fileExtentionBoo := false, false, false;
    }

    /** The first nine arguments go to the base record, the rest to the flags. */
    constructor Full(minFileSize: nat, maxFileSize: nat,
                     fileExtention: Option<string>, fileNameString: Option<string>,
                     fileCreationDateOperator: Option<string>, creationDate: Option<Date>,
                     fileModificationDateOperator: Option<string>, modificationDate: Option<Date>,
                     subFolderBoo: bool, fileSizeBoo: bool, fileNameBoo: bool, fileExtentionBoo: bool)
      ensures fresh(base)
      ensures base.Value() == SearchOptions(minFileSize, maxFileSize, fileExtention, fileNameString,
                                            fileCreationDateOperator, creationDate,
                                            fileModificationDateOperator, modificationDate, subFolderBoo)
      ensures this.fileSizeBoo == fileSizeBoo && this.fileNameBoo == fileNameBoo
      ensures this.fileExtentionBoo == fileExtentionBoo
    {
      base := new FileSearchOptionsModel.Full(minFileSize, maxFileSize, fileExtention, fileNameString,
                                              fileCreationDateOperator, creationDate,
                                              fileModificationDateOperator, modificationDate, subFolderBoo);
      this.fileSizeBoo := fileSizeBoo;
      this.fileNameBoo := fileNameBoo;
      this.fileExtentionBoo := fileExtentionBoo;
    }

    method SetFileSizeBoo(v: bool)
      modifies this
      ensures fileSizeBoo == v
      ensures fileNameBoo == old(fileNameBoo) && fileExtentionBoo == old(fileExtentionBoo)
    {
      fileSizeBoo := v;
    }

    method SetFileNameBoo(v: bool)
      modifies this
      ensures fileNameBoo == v
      ensures fileSizeBoo == old(fileSizeBoo) && fileExtentionBoo == old(fileExtentionBoo)
    {
      fileNameBoo := v;
    }

    method SetFileExtentionBoo(v: bool)
      modifies this
      ensures fileExtentionBoo == v
      ensures fileSizeBoo == old(fileSizeBoo) && fileNameBoo == old(fileNameBoo)
    {
      fileExtentionBoo := v;
    }

    function ToString(): string
      reads this, base
    {
      RenderExtended(base.ToString(), fileSizeBoo, fileNameBoo, fileExtentionBoo)
    }
  }

  /** super.toString() followed by the three flags. */
  function RenderExtended(baseText: string, fileSizeBoo: bool, fileNameBoo: bool, fileExtentionBoo: bool): string {
    baseText + " | Extended{"
    + Pair("fileSizeBoo", BoolToString(fileSizeBoo))
    + ", " + Pair("fileNameBoo", BoolToString(fileNameBoo))
    + ", " + Pair("fileExtentionBoo", BoolToString(fileExtentionBoo))
    + "}"
  }

  /** The three flags, in declaration order. */
  function ExtendedFields(fileSizeBoo: bool, fileNameBoo: bool, fileExtentionBoo: bool): seq<Field> {
    [ Field("fileSizeBoo", BoolToString(fileSizeBoo), false),
      Field("fileNameBoo", BoolToString(fileNameBoo), false),
      Field("fileExtentionBoo", BoolToString(fileExtentionBoo), false) ]
  }

  /** The extended rendering is the base rendering, unchanged, followed by
      the three flags as name=value pairs. */
  lemma {:induction false} RenderExtendedExtendsBase(baseText: string, a: bool, b: bool, c: bool)
    ensures RenderExtended(baseText, a, b, c)
         == baseText + " | Extended{" + RenderFields(ExtendedFields(a, b, c)) + "}"
  {
    var fs := ExtendedFields(a, b, c);
    assert RenderFields(fs[..1]) == RenderField(fs[0]);
    RenderFieldsSnoc(fs, 1);
    RenderFieldsSnoc(fs, 2);
    assert fs[..3] == fs;
  }
}
