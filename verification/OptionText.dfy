/** The text helpers of the option dialogs: the splitter of the extension
    list (splitExtentionString, identical in both option frames), the blank
    test and normaliser of the masked date fields, the strict dd.MM.uuuu
    date format, and the date part of the panel's toModel. */
module OptionText {
  import opened JavaText
  import opened FileSystem
  import opened Options

  // ------------------------------------------------------ extension list

  /** replaceFirst("^\\.", ""): at most one leading dot removed. */
  function DropLeadingDot(s: string): string {
    if s != [] && s[0] == '.' then s[1..] else s
  }

  /** One segment through map(trim), filter(non-empty),
      map(drop the dot) and map(toLowerCase): None where the filter drops it. */
  function Entry(seg: string): Option<string> {
    var t := Trim(seg);
    if t == [] then None else Some(Lower(DropLeadingDot(t)))
  }

  /** The values of the present options, in order. */
  function Somes<T>(xs: seq<Option<T>>): (r: seq<T>)
    ensures |r| <= |xs|
  {
    if xs == [] then []
    else Somes(xs[..|xs| - 1]) + (if xs[|xs| - 1].None? then [] else [xs[|xs| - 1].value])
  }

  /** A value is kept exactly when it is present somewhere. */
  lemma {:induction false} SomesMembers<T>(xs: seq<Option<T>>, x: T)
    ensures x in Somes(xs) <==> exists i :: 0 <= i < |xs| && xs[i] == Some(x)
  {
    if xs != [] {
      var init := xs[..|xs| - 1];
      var last := xs[|xs| - 1];
      var tail := if last.None? then [] else [last.value];
      SomesMembers(init, x);
      assert Somes(xs) == Somes(init) + tail;
      if x in Somes(init) {
        var i :| 0 <= i < |init| && init[i] == Some(x);
        assert xs[i] == init[i];
      }
      if exists i :: 0 <= i < |xs| && xs[i] == Some(x) {
        var i :| 0 <= i < |xs| && xs[i] == Some(x);
        if i < |init| {
          assert init[i] == xs[i];
        } else {
          assert tail == [x];
        }
      }
    }
  }

  function Entries(segs: seq<string>): (r: seq<Option<string>>)
    ensures |r| == |segs| && forall i :: 0 <= i < |segs| ==> r[i] == Entry(segs[i])
  {
    seq(|segs|, i requires 0 <= i < |segs| => Entry(segs[i]))
  }

  /** The segments mapped, the dropped ones left out. */
  function Cleaned(segs: seq<string>): seq<string> {
    Somes(Entries(segs))
  }

  /** splitExtentionString: no entries for a null or blank text; otherwise
      the cleaned segments between the commas, each once, in the order they
      first occur. */
  function SplitExtentionString(input: Option<string>): (r: seq<string>)
    ensures input.None? || Trim(input.value) == [] ==> r == []
    ensures forall i, j :: 0 <= i < j < |r| ==> r[i] != r[j]
  {
    if input.None? || Trim(input.value) == [] then []
    else Distinct(Cleaned(SplitOnCommas(input.value)))
  }

  /** A string is kept exactly when some segment maps to it. */
  lemma CleanedMembers(segs: seq<string>, x: string)
    ensures x in Cleaned(segs) <==> exists i :: 0 <= i < |segs| && Entry(segs[i]) == Some(x)
  {
    var es := Entries(segs);
    SomesMembers(es, x);
    if exists i :: 0 <= i < |segs| && Entry(segs[i]) == Some(x) {
      var i :| 0 <= i < |segs| && Entry(segs[i]) == Some(x);
      assert es[i] == Some(x);
    }
  }

  /** Every entry is lowercase. */
  lemma SplitIsLower(input: Option<string>)
    ensures forall x :: x in SplitExtentionString(input) ==> IsLower(x)
  {
    if input.Some? && Trim(input.value) != [] {
      forall x | x in SplitExtentionString(input)
        ensures IsLower(x)
      {
        CleanedMembers(SplitOnCommas(input.value), x);
        var i :| 0 <= i < |SplitOnCommas(input.value)| && Entry(SplitOnCommas(input.value)[i]) == Some(x);
        LowerIsLower(DropLeadingDot(Trim(SplitOnCommas(input.value)[i])));
      }
    }
  }

  /** The entries of a non-blank text: the segments between its commas that
      are not blank, trimmed, stripped of one leading dot and lowercased. */
  lemma SplitMembers(s: string, x: string)
    requires Trim(s) != []
    ensures var segs := SplitOnCommas(s);
            x in SplitExtentionString(Some(s)) <==>
            exists i :: 0 <= i < |segs| && Trim(segs[i]) != [] && x == Lower(DropLeadingDot(Trim(segs[i])))
  {
    CleanedMembers(SplitOnCommas(s), x);
  }

  /** The emptiness filter runs before the dot is dropped: a segment that
      is a lone dot, up to whitespace, gives the entry "". */
  lemma DotGivesEmptyEntry(seg: string)
    ensures Entry(seg) == Some("") <==> Trim(seg) == "."
  {
    var t := Trim(seg);
    if t != [] && Lower(DropLeadingDot(t)) == "" {
      assert |DropLeadingDot(t)| == 0;
    }
  }

  /** The entries keep the order in which they first occur among the
      cleaned segments. */
  lemma SplitKeepsFirstOrder(s: string)
    requires Trim(s) != []
    ensures var c := Cleaned(SplitOnCommas(s));
            var r := SplitExtentionString(Some(s));
            forall i, j :: 0 <= i < j < |r| ==> FirstPosition(c, r[i]) < FirstPosition(c, r[j])
  {
    DistinctKeepsOrder(Cleaned(SplitOnCommas(s)));
  }

  // ----------------------------------------------------------- date text

  /** Character.isDigit, ASCII part. */
  predicate IsDigit(c: char) {
    '0' <= c <= '9'
  }

  predicate HasDigit(s: string) {
    exists i :: 0 <= i < |s| && IsDigit(s[i])
  }

  /** trim only removes characters up to U+0020, none of them a digit. */
  lemma TrimKeepsDigits(s: string)
    ensures HasDigit(Trim(s)) <==> HasDigit(s)
  {
    TrimStartKeepsDigits(s);
    TrimEndKeepsDigits(TrimStart(s));
  }

  lemma TrimStartKeepsDigits(s: string)
    ensures HasDigit(TrimStart(s)) <==> HasDigit(s)
  {
    var a := TrimStart(s);
    DigitsPastTrimmable(s, |s| - |a|);
  }

  lemma TrimEndKeepsDigits(s: string)
    ensures HasDigit(TrimEnd(s)) <==> HasDigit(s)
  {
    var b := TrimEnd(s);
    DigitsBeforeTrimmable(s, |b|);
  }

  /** Dropping trimmable characters from the front loses no digit. */
  lemma DigitsPastTrimmable(s: string, off: nat)
    requires off <= |s| && forall i :: 0 <= i < off ==> IsTrimmable(s[i])
    ensures HasDigit(s[off..]) <==> HasDigit(s)
  {
    var a := s[off..];
    if HasDigit(s) {
      var i :| 0 <= i < |s| && IsDigit(s[i]);
      assert !IsTrimmable(s[i]);
      assert a[i - off] == s[i];
    }
    if HasDigit(a) {
      var i :| 0 <= i < |a| && IsDigit(a[i]);
      assert s[off + i] == a[i];
    }
  }

  /** Dropping trimmable characters from the back loses no digit. */
  lemma DigitsBeforeTrimmable(s: string, len: nat)
    requires len <= |s| && forall i :: len <= i < |s| ==> IsTrimmable(s[i])
    ensures HasDigit(s[..len]) <==> HasDigit(s)
  {
    var b := s[..len];
    if HasDigit(s) {
      var i :| 0 <= i < |s| && IsDigit(s[i]);
      assert !IsTrimmable(s[i]);
      assert b[i] == s[i];
    }
    if HasDigit(b) {
      var i :| 0 <= i < |b| && IsDigit(b[i]);
      assert s[i] == b[i];
    }
  }

  /** replace('.', ' ') leaves the digits where they are. */
  lemma ReplaceKeepsDigits(s: string)
    ensures HasDigit(ReplaceChar(s, '.', ' ')) <==> HasDigit(s)
  {
    var r := ReplaceChar(s, '.', ' ');
    if HasDigit(s) {
      var i :| 0 <= i < |s| && IsDigit(s[i]);
      assert IsDigit(r[i]);
    }
  }

  /** isDateBlank of the option panel, never called with null: blank
      exactly when the text holds no digit. */
  method IsDateBlank(s: string) returns (blank: bool)
    ensures blank <==> !HasDigit(s)
  {
    var replaced := ReplaceChar(s, '.', ' ');
    var t := Trim(replaced);
    ReplaceKeepsDigits(s);
    TrimKeepsDigits(replaced);
    var found := FindDigit(t);
    blank := !found;
  }

  /** The scan of the trimmed text for a digit. */
  method FindDigit(t: string) returns (found: bool)
    ensures found <==> HasDigit(t)
  {
    for i := 0 to |t|
      invariant forall j :: 0 <= j < i ==> !IsDigit(t[j])
    {
      if IsDigit(t[i]) {
        return true;
      }
    }
    return false;
  }

  /** isDateBlank of the option frame: null counts as blank. */
  method IsDateBlankOrNull(s: Option<string>) returns (blank: bool)
    ensures blank <==> s.None? || !HasDigit(s.value)
  {
    if s.None? {
      return true;
    }
    blank := IsDateBlank(s.value);
  }

  /** What normalizeDateString answers: "" for a null or digit-free text,
      the text itself otherwise. */
  function Normalized(s: Option<string>): string {
    if s.Some? && HasDigit(s.value) then s.value else ""
  }

  /** normalizeDateString, frame and panel alike (the panel tests for null
      itself before calling its isDateBlank). */
  method NormalizeDateString(s: Option<string>) returns (r: string)
    ensures r == Normalized(s)
  {
    var blank := IsDateBlankOrNull(s);
    r := if blank then "" else s.value;
  }

  /** A normalised text is blank exactly when the field holds no digit, and
      normalising twice changes nothing. */
  lemma NormalizedBlank(s: Option<string>)
    ensures IsBlank(Normalized(s)) <==> s.None? || !HasDigit(s.value)
    ensures Normalized(Some(Normalized(s))) == Normalized(s)
  {
    if s.Some? && HasDigit(s.value) {
      var i :| 0 <= i < |s.value| && IsDigit(s.value[i]);
      assert !IsWhitespace(s.value[i]);
    }
  }

  // ------------------------------------------------------- date format

  predicate IsLeapYear(y: int) {
    y % 4 == 0 && (y % 100 != 0 || y % 400 == 0)
  }

  function DaysInMonth(y: int, m: int): int
    requires 1 <= m <= 12
  {
    if m == 2 then (if IsLeapYear(y) then 29 else 28)
    else if m == 4 || m == 6 || m == 9 || m == 11 then 30
    else 31
  }

  /** A day of the proleptic Gregorian calendar. */
  predicate ValidDate(d: Date) {
    1 <= d.month <= 12 && 1 <= d.day <= DaysInMonth(d.year, d.month)
  }

  /** The shape dd.MM.uuuu with a four-digit year. */
  predicate DateShape(t: string) {
    && |t| == 10 && t[2] == '.' && t[5] == '.'
    && IsDigit(t[0]) && IsDigit(t[1]) && IsDigit(t[3]) && IsDigit(t[4])
    && IsDigit(t[6]) && IsDigit(t[7]) && IsDigit(t[8]) && IsDigit(t[9])
  }

  function DigitValue(c: char): nat
    requires IsDigit(c)
  {
    c as int - '0' as int
  }

  /** The number the digits of t from i on, n of them, spell. */
  function Number(t: string, i: nat, n: nat): nat
    requires i + n <= |t| && forall k :: i <= k < i + n ==> IsDigit(t[k])
  {
    if n == 0 then 0 else 10 * Number(t, i, n - 1) + DigitValue(t[i + n - 1])
  }

  /** LocalDate.parse(text, DATE_FMT) with the pattern dd.MM.uuuu and the
      STRICT resolver: two day digits, a dot, two month digits, a dot and
      four year digits naming a real day; None where parse throws. */
  function ParseDate(t: string): (r: Option<Date>)
    ensures r.Some? ==> ValidDate(r.value) && 0 <= r.value.year <= 9999 && DateShape(t)
  {
    if DateShape(t) then
      var d := Date(Number(t, 6, 4), Number(t, 3, 2), Number(t, 0, 2));
      assert Number(t, 6, 4) < 10000 by {
        assert Number(t, 6, 1) < 10;
        assert Number(t, 6, 2) < 100;
        assert Number(t, 6, 3) < 1000;
      }
      if ValidDate(d) then Some(d) else None
    else None
  }

  function Pad2(n: nat): (r: string)
    requires n < 100
    ensures |r| == 2
  {
    [DigitChar(n / 10), DigitChar(n % 10)]
  }

  /** LocalDate.format(DATE_FMT) for a year of at most four digits, as the
      panel fills its fields from a model. */
  function FormatDate(d: Date): (r: string)
    requires ValidDate(d) && 0 <= d.year <= 9999
    ensures |r| == 10
  {
    Pad2(d.day) + "." + Pad2(d.month) + "." + Pad4(d.year)
  }

  lemma DigitCharValue(n: nat)
    requires n < 10
    ensures IsDigit(DigitChar(n)) && DigitValue(DigitChar(n)) == n
  {
  }

  /** Two digits spell n back. */
  lemma Pad2Spells(t: string, i: nat, n: nat)
    requires n < 100 && i + 2 <= |t| && t[i..i + 2] == Pad2(n)
    ensures IsDigit(t[i]) && IsDigit(t[i + 1]) && Number(t, i, 2) == n
  {
    DigitCharValue(n / 10);
    DigitCharValue(n % 10);
    assert t[i] == Pad2(n)[0] && t[i + 1] == Pad2(n)[1];
    assert Number(t, i, 1) == n / 10;
  }

  /** Four digits spell n back. */
  lemma Pad4Spells(t: string, i: nat, n: nat)
    requires n < 10000 && i + 4 <= |t| && t[i..i + 4] == Pad4(n)
    ensures forall k :: i <= k < i + 4 ==> IsDigit(t[k])
    ensures Number(t, i, 4) == n
  {
    var t4 := t[i..i + 4];
    assert t[i] == t4[0] && t[i + 1] == t4[1] && t[i + 2] == t4[2] && t[i + 3] == t4[3];
    DigitCharValue(n / 1000);
    DigitCharValue(n / 100 % 10);
    DigitCharValue(n / 10 % 10);
    DigitCharValue(n % 10);
    NumberOfFour(t, i);
    FourDigitsOf(n);
  }

  /** A four-digit number is the sum of its digits' place values. */
  lemma FourDigitsOf(n: nat)
    requires n < 10000
    ensures n == 1000 * (n / 1000) + 100 * (n / 100 % 10) + 10 * (n / 10 % 10) + n % 10
  {
    var q1 := n / 10;
    var q2 := q1 / 10;
    var q3 := q2 / 10;
    assert n == 10 * q1 + n % 10;
    assert q1 == 10 * q2 + q1 % 10;
    assert q2 == 10 * q3 + q2 % 10;
    assert n == 100 * q2 + (10 * (q1 % 10) + n % 10);
    assert n / 100 == q2;
    assert n == 1000 * q3 + (100 * (q2 % 10) + 10 * (q1 % 10) + n % 10);
    assert n / 1000 == q3;
  }

  lemma NumberOfFour(t: string, i: nat)
    requires i + 4 <= |t| && forall k :: i <= k < i + 4 ==> IsDigit(t[k])
    ensures Number(t, i, 4)
            == 1000 * DigitValue(t[i]) + 100 * DigitValue(t[i + 1]) + 10 * DigitValue(t[i + 2]) + DigitValue(t[i + 3])
  {
    assert Number(t, i, 1) == DigitValue(t[i]);
    assert Number(t, i, 2) == 10 * DigitValue(t[i]) + DigitValue(t[i + 1]);
  }

  /** Every day the field can show parses back to itself. */
  lemma ParseFormat(d: Date)
    requires ValidDate(d) && 0 <= d.year <= 9999
    ensures ParseDate(FormatDate(d)) == Some(d)
  {
    var t := FormatDate(d);
    assert t[0..2] == Pad2(d.day) && t[2] == '.';
    assert t[3..5] == Pad2(d.month) && t[5] == '.';
    assert t[6..10] == Pad4(d.year);
    Pad2Spells(t, 0, d.day);
    Pad2Spells(t, 3, d.month);
    Pad4Spells(t, 6, d.year);
  }

  /** The digits of n, written back, give the two characters read. */
  lemma SpellsPad2(t: string, i: nat)
    requires i + 2 <= |t| && IsDigit(t[i]) && IsDigit(t[i + 1])
    ensures Number(t, i, 2) < 100 && Pad2(Number(t, i, 2)) == t[i..i + 2]
  {
    var n := Number(t, i, 2);
    assert Number(t, i, 1) == DigitValue(t[i]);
    assert n / 10 == DigitValue(t[i]) && n % 10 == DigitValue(t[i + 1]);
  }

  lemma SpellsPad4(t: string, i: nat)
    requires i + 4 <= |t| && forall k :: i <= k < i + 4 ==> IsDigit(t[k])
    ensures Number(t, i, 4) < 10000 && Pad4(Number(t, i, 4)) == t[i..i + 4]
  {
    var n := Number(t, i, 4);
    var a, b, c, e := DigitValue(t[i]), DigitValue(t[i + 1]), DigitValue(t[i + 2]), DigitValue(t[i + 3]);
    NumberOfFour(t, i);
    DigitsOfFour(a, b, c, e);
    ValueDigitChar(t[i]);
    ValueDigitChar(t[i + 1]);
    ValueDigitChar(t[i + 2]);
    ValueDigitChar(t[i + 3]);
    assert Pad4(n) == [t[i], t[i + 1], t[i + 2], t[i + 3]];
  }

  lemma ValueDigitChar(c: char)
    requires IsDigit(c)
    ensures DigitChar(DigitValue(c)) == c
  {
  }

  /** Division takes a four-digit number apart again. */
  lemma DigitsOfFour(a: nat, b: nat, c: nat, e: nat)
    requires a < 10 && b < 10 && c < 10 && e < 10
    ensures var n := 1000 * a + 100 * b + 10 * c + e;
            n < 10000 && n / 1000 == a && n / 100 % 10 == b && n / 10 % 10 == c && n % 10 == e
  {
    var n := 1000 * a + 100 * b + 10 * c + e;
    assert n / 10 == 100 * a + 10 * b + c;
    assert n / 100 == 10 * a + b;
  }

  /** The strict format accepts nothing but the formatted days: a text that
      parses is the formatting of its date. */
  lemma FormatParse(t: string)
    requires ParseDate(t).Some?
    ensures FormatDate(ParseDate(t).value) == t
  {
    SpellsPad2(t, 0);
    SpellsPad2(t, 3);
    SpellsPad4(t, 6);
    assert t == t[0..2] + "." + t[3..5] + "." + t[6..10];
  }

  /** The calendar rules the strict resolver applies. */
  lemma StrictExamples()
    ensures ParseDate("29.02.2024") == Some(Date(2024, 2, 29))
    ensures ParseDate("29.02.2023").None? && ParseDate("31.04.2024").None?
    ensures ParseDate("1_.__.____").None?
  {
    assert DateShape("29.02.2024") && DateShape("29.02.2023") && DateShape("31.04.2024");
    assert !IsDigit("1_.__.____"[1]);
  }

  // ---------------------------------------------------- toModel, dates

  /** The outcome of one date field: the date to set, nothing to set, or
      the exception parse throws. */
  datatype DateField = Keep | Set(date: Date) | Throws

  /** A field is set only when its normalised text is not blank, that is
      when it holds a digit. */
  function DateFieldOf(text: Option<string>): DateField {
    var str := Normalized(text);
    if IsBlank(str) then Keep
    else if ParseDate(str).Some? then Set(ParseDate(str).value)
    else Throws
  }

  function Applied(current: Option<Date>, f: DateField): Option<Date> {
    if f.Set? then Some(f.date) else current
  }

  /** The date part of toModel on the model it fills: each operator is
      copied, and each date is set from its field text when that holds a
      digit. A text the strict format rejects throws, leaving the later
      fields untouched; ok is false then. */
  method ApplyDateFields(model: FileSearchOptionsModel,
                         createdOperator: Option<string>, createdText: Option<string>,
                         modifiedOperator: Option<string>, modifiedText: Option<string>)
      returns (ok: bool)
    modifies model
    ensures var c, m := DateFieldOf(createdText), DateFieldOf(modifiedText);
            && ok == (!c.Throws? && !m.Throws?)
            && model.Value() ==
               if c.Throws? then
                 old(model.Value()).(fileCreationDateOperator := createdOperator)
               else
                 old(model.Value()).(fileCreationDateOperator := createdOperator,
                                     creationDate := Applied(old(model.creationDate), c),
                                     fileModificationDateOperator := modifiedOperator,
                                     modificationDate := Applied(old(model.modificationDate), m))
  {
    model.SetFileCreationDateOperator(createdOperator);
    var createdStr := NormalizeDateString(createdText);
    if !IsBlank(createdStr) {
      var d := ParseDate(createdStr);
      if d.None? {
        return false;
      }
      model.SetCreationDate(Some(d.value));
    }
    model.SetFileModificationDateOperator(modifiedOperator);
    var modifiedStr := NormalizeDateString(modifiedText);
    if !IsBlank(modifiedStr) {
      var d := ParseDate(modifiedStr);
      if d.None? {
        return false;
      }
      model.SetModificationDate(Some(d.value));
    }
    return true;
  }

  /** On a fresh model a date stays null unless its field holds a digit,
      and a field holding a digit either sets the date or throws. */
  lemma DateSetOnlyWithDigit(text: Option<string>)
    ensures DateFieldOf(text) == Keep <==> text.None? || !HasDigit(text.value)
    ensures Applied(None, DateFieldOf(text)).Some? ==> text.Some? && HasDigit(text.value)
  {
    NormalizedBlank(text);
  }
}
