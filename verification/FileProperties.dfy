/** The file properties window: its media-file test, the boolean
    recognisers of its metadata editor, the split of a metadata key into a
    group and a short key, and the layout of the metadata tab. */
module FileProperties {
  import opened JavaText
  import opened Prefixes

  // ------------------------------------------------------------ media

  /** The extensions the window treats as image, audio or video. */
  const MediaExtensions: seq<string> :=
    [".jpg", ".jpeg", ".png", ".gif", ".bmp", ".tiff", ".mp3", ".wav",
     ".flac", ".ogg", ".mp4", ".mov", ".avi", ".mkv", ".wmv", ".webm"]

  /** The name ends with one of the given extensions. */
  function EndsWithAny(name: string, extensions: seq<string>): (r: bool)
    ensures r <==> exists k :: 0 <= k < |extensions| && EndsWith(name, extensions[k])
  {
    if extensions == [] then false
    else EndsWith(name, extensions[0]) || EndsWithAny(name, extensions[1..])
  }

  /** isMediaFile: the lowercased file name ends with one of the listed
      extensions. */
  function IsMediaFile(fileName: string): bool {
    EndsWithAny(Lower(fileName), MediaExtensions)
  }

  /** Case does not matter: a name and its lowercase form agree. */
  lemma MediaIgnoresCase(fileName: string)
    ensures IsMediaFile(fileName) == IsMediaFile(Lower(fileName))
  {
    LowerIsLower(fileName);
  }

  /** Appending a listed extension to any name makes a media file. */
  lemma MediaByExtension(stem: string, k: nat)
    requires k < |MediaExtensions|
    ensures IsMediaFile(stem + MediaExtensions[k])
  {
    var e := MediaExtensions[k];
    LowerAppend(stem, e);
    LowerOfLower(e);
    var name := Lower(stem + e);
    assert name[|name| - |e|..] == e;
  }

  // ---------------------------------------------------------- booleans

  /** The words the editor offers a check box for, in lower case. */
  const BooleanWords: seq<string> := ["true", "false", "wahr", "falsch", "ja", "nein", "yes", "no", "1", "0"]

  /** The words parseBoolean reads as true. */
  const TrueWords: seq<string> := ["true", "wahr", "ja", "yes", "1"]

  /** Two texts match under (?i): equal letter by letter up to ASCII case. */
  predicate EqualsIgnoreCase(a: string, b: string) {
    |a| == |b| && forall i :: 0 <= i < |a| ==> LowerChar(a[i]) == LowerChar(b[i])
  }

  /** The text matches one of the alternatives up to case. */
  predicate MatchesAny(t: string, words: seq<string>) {
    exists k :: 0 <= k < |words| && EqualsIgnoreCase(t, words[k])
  }

  /** looksBoolean: false for null; otherwise the trimmed text matches
      (?i)^(true|false|wahr|falsch|ja|nein|yes|no|1|0)$, that is it equals
      one of the words up to case. */
  function LooksBoolean(s: Option<string>): bool {
    s.Some? && MatchesAny(Trim(s.value), BooleanWords)
  }

  /** parseBoolean: false for null; otherwise true exactly for the trimmed,
      lowercased words true, wahr, ja, yes and 1. */
  function ParseBoolean(s: Option<string>): bool {
    if s.None? then false
    else
      var v := Lower(Trim(s.value));
      v == "true" || v == "wahr" || v == "ja" || v == "yes" || v == "1"
  }

  /** A match up to case against a lowercase word is equality after
      lowercasing. */
  lemma MatchIsLowerEqual(t: string, w: string)
    requires IsLower(w)
    ensures EqualsIgnoreCase(t, w) <==> Lower(t) == w
  {
    LowerOfLower(w);
    if Lower(t) == w {
      assert forall i :: 0 <= i < |t| ==> LowerChar(w[i]) == w[i];
    }
  }

  /** Matching lowercase alternatives up to case is membership after
      lowercasing. */
  lemma MatchesAnyLower(t: string, words: seq<string>)
    requires forall k :: 0 <= k < |words| ==> IsLower(words[k])
    ensures MatchesAny(t, words) <==> Lower(t) in words
  {
    forall k | 0 <= k < |words|
      ensures EqualsIgnoreCase(t, words[k]) <==> Lower(t) == words[k]
    {
      MatchIsLowerEqual(t, words[k]);
    }
  }

  lemma BooleanWordsAreLower()
    ensures forall k :: 0 <= k < |BooleanWords| ==> IsLower(BooleanWords[k])
  {
  }

  /** looksBoolean holds exactly when the trimmed, lowercased text is one of
      the ten words. */
  lemma LooksBooleanWords(s: Option<string>)
    ensures LooksBoolean(s) <==> s.Some? && Lower(Trim(s.value)) in BooleanWords
  {
    if s.Some? {
      BooleanWordsAreLower();
      MatchesAnyLower(Trim(s.value), BooleanWords);
    }
  }

  /** The chain of equals in parseBoolean is membership in the true words. */
  lemma TrueWordsChain(v: string)
    ensures (v == "true" || v == "wahr" || v == "ja" || v == "yes" || v == "1") <==> v in TrueWords
  {
  }

  /** parseBoolean holds exactly when the trimmed, lowercased text is one of
      the five true words. */
  lemma ParseBooleanWords(s: Option<string>)
    ensures ParseBoolean(s) <==> s.Some? && Lower(Trim(s.value)) in TrueWords
  {
    if s.Some? {
      TrueWordsChain(Lower(Trim(s.value)));
    }
  }

  /** Whatever parseBoolean reads as true also looks boolean, so the check
      box is only ever ticked for a text the editor shows as a check box;
      among the texts that look boolean, the other five read as false. */
  lemma ParseImpliesLooks(s: Option<string>)
    ensures ParseBoolean(s) ==> LooksBoolean(s)
    ensures LooksBoolean(s) && !ParseBoolean(s) ==>
            Lower(Trim(s.value)) in ["false", "falsch", "nein", "no", "0"]
  {
    LooksBooleanWords(s);
    ParseBooleanWords(s);
  }

  /** String.valueOf of a boolean is already trimmed and lowercase. */
  lemma BoolTextNormal(b: bool)
    ensures Lower(Trim(BoolToString(b))) == BoolToString(b)
  {
    var s := BoolToString(b);
    assert !IsTrimmable(s[0]) && !IsTrimmable(s[|s| - 1]);
    UntrimmedEnds(s);
    LowerOfLower(s);
  }

  /** The text the editor writes back for a check box, String.valueOf of
      its state, looks boolean and parses to that state again. */
  lemma EditRoundTrip(b: bool)
    ensures LooksBoolean(Some(BoolToString(b)))
    ensures ParseBoolean(Some(BoolToString(b))) == b
  {
    var s := BoolToString(b);
    BoolTextNormal(b);
    LooksBooleanWords(Some(s));
    ParseBooleanWords(Some(s));
    if b {
      assert s == BooleanWords[0] && s == TrueWords[0];
    } else {
      assert s == BooleanWords[1];
      assert s !in TrueWords;
    }
  }

  // ---------------------------------------------------- metadata keys

  datatype KeyParts = KeyParts(group: string, shortKey: string)

  /** The group and the short key of a metadata key: around its first
      '-', both trimmed, as split("-", 2) cuts it; "Allgemein" and the key
      itself when it has no '-'. */
  function SplitKey(key: string): (r: KeyParts)
    ensures '-' !in key ==> r == KeyParts("Allgemein", key)
    ensures '-' in key ==> '-' !in r.group
  {
    if '-' in key then
      var i := FirstIndex(key, '-');
      var g := Trim(key[..i]);
      assert '-' !in g by {
        TrimIsSlice(key[..i]);
      }
      KeyParts(g, Trim(key[i + 1..]))
    else KeyParts("Allgemein", key)
  }

  /** trim keeps a contiguous part of its input. */
  lemma TrimIsSlice(s: string)
    ensures forall c :: c in Trim(s) ==> c in s
  {
    var a := TrimStart(s);
    var b := TrimEnd(a);
    forall c | c in b
      ensures c in s
    {
      var j :| 0 <= j < |b| && b[j] == c;
      assert a[j] == c;
      assert s[|s| - |a| + j] == c;
    }
  }

  /** A text with no trimmable character at either end is its own trim. */
  lemma UntrimmedEnds(x: string)
    requires x != [] && !IsTrimmable(x[0]) && !IsTrimmable(x[|x| - 1])
    ensures Trim(x) == x
  {
    assert TrimStart(x) == x;
  }

  /** A text trim leaves alone has no trimmable character at either end. */
  lemma TrimmedEnds(x: string)
    requires Trim(x) == x && x != []
    ensures TrimStart(x) == x && TrimEnd(x) == x
    ensures !IsTrimmable(x[0]) && !IsTrimmable(x[|x| - 1])
  {
    var a := TrimStart(x);
    assert |a| == |x|;
    assert a == x;
  }

  /** A trimmed text followed by a blank trims back to itself. */
  lemma TrimBlankAfter(x: string)
    requires Trim(x) == x
    ensures Trim(x + " ") == x
  {
    var l := x + " ";
    assert l[..|l| - 1] == x;
    if x == [] {
      assert TrimStart(l) == [];
    } else {
      TrimmedEnds(x);
      assert l[0] == x[0];
      assert TrimStart(l) == l;
      assert TrimEnd(l) == TrimEnd(x);
    }
  }

  /** A trimmed text preceded by a blank trims back to itself. */
  lemma TrimBlankBefore(x: string)
    requires Trim(x) == x
    ensures Trim(" " + x) == x
  {
    var r := " " + x;
    assert r[1..] == x;
    assert TrimStart(r) == TrimStart(x);
    if x != [] {
      TrimmedEnds(x);
    }
  }

  /** FirstIndex is the position of the first occurrence. */
  lemma {:induction false} FirstIndexAt(s: string, c: char, j: nat)
    requires j < |s| && s[j] == c && c !in s[..j]
    ensures c in s && FirstIndex(s, c) == j
  {
    if j > 0 {
      assert s[0] == s[..j][0];
      assert s[1..][j - 1] == c;
      assert s[1..][..j - 1] == s[1..j];
      assert forall x :: x in s[1..j] ==> x in s[..j];
      FirstIndexAt(s[1..], c, j - 1);
    }
  }

  lemma NoDashAfterBlank(directory: string)
    requires '-' !in directory
    ensures '-' !in directory + " "
  {
    var d := directory + " ";
    forall i | 0 <= i < |d|
      ensures d[i] != '-'
    {
      if i < |directory| {
        assert d[i] == directory[i];
      }
    }
  }

  /** In directory + " - " + tag, the first '-' is the one the reader put
      there. */
  lemma ReaderKeyDash(directory: string, tag: string)
    requires '-' !in directory
    ensures var key := directory + " - " + tag;
            '-' in key && FirstIndex(key, '-') == |directory| + 1
            && key[..|directory| + 1] == directory + " " && key[|directory| + 2..] == " " + tag
  {
    var key := directory + " - " + tag;
    var n := |directory|;
    assert key[n + 1] == '-';
    assert key[..n + 1] == directory + " ";
    assert key[n + 2..] == " " + tag;
    NoDashAfterBlank(directory);
    FirstIndexAt(key, '-', n + 1);
  }

  /** The keys the metadata reader builds, directory name + " - " + tag
      name, split back into the directory (the group) and the tag (the
      short key), as long as the directory name has no '-' and neither name
      has blanks at its ends. */
  lemma SplitReaderKey(directory: string, tag: string)
    requires '-' !in directory && Trim(directory) == directory && Trim(tag) == tag
    ensures SplitKey(directory + " - " + tag) == KeyParts(directory, tag)
  {
    ReaderKeyDash(directory, tag);
    TrimBlankAfter(directory);
    TrimBlankBefore(tag);
  }

  // --------------------------------------------------- metadata layout

  /** One entry of the LinkedHashMap of metadata; the reader may store a
      null value. */
  datatype MetaEntry = MetaEntry(key: string, value: Option<string>)

  /** The rows of the metadata tab, top to bottom: a bold group header, a
      red error line, or a key with its value (shown as "–" when null) and,
      when editable, an edit button. */
  datatype Row =
    | Header(group: string)
    | ErrorLine(text: Option<string>)
    | Field(key: string, value: Option<string>, editable: bool)

  /** The value a LinkedHashMap holds for a key, null when it has none. */
  function Get(m: seq<MetaEntry>, key: string): (r: Option<string>)
    ensures r.Some? ==> MetaEntry(key, r) in m
    ensures (forall e :: e in m ==> e.key != key) ==> r.None?
  {
    if m == [] then None
    else if m[0].key == key then m[0].value
    else Get(m[1..], key)
  }

  /** The map after remove(key): every other entry, in its order. */
  function Removed(m: seq<MetaEntry>, key: string): (r: seq<MetaEntry>)
    ensures forall e :: e in r <==> e in m && e.key != key
    ensures |r| <= |m|
  {
    if m == [] then []
    else (if m[0].key == key then [] else [m[0]]) + Removed(m[1..], key)
  }

  /** key.toLowerCase().contains("fehler"): the entries the reader adds
      when reading failed. */
  predicate IsErrorKey(key: string) {
    Contains(Lower(key), "fehler")
  }

  /** The reader's error entry is recognised as one. */
  lemma ReaderErrorKey()
    ensures IsErrorKey("Fehler beim Lesen der Metadaten")
  {
    var k := Lower("Fehler beim Lesen der Metadaten");
    assert k[..6] == "fehler";
    ContainsIff(k, "fehler");
    assert OccursAt(k, "fehler", 0);
  }

  /** What the loop makes of one entry: an error line, or a group with a
      short key and the value. */
  datatype Item =
    | ErrorItem(text: Option<string>)
    | KeyItem(group: string, shortKey: string, value: Option<string>)

  function ItemOf(e: MetaEntry): Item {
    if IsErrorKey(e.key) then ErrorItem(e.value)
    else
      var parts := SplitKey(e.key);
      KeyItem(parts.group, parts.shortKey, e.value)
  }

  function Items(m: seq<MetaEntry>): (r: seq<Item>)
    ensures |r| == |m| && forall i :: 0 <= i < |m| ==> r[i] == ItemOf(m[i])
  {
    seq(|m|, i requires 0 <= i < |m| => ItemOf(m[i]))
  }

  /** The group of an item, "" for an error line. */
  function GroupOf(item: Item): string {
    if item.KeyItem? then item.group else ""
  }

  /** The group of the last item before position n that is not an error;
      "" when there is none, the value lastGroup starts with. */
  function LastGroupBefore(items: seq<Item>, n: nat): string
    requires n <= |items|
  {
    if n == 0 then ""
    else if items[n - 1].ErrorItem? then LastGroupBefore(items, n - 1)
    else GroupOf(items[n - 1])
  }

  /** The row every item gets: an error line, or its short key and value
      with an edit button. */
  function Body(item: Item): Row {
    match item
    case ErrorItem(text) => ErrorLine(text)
    case KeyItem(_, shortKey, value) => Field(shortKey, value, true)
  }

  /** The item opens a new group: it is not an error and its group differs
      from the last group shown. */
  predicate OpensGroup(items: seq<Item>, i: nat)
    requires i < |items|
  {
    items[i].KeyItem? && GroupOf(items[i]) != LastGroupBefore(items, i)
  }

  /** The rows of item i: its body, preceded by a header exactly when it
      opens a new group. */
  function Piece(items: seq<Item>, i: nat): (r: seq<Row>)
    requires i < |items|
  {
    if OpensGroup(items, i) then [Header(GroupOf(items[i])), Body(items[i])] else [Body(items[i])]
  }

  /** The rows of the first n items. */
  function Layout(items: seq<Item>, n: nat): seq<Row>
    requires n <= |items|
  {
    if n == 0 then [] else Layout(items, n - 1) + Piece(items, n - 1)
  }

  /** The two coordinates the tab always shows first, without an edit
      button. */
  function GpsRows(m: seq<MetaEntry>): seq<Row> {
    [Field("GPS Latitude", Get(m, "GPS Latitude"), false),
     Field("GPS Longitude", Get(Removed(m, "GPS Latitude"), "GPS Longitude"), false)]
  }

  /** The entries left once both coordinates are removed. */
  function Rest(m: seq<MetaEntry>): seq<MetaEntry> {
    Removed(Removed(m, "GPS Latitude"), "GPS Longitude")
  }

  /** createMetadataTab: removes both coordinates from a copy of the
      metadata and shows them first, then walks the remaining entries in
      their order, keeping the current row and the last group shown. The
      filler goes in the row after the last one. */
  method CreateMetadataTab(metadata: seq<MetaEntry>) returns (rows: seq<Row>, fillerRow: nat)
    ensures rows == GpsRows(metadata) + Layout(Items(Rest(metadata)), |Rest(metadata)|)
    ensures fillerRow == |rows|
  {
    var m := metadata;
    var latitude := Get(m, "GPS Latitude");
    m := Removed(m, "GPS Latitude");
    var longitude := Get(m, "GPS Longitude");
    m := Removed(m, "GPS Longitude");
    rows := [Field("GPS Latitude", latitude, false), Field("GPS Longitude", longitude, false)];
    var row := 2;
    ghost var gps := rows;
    ghost var items := Items(m);
    var lastGroup := "";
    for i := 0 to |m|
      invariant row == |rows|
      invariant rows == gps + Layout(items, i)
      invariant lastGroup == LastGroupBefore(items, i)
    {
      rows, row, lastGroup := AddEntry(m[i], rows, row, lastGroup, items, i, gps);
    }
    fillerRow := row;
  }

  /** One turn of the loop: an error entry adds its red line and skips the
      rest; any other entry adds a header when its group differs from the
      last one, then its field. */
  method AddEntry(entry: MetaEntry, rows: seq<Row>, row: nat, lastGroup: string,
                  ghost items: seq<Item>, ghost i: nat, ghost gps: seq<Row>)
      returns (rows': seq<Row>, row': nat, lastGroup': string)
    requires i < |items| && items[i] == ItemOf(entry)
    requires row == |rows| && rows == gps + Layout(items, i) && lastGroup == LastGroupBefore(items, i)
    ensures row' == |rows'| && rows' == gps + Layout(items, i + 1) && lastGroup' == LastGroupBefore(items, i + 1)
  {
    var key := entry.key;
    var value := entry.value;
    ghost var piece := Piece(items, i);
    assert Layout(items, i + 1) == Layout(items, i) + piece;
    AppendAssociates(gps, Layout(items, i), piece);
    rows', row', lastGroup' := rows, row, lastGroup;
    if IsErrorKey(key) {
      assert piece == [ErrorLine(value)];
      rows', row' := rows' + [ErrorLine(value)], row' + 1;
      return;
    }
    var parts := SplitKey(key);
    if parts.group != lastGroup' {
      assert piece == [Header(parts.group), Field(parts.shortKey, value, true)];
      rows', row' := rows' + [Header(parts.group)], row' + 1;
      lastGroup' := parts.group;
    } else {
      assert piece == [Field(parts.shortKey, value, true)];
    }
    rows', row' := rows' + [Field(parts.shortKey, value, true)], row' + 1;
  }

  // ------------------------------------------- properties of the layout

  /** The rows that are not headers. */
  function Bodies(rows: seq<Row>): seq<Row>
  {
    if rows == [] then []
    else Bodies(rows[..|rows| - 1]) + (if rows[|rows| - 1].Header? then [] else [rows[|rows| - 1]])
  }

  /** The groups of the header rows, in order. */
  function Headers(rows: seq<Row>): seq<string>
  {
    if rows == [] then []
    else Headers(rows[..|rows| - 1]) + (if rows[|rows| - 1].Header? then [rows[|rows| - 1].group] else [])
  }

  /** The group of the last header shown so far, "" before the first. */
  function CurrentGroup(rows: seq<Row>): string {
    LastOf(Headers(rows))
  }

  lemma {:induction false} BodiesAppend(a: seq<Row>, b: seq<Row>)
    ensures Bodies(a + b) == Bodies(a) + Bodies(b)
    decreases |b|
  {
    if b == [] {
      assert a + b == a;
    } else {
      var b' := b[..|b| - 1];
      assert (a + b)[..|a + b| - 1] == a + b';
      BodiesAppend(a, b');
    }
  }

  lemma {:induction false} HeadersAppend(a: seq<Row>, b: seq<Row>)
    ensures Headers(a + b) == Headers(a) + Headers(b)
    decreases |b|
  {
    if b == [] {
      assert a + b == a;
    } else {
      var b' := b[..|b| - 1];
      assert (a + b)[..|a + b| - 1] == a + b';
      HeadersAppend(a, b');
    }
  }

  lemma HeaderThenBody(g: string, body: Row)
    requires !body.Header?
    ensures Headers([Header(g), body]) == [g] && Bodies([Header(g), body]) == [body]
  {
    assert [Header(g), body][..1] == [Header(g)];
    assert [Header(g)][..0] == [];
    assert Headers([Header(g)]) == [g];
    assert Bodies([Header(g)]) == [];
  }

  /** What item n - 1 adds to the rows that are not headers: its body. */
  lemma BodiesStep(items: seq<Item>, n: nat)
    requires 0 < n <= |items|
    ensures Bodies(Layout(items, n)) == Bodies(Layout(items, n - 1)) + [Body(items[n - 1])]
  {
    var p := Piece(items, n - 1);
    if OpensGroup(items, n - 1) {
      HeaderThenBody(GroupOf(items[n - 1]), Body(items[n - 1]));
    }
    assert Bodies(p) == [Body(items[n - 1])];
    BodiesAppend(Layout(items, n - 1), p);
  }

  /** What item n - 1 adds to the headers: its group, when it opens one. */
  lemma HeadersStep(items: seq<Item>, n: nat)
    requires 0 < n <= |items|
    ensures OpensGroup(items, n - 1) ==> Headers(Layout(items, n)) == Headers(Layout(items, n - 1)) + [GroupOf(items[n - 1])]
    ensures !OpensGroup(items, n - 1) ==> Headers(Layout(items, n)) == Headers(Layout(items, n - 1))
  {
    var p := Piece(items, n - 1);
    if OpensGroup(items, n - 1) {
      HeaderThenBody(GroupOf(items[n - 1]), Body(items[n - 1]));
      assert Headers(p) == [GroupOf(items[n - 1])];
    } else {
      assert Headers(p) == [];
    }
    HeadersAppend(Layout(items, n - 1), p);
  }

  /** The row of each of the first n items, in order. */
  function BodyRows(items: seq<Item>, n: nat): (r: seq<Row>)
    requires n <= |items|
    ensures |r| == n && forall i :: 0 <= i < n ==> r[i] == Body(items[i])
  {
    if n == 0 then [] else BodyRows(items, n - 1) + [Body(items[n - 1])]
  }

  /** Every entry gets exactly one row besides the headers, in the order of
      the map: error entries their red line, the others their short key. */
  lemma {:induction false} OneRowPerItem(items: seq<Item>, n: nat)
    requires n <= |items|
    ensures Bodies(Layout(items, n)) == BodyRows(items, n)
  {
    if n > 0 {
      OneRowPerItem(items, n - 1);
      BodiesStep(items, n);
    }
  }

  /** The groups the first n items open, in order. */
  function OpenedGroups(items: seq<Item>, n: nat): seq<string>
    requires n <= |items|
  {
    if n == 0 then []
    else OpenedGroups(items, n - 1) + (if OpensGroup(items, n - 1) then [GroupOf(items[n - 1])] else [])
  }

  /** The last of some groups, "" when there are none. */
  function LastOf(hs: seq<string>): string {
    if hs == [] then "" else hs[|hs| - 1]
  }

  /** The headers of the layout are the groups the items open. */
  lemma {:induction false} HeadersAreOpenedGroups(items: seq<Item>, n: nat)
    requires n <= |items|
    ensures Headers(Layout(items, n)) == OpenedGroups(items, n)
  {
    if n > 0 {
      HeadersAreOpenedGroups(items, n - 1);
      HeadersStep(items, n);
      if OpensGroup(items, n - 1) {
        assert OpenedGroups(items, n) == OpenedGroups(items, n - 1) + [GroupOf(items[n - 1])];
      } else {
        assert OpenedGroups(items, n) == OpenedGroups(items, n - 1) + [];
        assert OpenedGroups(items, n - 1) + [] == OpenedGroups(items, n - 1);
      }
    }
  }

  /** The last group opened is the group of the last item that was not an
      error. */
  lemma {:induction false} LastOpenedIsLastGroup(items: seq<Item>, n: nat)
    requires n <= |items|
    ensures LastOf(OpenedGroups(items, n)) == LastGroupBefore(items, n)
  {
    if n > 0 {
      LastOpenedIsLastGroup(items, n - 1);
    }
  }

  /** The header last shown is always the group of the last item that was
      not an error: the lastGroup the loop keeps is what the reader sees. */
  lemma CurrentGroupIsLastGroup(items: seq<Item>, n: nat)
    requires n <= |items|
    ensures CurrentGroup(Layout(items, n)) == LastGroupBefore(items, n)
  {
    HeadersAreOpenedGroups(items, n);
    LastOpenedIsLastGroup(items, n);
  }

  /** Each field row sits under the header of its own group (under none
      only when its group is "" and no header came before). */
  lemma FieldUnderItsGroup(items: seq<Item>, i: nat)
    requires i < |items| && items[i].KeyItem?
    ensures CurrentGroup(Layout(items, i + 1)) == items[i].group
  {
    CurrentGroupIsLastGroup(items, i + 1);
  }

  /** Error entries add no header and leave the current group as it was. */
  lemma ErrorKeepsGroup(items: seq<Item>, i: nat)
    requires i < |items| && items[i].ErrorItem?
    ensures Headers(Layout(items, i + 1)) == Headers(Layout(items, i))
    ensures LastGroupBefore(items, i + 1) == LastGroupBefore(items, i)
  {
    HeadersStep(items, i + 1);
  }

  /** The group before the last one in hs, "" when hs has fewer than two. */
  function Previous(hs: seq<string>): string
    requires hs != []
  {
    if |hs| == 1 then "" else hs[|hs| - 2]
  }

  /** Each group differs from the one before it, the first from "". */
  ghost predicate EachAChange(hs: seq<string>) {
    hs == [] || (EachAChange(hs[..|hs| - 1]) && hs[|hs| - 1] != Previous(hs))
  }

  /** Read out: neighbouring groups differ, and the first one is not "". */
  lemma {:induction false} EachAChangePairwise(hs: seq<string>)
    requires EachAChange(hs)
    ensures forall j, k :: 0 <= j && k == j + 1 && k < |hs| ==> hs[j] != hs[k]
    ensures hs != [] ==> hs[0] != ""
  {
    if hs != [] {
      var init := hs[..|hs| - 1];
      EachAChangePairwise(init);
      forall j, k | 0 <= j && k == j + 1 && k < |hs|
        ensures hs[j] != hs[k]
      {
        if k < |hs| - 1 {
          assert hs[j] == init[j] && hs[k] == init[k];
        }
      }
      if |hs| > 1 {
        assert hs[0] == init[0];
      }
    }
  }

  /** Adding a header for a group other than the last one shown, or adding
      none, keeps every header a change. */
  lemma ChangeAppended(hs0: seq<string>, hs: seq<string>, opens: bool, g: string)
    requires EachAChange(hs0) && (opens ==> g != LastOf(hs0))
    requires hs == hs0 + (if opens then [g] else [])
    ensures EachAChange(hs)
  {
    if opens {
      assert hs[..|hs0|] == hs0;
    } else {
      assert hs == hs0;
    }
  }

  /** Each group opened differs from the one opened before it. */
  lemma {:induction false} OpenedGroupsChange(items: seq<Item>, n: nat)
    requires n <= |items|
    ensures EachAChange(OpenedGroups(items, n))
  {
    if n > 0 {
      OpenedGroupsChange(items, n - 1);
      LastOpenedIsLastGroup(items, n - 1);
      ChangeAppended(OpenedGroups(items, n - 1), OpenedGroups(items, n), OpensGroup(items, n - 1), GroupOf(items[n - 1]));
    }
  }

  /** A header is shown only when the group changes: consecutive headers
      name different groups, and the first one is not "". */
  lemma HeadersChange(items: seq<Item>, n: nat)
    requires n <= |items|
    ensures EachAChange(Headers(Layout(items, n)))
  {
    HeadersAreOpenedGroups(items, n);
    OpenedGroupsChange(items, n);
  }

  /** The coordinates come first and appear nowhere below them. */
  lemma GpsFirst(metadata: seq<MetaEntry>)
    ensures forall e :: e in Rest(metadata) ==> e.key != "GPS Latitude" && e.key != "GPS Longitude"
    ensures forall e :: e in metadata && e.key != "GPS Latitude" && e.key != "GPS Longitude" ==> e in Rest(metadata)
  {
  }
}
