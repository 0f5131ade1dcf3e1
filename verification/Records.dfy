/** The per-file records of both searches: the duplicate-search record with
    its lazily computed MD5 string, and the plain-search result record. */
module Records {
  import opened JavaText
  import opened FileSystem

  // ------------------------------------------------------------ extension

  /** The type both record classes derive from a file name: the text after
      the last dot, lowercased, when there is a dot and it is not the last
      character; a leading dot counts, so ".bashrc" has type "bashrc". */
  function ExtractExtension(name: string): (r: string)
    ensures '.' !in r && IsLower(r)
  {
    var dot := LastIndexOf(name, '.');
    if dot >= 0 && dot < |name| - 1 then Lower(name[dot + 1..]) else ""
  }

  lemma LastDotOf(base: string, ext: string)
    requires '.' !in ext
    ensures LastIndexOf(base + "." + ext, '.') == |base|
  {
    var s := base + "." + ext;
    var r := LastIndexOf(s, '.');
    assert s[|base|] == '.';
  }

  /** A name of the form base.ext with a dot-free, non-empty ext has type
      lowercase ext, whatever base is (even empty). */
  lemma ExtensionOfDottedName(base: string, ext: string)
    requires '.' !in ext && ext != []
    ensures ExtractExtension(base + "." + ext) == Lower(ext)
  {
    LastDotOf(base, ext);
    assert (base + "." + ext)[|base| + 1..] == ext;
  }

  /** Names without a dot, and names ending in a dot, have no type. */
  lemma NoExtensionWithoutInnerDot(name: string)
    requires '.' !in name || (name != [] && name[|name| - 1] == '.')
    ensures ExtractExtension(name) == ""
  {
    if '.' !in name {
      assert LastIndexOf(name, '.') < 0;
    }
  }

  // ------------------------------------------------------------------ hex

  /** The lowercase hex digit of a value below 16. */
  function HexDigit(n: nat): char
    requires n < 16
  {
    if n < 10 then ('0' as int + n) as char else ('a' as int + n - 10) as char
  }

  /** String.format("%02x", b): two lowercase hex digits of the unsigned byte. */
  function HexByte(b: byte): string {
    [HexDigit(b as int / 16), HexDigit(b as int % 16)]
  }

  /** The digest bytes as lowercase hex, in byte order. */
  function Hex(d: seq<byte>): (r: string)
    ensures |r| == 2 * |d|
  {
    if d == [] then [] else Hex(d[..|d| - 1]) + HexByte(d[|d| - 1])
  }

  predicate IsHexDigit(c: char) {
    '0' <= c <= '9' || 'a' <= c <= 'f'
  }

  function HexValue(c: char): nat {
    if '0' <= c <= '9' then c as nat - '0' as nat
    else if 'a' <= c <= 'f' then c as nat - 'a' as nat + 10
    else 0
  }

  /** Reading a hex string back into bytes, two digits per byte. */
  function Unhex(s: string): seq<byte>
    requires |s| % 2 == 0
  {
    if s == [] then []
    else
      var v := HexValue(s[|s| - 2]) * 16 + HexValue(s[|s| - 1]);
      Unhex(s[..|s| - 2]) + [if v < 256 then v as byte else 0]
  }

  lemma {:induction false} HexIsLowercaseHex(d: seq<byte>)
    ensures forall i :: 0 <= i < |Hex(d)| ==> IsHexDigit(Hex(d)[i])
  {
    if d != [] {
      HexIsLowercaseHex(d[..|d| - 1]);
    }
  }

  /** Decoding the hex string gives back the digest: the encoding loses nothing. */
  lemma {:induction false} HexRoundTrip(d: seq<byte>)
    ensures Unhex(Hex(d)) == d
  {
    if d != [] {
      var init, b := d[..|d| - 1], d[|d| - 1];
      var s := Hex(d);
      assert s == Hex(init) + HexByte(b);
      assert s[..|s| - 2] == Hex(init);
      assert s[|s| - 2..] == HexByte(b);
      HexByteDecodes(b);
      HexRoundTrip(init);
      assert d == init + [b];
    }
  }

  lemma HexByteDecodes(b: byte)
    ensures HexValue(HexByte(b)[0]) * 16 + HexValue(HexByte(b)[1]) == b as int
  {
  }

  lemma HexInjective(d1: seq<byte>, d2: seq<byte>)
    ensures Hex(d1) == Hex(d2) <==> d1 == d2
  {
    if Hex(d1) == Hex(d2) {
      HexRoundTrip(d1);
      HexRoundTrip(d2);
    }
  }

  // ----------------------------------------------------------------- hash

  /** What calculateHash yields for a file: the hex MD5 of its content, or
      the sentinel "ERROR" when the content cannot be read. */
  function HashOf(md5: seq<byte> -> seq<byte>, f: FileInfo): string {
    if f.content.None? then "ERROR" else Hex(md5(f.content.value))
  }

  /** Two files get the same hash string iff both are unreadable or both are
      readable with equal digests: "ERROR" is never a hex string. */
  lemma SameHashString(md5: seq<byte> -> seq<byte>, f: FileInfo, g: FileInfo)
    ensures (HashOf(md5, f) == HashOf(md5, g))
        <==> ((f.content.None? && g.content.None?)
              || (f.content.Some? && g.content.Some? && md5(f.content.value) == md5(g.content.value)))
  {
    if f.content.Some? && g.content.Some? {
      HexInjective(md5(f.content.value), md5(g.content.value));
    } else if f.content.Some? {
      assert |HashOf(md5, f)| % 2 == 0;
    } else if g.content.Some? {
      assert |HashOf(md5, g)| % 2 == 0;
    }
  }

  /** Files.newInputStream over a file's content. */
  class InputStream {
    const data: seq<byte>
    var pos: nat

    predicate Valid()
      reads this
    {
      pos <= |data|
    }

    constructor (data: seq<byte>)
      ensures this.data == data && pos == 0 && Valid()
    {
      this.data := data;
      pos := 0;
    }

    /** InputStream.read(byte[]): -1 at the end of the stream, otherwise
        between 1 and buffer.Length of the next bytes (0 for an empty buffer). */
    method Read(buffer: array<byte>) returns (n: int)
      requires Valid()
      modifies this, buffer
      ensures Valid()
      ensures buffer.Length == 0 ==> n == 0 && pos == old(pos)
      ensures buffer.Length > 0 && old(pos) == |data| ==> n == -1 && pos == old(pos)
      ensures buffer.Length > 0 && old(pos) < |data| ==>
                && 0 < n <= buffer.Length
                && pos == old(pos) + n
                && buffer[..n] == data[old(pos)..pos]
    {
      if buffer.Length == 0 {
        n := 0;
      } else if pos == |data| {
        n := -1;
      } else {
        n := if buffer.Length < |data| - pos then buffer.Length else |data| - pos;
        forall i | 0 <= i < n {
          buffer[i] := data[pos + i];
        }
        pos := pos + n;
      }
    }
  }

  /** MessageDigest.getInstance("MD5"): accumulates its input; the digest
      function itself is a parameter. */
  class MessageDigest {
    const md5: seq<byte> -> seq<byte>
    var input: seq<byte>

    constructor (md5: seq<byte> -> seq<byte>)
      ensures this.md5 == md5 && input == []
    {
      this.md5 := md5;
      input := [];
    }

    /** update(buffer, off, len). */
    method Update(buffer: array<byte>, off: nat, len: nat)
      requires off + len <= buffer.Length
      modifies this
      ensures input == old(input) + buffer[off..off + len]
    {
      input := input + buffer[off..off + len];
    }

    /** digest(): the hash of everything fed in; the digest is then reset. */
    method Digest() returns (d: seq<byte>)
      modifies this
      ensures d == md5(old(input)) && input == []
    {
      d := md5(input);
      input := [];
    }
  }

  const BufferSize: nat := 8192

  /** The read loop of calculateHash: every chunk the stream yields goes
      into the digest, so the digest ends up with the whole content. */
  method Pump(stream: InputStream, buffer: array<byte>, digest: MessageDigest)
    requires stream.Valid() && stream.pos == 0 && digest.input == [] && buffer.Length > 0
    modifies stream, buffer, digest
    ensures digest.input == stream.data
  {
    var data := stream.data;
    var read := stream.Read(buffer);
    while read != -1
      invariant stream.Valid() && stream.data == data
      invariant read == -1 ==> stream.pos == |data|
      invariant read != -1 ==> (0 < read <= buffer.Length && stream.pos >= read
                                && buffer[..read] == data[stream.pos - read..stream.pos])
      invariant read == -1 ==> digest.input == data[..stream.pos]
      invariant read != -1 ==> digest.input + buffer[..read] == data[..stream.pos]
      decreases |data| - stream.pos + (if read == -1 then 0 else 1)
    {
      ghost var before := stream.pos;
      digest.Update(buffer, 0, read);
      assert digest.input == data[..before];
      read := stream.Read(buffer);
      if read != -1 {
        assert data[..stream.pos] == data[..before] + data[before..stream.pos];
      }
    }
    assert data[..stream.pos] == data;
  }

  /** The StringBuilder loop: two lowercase hex digits per byte. */
  method ToHex(bytes: seq<byte>) returns (s: string)
    ensures s == Hex(bytes)
  {
    s := "";
    for i := 0 to |bytes|
      invariant s == Hex(bytes[..i])
    {
      assert bytes[..i + 1][..i] == bytes[..i];
      s := s + HexByte(bytes[i]);
    }
    assert bytes[..|bytes|] == bytes;
  }

  /** One file as the duplicate search sees it. Everything but the hash is
      fixed at construction; the hash is computed on first request and cached. */
  class DuplicateSearchModel {
    const file: FileInfo
    const fileName: string
    const parentPath: Option<string>
    const fileSizeBytes: nat
    const fileType: string
    const creationDate: Option<Date>
    const modificationDate: Option<Date>
    const md5: seq<byte> -> seq<byte>
    var fileHash: Option<string>
    /** How often the hash has been computed for this object. */
    ghost var hashComputations: nat

    ghost predicate Valid()
      reads this
    {
      && (fileHash.None? ==> hashComputations == 0)
      && (fileHash.Some? ==> fileHash.value == HashOf(md5, file) && hashComputations == 1)
    }

    /** A failed attribute read leaves both dates null. */
    constructor (file: FileInfo, md5: seq<byte> -> seq<byte>)
      ensures this.file == file && this.md5 == md5
      ensures fileName == file.name && parentPath == file.parent
      ensures fileSizeBytes == file.size && fileType == ExtractExtension(file.name)
      ensures file.attrs.None? ==> creationDate.None? && modificationDate.None?
      ensures file.attrs.Some? ==> (creationDate == Some(file.attrs.value.created)
                                    && modificationDate == Some(file.attrs.value.modified))
      ensures fileHash.None? && Valid()
    {
      this.file := file;
      this.md5 := md5;
      fileName := file.name;
      parentPath := file.parent;
      fileSizeBytes := file.size;
      fileType := ExtractExtension(file.name);
      if file.attrs.Some? {
        creationDate := Some(file.attrs.value.created);
        modificationDate := Some(file.attrs.value.modified);
      } else {
        creationDate := None;
        modificationDate := None;
      }
      fileHash := None;
      hashComputations := 0;
    }

    /** getFileHash: computes the hash on the first call only; every call
        returns the same string. */
    method GetFileHash() returns (h: string)
      requires Valid()
      modifies this
      ensures Valid()
      ensures h == HashOf(md5, file) && fileHash == Some(h)
      ensures old(fileHash).Some? ==> h == old(fileHash).value
      ensures hashComputations == 1
    {
      if fileHash.None? {
        var computed := CalculateHash();
        fileHash := Some(computed);
        hashComputations := hashComputations + 1;
      }
      h := fileHash.value;
    }

    /** calculateHash: streams the content through MD5 in buffer-sized
        chunks and renders the digest as hex; "ERROR" when the file cannot
        be opened. Never null. */
    method CalculateHash() returns (h: string)
      ensures h == HashOf(md5, file)
      ensures h == "ERROR" <==> file.content.None?
    {
      if file.content.None? {
        return "ERROR";
      }
      var data := file.content.value;
      var digest := new MessageDigest(md5);
      var buffer := new byte[BufferSize];
      var stream := new InputStream(data);
      Pump(stream, buffer, digest);
      var hashBytes := digest.Digest();
      h := ToHex(hashBytes);
      assert |h| % 2 == 0;
    }
  }

  // ------------------------------------------------- plain-search record

  /** One hit of the plain file search; all fields are fixed at construction. */
  datatype FileSearchModel = FileSearchModel(
    absolutePath: string,
    fileName: string,
    fileSizeBytes: nat,
    fileExtension: string,
    creationDate: Option<Date>,
    modificationDate: Option<Date>)

  /** new FileSearchModel(file): a failed attribute read leaves both dates null. */
  function NewFileSearchModel(f: FileInfo): (m: FileSearchModel)
    ensures m.absolutePath == f.path && m.fileName == f.name && m.fileSizeBytes == f.size
    ensures m.fileExtension == ExtractExtension(f.name)
    ensures f.attrs.None? ==> m.creationDate.None? && m.modificationDate.None?
    ensures f.attrs.Some? ==> (m.creationDate == Some(f.attrs.value.created)
                               && m.modificationDate == Some(f.attrs.value.modified))
  {
    FileSearchModel(
      f.path, f.name, f.size, ExtractExtension(f.name),
      if f.attrs.Some? then Some(f.attrs.value.created) else None,
      if f.attrs.Some? then Some(f.attrs.value.modified) else None)
  }

  /** getDisplayType; isDirectory is what file.isDirectory() answers at the call. */
  function DisplayType(m: FileSearchModel, isDirectory: bool): string {
    if isDirectory then "Ordner" else if IsBlank(m.fileExtension) then "Unbekannt" else m.fileExtension
  }

  /** For a record built from a file name, the three kinds of display type
      cannot be confused: a lowercased extension is never "Ordner" nor
      "Unbekannt", so "Unbekannt" means exactly a blank extension. */
  lemma DisplayTypeKinds(f: FileInfo, isDirectory: bool)
    ensures var t := DisplayType(NewFileSearchModel(f), isDirectory);
            && (t == "Ordner" <==> isDirectory)
            && (t == "Unbekannt" <==> !isDirectory && IsBlank(ExtractExtension(f.name)))
            && (!isDirectory && !IsBlank(ExtractExtension(f.name)) ==> t == ExtractExtension(f.name))
  {
    var e := ExtractExtension(f.name);
    assert "Ordner"[0] == 'O' && "Unbekannt"[0] == 'U';
    if !isDirectory && !IsBlank(e) {
      assert e != [] && IsLower(e);
    }
  }
}
