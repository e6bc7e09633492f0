/** The initial ram disk: cpio archives in the "New ASCII Format" of cpio(5), the
    parser for one header, and the loop that fills the root directory of the disk. */
module Cpio {
  import opened Integers
  import opened Slices

  type Bytes = seq<char>

  const HEADER := 110
  const MAGIC := "070701"
  const TRAILER := "TRAILER!!!"
  const U32 := 0x1_0000_0000
  const NIL := -1

  // Hexadecimal fields.

  /** The value of a hexadecimal digit, or 16 for any other character. */
  function DigitValue(c: char): nat {
    if '0' <= c <= '9' then c as nat - '0' as nat
    else if 'a' <= c <= 'f' then c as nat - 'a' as nat + 10
    else if 'A' <= c <= 'F' then c as nat - 'A' as nat + 10
    else 16
  }

  lemma DigitsInCharacters()
    ensures DigitValue('0') == 0 && DigitValue('9') == 9 && DigitValue('a') == 10 && DigitValue('f') == 15
    ensures DigitValue('A') == 10 && DigitValue('F') == 15 && DigitValue('g') == DigitValue('/') == 16
  {
  }

  function HexDigit(d: nat, upper: bool): (c: char)
    requires d < 16
    ensures DigitValue(c) == d
  {
    if d < 10 then ('0' as int + d) as char
    else if upper then ('A' as int + (d - 10)) as char
    else ('a' as int + (d - 10)) as char
  }

  function Pow16(k: nat): (p: nat)
    ensures p > 0
  {
    if k == 0 then 1 else 16 * Pow16(k - 1)
  }

  /** The last k hexadecimal digits of n. */
  function Hex(n: nat, k: nat, upper: bool): (s: Bytes)
    ensures |s| == k
  {
    if k == 0 then [] else Hex(n / 16, k - 1, upper) + [HexDigit(n % 16, upper)]
  }

  predicate AllDigits(s: Bytes) {
    forall i :: 0 <= i < |s| ==> DigitValue(s[i]) < 16
  }

  /** The number that hexadecimal digits stand for. */
  function Value(s: Bytes): nat
    requires AllDigits(s)
  {
    if s == [] then 0 else 16 * Value(s[..|s| - 1]) + DigitValue(s[|s| - 1])
  }

  lemma {:induction false} HexIsDigits(n: nat, k: nat, upper: bool)
    ensures AllDigits(Hex(n, k, upper))
  {
    if k > 0 {
      HexIsDigits(n / 16, k - 1, upper);
    }
  }

  lemma {:induction false} ValueOfHex(n: nat, k: nat, upper: bool)
    requires n < Pow16(k)
    ensures AllDigits(Hex(n, k, upper))
    ensures Value(Hex(n, k, upper)) == n
  {
    HexIsDigits(n, k, upper);
    if k > 0 {
      ValueOfHex(n / 16, k - 1, upper);
      var s := Hex(n, k, upper);
      assert s[..k - 1] == Hex(n / 16, k - 1, upper);
    }
  }

  /** The position of the first character that is no digit, or the length. */
  function DigitsUpTo(s: Bytes): (k: nat)
    ensures k <= |s| && AllDigits(s[..k])
    ensures k < |s| ==> DigitValue(s[k]) == 16
  {
    if s != [] && DigitValue(s[0]) < 16 then
      var k := DigitsUpTo(s[1..]);
      assert forall i :: 0 < i <= k ==> s[i] == s[1..][i - 1];
      k + 1
    else 0
  }

  /** What a field reads as, a 32-bit number: at a character that is no digit reading
      stops, having shifted once too often. */
  function FieldValue(s: Bytes): (v: nat)
    ensures v < U32
  {
    var k := DigitsUpTo(s);
    if k == |s| then Value(s[..k]) % U32 else 16 * Value(s[..k]) % U32
  }

  lemma DigitsUpToIs(s: Bytes, k: nat)
    requires k <= |s| && AllDigits(s[..k]) && (k < |s| ==> DigitValue(s[k]) == 16)
    ensures DigitsUpTo(s) == k
  {
    var j := DigitsUpTo(s);
    assert forall i :: 0 <= i < k ==> s[..k][i] == s[i];
    assert forall i :: 0 <= i < j ==> s[..j][i] == s[i];
  }

  method ParseHex(s: Bytes) returns (r: nat)
    ensures r == FieldValue(s)
  {
    r := 0;
    var i := 0;
    while i < |s|
      invariant 0 <= i <= |s| && AllDigits(s[..i]) && r == Value(s[..i]) % U32
    {
      ghost var v := Value(s[..i]);
      r := r * 16 % U32;
      var c := s[i];
      assert s[..i + 1][..i] == s[..i];
      ScaledMod(v, 0);
      if '0' <= c <= '9' {
        r := (r + (c as nat - '0' as nat)) % U32;
      } else if 'a' <= c <= 'f' {
        r := (r + (c as nat - 'a' as nat + 10)) % U32;
      } else if 'A' <= c <= 'F' {
        r := (r + (c as nat - 'A' as nat + 10)) % U32;
      } else {
        DigitsUpToIs(s, i);
        return;
      }
      ScaledMod(v, DigitValue(c));
      i := i + 1;
    }
    assert s[..i] == s;
    DigitsUpToIs(s, i);
  }

  lemma ScaledMod(v: nat, d: nat)
    requires d < 16
    ensures (v % U32) * 16 % U32 == 16 * v % U32
    ensures ((v % U32) * 16 % U32 + d) % U32 == (16 * v + d) % U32
  {
    var q, r := v / U32, v % U32;
    MoreMultiples(16 * r, U32, 16 * q);
    MoreMultiples(16 * r + d, U32, 16 * q);
    MoreMultiples(16 * r % U32 + d, U32, 16 * r / U32);
  }

  // Archives.

  /** A file of an archive, with the header fields that the parser does not look at. */
  datatype File = File(name: Bytes, data: Bytes, upper: bool, before: Bytes, between: Bytes, check: Bytes)

  predicate FieldsFit(f: File) {
    |f.before| == 48 && |f.between| == 32 && |f.check| == 8
  }

  /** Names without the null character, and sizes that do not wrap when padded. */
  predicate Encodable(f: File) {
    FieldsFit(f) && '\0' !in f.name && HEADER + |f.name| + 1 <= U32 - 4 && |f.data| <= U32 - 4
  }

  function Header(f: File): (h: Bytes)
    requires FieldsFit(f)
    ensures |h| == HEADER
  {
    MAGIC + f.before + Hex(|f.data|, 8, f.upper) + f.between + Hex(|f.name| + 1, 8, f.upper) + f.check
  }

  /** Header and name, padded, then the contents, padded. */
  function Encode(f: File): (s: Bytes)
    requires FieldsFit(f)
    ensures |s| == PadTo4(HEADER + |f.name| + 1) + PadTo4(|f.data|)
  {
    Header(f) + (f.name + "\0") + Filled(PadTo4(HEADER + |f.name| + 1) - (HEADER + |f.name| + 1), '\0')
    + f.data + Filled(PadTo4(|f.data|) - |f.data|, '\0')
  }

  function EncodeAll(files: seq<File>): Bytes
    requires forall i :: 0 <= i < |files| ==> Encodable(files[i])
  {
    if files == [] then []
    else
      assert Encodable(files[0]);
      Encode(files[0]) + EncodeAll(files[1..])
  }

  // One header.

  /** The results of parsing a header: where name and contents lie, the size of the
      contents, and the next header, NIL after the trailer. */
  datatype Parsed = Bad | Good(name: nat, size: nat, data: nat, next: int)

  /** What the header at p says, whatever bytes lie there. */
  function HeaderAt(bytes: Bytes, p: nat): Parsed
    requires p + HEADER <= |bytes|
  {
    if !HasAt(bytes, p, MAGIC) then Bad
    else
      var size := FieldValue(bytes[p + 54..p + 62]);
      var length := FieldValue(bytes[p + 94..p + 102]);
      var data := p + PadTo4((length + HEADER) % U32) % U32;
      var next := if HasAt(bytes, p + HEADER, TRAILER + "\0") then NIL else data + PadTo4(size) % U32;
      Good(p + HEADER, size, data, next)
  }

  method ParseHeader(bytes: Bytes, p: nat) returns (r: Parsed)
    requires p + HEADER <= |bytes|
    ensures r == HeaderAt(bytes, p)
  {
    hide FieldValue, PadTo4;
    if bytes[p..p + 6] != MAGIC {
      return Bad;
    }
    var size := ParseHex(bytes[p + 54..p + 62]);
    var name := p + HEADER;
    var length := ParseHex(bytes[p + 94..p + 102]);
    var offset := (length + HEADER) % U32;
    PaddedMod(offset);
    PaddedMod(size);
    offset := if offset % 4 == 0 then offset else (offset + 4 - offset % 4) % U32;
    var data := p + offset;
    var next: int;
    if size == 0 {
      next := data;
    } else {
      offset := size;
      next := data + if offset % 4 == 0 then offset else (offset + 4 - offset % 4) % U32;
    }
    if HasAt(bytes, name, TRAILER + "\0") {
      next := NIL;
    }
    r := Good(name, size, data, next);
  }

  lemma PaddedMod(n: nat)
    requires n < U32
    ensures PadTo4(n) % U32 == if n % 4 == 0 then n else (n + 4 - n % 4) % U32
  {
  }

  /** Where the fields lie in a header. */
  lemma Layout(f: File)
    requires FieldsFit(f)
    ensures var h := Header(f);
      h[0..6] == MAGIC && h[54..62] == Hex(|f.data|, 8, f.upper) && h[94..102] == Hex(|f.name| + 1, 8, f.upper)
  {
    hide Hex;
  }

  lemma FieldOfHex(n: nat, upper: bool)
    requires n < U32
    ensures FieldValue(Hex(n, 8, upper)) == n
  {
    var s := Hex(n, 8, upper);
    assert Pow16(8) == U32 by { assert Pow16(4) == 0x1_0000; }
    ValueOfHex(n, 8, upper);
    assert s[..8] == s;
    DigitsUpToIs(s, 8);
  }

  lemma PaddedFits(n: nat)
    requires n <= U32 - 4
    ensures n % U32 == n && PadTo4(n) % U32 == PadTo4(n)
  {
  }

  /** What the parser reads at the places of the fields. */
  lemma FieldsOfEncoded(bytes: Bytes, p: nat, f: File)
    requires Encodable(f) && HasAt(bytes, p, Header(f))
    ensures p + HEADER <= |bytes| && HasAt(bytes, p, MAGIC)
    ensures FieldValue(bytes[p + 54..p + 62]) == |f.data| && FieldValue(bytes[p + 94..p + 102]) == |f.name| + 1
  {
    hide Hex, Header, FieldValue, HasAt;
    var h := Header(f);
    Layout(f);
    Inside(bytes, p, h, 0, 6);
    FieldAt(bytes, p, h, 54, 62, |f.data|, f.upper);
    FieldAt(bytes, p, h, 94, 102, |f.name| + 1, f.upper);
    WithinBytes(bytes, p, h);
  }

  lemma WithinBytes(bytes: Bytes, p: nat, s: Bytes)
    requires HasAt(bytes, p, s)
    ensures p + |s| <= |bytes|
  {
  }

  lemma FieldAt(bytes: Bytes, p: nat, h: Bytes, i: nat, j: nat, n: nat, upper: bool)
    requires HasAt(bytes, p, h) && i <= j <= |h| && h[i..j] == Hex(n, 8, upper) && n < U32
    ensures p + j <= |bytes| && FieldValue(bytes[p + i..p + j]) == n
  {
    hide Hex, FieldValue;
    Inside(bytes, p, h, i, j);
    FieldOfHex(n, upper);
  }

  /** Parsing an encoded header recovers sizes and places. */
  lemma HeaderOfEncoded(bytes: Bytes, p: nat, f: File)
    requires Encodable(f) && HasAt(bytes, p, Header(f))
    ensures var data := p + PadTo4(HEADER + |f.name| + 1);
      HeaderAt(bytes, p) == Good(p + HEADER, |f.data|, data,
        if HasAt(bytes, p + HEADER, TRAILER + "\0") then NIL else data + PadTo4(|f.data|))
  {
    FieldsOfEncoded(bytes, p, f);
    hide FieldValue, HasAt, PadTo4;
    PaddedFits(|f.name| + 1 + HEADER);
    PaddedFits(|f.data|);
  }

  /** A header in characters: the magic number, at 54 the size 10 and at 94 the length 6 of a
      name of five characters. */
  lemma HeaderInCharacters(bytes: Bytes)
    requires |bytes| >= 116 && bytes[0..6] == "070701" && bytes[54..62] == "0000000A" && bytes[94..102] == "00000006"
    ensures HeaderAt(bytes, 0) ==
      Good(110, 10, 116, if |bytes| >= 121 && bytes[110..121] == "TRAILER!!!" + "\0" then -1 else 128)
  {
    hide FieldValue, PadTo4;
    TenAndSix();
    PaddedToFour();
    FieldOfHex(10, true);
    FieldOfHex(6, true);
  }

  lemma PaddedToFour()
    ensures PadTo4(116) == 116 && PadTo4(10) == 12
  {
  }

  lemma TenAndSix()
    ensures Hex(10, 8, true) == "0000000A" && Hex(6, 8, true) == "00000006"
  {
    assert Hex(0, 0, true) == [];
    assert Hex(0, 4, true) == "0000";
    assert Hex(0, 7, true) == "0000000";
  }

  // The archive.

  /** An archive at p: the files, in order, and then whatever makes the reader stop. */
  predicate ArchiveAt(bytes: Bytes, p: nat, files: seq<File>)
    decreases |files|
  {
    if files == [] then EndAt(bytes, p)
    else
      var f := files[0];
      Encodable(f) && f.name != TRAILER
      && HasAt(bytes, p, Encode(f)) && ArchiveAt(bytes, p + |Encode(f)|, files[1..])
  }

  /** The trailer, or a header that is none. */
  predicate EndAt(bytes: Bytes, p: nat) {
    p + HEADER <= |bytes|
    && (HasAt(bytes, p, MAGIC) ==> HasAt(bytes, p + HEADER, TRAILER + "\0"))
  }

  /** The archive that a list of files and a trailer encode to. */
  lemma {:induction false} EncodedArchive(before: Bytes, files: seq<File>, trailer: File, after: Bytes)
    requires forall i :: 0 <= i < |files| ==> Encodable(files[i]) && files[i].name != TRAILER
    requires FieldsFit(trailer) && trailer.name == TRAILER
    ensures ArchiveAt(before + EncodeAll(files) + Encode(trailer) + after, |before|, files)
    decreases |files|
  {
    hide HasAt, Encode;
    var bytes := before + EncodeAll(files) + Encode(trailer) + after;
    if files == [] {
      assert bytes == before + Encode(trailer) + after;
      AtOf(before, Encode(trailer), after);
      PiecesOf(bytes, |before|, trailer);
    } else {
      var e := Encode(files[0]);
      var rest := EncodeAll(files[1..]) + Encode(trailer) + after;
      Regroup(before, e, EncodeAll(files[1..]), Encode(trailer), after);
      AtOf(before, e, rest);
      EncodedArchive(before + e, files[1..], trailer, after);
    }
  }

  /** Header, name and contents lie where they were put. */
  lemma PiecesOf(bytes: Bytes, p: nat, f: File)
    requires FieldsFit(f) && HasAt(bytes, p, Encode(f))
    ensures p + |Encode(f)| <= |bytes|
    ensures HasAt(bytes, p, Header(f)) && HasAt(bytes, p + HEADER, f.name + "\0")
    ensures HasAt(bytes, p + PadTo4(HEADER + |f.name| + 1), f.data)
  {
    hide Header, Encode, HasAt;
    var e, n := Encode(f), HEADER + |f.name| + 1;
    EncodeLayout(f);
    WithinBytes(bytes, p, e);
    Inside(bytes, p, e, 0, HEADER);
    Inside(bytes, p, e, HEADER, n);
    Inside(bytes, p, e, PadTo4(n), PadTo4(n) + |f.data|);
  }

  /** Where the pieces lie in an encoded file. */
  lemma EncodeLayout(f: File)
    requires FieldsFit(f)
    ensures var e, n := Encode(f), HEADER + |f.name| + 1;
      e[0..HEADER] == Header(f) && e[HEADER..n] == f.name + "\0" && e[PadTo4(n)..PadTo4(n) + |f.data|] == f.data
  {
    hide Header, PadTo4;
  }

  /** A name that is not the trailer's is not taken for it. */
  lemma NotTheTrailer(bytes: Bytes, p: nat, name: Bytes)
    requires '\0' !in name && HasAt(bytes, p, name + "\0") && HasAt(bytes, p, TRAILER + "\0")
    ensures name == TRAILER
  {
    StringAtIs(bytes, p, name, '\0');
    StringAtIs(bytes, p, TRAILER, '\0');
  }

  /** A file of the disk: where its name and its contents lie, and its size. */
  datatype Inode = Inode(name: nat, data: nat, size: nat)

  predicate Holds(bytes: Bytes, e: Inode, f: File) {
    StringAt(bytes, e.name, '\0') == f.name && e.size == |f.data| && HasAt(bytes, e.data, f.data)
  }

  predicate Lists(bytes: Bytes, entry: seq<Inode>, files: seq<File>) {
    |entry| == |files| && forall i :: 0 <= i < |files| ==> Holds(bytes, entry[i], files[i])
  }

  /** One turn of the loop. */
  lemma NextFile(bytes: Bytes, p: nat, files: seq<File>)
    requires ArchiveAt(bytes, p, files) && files != []
    ensures p + HEADER <= |bytes| && HeaderAt(bytes, p).Good?
    ensures var h := HeaderAt(bytes, p);
      h.next == p + |Encode(files[0])| && ArchiveAt(bytes, h.next, files[1..])
      && Holds(bytes, Inode(h.name, h.data, h.size), files[0])
  {
    hide Encode, Header, HeaderAt, HasAt;
    var f := files[0];
    PiecesOf(bytes, p, f);
    HeaderOfEncoded(bytes, p, f);
    if HasAt(bytes, p + HEADER, TRAILER + "\0") {
      NotTheTrailer(bytes, p + HEADER, f.name);
    }
    StringAtIs(bytes, p + HEADER, f.name, '\0');
  }

  lemma AtEnd(bytes: Bytes, p: nat)
    requires ArchiveAt(bytes, p, [])
    ensures p + HEADER <= |bytes|
    ensures HeaderAt(bytes, p).Bad? || HeaderAt(bytes, p).next == NIL
  {
  }

  class RamDisk {
    const bytes: Bytes
    var entry: seq<Inode>

    constructor (bytes: Bytes)
      ensures this.bytes == bytes && entry == []
    {
      this.bytes := bytes;
      entry := [];
    }

    /** The archive at start becomes the root directory, file by file. */
    method SetupMount(start: nat, ghost files: seq<File>)
      requires entry == [] && ArchiveAt(bytes, start, files) && |files| <= 100
      modifies this
      ensures Lists(bytes, entry, files)
    {
      hide ArchiveAt, HeaderAt, Holds;
      var p: int := start;
      ghost var n := 0;
      assert files[0..] == files;
      while p != NIL
        invariant n <= |files| && Lists(bytes, entry, files[..n])
        invariant p == NIL ==> n == |files|
        invariant p != NIL ==> p >= 0 && ArchiveAt(bytes, p, files[n..])
        decreases |files| - n, p != NIL
      {
        if n < |files| {
          NextFile(bytes, p, files[n..]);
        } else {
          AtEnd(bytes, p);
        }
        var r := ParseHeader(bytes, p);
        if r.Bad? {
          break;
        }
        p := r.next;
        if p != NIL {
          entry := entry + [Inode(r.name, r.data, r.size)];
          assert files[n..][1..] == files[n + 1..];
          n := n + 1;
        }
      }
      assert files[..n] == files;
    }

    /** The first file of that name. */
    method Lookup(name: Bytes, ghost files: seq<File>) returns (found: int)
      requires Lists(bytes, entry, files)
      ensures found == NIL ==> forall i :: 0 <= i < |files| ==> files[i].name != name
      ensures found != NIL ==> 0 <= found < |files| && files[found].name == name
      ensures forall i :: 0 <= i < found ==> files[i].name != name
    {
      found := 0;
      while found < |entry|
        invariant 0 <= found <= |entry|
        invariant forall i :: 0 <= i < found ==> files[i].name != name
      {
        assert Holds(bytes, entry[found], files[found]);
        if StringAt(bytes, entry[found].name, '\0') == name {
          return;
        }
        found := found + 1;
      }
      return NIL;
    }
  }
}
