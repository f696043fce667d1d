/**
 The OMAR archive: the writer of the packing tool, its extractor, and the boot loader's lookup. An
 archive is a row of entries, each a 15-byte header, a name and file data, padded to blocks of 512
 bytes, and a trailer.
 */
module Omar {

  type byte = x: nat | x < 256

  const OMAR_MAGIC: seq<byte> := [79, 77, 65, 82]
  const OMAR_EOF: seq<byte> := [82, 65, 77, 79]
  const OMAR_REG: byte := 0
  const OMAR_DIR: byte := 1
  const OMAR_REV: byte := 2
  const HEADER_SIZE: nat := 15
  const BLOCK_SIZE: nat := 512

  // ----- What is archived

  /** A directory, with the size its header happens to carry, or a file. */
  datatype Entry =
    | Dir(name: seq<byte>, mode: nat, size: nat)
    | File(name: seq<byte>, mode: nat, data: seq<byte>)

  /** A path the tool can store, as a C string without its end. */
  predicate GoodName(name: seq<byte>) {
    |name| <= 255 && 0 !in name
  }

  predicate Storable(e: Entry) {
    GoodName(e.name) && e.mode < 0x1_0000_0000 &&
    match e
    case Dir(_, _, size) => size < 0x1_0000_0000
    case File(_, _, data) => |data| < 0x1_0000_0000
  }

  /** An entry whose blocks are written to the end: the writer gives up on a file without data behind its name. */
  predicate Whole(e: Entry) {
    e.File? ==> e.data != []
  }

  // ----- The layout

  function Le32(x: nat): (b: seq<byte>)
    ensures |b| == 4
  {
    [x % 256, x / 0x100 % 256, x / 0x1_0000 % 256, x / 0x100_0000 % 256]
  }

  function FromLe32(b: seq<byte>): nat
    requires |b| == 4
  {
    (b[0] as nat) + 0x100 * (b[1] as nat) + 0x1_0000 * (b[2] as nat) + 0x100_0000 * (b[3] as nat)
  }

  lemma Le32RoundTrip(x: nat)
    requires x < 0x1_0000_0000
    ensures FromLe32(Le32(x)) == x
  {
    var y := x / 0x100;
    var z := y / 0x100;
    assert x / 0x1_0000 == z && x / 0x100_0000 == z / 0x100;
    assert x == y * 0x100 + x % 256 && y == z * 0x100 + y % 256 && z == z / 0x100 * 0x100 + z % 256;
  }

  function Header(magic: seq<byte>, kind: byte, nameLen: byte, len: nat, mode: nat): (h: seq<byte>)
    requires |magic| == 4
    ensures |h| == HEADER_SIZE
  {
    magic + [kind, nameLen] + Le32(len) + [OMAR_REV] + Le32(mode)
  }

  function Zeros(n: nat): (z: seq<byte>)
    ensures |z| == n
  {
    seq(n, _ => 0)
  }

  function AlignUp(n: nat): (r: nat)
    ensures n <= r < n + BLOCK_SIZE && r % BLOCK_SIZE == 0
  {
    var blocks := (n + BLOCK_SIZE - 1) / BLOCK_SIZE;
    WholeBlocks(blocks);
    blocks * BLOCK_SIZE
  }

  lemma WholeBlocks(q: nat)
    ensures q * BLOCK_SIZE % BLOCK_SIZE == 0
  {}

  /** `s` followed by zeros up to the next block boundary. */
  function Padded(s: seq<byte>): (r: seq<byte>)
    ensures |r| == AlignUp(|s|) && s <= r
  {
    s + Zeros(AlignUp(|s|) - |s|)
  }

  /** The blocks of one entry. */
  function Encode(e: Entry): (b: seq<byte>)
    requires Storable(e)
  {
    match e
    case Dir(name, mode, size) => Padded(Header(OMAR_MAGIC, OMAR_DIR, |name|, size, mode) + name)
    case File(name, mode, data) =>
      if data == [] then Header(OMAR_MAGIC, OMAR_REG, |name|, 0, mode) + name
      else Padded(Header(OMAR_MAGIC, OMAR_REG, |name|, |data|, mode) + name + data)
  }

  /** The trailer; its mode field is whatever was on the stack. */
  function Trailer(mode: nat): seq<byte> {
    Header(OMAR_EOF, OMAR_REG, 3, 0, mode) + [69, 79, 70]
  }

  function Archive(es: seq<Entry>, mode: nat): seq<byte>
    requires forall e :: e in es ==> Storable(e)
  {
    if es == [] then Trailer(mode) else Encode(es[0]) + Archive(es[1..], mode)
  }

  /** The number in the four bytes of `b` from `at` on, lowest byte first. */
  function NumberAt(b: seq<byte>, at: nat): nat
    requires at + 4 <= |b|
  {
    b[at] as nat + 256 * b[at + 1] as nat + 65536 * b[at + 2] as nat + 16777216 * b[at + 3] as nat
  }

  function DataOf(e: Entry): seq<byte> {
    if e.Dir? then [] else e.data
  }

  function SizeOf(e: Entry): nat {
    if e.Dir? then e.size else |e.data|
  }

  /** The format, byte by byte. */
  lemma EntryLayout(e: Entry)
    requires Storable(e)
    ensures var b := Encode(e);
            var n := |e.name|;
            var end := 15 + n + |DataOf(e)|;
            && (if Whole(e) then |b| % 512 == 0 && end <= |b| < end + 512 else |b| == end)
            && b[..4] == [79, 77, 65, 82] && b[4] == (if e.Dir? then 1 else 0) && b[5] == n
            && NumberAt(b, 6) == SizeOf(e) && b[10] == 2 && NumberAt(b, 11) == e.mode
            && b[15..15 + n] == e.name && b[15 + n..end] == DataOf(e)
            && forall i :: end <= i < |b| ==> b[i] == 0
  {
    hide *;
    var n := |e.name|;
    EncodeParts(e);
    Constants();
    var kind := if e.Dir? then OMAR_DIR else OMAR_REG;
    HeaderLayout(OMAR_MAGIC, kind, n, SizeOf(e), e.mode);
    BlockParts(Header(OMAR_MAGIC, kind, n, SizeOf(e), e.mode), e.name, DataOf(e), Zeros(PadOf(e)));
  }

  /** The zeros behind an entry. */
  function PadOf(e: Entry): nat {
    var end := 15 + |e.name| + |DataOf(e)|;
    if Whole(e) then AlignUp(end) - end else 0
  }

  lemma EncodeParts(e: Entry)
    requires Storable(e)
    ensures var end := 15 + |e.name| + |DataOf(e)|;
            var pad := Zeros(PadOf(e));
            && |e.name| < 256 && SizeOf(e) < 0x1_0000_0000 && e.mode < 0x1_0000_0000
            && (if Whole(e) then end + PadOf(e) == AlignUp(end) else PadOf(e) == 0)
            && (Whole(e) ==> (end + PadOf(e)) % 512 == 0 && PadOf(e) < 512)
            && Encode(e) == Header(OMAR_MAGIC, if e.Dir? then OMAR_DIR else OMAR_REG, |e.name|, SizeOf(e), e.mode)
                            + e.name + DataOf(e) + pad
            && |pad| == PadOf(e) && forall i :: 0 <= i < |pad| ==> pad[i] == 0
  {
    hide AlignUp;
    hide Header;
    var h := Header(OMAR_MAGIC, if e.Dir? then OMAR_DIR else OMAR_REG, |e.name|, SizeOf(e), e.mode);
    assert h + e.name + [] == h + e.name;
    assert h + e.name + DataOf(e) + [] == h + e.name + DataOf(e);
  }

  lemma Constants()
    ensures OMAR_MAGIC == [79, 77, 65, 82] && |OMAR_MAGIC| == 4 && OMAR_REG == 0 && OMAR_DIR == 1
  {}

  lemma HeaderLayout(magic: seq<byte>, kind: byte, nameLen: byte, len: nat, mode: nat)
    requires |magic| == 4 && len < 0x1_0000_0000 && mode < 0x1_0000_0000
    ensures var h := Header(magic, kind, nameLen, len, mode);
            && |h| == 15 && h[..4] == magic && h[4] == kind && h[5] == nameLen
            && NumberAt(h, 6) == len && h[10] == 2 && NumberAt(h, 11) == mode
  {
    Le32RoundTrip(len);
    Le32RoundTrip(mode);
    hide Le32;
    var h := Header(magic, kind, nameLen, len, mode);
    assert h[6..10] == Le32(len) && h[11..15] == Le32(mode);
  }

  lemma BlockParts(h: seq<byte>, name: seq<byte>, data: seq<byte>, pad: seq<byte>)
    requires |h| == 15 && forall i :: 0 <= i < |pad| ==> pad[i] == 0
    ensures var b := h + name + data + pad;
            var n := |name|;
            && b[..4] == h[..4] && b[4] == h[4] && b[5] == h[5] && b[10] == h[10]
            && NumberAt(b, 6) == NumberAt(h, 6) && NumberAt(b, 11) == NumberAt(h, 11)
            && b[15..15 + n] == name && b[15 + n..15 + n + |data|] == data
            && forall i :: 15 + n + |data| <= i < |b| ==> b[i] == 0
  {
    var b := h + name + data + pad;
    assert forall i :: 0 <= i < 15 ==> b[i] == h[i];
  }

  /** The trailer: its own magic, type 0, no data, and the name "EOF". */
  lemma TrailerLayout(mode: nat)
    ensures var t := Trailer(mode);
            |t| == 18 && t[..11] == [82, 65, 77, 79, 0, 3, 0, 0, 0, 0, 2] && t[15..] == [69, 79, 70]
  {
    assert Le32(0) == [0, 0, 0, 0];
  }

  /** The blocks of a row of entries. */
  function Blocks(es: seq<Entry>): seq<byte>
    requires forall e :: e in es ==> Storable(e)
  {
    if es == [] then [] else Encode(es[0]) + Blocks(es[1..])
  }

  lemma {:induction false} ArchiveIs(es: seq<Entry>, mode: nat)
    requires forall e :: e in es ==> Storable(e)
    ensures Archive(es, mode) == Blocks(es) + Trailer(mode)
    decreases |es|
  {
    hide Encode;
    hide Storable;
    hide Trailer;
    if es == [] {
      assert Blocks(es) + Trailer(mode) == Trailer(mode);
    } else {
      ArchiveIs(es[1..], mode);
      assert Encode(es[0]) + (Blocks(es[1..]) + Trailer(mode)) == Encode(es[0]) + Blocks(es[1..]) + Trailer(mode);
    }
  }

  lemma BlocksMore(es: seq<Entry>, tail: seq<byte>)
    requires forall e :: e in es ==> Storable(e)
    ensures Blocks([]) + tail == tail
    ensures es != [] ==> Blocks(es) + tail == Encode(es[0]) + (Blocks(es[1..]) + tail)
  {
    hide Encode;
    hide Storable;
    if es != [] {
      assert Encode(es[0]) + Blocks(es[1..]) + tail == Encode(es[0]) + (Blocks(es[1..]) + tail);
    }
  }

  // ----- The writer

  class Output {
    var bytes: seq<byte>

    constructor ()
      ensures bytes == []
    {
      bytes := [];
    }

    method Write(b: seq<byte>)
      modifies this
      ensures bytes == old(bytes) + b
    {
      bytes := bytes + b;
    }

    /** `file_push` for an entry; it returns early when there is nothing to read. */
    method FilePush(e: Entry)
      requires Storable(e)
      modifies this
      ensures bytes == old(bytes) + Encode(e)
    {
      hide *;
      ghost var before := bytes;
      var kind := if e.Dir? then OMAR_DIR else OMAR_REG;
      var size := if e.Dir? then e.size else |e.data|;
      PushParts(e);
      Constants();
      var header := Header(OMAR_MAGIC, kind, |e.name|, size, e.mode);
      Joined(before, header, e.name, DataOf(e), Zeros(PadOf(e)));
      Write(header);
      Write(e.name);
      if e.Dir? {
        var len := HEADER_SIZE + |e.name|;
        var rem := len % BLOCK_SIZE;
        Write(Zeros(BLOCK_SIZE - rem));
        return;
      }
      if |e.data| == 0 {
        return;
      }
      Write(e.data);
      var len := HEADER_SIZE + |e.name| + |e.data|;
      var rem := len % BLOCK_SIZE;
      if rem != 0 {
        Write(Zeros(BLOCK_SIZE - rem));
      }
    }

    /** `file_push(NULL, "EOF")` */
    method PushEof(mode: nat)
      modifies this
      ensures bytes == old(bytes) + Trailer(mode)
    {
      Write(Header(OMAR_EOF, OMAR_REG, 3, 0, mode));
      Write([69, 79, 70]);
    }

    /** The whole archive, entry by entry. */
    method WriteArchive(es: seq<Entry>, mode: nat)
      requires bytes == [] && forall e :: e in es ==> Storable(e)
      modifies this
      ensures bytes == Archive(es, mode)
    {
      hide Encode;
      hide Archive;
      hide Storable;
      assert es[0..] == es;
      var i := 0;
      while i < |es|
        invariant i <= |es|
        invariant bytes + Archive(es[i..], mode) == Archive(es, mode)
      {
        ArchiveFrom(es, mode, i);
        ghost var before, tail := bytes, Archive(es[i + 1..], mode);
        FilePush(es[i]);
        assert before + Encode(es[i]) + tail == before + (Encode(es[i]) + tail);
        i := i + 1;
      }
      ArchiveEnd(mode);
      assert es[i..] == [];
      PushEof(mode);
    }
  }

  /** The parts of an entry as they are written. */
  lemma PushParts(e: Entry)
    requires Storable(e)
    ensures BLOCK_SIZE > 0 && |e.name| < 256 && DataOf(e) == (if e.Dir? then [] else e.data)
    ensures var len := HEADER_SIZE + |e.name| + |DataOf(e)|;
            && Encode(e) ==
                 Header(OMAR_MAGIC, if e.Dir? then OMAR_DIR else OMAR_REG, |e.name|, if e.Dir? then e.size else |e.data|, e.mode)
                 + e.name + DataOf(e) + Zeros(PadOf(e))
            && PadOf(e) == if e.File? && (|e.data| == 0 || len % BLOCK_SIZE == 0) then 0 else BLOCK_SIZE - len % BLOCK_SIZE
  {
    EncodeParts(e);
    var len := HEADER_SIZE + |e.name| + |DataOf(e)|;
    Padding(len);
    if e.Dir? {
      OneBlock(len);
    }
    hide Encode;
    hide AlignUp;
    hide Header;
  }

  lemma Joined(before: seq<byte>, h: seq<byte>, name: seq<byte>, data: seq<byte>, pad: seq<byte>)
    ensures before + (h + name + data + pad) == before + h + name + data + pad
    ensures data == [] ==> before + h + name + data + pad == before + h + name + pad
    ensures pad == [] ==> before + h + name + data + pad == before + h + name + data
    ensures data == [] && pad == [] ==> before + h + name + data + pad == before + h + name
  {}

  lemma ArchiveFrom(es: seq<Entry>, mode: nat, i: nat)
    requires i < |es| && forall e :: e in es ==> Storable(e)
    ensures Archive(es[i..], mode) == Encode(es[i]) + Archive(es[i + 1..], mode)
  {
    assert es[i..][1..] == es[i + 1..] && es[i..][0] == es[i];
  }

  lemma ArchiveEnd(mode: nat)
    ensures Archive([], mode) == Trailer(mode)
  {}

  lemma OneBlock(len: nat)
    requires HEADER_SIZE <= len <= HEADER_SIZE + 255
    ensures AlignUp(len) == BLOCK_SIZE && AlignUp(len) - len == BLOCK_SIZE - len % BLOCK_SIZE
  {}

  lemma Padding(len: nat)
    ensures AlignUp(len) - len == if len % BLOCK_SIZE == 0 then 0 else BLOCK_SIZE - len % BLOCK_SIZE
  {}

  // ----- What a reader finds at a header

  /** A header at the start of `rest`; reading past the end of the archive is an outcome of its own. */
  datatype Item =
    | Eof
    | BadMagic
    | OutOfData
    | Item(kind: byte, name: seq<byte>, len: nat, mode: nat, next: nat)

  function ItemAt(rest: seq<byte>): (r: Item)
    ensures r.Item? ==> HEADER_SIZE + |r.name| <= |rest| && 0 < r.next && (r.kind != OMAR_DIR ==> HEADER_SIZE + |r.name| + r.len <= r.next)
  {
    if |rest| < 5 then OutOfData
    else if rest[..5] == OMAR_EOF + [0] then Eof
    else if rest[..4] != OMAR_MAGIC then BadMagic
    else if |rest| < HEADER_SIZE then OutOfData
    else
      var nameLen := rest[5];
      var len := FromLe32(rest[6..10]);
      if |rest| < HEADER_SIZE + nameLen then OutOfData
      else
        Item(rest[4], rest[HEADER_SIZE..HEADER_SIZE + nameLen], len, FromLe32(rest[11..15]),
             if rest[4] == OMAR_DIR then BLOCK_SIZE else AlignUp(HEADER_SIZE + nameLen + len))
  }

  /** What a reader takes from any bytes. */
  lemma ItemLayout(rest: seq<byte>)
    requires |rest| >= 5
    ensures var r := ItemAt(rest);
            && (r == Eof <==> rest[..5] == [82, 65, 77, 79, 0])
            && (r == BadMagic <==> rest[..5] != [82, 65, 77, 79, 0] && rest[..4] != [79, 77, 65, 82])
            && (r == OutOfData <==> rest[..4] == [79, 77, 65, 82] && (|rest| < 15 || |rest| - 15 < rest[5]))
            && (r.Item? ==>
                  && r.kind == rest[4] && r.name == rest[15..15 + |r.name|] && |r.name| == rest[5]
                  && r.len == NumberAt(rest, 6) && r.mode == NumberAt(rest, 11) && r.next % 512 == 0
                  && if r.kind == 1 then r.next == 512 else 15 + |r.name| + r.len <= r.next < 15 + |r.name| + r.len + 512)
  {
    hide AlignUp;
    assert rest[..5][..4] == rest[..4];
    assert (OMAR_EOF + [0])[0] == 82;
    if ItemAt(rest).Item? {
      assert FromLe32(rest[6..10]) == NumberAt(rest, 6) && FromLe32(rest[11..15]) == NumberAt(rest, 11);
    }
  }

  lemma HeaderFields(magic: seq<byte>, kind: byte, nameLen: byte, len: nat, mode: nat, tail: seq<byte>)
    requires |magic| == 4 && len < 0x1_0000_0000
    ensures var rest := Header(magic, kind, nameLen, len, mode) + tail;
            && rest[..4] == magic && rest[..5] == magic + [kind] && rest[4] == kind && rest[5] == nameLen
            && FromLe32(rest[6..10]) == len && rest[11..15] == Le32(mode) && rest[HEADER_SIZE..] == tail
  {
    var rest := Header(magic, kind, nameLen, len, mode) + tail;
    Le32RoundTrip(len);
    assert rest[6..10] == Le32(len);
  }

  lemma HeaderIsItem(kind: byte, name: seq<byte>, len: nat, mode: nat, tail: seq<byte>)
    requires GoodName(name) && len < 0x1_0000_0000 && mode < 0x1_0000_0000
    ensures ItemAt(Header(OMAR_MAGIC, kind, |name|, len, mode) + (name + tail)) ==
            Item(kind, name, len, mode, if kind == OMAR_DIR then BLOCK_SIZE else AlignUp(HEADER_SIZE + |name| + len))
  {
    var rest := Header(OMAR_MAGIC, kind, |name|, len, mode) + (name + tail);
    HeaderFields(OMAR_MAGIC, kind, |name|, len, mode, name + tail);
    Le32RoundTrip(mode);
    assert rest[..5][0] != (OMAR_EOF + [0])[0];
    assert rest[HEADER_SIZE..HEADER_SIZE + |name|] == rest[HEADER_SIZE..][..|name|] == name;
  }

  lemma DirReadsBack(name: seq<byte>, mode: nat, size: nat, tail: seq<byte>)
    requires Storable(Dir(name, mode, size))
    ensures var b := Encode(Dir(name, mode, size));
            ItemAt(b + tail) == Item(OMAR_DIR, name, size, mode, |b|) && (b + tail)[|b|..] == tail
  {
    hide ItemAt;
    hide Header;
    var b := Encode(Dir(name, mode, size));
    var h := Header(OMAR_MAGIC, OMAR_DIR, |name|, size, mode);
    var pad := b[|h| + |name|..];
    assert b + tail == h + (name + (pad + tail));
    HeaderIsItem(OMAR_DIR, name, size, mode, pad + tail);
    OneBlock(HEADER_SIZE + |name|);
  }

  lemma FileReadsBack(name: seq<byte>, mode: nat, data: seq<byte>, tail: seq<byte>)
    requires Storable(File(name, mode, data)) && data != []
    ensures var b := Encode(File(name, mode, data));
            && ItemAt(b + tail) == Item(OMAR_REG, name, |data|, mode, |b|) && (b + tail)[|b|..] == tail
            && HEADER_SIZE + |name| + |data| <= |b|
            && (b + tail)[HEADER_SIZE + |name|..HEADER_SIZE + |name| + |data|] == data
  {
    hide ItemAt;
    hide Header;
    var b := Encode(File(name, mode, data));
    var h := Header(OMAR_MAGIC, OMAR_REG, |name|, |data|, mode);
    var pad := b[|h| + |name| + |data|..];
    assert b == h + name + data + pad;
    assert b + tail == h + (name + (data + pad + tail));
    HeaderIsItem(OMAR_REG, name, |data|, mode, data + pad + tail);
    assert b + tail == h + name + data + (pad + tail);
  }

  /** Reading at the start of an encoded entry gives the entry back and leads to what follows it. */
  lemma ReadsBack(e: Entry, tail: seq<byte>)
    requires Storable(e) && Whole(e)
    ensures var r := ItemAt(Encode(e) + tail);
            && r.Item? && r.name == e.name && r.mode == e.mode && r.kind == (if e.Dir? then OMAR_DIR else OMAR_REG)
            && r.len == SizeOf(e) && r.next == |Encode(e)|
            && (e.File? ==> HEADER_SIZE + |e.name| + |e.data| <= |Encode(e)|
                            && (Encode(e) + tail)[HEADER_SIZE + |e.name|..HEADER_SIZE + |e.name| + |e.data|] == e.data)
    ensures (Encode(e) + tail)[|Encode(e)|..] == tail
  {
    hide ItemAt;
    hide Encode;
    match e
    case Dir(name, mode, size) => DirReadsBack(name, mode, size, tail);
    case File(name, mode, data) => FileReadsBack(name, mode, data, tail);
  }

  /** The comparison with the trailer's magic takes in the type byte, which is that of a regular file. */
  lemma TrailerIsEof(mode: nat, more: seq<byte>)
    ensures ItemAt(Trailer(mode) + more) == Eof
  {
    hide ItemAt;
    TrailerLayout(mode);
    hide Trailer;
    var t := Trailer(mode);
    assert (t + more)[..5] == t[..11][..5];
    ItemLayout(t + more);
  }

  /** A C string in a buffer ends at its first NUL. */
  function CString(s: seq<byte>): (r: seq<byte>)
    ensures 0 !in r && r <= s && (|r| < |s| ==> s[|r|] == 0) && (0 !in s ==> r == s)
  {
    if s == [] || s[0] == 0 then [] else [s[0]] + CString(s[1..])
  }

  // ----- The extractor

  datatype Outcome = Complete | Corrupt | Truncated

  datatype Extracted = Extracted(entries: seq<Entry>, outcome: Outcome)

  /** The entry behind a header; a stored name counts up to its first NUL. */
  function EntryOf(rest: seq<byte>, r: Item): Entry
    requires r.Item? && HEADER_SIZE + |r.name| <= |rest| && (r.kind != OMAR_DIR ==> HEADER_SIZE + |r.name| + r.len <= |rest|)
  {
    if r.kind == OMAR_DIR then Dir(CString(r.name), r.mode, r.len)
    else File(CString(r.name), r.mode, rest[HEADER_SIZE + |r.name|..HEADER_SIZE + |r.name| + r.len])
  }

  /** What is unpacked from `rest` on. */
  function Unpack(rest: seq<byte>): Extracted
    decreases |rest|
  {
    var r := ItemAt(rest);
    if r.Eof? then Extracted([], Complete)
    else if r.BadMagic? then Extracted([], Corrupt)
    else if r.OutOfData? || r.next > |rest| then Extracted([], Truncated)
    else
      var more := Unpack(rest[r.next..]);
      Extracted([EntryOf(rest, r)] + more.entries, more.outcome)
  }

  /** What has been unpacked in front of what is still to come. */
  function After(entries: seq<Entry>, more: Extracted): Extracted {
    Extracted(entries + more.entries, more.outcome)
  }

  lemma AfterMore(entries: seq<Entry>, e: Entry, more: Extracted)
    ensures After(entries, Extracted([e] + more.entries, more.outcome)) == After(entries + [e], more)
    ensures forall o :: After(entries, Extracted([], o)) == Extracted(entries, o)
  {
    assert entries + ([e] + more.entries) == entries + [e] + more.entries;
    assert entries + [] == entries;
  }

  lemma UnpackStep(buf: seq<byte>, hdr: nat, entries: seq<Entry>)
    requires hdr <= |buf|
    ensures var rest := buf[hdr..];
            var r := ItemAt(rest);
            After(entries, Unpack(rest)) ==
              if r.Eof? then Extracted(entries, Complete)
              else if r.BadMagic? then Extracted(entries, Corrupt)
              else if r.OutOfData? || r.next > |rest| then Extracted(entries, Truncated)
              else After(entries + [EntryOf(rest, r)], Unpack(buf[hdr + r.next..]))
  {
    hide ItemAt;
    hide EntryOf;
    hide After;
    var rest := buf[hdr..];
    var r := ItemAt(rest);
    if r.Item? && r.next <= |rest| {
      assert buf[hdr + r.next..] == rest[r.next..];
      AfterMore(entries, EntryOf(rest, r), Unpack(rest[r.next..]));
    } else {
      AfterMore(entries, Dir([], 0, 0), Extracted([], Complete));
    }
  }

  /** `archive_extract`, whose loop moves from header to header. */
  method ArchiveExtract(buf: seq<byte>) returns (r: Extracted)
    ensures r == Unpack(buf)
  {
    hide ItemAt;
    hide EntryOf;
    hide Unpack;
    var hdr := 0;
    var entries: seq<Entry> := [];
    assert buf[0..] == buf && [] + Unpack(buf).entries == Unpack(buf).entries;
    while true
      invariant hdr <= |buf| && Unpack(buf) == After(entries, Unpack(buf[hdr..]))
      decreases |buf| - hdr
    {
      UnpackStep(buf, hdr, entries);
      var rest := buf[hdr..];
      var item := ItemAt(rest);
      if item.Eof? {
        return Extracted(entries, Complete);
      }
      if item.BadMagic? {
        return Extracted(entries, Corrupt);
      }
      if item.OutOfData? || item.next > |rest| {
        return Extracted(entries, Truncated);
      }
      entries := entries + [EntryOf(rest, item)];
      hdr := hdr + item.next;
    }
  }

  /** Unpacking at an encoded entry gives the entry and goes on behind it. */
  lemma UnpackEntry(e: Entry, tail: seq<byte>)
    requires Storable(e) && Whole(e)
    ensures Unpack(Encode(e) + tail) == Extracted([e] + Unpack(tail).entries, Unpack(tail).outcome)
  {
    hide ItemAt;
    hide Encode;
    hide CString;
    ReadsBack(e, tail);
    StoredName(e);
  }

  /** Unpacking at a row of encoded entries gives the entries and goes on behind them. */
  lemma {:induction false} UnpackBlocks(es: seq<Entry>, tail: seq<byte>)
    requires forall e :: e in es ==> Storable(e) && Whole(e)
    ensures Unpack(Blocks(es) + tail) == After(es, Unpack(tail))
    decreases |es|
  {
    hide *;
    BlocksMore(es, tail);
    FirstOfAll(es, Unpack(tail));
    if es != [] {
      UnpackEntry(es[0], Blocks(es[1..]) + tail);
      UnpackBlocks(es[1..], tail);
    }
  }

  lemma FirstOfAll(es: seq<Entry>, more: Extracted)
    ensures After([], more) == more && After(es, Extracted([], Complete)) == Extracted(es, Complete)
    ensures After(es, Extracted([], Corrupt)) == Extracted(es, Corrupt)
    ensures es != [] ==> var rest := After(es[1..], more); Extracted([es[0]] + rest.entries, rest.outcome) == After(es, more)
  {
    assert [] + more.entries == more.entries && es + [] == es;
    if es != [] {
      assert [es[0]] + es[1..] == es;
      assert [es[0]] + (es[1..] + more.entries) == [es[0]] + es[1..] + more.entries;
    }
  }

  /** Extracting what was archived gives every entry back, in order, and stops at the trailer, whatever is behind it. */
  lemma ExtractArchive(es: seq<Entry>, mode: nat, more: seq<byte>)
    requires forall e :: e in es ==> Storable(e) && Whole(e)
    ensures Unpack(Archive(es, mode) + more) == Extracted(es, Complete)
  {
    hide *;
    BehindBlocks(es, mode, more);
    UnpackBlocks(es, Trailer(mode) + more);
    UnpackTrailer(mode, more);
    FirstOfAll(es, Extracted([], Complete));
  }

  lemma BehindBlocks(es: seq<Entry>, mode: nat, more: seq<byte>)
    requires forall e :: e in es ==> Storable(e) && Whole(e)
    ensures Archive(es, mode) + more == Blocks(es) + (Trailer(mode) + more)
  {
    hide *;
    ArchiveIs(es, mode);
    assert Blocks(es) + Trailer(mode) + more == Blocks(es) + (Trailer(mode) + more);
  }

  lemma UnpackTrailer(mode: nat, more: seq<byte>)
    ensures Unpack(Trailer(mode) + more) == Extracted([], Complete)
  {
    hide ItemAt;
    hide Trailer;
    TrailerIsEof(mode, more);
  }

  // ----- Files without data

  /** The bytes a reader takes for an entry. */
  function ReadSize(e: Entry): nat {
    if e.Dir? then BLOCK_SIZE else AlignUp(HEADER_SIZE + |e.name| + |e.data|)
  }

  function Span(es: seq<Entry>): nat {
    if es == [] then 0 else ReadSize(es[0]) + Span(es[1..])
  }

  lemma AlignUpMonotone(a: nat, b: nat)
    requires a <= b
    ensures AlignUp(a) <= AlignUp(b)
  {
    var x, y := (a + BLOCK_SIZE - 1) / BLOCK_SIZE, (b + BLOCK_SIZE - 1) / BLOCK_SIZE;
    assert x <= y;
    assert x * BLOCK_SIZE <= y * BLOCK_SIZE;
  }

  /** What is unpacked up to a trailer takes up at least the bytes its entries stand for. */
  lemma {:induction false} UnpackSpan(rest: seq<byte>)
    requires Unpack(rest).outcome == Complete
    ensures Span(Unpack(rest).entries) + 5 <= |rest|
    decreases |rest|
  {
    hide ItemAt;
    hide AlignUp;
    hide Unpack;
    UnpackIs(rest);
    var r := ItemAt(rest);
    if r.Item? {
      ItemSpan(rest, r);
      UnpackSpan(rest[r.next..]);
      var more := Unpack(rest[r.next..]).entries;
      var e := EntryOf(rest, r);
      hide EntryOf;
      assert ([e] + more)[1..] == more;
    }
  }

  lemma UnpackIs(rest: seq<byte>)
    requires Unpack(rest).outcome == Complete
    ensures var r := ItemAt(rest);
            && (r.Eof? || r.Item?) && |rest| >= 5 && (r.Eof? ==> Unpack(rest).entries == [])
            && (r.Item? ==>
                  && HEADER_SIZE + |r.name| <= |rest| && 0 < r.next <= |rest|
                  && (r.kind != OMAR_DIR ==> HEADER_SIZE + |r.name| + r.len <= |rest|)
                  && Unpack(rest[r.next..]).outcome == Complete
                  && Unpack(rest).entries == [EntryOf(rest, r)] + Unpack(rest[r.next..]).entries)
  {
    assert |rest| < 5 ==> ItemAt(rest) == OutOfData;
    hide ItemAt;
    hide EntryOf;
  }

  lemma ItemSpan(rest: seq<byte>, r: Item)
    requires r == ItemAt(rest) && r.Item? && HEADER_SIZE + |r.name| <= |rest|
    requires r.kind != OMAR_DIR ==> HEADER_SIZE + |r.name| + r.len <= |rest|
    ensures ReadSize(EntryOf(rest, r)) <= r.next
  {
    if r.kind != OMAR_DIR {
      AlignUpMonotone(HEADER_SIZE + |CString(r.name)| + r.len, HEADER_SIZE + |r.name| + r.len);
    }
    hide AlignUp;
    hide CString;
  }

  /** An entry takes up the bytes a reader takes for it, unless it is a file without data, which is 14 or more short. */
  lemma WrittenSize(e: Entry)
    requires Storable(e)
    ensures if Whole(e) then |Encode(e)| == ReadSize(e) else |Encode(e)| + 14 <= ReadSize(e)
  {
    EncodeParts(e);
    if e.Dir? || e.data == [] {
      OneBlock(HEADER_SIZE + |e.name|);
    }
    hide AlignUp;
    hide Encode;
    hide Header;
  }

  lemma {:induction false} BlocksSize(es: seq<Entry>)
    requires forall e :: e in es ==> Storable(e)
    ensures |Blocks(es)| <= Span(es)
    ensures (exists e :: e in es && !Whole(e)) ==> |Blocks(es)| + 14 <= Span(es)
    decreases |es|
  {
    hide Encode;
    hide ReadSize;
    hide Storable;
    hide Whole;
    if es != [] {
      WrittenSize(es[0]);
      BlocksSize(es[1..]);
      if (exists e :: e in es && !Whole(e)) && Whole(es[0]) {
        var e :| e in es && !Whole(e);
        assert e in es[1..];
      }
    }
  }

  /** An archive is extracted as it was written exactly when no file in it is without data. */
  lemma ExtractExactly(es: seq<Entry>, mode: nat)
    requires forall e :: e in es ==> Storable(e)
    ensures Unpack(Archive(es, mode)) == Extracted(es, Complete) <==> forall e :: e in es ==> Whole(e)
  {
    hide *;
    if forall e :: e in es ==> Whole(e) {
      ExtractArchive(es, mode, []);
      assert Archive(es, mode) + [] == Archive(es, mode);
    } else if Unpack(Archive(es, mode)) == Extracted(es, Complete) {
      UnpackSpan(Archive(es, mode));
      BlocksSize(es);
      ArchiveIs(es, mode);
      TrailerLayout(mode);
      assert false;
    }
  }

  /** A file without data hides the file behind it: extraction stops there, and the boot loader does not find it. */
  lemma EmptyFileHidesNext(mode: nat, b: Entry, more: seq<byte>)
    requires mode < 0x1_0000_0000 && b.File? && Storable(b) && Whole(b) && |b.name| + |b.data| <= 400
    ensures var empty := File([97], mode, []);
            var archive := Encode(empty) + (Encode(b) + more);
            && Unpack(archive) == Extracted([empty], Corrupt)
            && (b.name != [97] ==> LookupFrom(archive, b.name) == InvalidParam)
  {
    hide *;
    EmptyIsStorable(mode);
    EntryLayout(b);
    SmallBlock(b);
    EmptyFileAt(mode, Encode(b) + more);
    ZerosAt(Encode(b), more, 496);
    var rest := (Encode(b) + more)[496..];
    ZerosHoldNoHeader(rest);
    AtNoHeader(rest, b.name);
    AfterEmptyFile(mode, Encode(b) + more, b.name);
  }

  lemma EmptyIsStorable(mode: nat)
    requires mode < 0x1_0000_0000
    ensures Storable(File([97], mode, []))
  {}

  lemma SmallBlock(b: Entry)
    requires b.File? && Storable(b) && Whole(b) && |b.name| + |b.data| <= 400
    ensures DataOf(b) == b.data && |Encode(b)| == 512
  {
    WrittenSize(b);
    hide Encode;
  }

  lemma ZerosAt(b: seq<byte>, more: seq<byte>, at: nat)
    requires at + 5 <= |b| && forall i :: at <= i < |b| ==> b[i] == 0
    ensures at + 5 <= |b + more| && forall i :: 0 <= i < 5 ==> (b + more)[at..][i] == 0
  {}

  lemma ZerosHoldNoHeader(rest: seq<byte>)
    requires |rest| >= 5 && forall i :: 0 <= i < 5 ==> rest[i] == 0
    ensures NoHeader(rest)
  {
    assert rest[..4][0] == 0 && rest[..5][0] == 0;
  }

  /** What a reader finds at a file without data. */
  lemma EmptyFileAt(mode: nat, tail: seq<byte>)
    requires mode < 0x1_0000_0000
    ensures var archive := Encode(File([97], mode, [])) + tail;
            ItemAt(archive) == Item(OMAR_REG, [97], 0, mode, 512) && |Encode(File([97], mode, []))| == 16
  {
    var h := Header(OMAR_MAGIC, OMAR_REG, 1, 0, mode);
    HeaderIsItem(OMAR_REG, [97], 0, mode, tail);
    assert AlignUp(HEADER_SIZE + 1) == 512;
    hide AlignUp;
    hide ItemAt;
    hide Header;
    assert h + [97] + tail == h + ([97] + tail);
  }

  lemma AfterEmptyFile(mode: nat, tail: seq<byte>, path: seq<byte>)
    requires mode < 0x1_0000_0000 && |tail| >= 496
    ensures var empty := File([97], mode, []);
            var archive := Encode(empty) + tail;
            && Unpack(archive) == Extracted([empty] + Unpack(tail[496..]).entries, Unpack(tail[496..]).outcome)
            && (path != [97] ==> LookupFrom(archive, path) == LookupFrom(tail[496..], path))
  {
    EmptyFileAt(mode, tail);
    hide ItemAt;
    hide Encode;
    var empty := File([97], mode, []);
    var archive := Encode(empty) + tail;
    assert archive[512..] == tail[496..];
    StoredName(empty);
    hide CString;
    assert archive[HEADER_SIZE + 1..HEADER_SIZE + 1 + 0] == [];
  }

  /** Bytes in which no header starts. */
  predicate NoHeader(tail: seq<byte>) {
    |tail| >= 5 && tail[..4] != [79, 77, 65, 82] && tail[..5] != [82, 65, 77, 79, 0]
  }

  /** Extraction of an archive that is damaged behind some entries gives exactly these and reports the damage. */
  lemma ExtractDamaged(es: seq<Entry>, tail: seq<byte>)
    requires (forall e :: e in es ==> Storable(e) && Whole(e)) && NoHeader(tail)
    ensures Unpack(Blocks(es) + tail) == Extracted(es, Corrupt)
  {
    hide *;
    UnpackBlocks(es, tail);
    AtNoHeader(tail, []);
    FirstOfAll(es, Extracted([], Corrupt));
  }

  lemma AtNoHeader(tail: seq<byte>, path: seq<byte>)
    requires NoHeader(tail)
    ensures Unpack(tail) == Extracted([], Corrupt) && LookupFrom(tail, path) == InvalidParam
  {
    hide ItemAt;
    ItemLayout(tail);
  }

  // ----- The boot loader's lookup

  datatype Lookup = Found(length: nat, data: seq<byte>) | FileUnavl | InvalidParam | PastEnd

  /** What `bootPackGetFile` answers from `rest` on: the entry's length and what lies behind its name. */
  function LookupFrom(rest: seq<byte>, path: seq<byte>): Lookup
    decreases |rest|
  {
    match ItemAt(rest)
    case Eof => FileUnavl
    case BadMagic => InvalidParam
    case OutOfData => PastEnd
    case Item(_, name, len, _, next) =>
      if CString(name) == path then Found(len, rest[HEADER_SIZE + |name|..])
      else if next > |rest| then PastEnd
      else LookupFrom(rest[next..], path)
  }

  lemma LookupStep(base: seq<byte>, hdr: nat, path: seq<byte>)
    requires hdr <= |base|
    ensures var rest := base[hdr..];
            var r := ItemAt(rest);
            LookupFrom(rest, path) ==
              if r.Eof? then FileUnavl
              else if r.BadMagic? then InvalidParam
              else if r.OutOfData? then PastEnd
              else if CString(r.name) == path then Found(r.len, rest[HEADER_SIZE + |r.name|..])
              else if r.next > |rest| then PastEnd
              else LookupFrom(base[hdr + r.next..], path)
  {
    hide ItemAt;
    hide CString;
    var rest := base[hdr..];
    var r := ItemAt(rest);
    if r.Item? && r.next <= |rest| {
      assert base[hdr + r.next..] == rest[r.next..];
    }
  }

  /** `bootPackGetFile` */
  method BootPackGetFile(base: seq<byte>, path: seq<byte>) returns (r: Lookup)
    ensures r == LookupFrom(base, path)
  {
    hide ItemAt;
    hide CString;
    hide LookupFrom;
    assert base[0..] == base;
    var hdr := 0;
    while true
      invariant hdr <= |base| && LookupFrom(base, path) == LookupFrom(base[hdr..], path)
      decreases |base| - hdr
    {
      LookupStep(base, hdr, path);
      var rest := base[hdr..];
      var item := ItemAt(rest);
      if item.Eof? {
        return FileUnavl;
      }
      if item.BadMagic? {
        return InvalidParam;
      }
      if item.OutOfData? {
        return PastEnd;
      }
      if CString(item.name) == path {
        return Found(item.len, rest[HEADER_SIZE + |item.name|..]);
      }
      if item.next > |rest| {
        return PastEnd;
      }
      hdr := hdr + item.next;
    }
  }

  /** Position of the first entry called `path`, the number of entries if there is none. */
  ghost function FirstNamed(es: seq<Entry>, path: seq<byte>): (i: nat)
    ensures i <= |es| && (i < |es| ==> es[i].name == path) && forall j :: 0 <= j < i ==> es[j].name != path
  {
    if es == [] || es[0].name == path then 0 else 1 + FirstNamed(es[1..], path)
  }

  /** The lookup has found entry `e`, whose data lies in front of whatever follows. */
  ghost predicate FoundEntry(r: Lookup, e: Entry) {
    && r.Found? && r.length == SizeOf(e)
    && (e.File? ==> e.data <= r.data)
  }

  /** In a row of encoded entries the lookup finds the first of that name, or goes on behind them. */
  lemma {:induction false} LookupBlocks(es: seq<Entry>, tail: seq<byte>, path: seq<byte>)
    requires forall e :: e in es ==> Storable(e) && Whole(e)
    ensures var r := LookupFrom(Blocks(es) + tail, path);
            var i := FirstNamed(es, path);
            if i == |es| then r == LookupFrom(tail, path) else FoundEntry(r, es[i])
    decreases |es|
  {
    hide *;
    BlocksMore(es, tail);
    FirstOrLater(es, path);
    if es != [] {
      LookupEntry(es[0], Blocks(es[1..]) + tail, path);
      LookupBlocks(es[1..], tail, path);
    }
  }

  lemma FirstOrLater(es: seq<Entry>, path: seq<byte>)
    ensures es == [] ==> FirstNamed(es, path) == 0
    ensures es != [] ==> FirstNamed(es, path) == if es[0].name == path then 0 else 1 + FirstNamed(es[1..], path)
  {}

  lemma LookupEntry(e: Entry, tail: seq<byte>, path: seq<byte>)
    requires Storable(e) && Whole(e)
    ensures var r := LookupFrom(Encode(e) + tail, path);
            if e.name == path then FoundEntry(r, e) else r == LookupFrom(tail, path)
  {
    hide ItemAt;
    hide Encode;
    hide Storable;
    hide CString;
    ReadsBack(e, tail);
    StoredName(e);
    if e.File? {
      DataFollows(Encode(e) + tail, HEADER_SIZE + |e.name|, e.data);
    }
  }

  /**
   Looking up a path in an archive finds the first entry of that name, with its length and its data in
   front of whatever follows, and answers "not available" exactly when there is no such entry: no
   data, not even an archive inside the archive or behind it, is ever taken for an entry.
   */
  lemma LookupArchive(es: seq<Entry>, mode: nat, more: seq<byte>, path: seq<byte>)
    requires forall e :: e in es ==> Storable(e) && Whole(e)
    ensures var r := LookupFrom(Archive(es, mode) + more, path);
            var i := FirstNamed(es, path);
            if i == |es| then r == FileUnavl else FoundEntry(r, es[i])
  {
    hide *;
    BehindBlocks(es, mode, more);
    LookupBlocks(es, Trailer(mode) + more, path);
    LookupTrailer(mode, more, path);
  }

  lemma LookupTrailer(mode: nat, more: seq<byte>, path: seq<byte>)
    ensures LookupFrom(Trailer(mode) + more, path) == FileUnavl
  {
    hide ItemAt;
    hide Trailer;
    TrailerIsEof(mode, more);
  }

  /** In an archive damaged behind some entries these are still found, and no other path is. */
  lemma LookupDamaged(es: seq<Entry>, tail: seq<byte>, path: seq<byte>)
    requires (forall e :: e in es ==> Storable(e) && Whole(e)) && NoHeader(tail)
    ensures var r := LookupFrom(Blocks(es) + tail, path);
            var i := FirstNamed(es, path);
            if i == |es| then r == InvalidParam else FoundEntry(r, es[i])
  {
    hide *;
    LookupBlocks(es, tail, path);
    AtNoHeader(tail, path);
  }

  lemma StoredName(e: Entry)
    requires Storable(e)
    ensures CString(e.name) == e.name
  {}

  lemma DataFollows(s: seq<byte>, at: nat, data: seq<byte>)
    requires at + |data| <= |s| && s[at..at + |data|] == data
    ensures data <= s[at..]
  {
    assert s[at..][..|data|] == s[at..at + |data|];
  }
}
