// The byte image of a page, page_serialize and page_deserialize of src/page.c, on a little-endian
// 64-bit layout without padding.  A double is its 64-bit pattern here: memcpy does not look inside.
module PageCodec {

  type Byte = b: nat | b < 256
  type U32 = w: nat | w < 0x1_0000_0000
  type U64 = w: nat | w < 0x1_0000_0000_0000_0000

  const PAGE_SIZE := 4096
  const HEADER_SIZE := 72
  const RECORD_SIZE := 60
  const MAX_OBJECTS := 64

  datatype Pair = Pair(x: U64, y: U64)
  datatype Quad = Quad(minX: U64, minY: U64, maxX: U64, maxY: U64)
  datatype Header = Header(pageId: U32, trackId: U32, objectCount: U32, flags: U32, extent: Quad, centroid: Pair, checksum: U64)
  datatype Record = Record(id: U64, kind: U32, centroid: Pair, mbr: Quad)

  datatype Status = OK | ErrAlloc | ErrCorrupt

  // ---------- Words as bytes ----------

  function Pow256(n: nat): nat { if n == 0 then 1 else 256 * Pow256(n - 1) }

  /** The n low bytes of w, least significant first. */
  function Bytes(w: nat, n: nat): (s: seq<Byte>)
    ensures |s| == n
  {
    if n == 0 then [] else [w % 256] + Bytes(w / 256, n - 1)
  }

  function Value(s: seq<Byte>): nat {
    if s == [] then 0 else s[0] + 256 * Value(s[1..])
  }

  lemma {:induction false} ValueBound(s: seq<Byte>)
    ensures Value(s) < Pow256(|s|)
  {
    if s != [] { ValueBound(s[1..]); }
  }

  lemma {:induction false} ValueOfBytes(w: nat, n: nat)
    requires w < Pow256(n)
    ensures Value(Bytes(w, n)) == w
  {
    if n > 0 {
      ValueOfBytes(w / 256, n - 1);
      assert Bytes(w, n)[1..] == Bytes(w / 256, n - 1);
    }
  }

  lemma {:induction false} BytesOfValue(s: seq<Byte>)
    ensures Bytes(Value(s), |s|) == s
  {
    if s != [] {
      var rest := Value(s[1..]);
      BytesOfValue(s[1..]);
      assert (s[0] + 256 * rest) % 256 == s[0] && (s[0] + 256 * rest) / 256 == rest;
      assert s == [s[0]] + s[1..];
    }
  }

  lemma WordSizes()
    ensures Pow256(4) == 0x1_0000_0000 && Pow256(8) == 0x1_0000_0000_0000_0000
  {
    assert Pow256(4) == 256 * (256 * Pow256(2));
    assert Pow256(8) == 256 * (256 * (256 * (256 * Pow256(4))));
  }

  function Word32(s: seq<Byte>): (w: U32)
    requires |s| == 4
  {
    WordSizes();
    ValueBound(s);
    Value(s)
  }

  function Word64(s: seq<Byte>): (w: U64)
    requires |s| == 8
  {
    WordSizes();
    ValueBound(s);
    Value(s)
  }

  lemma WordRoundTrip(w: U32, v: U64)
    ensures Word32(Bytes(w, 4)) == w && Word64(Bytes(v, 8)) == v
  {
    WordSizes();
    ValueOfBytes(w, 4);
    ValueOfBytes(v, 8);
  }

  // ---------- Structures as bytes ----------

  function PairBytes(p: Pair): (s: seq<Byte>)
    ensures |s| == 16
  {
    Bytes(p.x, 8) + Bytes(p.y, 8)
  }

  function QuadBytes(q: Quad): (s: seq<Byte>)
    ensures |s| == 32
  {
    Bytes(q.minX, 8) + Bytes(q.minY, 8) + Bytes(q.maxX, 8) + Bytes(q.maxY, 8)
  }

  function HeaderBytes(h: Header): (s: seq<Byte>)
    ensures |s| == HEADER_SIZE
  {
    Bytes(h.pageId, 4) + Bytes(h.trackId, 4) + Bytes(h.objectCount, 4) + Bytes(h.flags, 4)
    + QuadBytes(h.extent) + PairBytes(h.centroid) + Bytes(h.checksum, 8)
  }

  function RecordBytes(r: Record): (s: seq<Byte>)
    ensures |s| == RECORD_SIZE
  {
    Bytes(r.id, 8) + Bytes(r.kind, 4) + PairBytes(r.centroid) + QuadBytes(r.mbr)
  }

  function PairAt(s: seq<Byte>, at: nat): Pair
    requires at + 16 <= |s|
  {
    Pair(Word64(s[at..at + 8]), Word64(s[at + 8..at + 16]))
  }

  function QuadAt(s: seq<Byte>, at: nat): Quad
    requires at + 32 <= |s|
  {
    Quad(Word64(s[at..at + 8]), Word64(s[at + 8..at + 16]), Word64(s[at + 16..at + 24]), Word64(s[at + 24..at + 32]))
  }

  function HeaderAt(s: seq<Byte>): Header
    requires HEADER_SIZE <= |s|
  {
    Header(Word32(s[0..4]), Word32(s[4..8]), Word32(s[8..12]), Word32(s[12..16]),
           QuadAt(s, 16), PairAt(s, 48), Word64(s[64..72]))
  }

  function RecordAt(s: seq<Byte>, at: nat): Record
    requires at + RECORD_SIZE <= |s|
  {
    Record(Word64(s[at..at + 8]), Word32(s[at + 8..at + 12]), PairAt(s, at + 12), QuadAt(s, at + 28))
  }

  /** The image of a page: the header, then the objects in order. */
  function PageBytes(h: Header, objects: seq<Record>): (s: seq<Byte>)
    ensures |s| == HEADER_SIZE + RECORD_SIZE * |objects|
  {
    if objects == [] then HeaderBytes(h)
    else PageBytes(h, objects[..|objects| - 1]) + RecordBytes(objects[|objects| - 1])
  }

  function Zeros(n: nat): seq<Byte> { seq(n, _ => 0) }

  // ---------- Where each byte is ----------

  lemma BytesStep(w: nat, n: nat)
    ensures Bytes(w, n + 1) == [w % 256] + Bytes(w / 256, n) && Bytes(w, 0) == []
  {
  }

  lemma Powers(w: nat)
    ensures w / 256 / 256 == w / 65536 && w / 65536 / 256 == w / 16777216 && w / 16777216 / 256 == w / 4294967296
  {
  }

  /** The bytes of a word, the lowest first. */
  lemma WordBytes(w: nat)
    ensures Bytes(w, 4) == [w % 256, w / 256 % 256, w / 65536 % 256, w / 16777216 % 256]
    ensures Bytes(w, 8) == Bytes(w, 4) + Bytes(w / 4294967296, 4)
  {
    hide Bytes, Shifted;
    Powers(w);
    var a, b, c, d := w / 256, w / 65536, w / 16777216, w / 4294967296;
    BytesSplit(w, 4, 4);
    ShiftedFour(w);
    BytesStep(w, 3);
    BytesStep(a, 2);
    BytesStep(b, 1);
    BytesStep(c, 0);
    BytesStep(d, 0);
    assert [w % 256] + ([a % 256] + ([b % 256] + ([c % 256] + []))) == [w % 256, a % 256, b % 256, c % 256];
  }

  function Shifted(w: nat, n: nat): nat { if n == 0 then w else Shifted(w / 256, n - 1) }

  lemma ShiftedFour(w: nat)
    ensures Shifted(w, 4) == w / 256 / 256 / 256 / 256
  {
    assert Shifted(w / 256 / 256 / 256, 1) == Shifted(w / 256 / 256 / 256 / 256, 0);
    assert Shifted(w / 256 / 256, 2) == Shifted(w / 256 / 256 / 256, 1);
    assert Shifted(w / 256, 3) == Shifted(w / 256 / 256, 2);
  }

  lemma {:induction false} BytesSplit(w: nat, m: nat, n: nat)
    ensures Bytes(w, m + n) == Bytes(w, m) + Bytes(Shifted(w, m), n)
  {
    if m > 0 { BytesSplit(w / 256, m - 1, n); }
  }

  /** The header is at the front of the page: four words of four bytes, the extent, the centroid, the checksum. */
  lemma HeaderLayout(h: Header)
    ensures var s := HeaderBytes(h);
      && s[0..4] == Bytes(h.pageId, 4) && s[4..8] == Bytes(h.trackId, 4)
      && s[8..12] == Bytes(h.objectCount, 4) && s[12..16] == Bytes(h.flags, 4)
      && s[16..24] == Bytes(h.extent.minX, 8) && s[24..32] == Bytes(h.extent.minY, 8)
      && s[32..40] == Bytes(h.extent.maxX, 8) && s[40..48] == Bytes(h.extent.maxY, 8)
      && s[48..56] == Bytes(h.centroid.x, 8) && s[56..64] == Bytes(h.centroid.y, 8)
      && s[64..72] == Bytes(h.checksum, 8)
  {
    hide Bytes;
    var s, q, c := HeaderBytes(h), QuadBytes(h.extent), PairBytes(h.centroid);
    assert s[16..48] == q && s[48..64] == c;
    Slice(s, 16, 32, 0, 8);
    Slice(s, 16, 32, 8, 16);
    Slice(s, 16, 32, 16, 24);
    Slice(s, 16, 32, 24, 32);
    Slice(s, 48, 16, 0, 8);
    Slice(s, 48, 16, 8, 16);
  }

  /** A record holds the id, the kind, the centroid and the rectangle of an object. */
  lemma RecordLayout(r: Record)
    ensures var s := RecordBytes(r);
      && s[0..8] == Bytes(r.id, 8) && s[8..12] == Bytes(r.kind, 4)
      && s[12..20] == Bytes(r.centroid.x, 8) && s[20..28] == Bytes(r.centroid.y, 8)
      && s[28..36] == Bytes(r.mbr.minX, 8) && s[36..44] == Bytes(r.mbr.minY, 8)
      && s[44..52] == Bytes(r.mbr.maxX, 8) && s[52..60] == Bytes(r.mbr.maxY, 8)
  {
    hide Bytes;
    var s := RecordBytes(r);
    assert s[12..28] == PairBytes(r.centroid) && s[28..60] == QuadBytes(r.mbr);
    Slice(s, 12, 16, 0, 8);
    Slice(s, 12, 16, 8, 16);
    Slice(s, 28, 32, 0, 8);
    Slice(s, 28, 32, 8, 16);
    Slice(s, 28, 32, 16, 24);
    Slice(s, 28, 32, 24, 32);
  }

  /** The header comes first, then record i at 72 + 60 * i. */
  lemma PageLayout(h: Header, objects: seq<Record>, i: nat)
    requires i < |objects|
    ensures PageBytes(h, objects)[..72] == HeaderBytes(h)
    ensures PageBytes(h, objects)[72 + 60 * i..132 + 60 * i] == RecordBytes(objects[i])
  {
    hide RecordBytes, HeaderBytes, PageBytes;
    ImageHeader(h, objects);
    ImageParts(h, objects, i);
  }

  // ---------- Round trips ----------

  lemma Slice(s: seq<Byte>, at: nat, n: nat, i: nat, j: nat)
    requires at + n <= |s| && i <= j <= n
    ensures s[at..at + n][i..j] == s[at + i..at + j]
  {
    var word := s[at..at + n];
    var a, b := word[i..j], s[at + i..at + j];
    assert |a| == |b| == j - i;
    forall k | 0 <= k < j - i ensures a[k] == b[k] {
      assert a[k] == word[i + k] == s[at + (i + k)];
    }
  }

  lemma PairRoundTrip(s: seq<Byte>, at: nat, p: Pair)
    requires at + 16 <= |s| && s[at..at + 16] == PairBytes(p)
    ensures PairAt(s, at) == p
  {
    hide Bytes, Word32, Word64;
    WordRoundTrip(0, p.x);
    WordRoundTrip(0, p.y);
    var t := s[at..at + 16];
    assert s[at..at + 8] == t[..8] == Bytes(p.x, 8);
    assert s[at + 8..at + 16] == t[8..] == Bytes(p.y, 8);
  }

  lemma QuadRoundTrip(s: seq<Byte>, at: nat, q: Quad)
    requires at + 32 <= |s| && s[at..at + 32] == QuadBytes(q)
    ensures QuadAt(s, at) == q
  {
    hide Bytes, Word32, Word64;
    WordRoundTrip(0, q.minX);
    WordRoundTrip(0, q.minY);
    WordRoundTrip(0, q.maxX);
    WordRoundTrip(0, q.maxY);
    var t := s[at..at + 32];
    Slice(s, at, 32, 0, 8);
    Slice(s, at, 32, 8, 16);
    Slice(s, at, 32, 16, 24);
    Slice(s, at, 32, 24, 32);
    assert t[0..8] == Bytes(q.minX, 8) && t[8..16] == Bytes(q.minY, 8);
    assert t[16..24] == Bytes(q.maxX, 8) && t[24..32] == Bytes(q.maxY, 8);
  }

  lemma HeaderRoundTrip(s: seq<Byte>, h: Header)
    requires HEADER_SIZE <= |s| && s[..HEADER_SIZE] == HeaderBytes(h)
    ensures HeaderAt(s) == h
  {
    hide Bytes, Word32, Word64, QuadAt, PairAt, QuadBytes, PairBytes;
    WordRoundTrip(h.pageId, h.checksum);
    WordRoundTrip(h.trackId, 0);
    WordRoundTrip(h.objectCount, 0);
    WordRoundTrip(h.flags, 0);
    var t := s[..72];
    assert s[0..4] == t[..4] == Bytes(h.pageId, 4);
    assert s[4..8] == t[4..8] == Bytes(h.trackId, 4);
    assert s[8..12] == t[8..12] == Bytes(h.objectCount, 4);
    assert s[12..16] == t[12..16] == Bytes(h.flags, 4);
    assert s[16..48] == t[16..48] == QuadBytes(h.extent);
    QuadRoundTrip(s, 16, h.extent);
    assert s[48..64] == t[48..64] == PairBytes(h.centroid);
    PairRoundTrip(s, 48, h.centroid);
    assert s[64..72] == t[64..] == Bytes(h.checksum, 8);
  }

  lemma RecordRoundTrip(s: seq<Byte>, at: nat, r: Record)
    requires at + RECORD_SIZE <= |s| && s[at..at + RECORD_SIZE] == RecordBytes(r)
    ensures RecordAt(s, at) == r
  {
    hide Bytes, Word32, Word64, QuadAt, PairAt, QuadBytes, PairBytes;
    WordRoundTrip(r.kind, r.id);
    var t := s[at..at + 60];
    assert s[at..at + 8] == t[..8] == Bytes(r.id, 8);
    assert s[at + 8..at + 12] == t[8..12] == Bytes(r.kind, 4);
    assert s[at + 12..at + 28] == t[12..28] == PairBytes(r.centroid);
    PairRoundTrip(s, at + 12, r.centroid);
    assert s[at + 28..at + 60] == t[28..] == QuadBytes(r.mbr);
    QuadRoundTrip(s, at + 28, r.mbr);
  }

  /** Where each part of the image lies. */
  lemma {:induction false} ImageParts(h: Header, objects: seq<Record>, i: nat)
    requires i < |objects|
    ensures var s := PageBytes(h, objects);
      && HEADER_SIZE + RECORD_SIZE * (i + 1) <= |s|
      && s[HEADER_SIZE + RECORD_SIZE * i..HEADER_SIZE + RECORD_SIZE * (i + 1)] == RecordBytes(objects[i])
  {
    hide RecordBytes, HeaderBytes;
    var n := |objects| - 1;
    var s, t := PageBytes(h, objects), PageBytes(h, objects[..n]);
    if i < n {
      ImageParts(h, objects[..n], i);
      assert s[HEADER_SIZE + RECORD_SIZE * i..HEADER_SIZE + RECORD_SIZE * (i + 1)]
          == t[HEADER_SIZE + RECORD_SIZE * i..HEADER_SIZE + RECORD_SIZE * (i + 1)];
    } else {
      assert s[|t|..] == RecordBytes(objects[i]);
    }
  }

  lemma {:induction false} ImageHeader(h: Header, objects: seq<Record>)
    ensures PageBytes(h, objects)[..HEADER_SIZE] == HeaderBytes(h)
  {
    hide RecordBytes, HeaderBytes;
    if objects != [] {
      var n := |objects| - 1;
      ImageHeader(h, objects[..n]);
      assert PageBytes(h, objects)[..HEADER_SIZE] == PageBytes(h, objects[..n])[..HEADER_SIZE];
    }
  }

  /** Reading the image of any page gives back its header and every object, in order,
      whatever follows the image. */
  lemma PageRoundTrip(h: Header, objects: seq<Record>, rest: seq<Byte>)
    ensures HeaderAt(PageBytes(h, objects) + rest) == h
    ensures forall i | 0 <= i < |objects| :: RecordAt(PageBytes(h, objects) + rest, HEADER_SIZE + RECORD_SIZE * i) == objects[i]
  {
    hide RecordBytes, HeaderBytes, HeaderAt, RecordAt, PageBytes;
    var s := PageBytes(h, objects) + rest;
    ImageHeader(h, objects);
    assert s[..HEADER_SIZE] == PageBytes(h, objects)[..HEADER_SIZE];
    HeaderRoundTrip(s, h);
    forall i | 0 <= i < |objects| ensures RecordAt(s, HEADER_SIZE + RECORD_SIZE * i) == objects[i] {
      var at := HEADER_SIZE + RECORD_SIZE * i;
      ImageParts(h, objects, i);
      assert s[at..at + RECORD_SIZE] == PageBytes(h, objects)[at..at + RECORD_SIZE];
      RecordRoundTrip(s, at, objects[i]);
    }
  }

  lemma WordsReread(s: seq<Byte>)
    ensures |s| == 4 ==> Bytes(Word32(s), 4) == s
    ensures |s| == 8 ==> Bytes(Word64(s), 8) == s
  {
    BytesOfValue(s);
  }

  lemma PairReread(s: seq<Byte>, at: nat)
    requires at + 16 <= |s|
    ensures PairBytes(PairAt(s, at)) == s[at..at + 16]
  {
    hide Bytes, Word64;
    WordsReread(s[at..at + 8]);
    WordsReread(s[at + 8..at + 16]);
  }

  lemma Adjoin(s: seq<Byte>, i: nat, j: nat, k: nat)
    requires i <= j <= k <= |s|
    ensures s[i..j] + s[j..k] == s[i..k]
  {
  }

  lemma QuadReread(s: seq<Byte>, at: nat)
    requires at + 32 <= |s|
    ensures QuadBytes(QuadAt(s, at)) == s[at..at + 32]
  {
    hide Bytes, Word64;
    WordsReread(s[at..at + 8]);
    WordsReread(s[at + 8..at + 16]);
    WordsReread(s[at + 16..at + 24]);
    WordsReread(s[at + 24..at + 32]);
  }

  lemma HeaderReread(s: seq<Byte>)
    requires HEADER_SIZE <= |s|
    ensures HeaderBytes(HeaderAt(s)) == s[..HEADER_SIZE]
  {
    hide Bytes, Word32, Word64, PairBytes, PairAt, QuadBytes, QuadAt;
    WordsReread(s[0..4]);
    WordsReread(s[4..8]);
    WordsReread(s[8..12]);
    WordsReread(s[12..16]);
    QuadReread(s, 16);
    PairReread(s, 48);
    WordsReread(s[64..72]);
    Adjoin(s, 0, 4, 8);
    Adjoin(s, 0, 8, 12);
    Adjoin(s, 0, 12, 16);
    Adjoin(s, 0, 16, 48);
    Adjoin(s, 0, 48, 64);
    Adjoin(s, 0, 64, 72);
  }

  lemma RecordReread(s: seq<Byte>, at: nat)
    requires at + RECORD_SIZE <= |s|
    ensures RecordBytes(RecordAt(s, at)) == s[at..at + RECORD_SIZE]
  {
    hide Bytes, Word32, Word64, PairBytes, PairAt, QuadBytes, QuadAt;
    WordsReread(s[at..at + 8]);
    WordsReread(s[at + 8..at + 12]);
    PairReread(s, at + 12);
    QuadReread(s, at + 28);
    Adjoin(s, at, at + 8, at + 12);
    Adjoin(s, at, at + 12, at + 28);
    Adjoin(s, at, at + 28, at + 60);
  }

  /** Writing what was read from any bytes gives back those bytes. */
  lemma {:induction false} PageReread(s: seq<Byte>, objects: seq<Record>)
    requires HEADER_SIZE + RECORD_SIZE * |objects| <= |s|
    requires forall i | 0 <= i < |objects| :: objects[i] == RecordAt(s, HEADER_SIZE + RECORD_SIZE * i)
    ensures PageBytes(HeaderAt(s), objects) == s[..HEADER_SIZE + RECORD_SIZE * |objects|]
  {
    hide RecordBytes, RecordAt, HeaderBytes, HeaderAt;
    if objects == [] {
      HeaderReread(s);
    } else {
      var n := |objects| - 1;
      var at := HEADER_SIZE + RECORD_SIZE * n;
      PageReread(s, objects[..n]);
      RecordReread(s, at);
      assert s[..at] + s[at..at + RECORD_SIZE] == s[..at + RECORD_SIZE];
    }
  }

  /** Different pages have different images. */
  lemma ImagesDiffer(h: Header, a: seq<Record>, g: Header, b: seq<Record>, rest: seq<Byte>, other: seq<Byte>)
    requires |a| == |b| && PageBytes(h, a) + rest == PageBytes(g, b) + other
    ensures h == g && a == b
  {
    hide HeaderAt, RecordAt, PageBytes;
    PageRoundTrip(h, a, rest);
    PageRoundTrip(g, b, other);
    var image := PageBytes(h, a) + rest;
    forall i | 0 <= i < |a| ensures a[i] == b[i] {
      assert a[i] == RecordAt(image, HEADER_SIZE + RECORD_SIZE * i) == b[i];
    }
  }

  // ---------- Reading and writing a buffer ----------

  /** memcpy into buffer at offset. */
  method Copy(buffer: array<Byte>, offset: nat, src: seq<Byte>)
    requires offset + |src| <= buffer.Length
    modifies buffer
    ensures buffer[..] == old(buffer[..offset]) + src + old(buffer[offset + |src|..])
  {
    for i := 0 to |src|
      invariant buffer[..offset] == old(buffer[..offset])
      invariant buffer[offset..offset + i] == src[..i]
      invariant buffer[offset + i..] == old(buffer[offset + i..])
    {
      buffer[offset + i] := src[i];
    }
    assert src[..|src|] == src;
  }

  /** The loop of page_serialize, after the header is written. */
  method WriteRecords(ghost h: Header, objects: seq<Record>, buffer: array<Byte>)
    requires HEADER_SIZE + RECORD_SIZE * |objects| <= buffer.Length
    requires buffer[..] == HeaderBytes(h) + Zeros(buffer.Length - HEADER_SIZE)
    modifies buffer
    ensures buffer[..] == PageBytes(h, objects) + Zeros(buffer.Length - |PageBytes(h, objects)|)
  {
    hide HeaderBytes, PageBytes, RecordBytes, Zeros;
    NoRecords(h, objects[..0]);
    var offset := HEADER_SIZE;
    ghost var image := HeaderBytes(h);
    for i := 0 to |objects|
      invariant offset == HEADER_SIZE + RECORD_SIZE * i == |image|
      invariant image == PageBytes(h, objects[..i]) && buffer[..] == image + Zeros(buffer.Length - offset)
    {
      OneMoreRecord(h, objects, i);
      WriteRecord(buffer, offset, objects[i], image);
      image := image + RecordBytes(objects[i]);
      offset := offset + RECORD_SIZE;
    }
    assert objects[..|objects|] == objects;
  }

  /** Writes the image of a page and zeros after it; a buffer shorter than a page is refused. */
  method Serialize(h: Header, objects: seq<Record>, buffer: array<Byte>) returns (status: Status)
    requires |objects| == h.objectCount <= MAX_OBJECTS
    modifies buffer
    ensures status == if buffer.Length < PAGE_SIZE then ErrAlloc else OK
    ensures status != OK ==> buffer[..] == old(buffer[..])
    ensures status == OK ==> buffer[..] == PageBytes(h, objects) + Zeros(buffer.Length - |PageBytes(h, objects)|)
  {
    hide Bytes, QuadBytes, PairBytes, HeaderBytes, PageBytes, RecordBytes, Zeros;
    if buffer.Length < PAGE_SIZE { return ErrAlloc; }
    WriteHeader(h, buffer);
    WriteRecords(h, objects, buffer);
    status := OK;
  }

  lemma NoRecords(h: Header, objects: seq<Record>)
    requires objects == []
    ensures PageBytes(h, objects) == HeaderBytes(h)
  {
  }

  lemma OneMoreRecord(h: Header, objects: seq<Record>, i: nat)
    requires i < |objects|
    ensures PageBytes(h, objects[..i + 1]) == PageBytes(h, objects[..i]) + RecordBytes(objects[i])
  {
    hide RecordBytes, HeaderBytes;
    assert objects[..i + 1][..i] == objects[..i];
  }

  /** memset to zero. */
  method Clear(buffer: array<Byte>)
    modifies buffer
    ensures buffer[..] == Zeros(buffer.Length)
  {
    forall i | 0 <= i < buffer.Length { buffer[i] := 0; }
  }

  /** A cleared buffer with the header in front. */
  method WriteHeader(h: Header, buffer: array<Byte>)
    requires HEADER_SIZE <= buffer.Length
    modifies buffer
    ensures buffer[..] == HeaderBytes(h) + Zeros(buffer.Length - HEADER_SIZE)
  {
    hide HeaderBytes;
    Clear(buffer);
    ghost var zeros := buffer[..];
    Copy(buffer, 0, HeaderBytes(h));
    assert zeros[HEADER_SIZE..] == Zeros(buffer.Length - HEADER_SIZE);
  }

  /** What copying src over zeros leaves. */
  lemma OverZeros(before: seq<Byte>, src: seq<Byte>, n: nat)
    requires |src| <= n
    ensures var s := before + Zeros(n);
      s[..|before|] + src + s[|before| + |src|..] == before + src + Zeros(n - |src|)
  {
  }

  lemma RecordInParts(before: seq<Byte>, r: Record)
    ensures before + Bytes(r.id, 8) + Bytes(r.kind, 4) + PairBytes(r.centroid) + QuadBytes(r.mbr) == before + RecordBytes(r)
  {
    hide Bytes, PairBytes, QuadBytes;
  }

  /** The loop body of page_serialize: four copies at a moving offset. */
  method WriteRecord(buffer: array<Byte>, start: nat, r: Record, ghost before: seq<Byte>)
    requires |before| == start && start + RECORD_SIZE <= buffer.Length
    requires buffer[..] == before + Zeros(buffer.Length - start)
    modifies buffer
    ensures buffer[..] == before + RecordBytes(r) + Zeros(buffer.Length - start - RECORD_SIZE)
  {
    hide Bytes, QuadBytes, PairBytes, RecordBytes, Zeros;
    ghost var n := buffer.Length - start;
    var offset := start;
    OverZeros(before, Bytes(r.id, 8), n);
    Copy(buffer, offset, Bytes(r.id, 8));
    offset := offset + 8;
    ghost var a := before + Bytes(r.id, 8);
    OverZeros(a, Bytes(r.kind, 4), n - 8);
    Copy(buffer, offset, Bytes(r.kind, 4));
    offset := offset + 4;
    ghost var b := a + Bytes(r.kind, 4);
    OverZeros(b, PairBytes(r.centroid), n - 12);
    Copy(buffer, offset, PairBytes(r.centroid));
    offset := offset + 16;
    ghost var c := b + PairBytes(r.centroid);
    OverZeros(c, QuadBytes(r.mbr), n - 28);
    Copy(buffer, offset, QuadBytes(r.mbr));
    offset := offset + 32;
    RecordInParts(before, r);
  }

  /** Reads a header and its objects; a header that counts too many objects is kept but reported. */
  method Deserialize(buffer: array<Byte>, h: Header, objects: array<Record>) returns (status: Status, header: Header)
    requires objects.Length == MAX_OBJECTS
    modifies objects
    ensures buffer.Length < PAGE_SIZE ==> status == ErrCorrupt && header == h && objects[..] == old(objects[..])
    ensures buffer.Length >= PAGE_SIZE ==> header == HeaderAt(buffer[..])
    ensures buffer.Length >= PAGE_SIZE && header.objectCount > MAX_OBJECTS ==>
      status == ErrCorrupt && objects[..] == old(objects[..])
    ensures buffer.Length >= PAGE_SIZE && header.objectCount <= MAX_OBJECTS ==>
      && status == OK
      && (forall i | 0 <= i < header.objectCount :: objects[i] == RecordAt(buffer[..], HEADER_SIZE + RECORD_SIZE * i))
      && (forall i | header.objectCount <= i < MAX_OBJECTS :: objects[i] == old(objects[i]))
  {
    hide HeaderAt, Word32, Word64;
    if buffer.Length < PAGE_SIZE { return ErrCorrupt, h; }
    header := HeaderAt(buffer[..]);
    if header.objectCount > MAX_OBJECTS { return ErrCorrupt, header; }
    var offset := HEADER_SIZE;
    for i := 0 to header.objectCount
      invariant offset == HEADER_SIZE + RECORD_SIZE * i
      invariant forall j | 0 <= j < i :: objects[j] == RecordAt(buffer[..], HEADER_SIZE + RECORD_SIZE * j)
      invariant forall j | i <= j < MAX_OBJECTS :: objects[j] == old(objects[j])
    {
      var id := Word64(buffer[offset..offset + 8]);
      offset := offset + 8;
      var kind := Word32(buffer[offset..offset + 4]);
      offset := offset + 4;
      var centroid := PairAt(buffer[..], offset);
      offset := offset + 16;
      var mbr := QuadAt(buffer[..], offset);
      offset := offset + 32;
      objects[i] := Record(id, kind, centroid, mbr);
      assert buffer[..][offset - 60..offset - 52] == buffer[offset - 60..offset - 52];
      assert buffer[..][offset - 52..offset - 48] == buffer[offset - 52..offset - 48];
    }
    status := OK;
  }

  /** Every write of a page of at most 64 objects ends at 3912 or before, inside the page. */
  lemma ImageFits(h: Header, objects: seq<Record>)
    requires |objects| <= MAX_OBJECTS
    ensures |PageBytes(h, objects)| <= 3912 <= PAGE_SIZE
  {
  }

  /** Writing a page and reading the buffer back restores the page. */
  method WriteThenRead(h: Header, objects: seq<Record>, buffer: array<Byte>, into: array<Record>) returns (status: Status, header: Header)
    requires |objects| == h.objectCount <= MAX_OBJECTS && into.Length == MAX_OBJECTS && buffer.Length >= PAGE_SIZE
    modifies buffer, into
    ensures status == OK && header == h && into[..|objects|] == objects
  {
    hide HeaderAt, RecordAt, PageBytes;
    var _ := Serialize(h, objects, buffer);
    PageRoundTrip(h, objects, Zeros(buffer.Length - |PageBytes(h, objects)|));
    status, header := Deserialize(buffer, h, into);
  }
}
