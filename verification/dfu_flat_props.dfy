/**
 * Properties of the DFU flat file (scripts/dfu_zip_to_bin.py): where make
 * places the images, what a one-step package turns into, and how a reader
 * of the file finds each part through the header's fields.
 */
module FlatFileProps {
  import opened Bytes
  import opened Wrappers
  import opened FlatFileSpec

  // ---------------------------------------------------------------------
  // The scan

  /** The image of the manifest entry `image` was built from sits at `addr`, and its fields agree with its files. */
  predicate PlacedAt(image: DfuImage, addr: nat)
  {
    && image.initPacketAddr == addr
    && image.firmwareAddr == addr + INIT_PACKET_SIZE_MAX
    && image.initPacketSize == |image.initPacket|
    && image.firmwareSize == |image.firmware|
    && image.size == ImageSize(image.firmwareSize)
  }

  /** An image ends on a word: the firmware and its padding take a multiple of 4 bytes. */
  lemma ImageSizeAligned(firmwareSize: nat)
    ensures (ImageSize(firmwareSize) - INIT_PACKET_SIZE_MAX) % 4 == 0
  {
    var q, m := firmwareSize / 4, firmwareSize % 4;
    assert firmwareSize == 4 * q + m;
    if m != 0 {
      assert ImageSize(firmwareSize) - INIT_PACKET_SIZE_MAX == 4 * (q + 1);
    }
  }

  /** Every image of `images` sits at `start` plus the sizes of the images before it. */
  ghost predicate Consecutive(images: seq<DfuImage>, start: nat)
  {
    forall i :: 0 <= i < |images| ==> PlacedAt(images[i], start + SumSizes(images[..i]))
  }

  /** One more image, placed behind the others, keeps them consecutive. */
  lemma ConsecutiveSnoc(images: seq<DfuImage>, start: nat, image: DfuImage)
    requires Consecutive(images, start) && PlacedAt(image, start + SumSizes(images))
    ensures Consecutive(images + [image], start)
    ensures SumSizes(images + [image]) == SumSizes(images) + image.size
  {
    var longer := images + [image];
    assert longer[..|images|] == images;
    forall i | 0 <= i < |longer|
      ensures PlacedAt(longer[i], start + SumSizes(longer[..i]))
    {
      if i < |images| {
        assert longer[..i] == images[..i];
      }
    }
  }

  /**
   * The scan places the images one behind the other from `start`: each at
   * the sum of the sizes before it, the file size after them at the sum of
   * all of them, and at most one image per key looked up.
   */
  lemma {:induction false} ScanLayout(manifest: map<string, ImageFiles>, order: seq<(string, ImageType)>, start: nat)
    ensures var (images, end) := Scan(manifest, order, start);
            end == start + SumSizes(images) && |images| <= |order| && Consecutive(images, start)
  {
    if order != [] {
      var prefix := order[..|order| - 1];
      ScanLayout(manifest, prefix, start);
      var (prev, mid) := Scan(manifest, prefix, start);
      var name := order[|order| - 1].0;
      if name in manifest {
        ConsecutiveSnoc(prev, start, NewImage(order[|order| - 1].1, manifest[name], mid));
      }
    }
  }

  /** The image type of a manifest key make looks for (DfuImageType[image_type]). */
  function KindOf(name: string): (r: Option<ImageType>)
  {
    if name == "application" then Some(Application)
    else if name == "softdevice" then Some(Softdevice)
    else if name == "bootloader" then Some(Bootloader)
    else if name == "softdevice_bootloader" then Some(SoftdeviceBootloader)
    else None
  }

  /** The manifest key of an image type. */
  function KeyOf(kind: ImageType): (r: string)
  {
    match kind
    case Application => "application"
    case Softdevice => "softdevice"
    case Bootloader => "bootloader"
    case SoftdeviceBootloader => "softdevice_bootloader"
  }

  /** KindOf and KeyOf are inverse: each type has one key, and the scan order lists each key once. */
  lemma KindKeyRoundTrip(kind: ImageType, name: string)
    ensures KindOf(KeyOf(kind)) == Some(kind)
    ensures KindOf(name).Some? ==> KeyOf(KindOf(name).value) == name
    ensures forall j :: 0 <= j < |SCAN_ORDER| ==> SCAN_ORDER[j] == (KeyOf(SCAN_ORDER[j].1), SCAN_ORDER[j].1)
  {
    assert "softdevice_bootloader"[0] != "application"[0];
    assert "softdevice_bootloader"[0] != "bootloader"[0];
    assert "bootloader"[0] != "application"[0] && "bootloader"[0] != "softdevice"[0];
    assert "softdevice"[0] != "application"[0];
  }

  /**
   * A manifest with one entry gives one image right behind the header when
   * its key is an image type, and none otherwise; the file size counts the
   * header, the image and the CRC.
   */
  lemma OneEntryLayout(name: string, files: ImageFiles)
    ensures Layout(map[name := files]) ==
      if KindOf(name).Some? then
        ([NewImage(KindOf(name).value, files, FILE_HEADER_SIZE_MAX)], FILE_HEADER_SIZE_MAX + ImageSize(|files.firmware|) + CRC_SIZE)
      else ([], FILE_HEADER_SIZE_MAX + CRC_SIZE)
  {
    var m := map[name := files];
    var o := SCAN_ORDER;
    var image := NewImage(if KindOf(name).Some? then KindOf(name).value else Application, files, FILE_HEADER_SIZE_MAX);
    var one := ([image], FILE_HEADER_SIZE_MAX + image.size);
    var none: (seq<DfuImage>, nat) := ([], FILE_HEADER_SIZE_MAX);
    ScanOneEntry(m, name, files, o[..1], none, one, Application);
    assert o[..2][..1] == o[..1];
    ScanOneEntry(m, name, files, o[..2], if name == "application" then one else none, one, Softdevice);
    assert o[..3][..2] == o[..2];
    ScanOneEntry(m, name, files, o[..3], if name in {"application", "softdevice"} then one else none, one, Bootloader);
    assert o[..3] == o[..|o| - 1];
    ScanOneEntry(m, name, files, o, if name in {"application", "softdevice", "bootloader"} then one else none, one, SoftdeviceBootloader);
  }

  /** One step of the scan of a one-entry manifest. */
  lemma ScanOneEntry(m: map<string, ImageFiles>, name: string, files: ImageFiles, order: seq<(string, ImageType)>,
                     before: (seq<DfuImage>, nat), one: (seq<DfuImage>, nat), kind: ImageType)
    requires m == map[name := files] && order != []
    requires Scan(m, order[..|order| - 1], FILE_HEADER_SIZE_MAX) == before
    requires order[|order| - 1] == (KeyOf(kind), kind)
    requires name == KeyOf(kind) ==> before.0 == [] && before.1 == FILE_HEADER_SIZE_MAX
    requires name == KeyOf(kind) ==> one == ([NewImage(kind, files, FILE_HEADER_SIZE_MAX)], FILE_HEADER_SIZE_MAX + ImageSize(|files.firmware|))
    ensures Scan(m, order, FILE_HEADER_SIZE_MAX) == if name == KeyOf(kind) then one else before
  {
    assert order[..|order| - 1] == order[..|order| - 1];
    if name == KeyOf(kind) {
      assert KeyOf(kind) in m && m[KeyOf(kind)] == files;
      var image := NewImage(kind, files, FILE_HEADER_SIZE_MAX);
      assert before.0 + [image] == [image];
    } else {
      assert KeyOf(kind) !in m;
    }
  }

  /** The only key of a one-entry map. */
  lemma OnlyKey(m: map<string, ImageFiles>) returns (name: string)
    requires |m| == 1
    ensures name in m && m == map[name := m[name]]
  {
    assert |m.Keys| == 1;
    name :| name in m.Keys;
    forall k | k in m
      ensures k == name
    {
      if k != name {
        assert {name, k} <= m.Keys;
        SubsetSize({name, k}, m.Keys);
      }
    }
  }

  lemma SubsetSize(a: set<string>, b: set<string>)
    requires a <= b
    ensures |a| <= |b|
  {
    assert b == a + (b - a);
  }

  /** A one-step package (the only kind make accepts) holds at most one image. */
  lemma AtMostOneImage(manifest: map<string, ImageFiles>)
    requires |manifest| == 1
    ensures |Layout(manifest).0| <= 1
  {
    var name := OnlyKey(manifest);
    OneEntryLayout(name, manifest[name]);
  }

  // ---------------------------------------------------------------------
  // Reading a file back

  /** A slice within the front part of a concatenation. */
  lemma SliceFront(x: seq<byte>, y: seq<byte>, lo: nat, hi: nat)
    requires lo <= hi <= |x|
    ensures (x + y)[lo..hi] == x[lo..hi]
  {
    assert forall k :: lo <= k < hi ==> (x + y)[k] == x[k];
  }

  /** A slice within the back part of a concatenation. */
  lemma SliceBack(x: seq<byte>, y: seq<byte>, lo: nat, hi: nat)
    requires |x| <= lo <= hi <= |x| + |y|
    ensures (x + y)[lo..hi] == y[lo - |x|..hi - |x|]
  {
    assert forall k :: lo <= k < hi ==> (x + y)[k] == y[k - |x|];
  }

  /** The i-th 32-bit header field, as a reader of the file decodes it. */
  function Field(f: seq<byte>, i: nat): (r: u32)
    requires 4 * i + 4 <= |f|
  {
    Le32Decode(f[4 * i..4 * i + 4])
  }

  /** Each field of a run of little-endian fields reads back. */
  lemma {:induction false} Le32sField(fields: seq<u32>, i: nat)
    requires i < |fields|
    ensures Le32s(fields)[4 * i..4 * i + 4] == Le32(fields[i])
  {
    var init, last := fields[..|fields| - 1], fields[|fields| - 1];
    assert fields == init + [last];
    Le32sSnoc(init, last);
    Le32RoundTrip(last, Le32(last));
    if i < |init| {
      Le32sField(init, i);
      assert init[i] == fields[i];
      assert Le32s(fields)[4 * i..4 * i + 4] == Le32s(init)[4 * i..4 * i + 4];
    }
  }

  /** The fields at the front of a file read back, whatever follows them. */
  lemma FieldsReadBack(fields: seq<u32>, f: seq<byte>)
    requires |Le32s(fields)| <= |f| && f[..|Le32s(fields)|] == Le32s(fields)
    ensures forall i :: 0 <= i < |fields| ==> Field(f, i) == fields[i]
  {
    forall i | 0 <= i < |fields|
      ensures Field(f, i) == fields[i]
    {
      FieldReadsBack(fields, f, i);
    }
  }

  lemma FieldReadsBack(fields: seq<u32>, f: seq<byte>, i: nat)
    requires |Le32s(fields)| <= |f| && f[..|Le32s(fields)|] == Le32s(fields)
    requires i < |fields|
    ensures Field(f, i) == fields[i]
  {
    var head := Le32s(fields);
    var lo := 4 * i;
    assert lo + 4 <= |head|;
    Le32sField(fields, i);
    assert f == head + f[|head|..];
    SliceFront(head, f[|head|..], lo, lo + 4);
    Le32RoundTrip(fields[i], Le32(fields[i]));
  }

  /** The header fields of a file holding `images`. */
  function HeaderFields(fileSize: u32, images: seq<DfuImage>): (r: seq<u32>)
    requires |images| <= 1 && FieldsFit(fileSize, images)
    ensures |r| == 4 + 5 * |images|
  {
    [MAGIC_NUMBER_MCUBOOT, MAGIC_NUMBER_DFUFILE, fileSize, |images|]
      + if images == [] then [] else ImageFields(images[0])
  }

  /** The header of a file with at most one image: its fields, then 0xFF up to 128 bytes. */
  lemma HeaderOfOne(fileSize: nat, images: seq<DfuImage>)
    requires |images| <= 1 && FieldsFit(fileSize, images)
    ensures Header(fileSize, images) == Le32s(HeaderFields(fileSize, images)) + Fill(FILE_HEADER_SIZE_MAX - 16 - 20 * |images|, PAD_BYTE)
  {
    var fixed := [MAGIC_NUMBER_MCUBOOT, MAGIC_NUMBER_DFUFILE, fileSize, |images|];
    if images != [] {
      assert images[..0] == [];
      assert ImagesInfo(images) == ImageInfo(images[0]);
      Le32sAppend(fixed, ImageFields(images[0]));
    } else {
      assert fixed + [] == fixed;
    }
  }

  /** The bytes of an image that is its own `last`, with its sizes agreeing with its files. */
  lemma ImageBytes(image: DfuImage)
    requires image.initPacketSize == |image.initPacket| && image.firmwareSize == |image.firmware|
    ensures ImageData(image, image) ==
      image.initPacket + Fill(if |image.initPacket| < INIT_PACKET_SIZE_MAX then INIT_PACKET_SIZE_MAX - |image.initPacket| else 0, PAD_BYTE)
        + image.firmware + Fill(ImageSize(|image.firmware|) - INIT_PACKET_SIZE_MAX - |image.firmware|, PAD_BYTE)
  {
    assert Fill(0, PAD_BYTE) == [];
  }

  /** The parts of a file holding one image: header, init packet, its padding, firmware, its padding, CRC. */
  lemma FileRegions(hd: seq<byte>, ip: seq<byte>, f1: seq<byte>, fw: seq<byte>, f2: seq<byte>, c: seq<byte>)
    ensures var f := hd + (ip + f1 + fw + f2) + c;
            var a := |hd| + |ip| + |f1|;
            && |f| == a + |fw| + |f2| + |c|
            && f[..|hd|] == hd
            && f[|hd|..|hd| + |ip|] == ip
            && f[|hd| + |ip|..a] == f1
            && f[a..a + |fw|] == fw
            && f[a + |fw|..a + |fw| + |f2|] == f2
            && f[..|f| - |c|] == hd + (ip + f1 + fw + f2)
            && f[|f| - |c|..] == c
  {
    FileCrc(hd + (ip + f1 + fw + f2), c);
    FileFront(hd, ip, f1, fw, f2, c);
    FileBack(hd, ip, f1, fw, f2, c);
  }

  /** The data and the CRC behind it. */
  lemma FileCrc(data: seq<byte>, c: seq<byte>)
    ensures (data + c)[..|data|] == data && (data + c)[|data|..] == c
  {
    SliceFront(data, c, 0, |data|);
    SliceBack(data, c, |data|, |data| + |c|);
  }

  /** The header, the init packet and its padding. */
  lemma FileFront(hd: seq<byte>, ip: seq<byte>, f1: seq<byte>, fw: seq<byte>, f2: seq<byte>, c: seq<byte>)
    ensures var f := hd + (ip + f1 + fw + f2) + c;
            && f[..|hd|] == hd
            && f[|hd|..|hd| + |ip|] == ip
            && f[|hd| + |ip|..|hd| + |ip| + |f1|] == f1
  {
    var body := ip + f1 + fw + f2;
    var data := hd + body;
    var h, a := |hd|, |hd| + |ip| + |f1|;
    SliceFront(data, c, 0, h);
    SliceFront(hd, body, 0, h);
    SliceFront(data, c, h, h + |ip|);
    SliceBack(hd, body, h, h + |ip|);
    SliceFront(ip + f1 + fw, f2, 0, |ip|);
    SliceFront(ip + f1, fw, 0, |ip|);
    SliceFront(ip, f1, 0, |ip|);
    SliceFront(data, c, h + |ip|, a);
    SliceBack(hd, body, h + |ip|, a);
    SliceFront(ip + f1 + fw, f2, |ip|, |ip| + |f1|);
    SliceFront(ip + f1, fw, |ip|, |ip| + |f1|);
    SliceBack(ip, f1, |ip|, |ip| + |f1|);
  }

  /** The firmware and its padding. */
  lemma FileBack(hd: seq<byte>, ip: seq<byte>, f1: seq<byte>, fw: seq<byte>, f2: seq<byte>, c: seq<byte>)
    ensures var f := hd + (ip + f1 + fw + f2) + c;
            var a := |hd| + |ip| + |f1|;
            && f[a..a + |fw|] == fw
            && f[a + |fw|..a + |fw| + |f2|] == f2
  {
    var body := ip + f1 + fw + f2;
    var data := hd + body;
    var a := |hd| + |ip| + |f1|;
    SliceFront(data, c, a, a + |fw|);
    SliceBack(hd, body, a, a + |fw|);
    SliceFront(ip + f1 + fw, f2, |ip| + |f1|, |ip| + |f1| + |fw|);
    SliceBack(ip + f1, fw, |ip| + |f1|, |ip| + |f1| + |fw|);
    SliceFront(data, c, a + |fw|, a + |fw| + |f2|);
    SliceBack(hd, body, a + |fw|, a + |fw| + |f2|);
    SliceBack(ip + f1 + fw, f2, |ip| + |f1| + |fw|, |body|);
  }

  /**
   * What a reader finds in the header of a one-image file: the magic
   * numbers, the file size field, one image, its type, the init packet's
   * address (128) and size, the firmware's address (640) and size, and 0xFF
   * up to 128 bytes.
   */
  predicate HeaderSays(f: seq<byte>, size: nat, kind: ImageType, files: ImageFiles)
  {
    && FILE_HEADER_SIZE_MAX <= |f|
    && Field(f, 0) == MAGIC_NUMBER_MCUBOOT && Field(f, 1) == MAGIC_NUMBER_DFUFILE
    && Field(f, 2) == size && Field(f, 3) == 1
    && Field(f, 4) == TypeValue(kind)
    && Field(f, 5) == FILE_HEADER_SIZE_MAX && Field(f, 6) == |files.initPacket|
    && Field(f, 7) == FILE_HEADER_SIZE_MAX + INIT_PACKET_SIZE_MAX && Field(f, 8) == |files.firmware|
    && f[36..FILE_HEADER_SIZE_MAX] == Fill(FILE_HEADER_SIZE_MAX - 36, PAD_BYTE)
  }

  /** ... and its file size field is the file's length. */
  predicate HeaderReadsBack(f: seq<byte>, kind: ImageType, files: ImageFiles)
  {
    HeaderSays(f, |f|, kind, files)
  }

  /**
   * What a reader finds behind the header: the init packet at 128 padded
   * with 0xFF to 640, the firmware at 640 padded with 0xFF to a word, and
   * the CRC32 of everything before the last four bytes in those four bytes.
   */
  predicate DataReadsBack(f: seq<byte>, files: ImageFiles, crc32: Crc32)
  {
    ImageReadsBack(f, files) && CrcReadsBack(f, crc32)
  }

  /** The init packet at 128 padded with 0xFF to 640, then the firmware padded with 0xFF to a word, then four bytes. */
  predicate ImageReadsBack(f: seq<byte>, files: ImageFiles)
  {
    var ip, fw := |files.initPacket|, |files.firmware|;
    var fwAddr := FILE_HEADER_SIZE_MAX + INIT_PACKET_SIZE_MAX;
    && ip <= INIT_PACKET_SIZE_MAX && fwAddr + fw + CRC_SIZE <= |f|
    && f[FILE_HEADER_SIZE_MAX..FILE_HEADER_SIZE_MAX + ip] == files.initPacket
    && f[FILE_HEADER_SIZE_MAX + ip..fwAddr] == Fill(INIT_PACKET_SIZE_MAX - ip, PAD_BYTE)
    && f[fwAddr..fwAddr + fw] == files.firmware
    && f[fwAddr + fw..|f| - CRC_SIZE] == Fill(|f| - CRC_SIZE - fwAddr - fw, PAD_BYTE)
    && (|f| - CRC_SIZE - fwAddr) % 4 == 0 && |f| - CRC_SIZE < fwAddr + fw + 4
  }

  /** The last four bytes are the CRC32 of the bytes before them, little-endian. */
  predicate CrcReadsBack(f: seq<byte>, crc32: Crc32)
  {
    CRC_SIZE <= |f| && f[|f| - CRC_SIZE..] == Le32(crc32(f[..|f| - CRC_SIZE]))
  }

  /** A one-step package with one image and an init packet of at most 512 bytes makes a file that reads back. */
  lemma OneImageFile(name: string, files: ImageFiles, crc32: Crc32)
    requires KindOf(name).Some? && |files.initPacket| <= INIT_PACKET_SIZE_MAX
    requires FILE_HEADER_SIZE_MAX + ImageSize(|files.firmware|) + CRC_SIZE < U32_LIMIT
    ensures var r := MakeSpec(Package(PACKAGE_ENTRIES, Some(map[name := files])), crc32);
            && r.Ok? && HeaderReadsBack(r.value, KindOf(name).value, files)
            && DataReadsBack(r.value, files, crc32)
  {
    var kind := KindOf(name).value;
    OneImageFits(kind, files);
    OneImageIsRegions(kind, files, crc32);
    OneImageHeaderReads(kind, files, crc32);
    OneImageDataReads(kind, files, crc32);
    MakeOneImage(name, files, crc32);
  }

  /**
   * The file of a one-image package region by region: the header fields
   * and their padding, the init packet and its padding (none when it is
   * longer than 512 bytes), the firmware and its padding, and the CRC32 of
   * all of it.
   */
  function OneImageRegions(kind: ImageType, files: ImageFiles, crc32: Crc32): (r: seq<byte>)
    requires FILE_HEADER_SIZE_MAX + ImageSize(|files.firmware|) + CRC_SIZE < U32_LIMIT
    requires |files.initPacket| < U32_LIMIT
  {
    var size := FILE_HEADER_SIZE_MAX + ImageSize(|files.firmware|) + CRC_SIZE;
    var ip, fw := files.initPacket, files.firmware;
    var data := Le32s(HeaderFields(size, [NewImage(kind, files, FILE_HEADER_SIZE_MAX)])) + Fill(FILE_HEADER_SIZE_MAX - 36, PAD_BYTE)
      + (ip + Fill(if |ip| < INIT_PACKET_SIZE_MAX then INIT_PACKET_SIZE_MAX - |ip| else 0, PAD_BYTE)
         + fw + Fill(ImageSize(|fw|) - INIT_PACKET_SIZE_MAX - |fw|, PAD_BYTE));
    data + Le32(crc32(data))
  }

  /** The fields of a one-image file fit 32 bits when its size does. */
  lemma OneImageFits(kind: ImageType, files: ImageFiles)
    requires FILE_HEADER_SIZE_MAX + ImageSize(|files.firmware|) + CRC_SIZE < U32_LIMIT
    requires |files.initPacket| < U32_LIMIT
    ensures FieldsFit(FILE_HEADER_SIZE_MAX + ImageSize(|files.firmware|) + CRC_SIZE, [NewImage(kind, files, FILE_HEADER_SIZE_MAX)])
  {
    assert ImageFits(NewImage(kind, files, FILE_HEADER_SIZE_MAX));
  }

  /** make's bytes for a one-image package are its regions. */
  lemma OneImageIsRegions(kind: ImageType, files: ImageFiles, crc32: Crc32)
    requires FILE_HEADER_SIZE_MAX + ImageSize(|files.firmware|) + CRC_SIZE < U32_LIMIT
    requires |files.initPacket| < U32_LIMIT
    requires FieldsFit(FILE_HEADER_SIZE_MAX + ImageSize(|files.firmware|) + CRC_SIZE, [NewImage(kind, files, FILE_HEADER_SIZE_MAX)])
    ensures FileBytes(FILE_HEADER_SIZE_MAX + ImageSize(|files.firmware|) + CRC_SIZE, [NewImage(kind, files, FILE_HEADER_SIZE_MAX)], crc32)
              == OneImageRegions(kind, files, crc32)
  {
    var image := NewImage(kind, files, FILE_HEADER_SIZE_MAX);
    assert [image][|[image]| - 1] == image;
    OneImageDataIs(kind, files);
  }

  /** The bytes before the CRC32 of a one-image file: its header, and its image's data. */
  lemma OneImageDataIs(kind: ImageType, files: ImageFiles)
    requires FILE_HEADER_SIZE_MAX + ImageSize(|files.firmware|) + CRC_SIZE < U32_LIMIT
    requires FieldsFit(FILE_HEADER_SIZE_MAX + ImageSize(|files.firmware|) + CRC_SIZE, [NewImage(kind, files, FILE_HEADER_SIZE_MAX)])
    ensures var size := FILE_HEADER_SIZE_MAX + ImageSize(|files.firmware|) + CRC_SIZE;
            var image := NewImage(kind, files, FILE_HEADER_SIZE_MAX);
            var ip, fw := files.initPacket, files.firmware;
            Header(size, [image]) + Body([image], image)
              == Le32s(HeaderFields(size, [image])) + Fill(FILE_HEADER_SIZE_MAX - 36, PAD_BYTE)
                 + (ip + Fill(if |ip| < INIT_PACKET_SIZE_MAX then INIT_PACKET_SIZE_MAX - |ip| else 0, PAD_BYTE)
                    + fw + Fill(ImageSize(|fw|) - INIT_PACKET_SIZE_MAX - |fw|, PAD_BYTE))
  {
    OneData(FILE_HEADER_SIZE_MAX + ImageSize(|files.firmware|) + CRC_SIZE, NewImage(kind, files, FILE_HEADER_SIZE_MAX));
  }

  /** The header and the data of a file holding one image that is its own `last`. */
  lemma OneData(size: nat, image: DfuImage)
    requires FieldsFit(size, [image])
    requires image.initPacketSize == |image.initPacket| && image.firmwareSize == |image.firmware|
    ensures var ip, fw := image.initPacket, image.firmware;
            Header(size, [image]) + Body([image], image)
              == Le32s(HeaderFields(size, [image])) + Fill(FILE_HEADER_SIZE_MAX - 36, PAD_BYTE)
                 + (ip + Fill(if |ip| < INIT_PACKET_SIZE_MAX then INIT_PACKET_SIZE_MAX - |ip| else 0, PAD_BYTE)
                    + fw + Fill(ImageSize(|fw|) - INIT_PACKET_SIZE_MAX - |fw|, PAD_BYTE))
  {
    HeaderOfOne(size, [image]);
    ImageBytes(image);
    assert [image][..0] == [];
    assert Body([image], image) == ImageData(image, image);
  }

  /** The header of a one-image file reads back. */
  lemma OneImageHeaderReads(kind: ImageType, files: ImageFiles, crc32: Crc32)
    requires |files.initPacket| <= INIT_PACKET_SIZE_MAX
    requires FILE_HEADER_SIZE_MAX + ImageSize(|files.firmware|) + CRC_SIZE < U32_LIMIT
    ensures HeaderReadsBack(OneImageRegions(kind, files, crc32), kind, files)
  {
    var size := FILE_HEADER_SIZE_MAX + ImageSize(|files.firmware|) + CRC_SIZE;
    var hd, f1, f2, c, f := RegionParts(kind, files, crc32);
    FileRegions(hd, files.initPacket, f1, files.firmware, f2, c);
    OneImageHeader(f, size, kind, files);
  }

  /** The init packet, the firmware and the CRC of a one-image file read back. */
  lemma OneImageDataReads(kind: ImageType, files: ImageFiles, crc32: Crc32)
    requires |files.initPacket| <= INIT_PACKET_SIZE_MAX
    requires FILE_HEADER_SIZE_MAX + ImageSize(|files.firmware|) + CRC_SIZE < U32_LIMIT
    ensures DataReadsBack(OneImageRegions(kind, files, crc32), files, crc32)
  {
    var hd, f1, f2, c, f := RegionParts(kind, files, crc32);
    OneImageData(f, hd, f1, f2, c, files, crc32);
  }

  /** The regions of a one-image file, named. */
  lemma RegionParts(kind: ImageType, files: ImageFiles, crc32: Crc32)
    returns (hd: seq<byte>, f1: seq<byte>, f2: seq<byte>, c: seq<byte>, f: seq<byte>)
    requires FILE_HEADER_SIZE_MAX + ImageSize(|files.firmware|) + CRC_SIZE < U32_LIMIT
    requires |files.initPacket| < U32_LIMIT
    ensures var size := FILE_HEADER_SIZE_MAX + ImageSize(|files.firmware|) + CRC_SIZE;
            && FieldsFit(size, [NewImage(kind, files, FILE_HEADER_SIZE_MAX)])
            && hd == Le32s(HeaderFields(size, [NewImage(kind, files, FILE_HEADER_SIZE_MAX)])) + Fill(FILE_HEADER_SIZE_MAX - 36, PAD_BYTE)
            && |hd| == FILE_HEADER_SIZE_MAX
    ensures f1 == Fill(if |files.initPacket| < INIT_PACKET_SIZE_MAX then INIT_PACKET_SIZE_MAX - |files.initPacket| else 0, PAD_BYTE)
    ensures f2 == Fill(ImageSize(|files.firmware|) - INIT_PACKET_SIZE_MAX - |files.firmware|, PAD_BYTE)
    ensures c == Le32(crc32(hd + (files.initPacket + f1 + files.firmware + f2)))
    ensures f == OneImageRegions(kind, files, crc32) && f == hd + (files.initPacket + f1 + files.firmware + f2) + c
  {
    var size := FILE_HEADER_SIZE_MAX + ImageSize(|files.firmware|) + CRC_SIZE;
    assert ImageFits(NewImage(kind, files, FILE_HEADER_SIZE_MAX));
    hd := Le32s(HeaderFields(size, [NewImage(kind, files, FILE_HEADER_SIZE_MAX)])) + Fill(FILE_HEADER_SIZE_MAX - 36, PAD_BYTE);
    f1 := Fill(if |files.initPacket| < INIT_PACKET_SIZE_MAX then INIT_PACKET_SIZE_MAX - |files.initPacket| else 0, PAD_BYTE);
    f2 := Fill(ImageSize(|files.firmware|) - INIT_PACKET_SIZE_MAX - |files.firmware|, PAD_BYTE);
    c := Le32(crc32(hd + (files.initPacket + f1 + files.firmware + f2)));
    f := hd + (files.initPacket + f1 + files.firmware + f2) + c;
  }

  /** make on a one-step package whose fields fit: the checks pass, and the file is the layout's bytes. */
  lemma MakeOneEntry(name: string, files: ImageFiles, crc32: Crc32, images: seq<DfuImage>, size: nat)
    requires Layout(map[name := files]) == (images, size) && FieldsFit(size, images)
    ensures MakeSpec(Package(PACKAGE_ENTRIES, Some(map[name := files])), crc32) == Ok(FileBytes(size, images, crc32))
  {
    assert |map[name := files]| == 1;
  }

  /** make on a one-step package naming one image, whose fields fit: the file is that image's bytes. */
  lemma MakeOneImage(name: string, files: ImageFiles, crc32: Crc32)
    requires KindOf(name).Some?
    requires var size := FILE_HEADER_SIZE_MAX + ImageSize(|files.firmware|) + CRC_SIZE;
             FieldsFit(size, [NewImage(KindOf(name).value, files, FILE_HEADER_SIZE_MAX)])
    ensures var size := FILE_HEADER_SIZE_MAX + ImageSize(|files.firmware|) + CRC_SIZE;
            MakeSpec(Package(PACKAGE_ENTRIES, Some(map[name := files])), crc32)
              == Ok(FileBytes(size, [NewImage(KindOf(name).value, files, FILE_HEADER_SIZE_MAX)], crc32))
  {
    OneEntryLayout(name, files);
    MakeOneEntry(name, files, crc32, [NewImage(KindOf(name).value, files, FILE_HEADER_SIZE_MAX)],
                 FILE_HEADER_SIZE_MAX + ImageSize(|files.firmware|) + CRC_SIZE);
  }

  /** The header of a one-image file reads back. */
  lemma OneImageHeader(f: seq<byte>, size: nat, kind: ImageType, files: ImageFiles)
    requires FieldsFit(size, [NewImage(kind, files, FILE_HEADER_SIZE_MAX)]) && FILE_HEADER_SIZE_MAX <= |f| == size
    requires f[..FILE_HEADER_SIZE_MAX] == Le32s(HeaderFields(size, [NewImage(kind, files, FILE_HEADER_SIZE_MAX)])) + Fill(FILE_HEADER_SIZE_MAX - 36, PAD_BYTE)
    ensures HeaderReadsBack(f, kind, files)
  {
    var hf := HeaderFields(size, [NewImage(kind, files, FILE_HEADER_SIZE_MAX)]);
    FrontParts(f, Le32s(hf), Fill(FILE_HEADER_SIZE_MAX - 36, PAD_BYTE));
    NineFields(f, hf);
  }

  /** The two parts at the front of a sequence. */
  lemma FrontParts(f: seq<byte>, x: seq<byte>, y: seq<byte>)
    requires |x| + |y| <= |f| && f[..|x| + |y|] == x + y
    ensures f[..|x|] == x && f[|x|..|x| + |y|] == y
  {
    assert forall k :: 0 <= k < |x| ==> f[k] == (x + y)[k];
    assert forall k :: |x| <= k < |x| + |y| ==> f[k] == (x + y)[k];
  }

  /** The nine fields of a one-image header read back. */
  lemma NineFields(f: seq<byte>, hf: seq<u32>)
    requires |hf| == 9 && 36 <= |f| && f[..36] == Le32s(hf)
    ensures && Field(f, 0) == hf[0] && Field(f, 1) == hf[1] && Field(f, 2) == hf[2]
            && Field(f, 3) == hf[3] && Field(f, 4) == hf[4] && Field(f, 5) == hf[5]
            && Field(f, 6) == hf[6] && Field(f, 7) == hf[7] && Field(f, 8) == hf[8]
  {
    FieldReadsBack(hf, f, 0);
    FieldReadsBack(hf, f, 1);
    FieldReadsBack(hf, f, 2);
    FieldReadsBack(hf, f, 3);
    FieldReadsBack(hf, f, 4);
    FieldReadsBack(hf, f, 5);
    FieldReadsBack(hf, f, 6);
    FieldReadsBack(hf, f, 7);
    FieldReadsBack(hf, f, 8);
  }

  /** The init packet, the firmware and the CRC of a one-image file read back. */
  lemma OneImageData(f: seq<byte>, hd: seq<byte>, f1: seq<byte>, f2: seq<byte>, c: seq<byte>, files: ImageFiles, crc32: Crc32)
    requires |hd| == FILE_HEADER_SIZE_MAX && |files.initPacket| <= INIT_PACKET_SIZE_MAX
    requires f1 == Fill(INIT_PACKET_SIZE_MAX - |files.initPacket|, PAD_BYTE)
    requires f2 == Fill(ImageSize(|files.firmware|) - INIT_PACKET_SIZE_MAX - |files.firmware|, PAD_BYTE)
    requires c == Le32(crc32(hd + (files.initPacket + f1 + files.firmware + f2)))
    requires f == hd + (files.initPacket + f1 + files.firmware + f2) + c
    ensures DataReadsBack(f, files, crc32)
  {
    FileRegions(hd, files.initPacket, f1, files.firmware, f2, c);
    ImageSizeAligned(|files.firmware|);
    assert |f| - CRC_SIZE - (FILE_HEADER_SIZE_MAX + INIT_PACKET_SIZE_MAX) == ImageSize(|files.firmware|) - INIT_PACKET_SIZE_MAX;
  }

  // ---------------------------------------------------------------------
  // Init packets longer than 512 bytes

  /**
   * The file of a one-image package whose init packet is longer than 512
   * bytes: its size field counts 512 bytes for the init packet and its
   * firmware address field says 640, but the file is longer than its size
   * field by the init packet's excess, and the firmware sits that far behind
   * 640.
   */
  predicate FirmwareShifted(f: seq<byte>, files: ImageFiles)
  {
    var size := FILE_HEADER_SIZE_MAX + ImageSize(|files.firmware|) + CRC_SIZE;
    var ip := |files.initPacket|;
    && FILE_HEADER_SIZE_MAX <= |f|
    && Field(f, 2) == size && Field(f, 7) == FILE_HEADER_SIZE_MAX + INIT_PACKET_SIZE_MAX
    && |f| == size + (ip - INIT_PACKET_SIZE_MAX)
    && f[FILE_HEADER_SIZE_MAX + ip..FILE_HEADER_SIZE_MAX + ip + |files.firmware|] == files.firmware
  }

  /**
   * As written, make copies an init packet longer than 512 bytes whole and
   * pads nothing, while the header still puts the firmware at 640 and the
   * file size counts 512 bytes for it: the firmware lands |init packet| - 512
   * bytes behind the address the header gives, and the file is that much
   * longer than its size field says.
   */
  lemma OversizeInitPacket(name: string, files: ImageFiles, crc32: Crc32)
    requires KindOf(name).Some? && INIT_PACKET_SIZE_MAX < |files.initPacket| < U32_LIMIT
    requires FILE_HEADER_SIZE_MAX + ImageSize(|files.firmware|) + CRC_SIZE < U32_LIMIT
    ensures var r := MakeSpec(Package(PACKAGE_ENTRIES, Some(map[name := files])), crc32);
            && r.Ok? && FirmwareShifted(r.value, files)
  {
    var kind := KindOf(name).value;
    OneImageFits(kind, files);
    OneImageIsRegions(kind, files, crc32);
    OversizeRegions(kind, files, crc32);
    MakeOneImage(name, files, crc32);
  }

  /** The regions of a one-image file whose init packet is longer than 512 bytes. */
  lemma OversizeRegions(kind: ImageType, files: ImageFiles, crc32: Crc32)
    requires INIT_PACKET_SIZE_MAX < |files.initPacket| < U32_LIMIT
    requires FILE_HEADER_SIZE_MAX + ImageSize(|files.firmware|) + CRC_SIZE < U32_LIMIT
    ensures FirmwareShifted(OneImageRegions(kind, files, crc32), files)
  {
    var size := FILE_HEADER_SIZE_MAX + ImageSize(|files.firmware|) + CRC_SIZE;
    var hd, f1, f2, c, f := RegionParts(kind, files, crc32);
    OversizeData(f, hd, files.initPacket, f1, files.firmware, f2, c);
    var hf := HeaderFields(size, [NewImage(kind, files, FILE_HEADER_SIZE_MAX)]);
    FrontParts(f, Le32s(hf), Fill(FILE_HEADER_SIZE_MAX - 36, PAD_BYTE));
    FieldReadsBack(hf, f, 2);
    FieldReadsBack(hf, f, 7);
  }

  /** Without init packet padding, the firmware follows the init packet directly. */
  lemma OversizeData(f: seq<byte>, hd: seq<byte>, ip: seq<byte>, f1: seq<byte>, fw: seq<byte>, f2: seq<byte>, c: seq<byte>)
    requires |hd| == FILE_HEADER_SIZE_MAX && |f1| == 0 && |c| == CRC_SIZE
    requires |f2| == ImageSize(|fw|) - INIT_PACKET_SIZE_MAX - |fw|
    requires f == hd + (ip + f1 + fw + f2) + c
    ensures FILE_HEADER_SIZE_MAX <= |f|
    ensures |f| == FILE_HEADER_SIZE_MAX + ImageSize(|fw|) + CRC_SIZE + |ip| - INIT_PACKET_SIZE_MAX
    ensures f[FILE_HEADER_SIZE_MAX..FILE_HEADER_SIZE_MAX + |ip|] == ip
    ensures f[FILE_HEADER_SIZE_MAX + |ip|..FILE_HEADER_SIZE_MAX + |ip| + |fw|] == fw
    ensures f[..FILE_HEADER_SIZE_MAX] == hd
  {
    FileRegions(hd, ip, f1, fw, f2, c);
  }

  /** Every image's init packet fits the 512 bytes the layout gives it. */
  predicate InitPacketsFit(images: seq<DfuImage>)
  {
    forall i :: 0 <= i < |images| ==> images[i].initPacketSize <= INIT_PACKET_SIZE_MAX
  }

  /**
   * make with the check the layout needs: a package whose init packet is
   * longer than 512 bytes is refused. Any other package gives what make
   * gives.
   */
  function MakeChecked(pkg: Package, crc32: Crc32): (r: Result<seq<byte>, MakeError>)
    ensures r != Err(InitPacketTooLarge) ==> r == MakeSpec(pkg, crc32)
  {
    if pkg.entryCount != PACKAGE_ENTRIES then Err(WrongEntryCount)
    else if pkg.manifest.None? then Err(InvalidPackage)
    else if |pkg.manifest.value| != 1 then Err(NotOneStep)
    else
      var (images, fileSize) := Layout(pkg.manifest.value);
      if !InitPacketsFit(images) then Err(InitPacketTooLarge)
      else if !FieldsFit(fileSize, images) then Err(FieldOverflow)
      else Ok(FileBytes(fileSize, images, crc32))
  }

  /**
   * Every file MakeChecked gives describes itself: its size field is its
   * length, and an image in it is where the header says, followed by the
   * CRC32 of the bytes before it. A package without an image gives a
   * header that says so.
   */
  lemma CheckedFileReadsBack(pkg: Package, crc32: Crc32)
    requires MakeChecked(pkg, crc32).Ok?
    ensures var f := MakeChecked(pkg, crc32).value;
            && 16 <= |f| && Field(f, 2) == |f|
            && forall name | name in pkg.manifest.value ::
                 if KindOf(name).Some? then HeaderReadsBack(f, KindOf(name).value, pkg.manifest.value[name])
                                            && DataReadsBack(f, pkg.manifest.value[name], crc32)
                 else Field(f, 3) == 0
  {
    var m := pkg.manifest.value;
    var name := OnlyKey(m);
    var files := m[name];
    OneEntryLayout(name, files);
    if KindOf(name).Some? {
      assert Layout(m).0[0].initPacketSize == |files.initPacket|;
      OneImageFile(name, files, crc32);
    } else {
      NoImageFile(name, files, crc32);
    }
  }

  /** A one-step package whose entry is no image type gives a bare header and the CRC. */
  lemma NoImageFile(name: string, files: ImageFiles, crc32: Crc32)
    requires KindOf(name).None?
    ensures var r := MakeSpec(Package(PACKAGE_ENTRIES, Some(map[name := files])), crc32);
            && r.Ok? && |r.value| == FILE_HEADER_SIZE_MAX + CRC_SIZE
            && Field(r.value, 2) == |r.value| && Field(r.value, 3) == 0
  {
    var size := FILE_HEADER_SIZE_MAX + CRC_SIZE;
    OneEntryLayout(name, files);
    HeaderOfOne(size, []);
    var hf := HeaderFields(size, []);
    var hd := Header(size, []);
    var f := hd + [] + Le32(crc32(hd + []));
    assert f == MakeSpec(Package(PACKAGE_ENTRIES, Some(map[name := files])), crc32).value;
    assert f[..|hd|] == hd;
    FrontParts(f, Le32s(hf), Fill(FILE_HEADER_SIZE_MAX - 16, PAD_BYTE));
    FieldReadsBack(hf, f, 2);
    FieldReadsBack(hf, f, 3);
  }
}
