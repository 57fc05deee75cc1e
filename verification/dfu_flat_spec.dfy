/**
 * The DFU flat file (scripts/dfu_zip_to_bin.py), on values.
 *
 * An nRF Secure DFU package (a zip holding manifest.json, an init packet and
 * a firmware binary) becomes one flat binary: a 128-byte header of
 * little-endian 32-bit fields padded with 0xFF, then per image its init
 * packet padded with 0xFF to 512 bytes and its firmware padded with 0xFF to
 * a multiple of 4 bytes, and finally the CRC32 of everything before it.
 * Reading the zip and writing the output file are outside the model: a
 * `Package` holds what make reads from the zip, and the file's bytes are
 * the result.
 */
module FlatFileSpec {
  import opened Bytes
  import opened Wrappers

  const MAGIC_NUMBER_MCUBOOT: u32 := 0x96F3_B83D
  const MAGIC_NUMBER_DFUFILE: u32 := 0x4953_5951
  const FILE_HEADER_SIZE_MAX: nat := 128
  const INIT_PACKET_SIZE_MAX: nat := 512
  /** The CRC32 trailer. */
  const CRC_SIZE: nat := 4
  /** What a valid package holds: manifest.json, the init packet and the firmware. */
  const PACKAGE_ENTRIES: nat := 3
  /** The fixed header fields: two magic numbers, the file size and the image count. */
  const FIXED_FIELDS_SIZE: nat := 16
  /** The header fields of one image: type, init packet address and size, firmware address and size. */
  const IMAGE_INFO_SIZE: nat := 20
  const PAD_BYTE: byte := 0xFF

  /** The CRC32 routine of the crc library, not part of this model. */
  type Crc32 = seq<byte> -> u32

  /** DfuImageType. */
  datatype ImageType = Application | Bootloader | Softdevice | SoftdeviceBootloader

  function TypeValue(t: ImageType): (v: nat)
  {
    match t
    case Application => 0
    case Bootloader => 1
    case Softdevice => 2
    case SoftdeviceBootloader => 3
  }

  /** The manifest keys make looks for, in the order it looks. */
  const SCAN_ORDER: seq<(string, ImageType)> :=
    [("application", Application), ("softdevice", Softdevice),
     ("bootloader", Bootloader), ("softdevice_bootloader", SoftdeviceBootloader)]

  /** The .dat and .bin files a manifest entry names, as read from the zip. */
  datatype ImageFiles = ImageFiles(initPacket: seq<byte>, firmware: seq<byte>)

  /**
   * What make reads from the zip: the number of entries, and the manifest
   * (None when manifest.json holds null) as a map from image type name to
   * that entry's files.
   */
  datatype Package = Package(entryCount: nat, manifest: Option<map<string, ImageFiles>>)

  /** DfuImage, without the file names. */
  datatype DfuImage = DfuImage(
    kind: ImageType,
    size: nat,
    initPacketAddr: nat,
    initPacketSize: nat,
    initPacket: seq<byte>,
    firmwareAddr: nat,
    firmwareSize: nat,
    firmware: seq<byte>)

  /**
   * Why make gives up: an exit(1), or an OverflowError from get_le32.
   * InitPacketTooLarge is only given by FlatFileProps.MakeChecked.
   */
  datatype MakeError = WrongEntryCount | InvalidPackage | NotOneStep | FieldOverflow | InitPacketTooLarge

  // ---------------------------------------------------------------------
  // Layout

  /** The bytes an image takes in the file: 512 for the init packet, then the firmware padded to a word. */
  function ImageSize(firmwareSize: nat): (r: nat)
    ensures INIT_PACKET_SIZE_MAX + firmwareSize <= r < INIT_PACKET_SIZE_MAX + firmwareSize + 4
  {
    if firmwareSize % 4 == 0 then INIT_PACKET_SIZE_MAX + firmwareSize
    else INIT_PACKET_SIZE_MAX + firmwareSize + (4 - firmwareSize % 4)
  }

  /** The image make builds for a manifest entry whose init packet goes at `addr`. */
  function NewImage(kind: ImageType, files: ImageFiles, addr: nat): (r: DfuImage)
  {
    DfuImage(kind, ImageSize(|files.firmware|), addr, |files.initPacket|, files.initPacket,
             addr + INIT_PACKET_SIZE_MAX, |files.firmware|, files.firmware)
  }

  /**
   * The images make finds looking up the keys of `order` in the manifest,
   * starting at `start`, and the file size after them.
   */
  function Scan(manifest: map<string, ImageFiles>, order: seq<(string, ImageType)>, start: nat): (r: (seq<DfuImage>, nat))
  {
    if order == [] then ([], start)
    else
      var prev := Scan(manifest, order[..|order| - 1], start);
      var name := order[|order| - 1].0;
      if name in manifest then
        var image := NewImage(order[|order| - 1].1, manifest[name], prev.1);
        (prev.0 + [image], prev.1 + image.size)
      else prev
  }

  /** The total size of the images. */
  function SumSizes(images: seq<DfuImage>): nat
  {
    if images == [] then 0 else SumSizes(images[..|images| - 1]) + images[|images| - 1].size
  }

  // ---------------------------------------------------------------------
  // Serialisation

  /** get_le32 succeeds on every field: to_bytes(4, 'little') raises OverflowError from 2^32 on. */
  predicate ImageFits(image: DfuImage)
  {
    && image.initPacketAddr < U32_LIMIT && image.initPacketSize < U32_LIMIT
    && image.firmwareAddr < U32_LIMIT && image.firmwareSize < U32_LIMIT
  }

  predicate FieldsFit(fileSize: nat, images: seq<DfuImage>)
  {
    fileSize < U32_LIMIT && |images| < U32_LIMIT && forall i :: 0 <= i < |images| ==> ImageFits(images[i])
  }

  /** The header fields of one image: type, init packet address and size, firmware address and size. */
  function ImageFields(image: DfuImage): (r: seq<u32>)
    requires ImageFits(image)
  {
    [TypeValue(image.kind), image.initPacketAddr, image.initPacketSize, image.firmwareAddr, image.firmwareSize]
  }

  /** The header bytes of one image: its fields, little-endian. */
  function ImageInfo(image: DfuImage): (r: seq<byte>)
    requires ImageFits(image)
    ensures |r| == IMAGE_INFO_SIZE
  {
    Le32s(ImageFields(image))
  }

  function ImagesInfo(images: seq<DfuImage>): (r: seq<byte>)
    requires forall i :: 0 <= i < |images| ==> ImageFits(images[i])
    ensures |r| == IMAGE_INFO_SIZE * |images|
  {
    if images == [] then [] else ImagesInfo(images[..|images| - 1]) + ImageInfo(images[|images| - 1])
  }

  /** The fixed header fields, little-endian. */
  function FixedFields(fileSize: u32, count: u32): (r: seq<byte>)
    ensures |r| == FIXED_FIELDS_SIZE
  {
    Le32s([MAGIC_NUMBER_MCUBOOT, MAGIC_NUMBER_DFUFILE, fileSize, count])
  }

  /** [0xFF] * (128 - used): nothing when the fields already take 128 bytes or more. */
  function HeaderPadding(used: nat): (r: seq<byte>)
  {
    Fill(if used < FILE_HEADER_SIZE_MAX then FILE_HEADER_SIZE_MAX - used else 0, PAD_BYTE)
  }

  function Header(fileSize: nat, images: seq<DfuImage>): (r: seq<byte>)
    requires FieldsFit(fileSize, images)
  {
    var fields := FixedFields(fileSize, |images|) + ImagesInfo(images);
    fields + HeaderPadding(|fields|)
  }

  /**
   * The bytes of one image: the init packet padded to 512, the firmware
   * padded to a word. The firmware padding is computed from `last`, the
   * image the scan loop built last (`image`, not `img`).
   */
  function ImageData(image: DfuImage, last: DfuImage): (r: seq<byte>)
  {
    image.initPacket
      + (if image.initPacketSize < INIT_PACKET_SIZE_MAX then Fill(INIT_PACKET_SIZE_MAX - image.initPacketSize, PAD_BYTE) else [])
      + image.firmware
      + (if image.firmwareSize % 4 != 0 then Fill(4 - last.firmwareSize % 4, PAD_BYTE) else [])
  }

  function Body(images: seq<DfuImage>, last: DfuImage): (r: seq<byte>)
  {
    if images == [] then [] else Body(images[..|images| - 1], last) + ImageData(images[|images| - 1], last)
  }

  /** The scanned images and the final file size of a package whose checks passed. */
  function Layout(manifest: map<string, ImageFiles>): (r: (seq<DfuImage>, nat))
  {
    var scan := Scan(manifest, SCAN_ORDER, FILE_HEADER_SIZE_MAX);
    (scan.0, scan.1 + CRC_SIZE)
  }

  /** DfuFlatFile.make on a new DfuFlatFile: the file's bytes, or why there are none. */
  function MakeSpec(pkg: Package, crc32: Crc32): (r: Result<seq<byte>, MakeError>)
  {
    if pkg.entryCount != PACKAGE_ENTRIES then Err(WrongEntryCount)
    else if pkg.manifest.None? then Err(InvalidPackage)
    else if |pkg.manifest.value| != 1 then Err(NotOneStep)
    else
      var (images, fileSize) := Layout(pkg.manifest.value);
      if !FieldsFit(fileSize, images) then Err(FieldOverflow)
      else
        Ok(FileBytes(fileSize, images, crc32))
  }

  /** The header, the images' data (padded by the last image), and the CRC32 of both. */
  function FileBytes(fileSize: nat, images: seq<DfuImage>, crc32: Crc32): (r: seq<byte>)
    requires FieldsFit(fileSize, images)
  {
    var data := Header(fileSize, images) + (if images == [] then [] else Body(images, images[|images| - 1]));
    data + Le32(crc32(data))
  }
}
