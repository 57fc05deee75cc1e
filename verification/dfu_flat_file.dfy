/**
 * DfuFlatFile of scripts/dfu_zip_to_bin.py as an object: make accumulates
 * the file size and the image list while it scans the manifest, then
 * extends the file data field by field and image by image. The method is
 * proved to produce exactly the bytes FlatFileSpec.MakeSpec describes.
 */
module FlatFileMaker {
  import opened Bytes
  import opened Wrappers
  import opened FlatFileSpec

  lemma Assoc(a: seq<byte>, b: seq<byte>, c: seq<byte>)
    ensures a + b + c == a + (b + c)
  {
  }

  /** Body, one image longer. */
  lemma BodyStep(images: seq<DfuImage>, k: nat, last: DfuImage)
    requires k < |images|
    ensures Body(images[..k + 1], last) == Body(images[..k], last) + ImageData(images[k], last)
  {
    assert images[..k + 1][..k] == images[..k];
  }

  /** A package that passes make's checks and lays out into fields that fit gives the file of that layout. */
  lemma MakeSpecOk(pkg: Package, crc32: Crc32, images: seq<DfuImage>, fileSize: nat)
    requires pkg.entryCount == PACKAGE_ENTRIES && pkg.manifest.Some? && |pkg.manifest.value| == 1
    requires Layout(pkg.manifest.value) == (images, fileSize) && FieldsFit(fileSize, images)
    ensures MakeSpec(pkg, crc32) == Ok(FileBytes(fileSize, images, crc32))
  {
  }

  class FlatFile {
    var fileSize: nat
    var fileData: seq<byte>
    var fileCrc: u32
    var images: seq<DfuImage>

    constructor()
      ensures fileSize == 0 && fileData == [] && fileCrc == 0 && images == []
    {
      fileSize, fileData, fileCrc, images := 0, [], 0, [];
    }

    /**
     * make: check the package, lay out its images behind the header, write
     * the header, the images and the CRC32. The result is the output file's
     * contents. Like the script's main, it is called on a new object.
     */
    method Make(pkg: Package, crc32: Crc32) returns (r: Result<seq<byte>, MakeError>)
      requires fileSize == 0 && fileData == [] && images == []
      modifies this
      ensures r == MakeSpec(pkg, crc32)
      ensures r.Ok? ==> && fileData == r.value && (images, fileSize) == Layout(pkg.manifest.value)
                        && fileCrc == crc32(fileData[..|fileData| - CRC_SIZE])
    {
      if pkg.entryCount != PACKAGE_ENTRIES {
        return Err(WrongEntryCount);
      }
      if pkg.manifest.None? {
        return Err(InvalidPackage);
      }
      var manifest := pkg.manifest.value;
      fileSize := fileSize + FILE_HEADER_SIZE_MAX;
      if |manifest| != 1 {
        return Err(NotOneStep);
      }
      var last := ScanImages(manifest);
      fileSize := fileSize + CRC_SIZE;
      if !FieldsFit(fileSize, images) {
        return Err(FieldOverflow);
      }
      Serialise(last, crc32);
      MakeSpecOk(pkg, crc32, images, fileSize);
      r := Ok(fileData);
    }

    /** The second half of make: the header, the images and the CRC32, written behind each other. */
    method Serialise(last: Option<DfuImage>, crc32: Crc32)
      requires fileData == [] && FieldsFit(fileSize, images)
      requires last == if images == [] then None else Some(images[|images| - 1])
      modifies this
      ensures images == old(images) && fileSize == old(fileSize)
      ensures fileData == FileBytes(fileSize, images, crc32) && fileCrc == crc32(fileData[..|fileData| - CRC_SIZE])
    {
      WriteHeader();
      WriteImages(last);
      ghost var data := fileData;
      AppendCrc(crc32);
      assert data == Header(fileSize, images) + (if images == [] then [] else Body(images, images[|images| - 1]));
    }

    /** The CRC32 of everything written so far, appended little-endian. */
    method AppendCrc(crc32: Crc32)
      modifies this
      ensures fileCrc == crc32(old(fileData)) && fileData == old(fileData) + Le32(fileCrc)
      ensures fileData[..|fileData| - CRC_SIZE] == old(fileData)
      ensures images == old(images) && fileSize == old(fileSize)
    {
      fileCrc := crc32(fileData);
      fileData := fileData + Le32(fileCrc);
      assert fileData[..|fileData| - CRC_SIZE] == old(fileData);
    }

    /**
     * The manifest loop of make: each image type found in the manifest, in
     * the order of SCAN_ORDER, becomes an image placed at the current file
     * size, which then grows by the image's size. The result is the last
     * image built (the script's `image`).
     */
    method ScanImages(manifest: map<string, ImageFiles>) returns (last: Option<DfuImage>)
      requires images == []
      modifies this
      ensures (images, fileSize) == Scan(manifest, SCAN_ORDER, old(fileSize))
      ensures last == if images == [] then None else Some(images[|images| - 1])
      ensures fileData == old(fileData) && fileCrc == old(fileCrc)
    {
      last := None;
      var i := 0;
      while i < |SCAN_ORDER|
        invariant 0 <= i <= |SCAN_ORDER|
        invariant (images, fileSize) == Scan(manifest, SCAN_ORDER[..i], old(fileSize))
        invariant last == if images == [] then None else Some(images[|images| - 1])
        invariant fileData == old(fileData) && fileCrc == old(fileCrc)
      {
        assert SCAN_ORDER[..i + 1][..i] == SCAN_ORDER[..i];
        var name := SCAN_ORDER[i].0;
        if name in manifest {
          var image := NewImage(SCAN_ORDER[i].1, manifest[name], fileSize);
          images := images + [image];
          fileSize := fileSize + image.size;
          last := Some(image);
        }
        i := i + 1;
      }
      assert SCAN_ORDER[..i] == SCAN_ORDER;
    }

    /** The header: the fixed fields, five fields per image, and 0xFF up to 128 bytes. */
    method WriteHeader()
      requires fileData == [] && FieldsFit(fileSize, images)
      modifies this
      ensures images == old(images) && fileSize == old(fileSize) && fileCrc == old(fileCrc)
      ensures fileData == Header(fileSize, images)
    {
      fileData := fileData + Le32(MAGIC_NUMBER_MCUBOOT);
      fileData := fileData + Le32(MAGIC_NUMBER_DFUFILE);
      fileData := fileData + Le32(fileSize);
      fileData := fileData + Le32(|images|);
      Le32sLiteral(MAGIC_NUMBER_MCUBOOT, MAGIC_NUMBER_DFUFILE, fileSize, |images|, 0);
      assert images[..0] == [];
      var j := 0;
      while j < |images|
        invariant images == old(images) && fileSize == old(fileSize) && fileCrc == old(fileCrc)
        invariant 0 <= j <= |images|
        invariant fileData == FixedFields(fileSize, |images|) + ImagesInfo(images[..j])
      {
        assert images[..j + 1][..j] == images[..j];
        Assoc(FixedFields(fileSize, |images|), ImagesInfo(images[..j]), ImageInfo(images[j]));
        fileData := fileData + ImageInfo(images[j]);
        j := j + 1;
      }
      assert images[..j] == images;
      var left: int := FILE_HEADER_SIZE_MAX - |fileData|;
      fileData := fileData + Fill(if left > 0 then left else 0, PAD_BYTE);
    }

    /**
     * The images' data: each init packet padded with 0xFF to 512 bytes and
     * each firmware padded with 0xFF to a word, by the amount `last` needs.
     */
    method WriteImages(last: Option<DfuImage>)
      requires images != [] ==> last.Some?
      modifies this
      ensures images == old(images) && fileSize == old(fileSize) && fileCrc == old(fileCrc)
      ensures fileData == old(fileData) + (if images == [] then [] else Body(images, last.value))
    {
      ghost var header := fileData;
      ghost var lastImage := if last.Some? then last.value else DfuImage(Application, 0, 0, 0, [], 0, 0, []);
      var k := 0;
      while k < |images|
        invariant images == old(images) && fileSize == old(fileSize) && fileCrc == old(fileCrc)
        invariant 0 <= k <= |images|
        invariant fileData == header + Body(images[..k], lastImage)
      {
        var image := images[k];
        var data := image.initPacket;
        if image.initPacketSize < INIT_PACKET_SIZE_MAX {
          data := data + Fill(INIT_PACKET_SIZE_MAX - image.initPacketSize, PAD_BYTE);
        }
        data := data + image.firmware;
        if image.firmwareSize % 4 != 0 {
          data := data + Fill(4 - last.value.firmwareSize % 4, PAD_BYTE);
        }
        assert data == ImageData(image, lastImage);
        BodyStep(images, k, lastImage);
        Assoc(header, Body(images[..k], lastImage), data);
        fileData := fileData + data;
        k := k + 1;
      }
      assert images[..k] == images;
    }
  }
}
