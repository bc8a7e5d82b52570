/** How the two programs meet: the block folder names the categorizer
    writes are read back by the reconstruction driver as the block's origin,
    and the frame files it writes are read back as the frame ids. */
module Pipeline {
  import opened Geometry
  import opened Decimal
  import opened BlockKey
  import FileCategorize
  import opened LoadCategorized
  import Text

  /** Reading a block key back gives exactly its three integer components,
      in axis order. */
  lemma OriginOfKey(p: Vec3, blockSize: real)
    requires blockSize > 0.0
    ensures HasOrigin(Convert(p, blockSize))
    ensures Origin(Convert(p, blockSize))
         == [Component(p.x, blockSize) as real, Component(p.y, blockSize) as real, Component(p.z, blockSize) as real]
  {
    KeyFormat(p, blockSize);
    var cs := Components(p, blockSize);
    var o := Origin(Convert(p, blockSize));
    forall i | 0 <= i < 3 ensures o[i] == cs[i] as real {
      LeadingIntOfIntToString(cs[i]);
    }
  }

  /** The driver drops the block of `p` exactly when one of the key's
      components is beyond 9 in absolute value. */
  lemma KeyBlockSkippedIff(p: Vec3, blockSize: real)
    requires blockSize > 0.0
    ensures HasOrigin(Convert(p, blockSize))
    ensures Skipped(Origin(Convert(p, blockSize)))
        <==> exists k :: 0 <= k < 3 && (Components(p, blockSize)[k] < -9 || Components(p, blockSize)[k] > 9)
  {
    OriginOfKey(p, blockSize);
    var o := Origin(Convert(p, blockSize));
    var cs := Components(p, blockSize);
    SkippedIffOutOfRange(o);
    assert forall k :: 0 <= k < 3 ==> o[k] == cs[k] as real;
    assert forall k :: 0 <= k < 3 ==> ((o[k] < -OriginBound || o[k] > OriginBound) <==> (cs[k] < -9 || cs[k] > 9));
  }

  /** With a whole-number block size the origin the driver reads for the
      block of `p` is the lower corner of a block containing `p`. */
  lemma OriginContainsPoint(p: Vec3, n: nat)
    requires n > 0
    ensures var o := Origin(Convert(p, n as real));
      && |o| == 3
      && o[0] <= p.x < o[0] + n as real
      && o[1] <= p.y < o[1] + n as real
      && o[2] <= p.z < o[2] + n as real
  {
    OriginOfKey(p, n as real);
    IntegerBlockAnchored(p.x, n);
    IntegerBlockAnchored(p.y, n);
    IntegerBlockAnchored(p.z, n);
  }

  /** The colour image the categorizer writes for `frame` into `block` lands
      in the RGB folder the driver lists for that block, under a name the
      listing keeps and that reads back as `frame`. */
  lemma WrittenImageIsLoaded(folderPath: string, block: string, frame: nat)
    ensures var name := IntToString(frame) + ".png";
      && FileCategorize.BlockWrites(folderPath, block, frame)[4]
         == FileCategorize.WriteImage(folderPath + CategorizedSuffix + block + "/RGB/" + name)
      && Text.ByteLength(name) > 2
      && FrameId(name) == frame
  {
    var name := IntToString(frame) + ".png";
    var dir := FileCategorize.BlockFolder(folderPath, block);
    assert dir + ("RGB/" + IntToString(frame) + ".png") == folderPath + CategorizedSuffix + block + "/RGB/" + name;
    FrameIdOfFileName(frame, ".png");
  }

  /** When a block's RGB folder holds the two dot entries and the images of
      the frames `frames`, the driver pushes exactly those frames. */
  lemma PushesWrittenFrames(fs: FileSystem, rgbFolder: string, frames: set<nat>)
    requires rgbFolder in fs
    requires forall name :: name in fs[rgbFolder] ==>
      name == "." || name == ".." || exists f :: f in frames && name == IntToString(f) + ".png"
    requires forall f :: f in frames ==> IntToString(f) + ".png" in fs[rgbFolder]
    ensures forall id :: id in FrameIds(Listing(fs, rgbFolder)) <==> id >= 0 && id as nat in frames
  {
    var listing := Listing(fs, rgbFolder);
    ListingSpec(fs, rgbFolder);
    FrameIdsSpec(listing);
    forall id ensures id in FrameIds(listing) <==> id >= 0 && id as nat in frames {
      if id in FrameIds(listing) {
        var name :| name in listing && FrameId(name) == id;
        assert name != "." && name != "..";
        var f :| f in frames && name == IntToString(f) + ".png";
        FrameIdOfFileName(f, ".png");
      }
      if id >= 0 && id as nat in frames {
        var name := IntToString(id) + ".png";
        FrameIdOfFileName(id, ".png");
        assert name in listing;
      }
    }
  }
}
