/** The categorizer: for each posed depth frame, the set of blocks its
    sampled pixels fall in, and the per-block copies of the frame. */
module FileCategorize {
  import opened Geometry
  import opened BlockKey
  import opened OrderedSet
  import opened Decimal
  import Arith

  datatype Option<T> = None | Some(value: T)

  /** A single-channel floating image, row by row. */
  datatype Mat = Mat(rows: nat, cols: nat, at: seq<seq<real>>)

  /** A depth image in metres: every row holds `cols` values. */
  type DepthImage = m: Mat | |m.at| == m.rows && (forall i :: 0 <= i < m.rows ==> |m.at[i]| == m.cols)
    witness Mat(0, 0, [])

  /** The categorizer's configuration: the frames folder, the block edge
      (`Voxel.Size.Offline * Voxel.Dim.x`), the farthest depth trusted, and
      the sampling stride over rows and columns. */
  datatype Settings = Settings(folderPath: string, blockSize: real, maxAccurateDistance: real, precision: nat)

  predicate ValidSettings(s: Settings)
  {
    s.blockSize > 0.0 && s.precision > 0
  }

  /** The values the program starts with: 10 metres and every 5th pixel. */
  const DefaultMaxAccurateDistance: real := 10.0
  const DefaultPrecision: nat := 5

  function DefaultSettings(folderPath: string, blockSize: real): Settings
  {
    Settings(folderPath, blockSize, DefaultMaxAccurateDistance, DefaultPrecision)
  }

  /** Depths below this are treated as "no measurement". */
  const MinDepth: real := 0.0001

  /** The program's own settings are valid for any positive block size, and
      keep exactly the depths from 0.0001 m to 10 m, both ends included, on
      every 5th row and column. */
  lemma DefaultSettingsAccept(folderPath: string, blockSize: real, d: real)
    requires blockSize > 0.0
    ensures ValidSettings(DefaultSettings(folderPath, blockSize))
    ensures DefaultSettings(folderPath, blockSize).precision == 5
    ensures Accepted(d, DefaultSettings(folderPath, blockSize).maxAccurateDistance) <==> 0.0001 <= d <= 10.0
  {
  }

  /** A depth survives the filter unless it is below `MinDepth` or beyond the
      accuracy ceiling. */
  predicate Accepted(d: real, maxAccurateDistance: real)
  {
    !(d < MinDepth || d > maxAccurateDistance)
  }

  /** The pixel in row `r`, column `c` is one the stride loops visit. */
  predicate Examined(img: DepthImage, precision: nat, r: int, c: int)
    requires precision > 0
  {
    0 <= r < img.rows && 0 <= c < img.cols && r % precision == 0 && c % precision == 0
  }

  /** The block key of the pixel in row `r`, column `c`. */
  function KeyAt(img: DepthImage, kinv: Mat3, pose: Pose, s: Settings, r: int, c: int): string
    requires ValidSettings(s)
    requires 0 <= r < img.rows && 0 <= c < img.cols
  {
    Convert(Project(kinv, pose, r, c, img.at[r][c]), s.blockSize)
  }

  /** The blocks of a frame: the keys of the examined pixels whose depth is
      accepted. */
  function KeySet(img: DepthImage, kinv: Mat3, pose: Pose, s: Settings): set<string>
    requires ValidSettings(s)
  {
    set r, c | 0 <= r < img.rows && 0 <= c < img.cols && Examined(img, s.precision, r, c)
                 && Accepted(img.at[r][c], s.maxAccurateDistance)
      :: KeyAt(img, kinv, pose, s, r, c)
  }

  /** The keys of the examined, accepted pixels that come before row `i`,
      column `j` in the loops' row-major order. */
  function KeysBefore(img: DepthImage, kinv: Mat3, pose: Pose, s: Settings, i: int, j: int): set<string>
    requires ValidSettings(s)
  {
    set r, c | 0 <= r < img.rows && 0 <= c < img.cols && Examined(img, s.precision, r, c)
                 && Accepted(img.at[r][c], s.maxAccurateDistance) && (r < i || (r == i && c < j))
      :: KeyAt(img, kinv, pose, s, r, c)
  }

  /** One more pixel in a row adds its key, if its depth is accepted. */
  lemma KeysBeforeStep(img: DepthImage, kinv: Mat3, pose: Pose, s: Settings, i: int, j: int)
    requires ValidSettings(s)
    requires Examined(img, s.precision, i, j)
    ensures KeysBefore(img, kinv, pose, s, i, j + s.precision)
         == KeysBefore(img, kinv, pose, s, i, j)
            + (if Accepted(img.at[i][j], s.maxAccurateDistance) then {KeyAt(img, kinv, pose, s, i, j)} else {})
  {
    var p := s.precision;
    var lhs := KeysBefore(img, kinv, pose, s, i, j + p);
    var rhs := KeysBefore(img, kinv, pose, s, i, j)
            + (if Accepted(img.at[i][j], s.maxAccurateDistance) then {KeyAt(img, kinv, pose, s, i, j)} else {});
    forall x | x in lhs ensures x in rhs {
      var r, c :| 0 <= r < img.rows && 0 <= c < img.cols && Examined(img, p, r, c)
                 && Accepted(img.at[r][c], s.maxAccurateDistance) && (r < i || (r == i && c < j + p))
                 && x == KeyAt(img, kinv, pose, s, r, c);
      if r == i && j <= c {
        Arith.StrideGap(c, j, p);
      }
    }
  }

  /** Past the end of row `i`, everything up to row `i + precision` is done. */
  lemma KeysBeforeRow(img: DepthImage, kinv: Mat3, pose: Pose, s: Settings, i: int, j: int)
    requires ValidSettings(s)
    requires i % s.precision == 0 && j >= img.cols
    ensures KeysBefore(img, kinv, pose, s, i, j) == KeysBefore(img, kinv, pose, s, i + s.precision, 0)
  {
    var p := s.precision;
    var lhs := KeysBefore(img, kinv, pose, s, i + p, 0);
    forall x | x in lhs ensures x in KeysBefore(img, kinv, pose, s, i, j) {
      var r, c :| 0 <= r < img.rows && 0 <= c < img.cols && Examined(img, p, r, c)
                 && Accepted(img.at[r][c], s.maxAccurateDistance) && r < i + p
                 && x == KeyAt(img, kinv, pose, s, r, c);
      if i <= r {
        Arith.StrideGap(r, i, p);
      }
    }
  }

  /** The loops' state before row `i`, column `j`: the set so far is sorted,
      holds the keys of the pixels already visited, and has at most one key
      per visited pixel. */
  ghost predicate Progress(img: DepthImage, kinv: Mat3, pose: Pose, s: Settings,
                           blocks: seq<string>, i: int, j: int, examined: nat)
    requires ValidSettings(s)
  {
    && Sorted(blocks, StringLess)
    && Elements(blocks) == KeysBefore(img, kinv, pose, s, i, j)
    && |blocks| <= examined
  }

  /** The inner loop's state in row `i` after `m` column strides have
      reached column `j`. */
  ghost predicate RowScan(img: DepthImage, kinv: Mat3, pose: Pose, s: Settings,
                          blocks: seq<string>, i: int, j: int, m: nat, examined: nat)
    requires ValidSettings(s)
  {
    && j == Arith.Stride(m, s.precision)
    && j < img.cols + s.precision
    && Progress(img, kinv, pose, s, blocks, i, j, examined + m)
  }

  /** Visiting pixel `(i, j)` keeps `RowScan`, one stride further. */
  lemma PixelStep(img: DepthImage, kinv: Mat3, pose: Pose, s: Settings,
                  blocks: seq<string>, blocks': seq<string>, i: int, j: int, m: nat, examined: nat,
                  j': int, m': nat)
    requires ValidSettings(s)
    requires 0 <= i < img.rows && i % s.precision == 0 && 0 <= j < img.cols
    requires RowScan(img, kinv, pose, s, blocks, i, j, m, examined)
    requires Accepted(img.at[i][j], s.maxAccurateDistance) ==>
      && Sorted(blocks', StringLess)
      && Elements(blocks') == Elements(blocks) + {KeyAt(img, kinv, pose, s, i, j)}
      && |blocks'| <= |blocks| + 1
    requires !Accepted(img.at[i][j], s.maxAccurateDistance) ==> blocks' == blocks
    requires j' == j + s.precision && m' == m + 1
    ensures RowScan(img, kinv, pose, s, blocks', i, j', m', examined)
  {
    Arith.StrideMultiple(m, s.precision);
    Arith.StrideStep(m, s.precision);
    KeysBeforeStep(img, kinv, pose, s, i, j);
  }

  /** Past the end of row `i`, `Progress` holds at the start of the next row. */
  lemma RowStep(img: DepthImage, kinv: Mat3, pose: Pose, s: Settings,
                blocks: seq<string>, i: int, j: int, examined: nat)
    requires ValidSettings(s)
    requires i % s.precision == 0 && j >= img.cols
    requires Progress(img, kinv, pose, s, blocks, i, j, examined)
    ensures Progress(img, kinv, pose, s, blocks, i + s.precision, 0, examined)
  {
    KeysBeforeRow(img, kinv, pose, s, i, j);
  }

  /** The inner loop of `categorize` over row `i`: visits columns
      `0, precision, 2*precision, ...` and inserts the key of each accepted
      pixel. */
  method CategorizeRow(img: DepthImage, kinv: Mat3, pose: Pose, s: Settings, i: int,
                       blocks: seq<string>, ghost examined: nat)
    returns (blocks': seq<string>)
    requires ValidSettings(s)
    requires 0 <= i < img.rows && i % s.precision == 0
    requires Progress(img, kinv, pose, s, blocks, i, 0, examined)
    ensures Progress(img, kinv, pose, s, blocks', i + s.precision, 0,
                     examined + Arith.SampleCount(img.cols, s.precision))
  {
    var p := s.precision;
    blocks' := blocks;
    ghost var colsDone: nat := 0;
    var j := 0;
    while j < img.cols
      invariant RowScan(img, kinv, pose, s, blocks', i, j, colsDone, examined)
    {
      ghost var before, j0, m0 := blocks', j, colsDone;
      var pointDepth := img.at[i][j];
      if Accepted(pointDepth, s.maxAccurateDistance) {
        var insideBlock := Convert(Project(kinv, pose, i, j, pointDepth), s.blockSize);
        blocks' := InsertString(blocks', insideBlock);
      }
      j := j + p;
      colsDone := colsDone + 1;
      PixelStep(img, kinv, pose, s, before, blocks', i, j0, m0, examined, j, colsDone);
    }
    Arith.SampleCountOfStrides(img.cols, p, colsDone);
    RowStep(img, kinv, pose, s, blocks', i, j, examined + colsDone);
  }

  /** `categorize`: walks rows and columns `0, precision, 2*precision, ...`,
      drops pixels whose depth is not accepted, projects the rest and
      collects their keys in a `std::set<std::string>`. The result is sorted,
      holds exactly the keys of the examined accepted pixels, and is no larger
      than the number of examined pixels. */
  method Categorize(img: DepthImage, kinv: Mat3, pose: Pose, s: Settings) returns (blocks: seq<string>)
    requires ValidSettings(s)
    ensures Sorted(blocks, StringLess)
    ensures Elements(blocks) == KeySet(img, kinv, pose, s)
    ensures |blocks| <= Arith.SampleCount(img.rows, s.precision) * Arith.SampleCount(img.cols, s.precision)
  {
    var p := s.precision;
    var cols := Arith.SampleCount(img.cols, p);
    blocks := [];
    ghost var rowsDone: nat := 0;
    var i := 0;
    while i < img.rows
      invariant i == Arith.Stride(rowsDone, p) && i < img.rows + p
      invariant Progress(img, kinv, pose, s, blocks, i, 0, Arith.Stride(rowsDone, cols))
    {
      Arith.StrideMultiple(rowsDone, p);
      blocks := CategorizeRow(img, kinv, pose, s, i, blocks, Arith.Stride(rowsDone, cols));
      Arith.StrideStep(rowsDone, p);
      Arith.StrideStep(rowsDone, cols);
      i := i + p;
      rowsDone := rowsDone + 1;
    }
    Arith.SampleCountOfStrides(img.rows, p, rowsDone);
    Arith.StrideIsProduct(rowsDone, cols);
    assert KeysBefore(img, kinv, pose, s, i, 0) == KeySet(img, kinv, pose, s);
  }

  /** The image with the depth of one pixel replaced. */
  function SetDepth(img: DepthImage, r: int, c: int, d: real): (out: DepthImage)
    requires 0 <= r < img.rows && 0 <= c < img.cols
    ensures out.rows == img.rows && out.cols == img.cols
    ensures out.at[r][c] == d
    ensures forall i, j :: 0 <= i < img.rows && 0 <= j < img.cols && (i, j) != (r, c) ==> out.at[i][j] == img.at[i][j]
  {
    Mat(img.rows, img.cols, img.at[r := img.at[r][c := d]])
  }

  /** Invalidating the depth of any pixel can only remove blocks. */
  lemma InvalidateShrinks(img: DepthImage, kinv: Mat3, pose: Pose, s: Settings, r: int, c: int, d: real)
    requires ValidSettings(s)
    requires 0 <= r < img.rows && 0 <= c < img.cols
    requires !Accepted(d, s.maxAccurateDistance)
    ensures KeySet(SetDepth(img, r, c, d), kinv, pose, s) <= KeySet(img, kinv, pose, s)
  {
    var img' := SetDepth(img, r, c, d);
    forall x | x in KeySet(img', kinv, pose, s) ensures x in KeySet(img, kinv, pose, s) {
      var i, j :| 0 <= i < img'.rows && 0 <= j < img'.cols && Examined(img', s.precision, i, j)
                 && Accepted(img'.at[i][j], s.maxAccurateDistance) && x == KeyAt(img', kinv, pose, s, i, j);
      assert (i, j) != (r, c);
      assert KeyAt(img, kinv, pose, s, i, j) == x;
    }
  }

  /** A frame contributes to no block exactly when no examined pixel has an
      accepted depth. */
  lemma EmptyIffNoAcceptedPixel(img: DepthImage, kinv: Mat3, pose: Pose, s: Settings)
    requires ValidSettings(s)
    ensures KeySet(img, kinv, pose, s) == {}
        <==> forall r, c :: Examined(img, s.precision, r, c) ==> !Accepted(img.at[r][c], s.maxAccurateDistance)
  {
    if exists r, c :: Examined(img, s.precision, r, c) && Accepted(img.at[r][c], s.maxAccurateDistance) {
      var r, c :| Examined(img, s.precision, r, c) && Accepted(img.at[r][c], s.maxAccurateDistance);
      assert KeyAt(img, kinv, pose, s, r, c) in KeySet(img, kinv, pose, s);
    }
  }

  /** Lowering the accuracy ceiling never adds a block. */
  lemma CeilingMonotone(img: DepthImage, kinv: Mat3, pose: Pose, s: Settings, ceiling: real)
    requires ValidSettings(s)
    requires ceiling <= s.maxAccurateDistance
    ensures KeySet(img, kinv, pose, s.(maxAccurateDistance := ceiling)) <= KeySet(img, kinv, pose, s)
  {
    var s' := s.(maxAccurateDistance := ceiling);
    forall x | x in KeySet(img, kinv, pose, s') ensures x in KeySet(img, kinv, pose, s) {
      var i, j :| 0 <= i < img.rows && 0 <= j < img.cols && Examined(img, s'.precision, i, j)
                 && Accepted(img.at[i][j], s'.maxAccurateDistance) && x == KeyAt(img, kinv, pose, s', i, j);
      assert KeyAt(img, kinv, pose, s, i, j) == x;
    }
  }

  /** Pixels that all agree on one key give a one-block frame. */
  lemma KeySetSingleton(img: DepthImage, kinv: Mat3, pose: Pose, s: Settings, key: string, r0: int, c0: int)
    requires ValidSettings(s)
    requires Examined(img, s.precision, r0, c0) && Accepted(img.at[r0][c0], s.maxAccurateDistance)
    requires forall r, c :: Examined(img, s.precision, r, c) && Accepted(img.at[r][c], s.maxAccurateDistance)
               ==> KeyAt(img, kinv, pose, s, r, c) == key
    ensures KeySet(img, kinv, pose, s) == {key}
  {
    assert KeyAt(img, kinv, pose, s, r0, c0) in KeySet(img, kinv, pose, s);
  }

  /** Every point of the cell `[-7, 3)^3` gets the key "-7_-7_-7" under
      10-unit blocks. */
  lemma KeyOfCellAtMinusSeven(p: Vec3)
    requires -7.0 <= p.x < 3.0 && -7.0 <= p.y < 3.0 && -7.0 <= p.z < 3.0
    ensures Convert(p, 10.0) == "-7_-7_-7"
  {
    MinusSevenComponent(p.x);
    MinusSevenComponent(p.y);
    MinusSevenComponent(p.z);
    var m := IntToString(-7);
    assert m == "-7";
    assert Convert(p, 10.0) == m + [Separator] + m + [Separator] + m;
  }

  /** Every coordinate in `[-7, 3)` has component -7 with 10-unit blocks. */
  lemma MinusSevenComponent(v: real)
    requires -7.0 <= v < 3.0
    ensures Component(v, 10.0) == -7
  {
    CellConstant(v, 10.0, -1);
    assert Trunc(-7.0) == -7;
  }


  /** A 2x2 depth grid `[1, 1; 1, 11]` seen with identity intrinsics and pose,
      stride 1, a 10-unit ceiling and 10-unit blocks: the pixel at depth 11 is
      dropped, and the other three fall in the single block "-7_-7_-7". */
  lemma SmallGridExample()
    ensures var img: DepthImage := Mat(2, 2, [[1.0, 1.0], [1.0, 11.0]]);
      KeySet(img, Identity, Pose(Identity, ZeroVec), Settings("", 10.0, 10.0, 1)) == {"-7_-7_-7"}
  {
    var img: DepthImage := Mat(2, 2, [[1.0, 1.0], [1.0, 11.0]]);
    var pose := Pose(Identity, ZeroVec);
    var s := Settings("", 10.0, 10.0, 1);
    forall r, c | Examined(img, 1, r, c) && Accepted(img.at[r][c], 10.0)
      ensures KeyAt(img, Identity, pose, s, r, c) == "-7_-7_-7"
    {
      assert img.at[r][c] == 1.0;
      ProjectIdentity(r, c, 1.0);
      KeyOfCellAtMinusSeven(Project(Identity, pose, r, c, 1.0));
    }
    assert Accepted(img.at[0][0], 10.0);
    KeySetSingleton(img, Identity, pose, s, "-7_-7_-7", 0, 0);
  }

  // ---------------------------------------------------------------------
  // Per-block copies of a frame (`write_to_folders`)

  /** A file-system effect: a folder made sure to exist, or a file written. */
  datatype Write = CreateFolder(path: string) | WriteImage(path: string) | WriteMatrix(path: string)

  const CategorizedFolder: string := "/frames_categorized/"

  /** The folder of `block` under the frames folder. */
  function BlockFolder(folderPath: string, block: string): string
  {
    folderPath + CategorizedFolder + block + "/"
  }

  /** The part of each path of one block's copy after the block folder. */
  function CopyEntries(frame: int): seq<string>
  {
    var f := IntToString(frame);
    ["", "RGB/", "depth/", "tcw/", "RGB/" + f + ".png", "depth/" + f + ".png", "tcw/" + f + ".xml"]
  }

  /** The copy of frame `frame` into `block`: the block folder and its
      `RGB/`, `depth/` and `tcw/` sub-folders, then the colour image, the
      depth image and the pose. */
  function BlockWrites(folderPath: string, block: string, frame: int): seq<Write>
  {
    var dir := BlockFolder(folderPath, block);
    var e := CopyEntries(frame);
    [CreateFolder(dir + e[0]), CreateFolder(dir + e[1]), CreateFolder(dir + e[2]), CreateFolder(dir + e[3]),
     WriteImage(dir + e[4]), WriteImage(dir + e[5]), WriteMatrix(dir + e[6])]
  }

  /** The copies of one frame into each block, in the set's order. */
  function FrameWrites(folderPath: string, blocks: seq<string>, frame: int): seq<Write>
  {
    if |blocks| == 0 then []
    else BlockWrites(folderPath, blocks[0], frame) + FrameWrites(folderPath, blocks[1..], frame)
  }

  lemma {:induction false} FrameWritesAppend(folderPath: string, blocks: seq<string>, block: string, frame: int)
    ensures FrameWrites(folderPath, blocks + [block], frame)
         == FrameWrites(folderPath, blocks, frame) + BlockWrites(folderPath, block, frame)
  {
    if |blocks| > 0 {
      assert (blocks + [block])[1..] == blocks[1..] + [block];
      FrameWritesAppend(folderPath, blocks[1..], block, frame);
    } else {
      assert blocks + [block] == [block];
    }
  }

  /** The `k`-th block's seven writes sit at positions `7k` to `7k + 6`. */
  lemma {:induction false} FrameWritesAt(folderPath: string, blocks: seq<string>, frame: int, k: int)
    requires 0 <= k < |blocks|
    ensures |FrameWrites(folderPath, blocks, frame)| == 7 * |blocks|
    ensures FrameWrites(folderPath, blocks, frame)[7 * k .. 7 * k + 7] == BlockWrites(folderPath, blocks[k], frame)
  {
    FrameWritesLength(folderPath, blocks, frame);
    if k == 0 {
      FrameWritesHead(folderPath, blocks, frame);
    } else {
      FrameWritesAt(folderPath, blocks[1..], frame, k - 1);
      FrameWritesTail(folderPath, blocks, frame, k);
      assert blocks[1..][k - 1] == blocks[k];
    }
  }

  /** Write `n` of a frame is write `n % 7` of block `n / 7`. */
  lemma FrameWriteAt(folderPath: string, blocks: seq<string>, frame: int, n: int)
    requires 0 <= n < 7 * |blocks|
    ensures 0 <= n / 7 < |blocks| && n < |FrameWrites(folderPath, blocks, frame)|
    ensures FrameWrites(folderPath, blocks, frame)[n] == BlockWrites(folderPath, blocks[n / 7], frame)[n % 7]
  {
    var k := n / 7;
    FrameWritesAt(folderPath, blocks, frame, k);
    var w := FrameWrites(folderPath, blocks, frame);
    assert w[n] == w[7 * k .. 7 * k + 7][n % 7];
  }

  lemma FrameWritesHead(folderPath: string, blocks: seq<string>, frame: int)
    requires |blocks| > 0
    ensures FrameWrites(folderPath, blocks, frame)[0 .. 7] == BlockWrites(folderPath, blocks[0], frame)
  {
    PrefixOfAppend(BlockWrites(folderPath, blocks[0], frame), FrameWrites(folderPath, blocks[1..], frame));
  }

  lemma FrameWritesTail(folderPath: string, blocks: seq<string>, frame: int, k: int)
    requires 0 < k < |blocks|
    ensures |FrameWrites(folderPath, blocks, frame)| == 7 * |blocks|
    ensures |FrameWrites(folderPath, blocks[1..], frame)| == 7 * (|blocks| - 1)
    ensures FrameWrites(folderPath, blocks, frame)[7 * k .. 7 * k + 7]
         == FrameWrites(folderPath, blocks[1..], frame)[7 * (k - 1) .. 7 * (k - 1) + 7]
  {
    FrameWritesLength(folderPath, blocks, frame);
    FrameWritesLength(folderPath, blocks[1..], frame);
    var lo := 7 * (k - 1);
    assert 7 * k == 7 + lo;
    SliceOfAppend(BlockWrites(folderPath, blocks[0], frame), FrameWrites(folderPath, blocks[1..], frame), lo, lo + 7);
  }


  lemma PrefixOfAppend<T>(a: seq<T>, b: seq<T>)
    ensures (a + b)[0 .. |a|] == a
  {
  }

  lemma SliceOfAppend<T>(a: seq<T>, b: seq<T>, lo: int, hi: int)
    requires 0 <= lo <= hi <= |b|
    ensures (a + b)[|a| + lo .. |a| + hi] == b[lo..hi]
  {
  }

  lemma {:induction false} FrameWritesLength(folderPath: string, blocks: seq<string>, frame: int)
    ensures |FrameWrites(folderPath, blocks, frame)| == 7 * |blocks|
  {
    if |blocks| > 0 { FrameWritesLength(folderPath, blocks[1..], frame); }
  }

  /** `write_to_folders`: for each block of the set, in order, the frame's
      copy into that block; an empty set writes nothing. */
  method WriteToFolders(folderPath: string, blocks: seq<string>, frame: int) returns (writes: seq<Write>)
    ensures writes == FrameWrites(folderPath, blocks, frame)
    ensures |writes| == 7 * |blocks|
  {
    writes := [];
    for k := 0 to |blocks|
      invariant writes == FrameWrites(folderPath, blocks[..k], frame)
    {
      var pathAssign := folderPath + CategorizedFolder + blocks[k] + "/";
      var rgbPathAssign := pathAssign + "RGB/";
      var depthPathAssign := pathAssign + "depth/";
      var tcwPathAssign := pathAssign + "tcw/";
      var name := IntToString(frame);
      writes := writes + [CreateFolder(pathAssign), CreateFolder(rgbPathAssign),
                          CreateFolder(depthPathAssign), CreateFolder(tcwPathAssign),
                          WriteImage(rgbPathAssign + name + ".png"),
                          WriteImage(depthPathAssign + name + ".png"),
                          WriteMatrix(tcwPathAssign + name + ".xml")];
      ghost var dir, e := BlockFolder(folderPath, blocks[k]), CopyEntries(frame);
      assert pathAssign == dir + e[0];
      assert rgbPathAssign + name + ".png" == dir + e[4];
      assert depthPathAssign + name + ".png" == dir + e[5];
      assert tcwPathAssign + name + ".xml" == dir + e[6];
      assert writes[|writes| - 7..] == BlockWrites(folderPath, blocks[k], frame);
      FrameWritesAppend(folderPath, blocks[..k], blocks[k], frame);
      assert blocks[..k + 1] == blocks[..k] + [blocks[k]];
    }
    assert blocks[..|blocks|] == blocks;
    FrameWritesLength(folderPath, blocks, frame);
  }

  /** Two `'/'`-free names behind the same prefix and each followed by '/'
      can only give the same path if they are the same name. */
  lemma FolderInjective(prefix: string, a: string, b: string, ra: string, rb: string)
    requires '/' !in a && '/' !in b
    requires prefix + a + "/" + ra == prefix + b + "/" + rb
    ensures a == b
  {
    var x := prefix + a + "/" + ra;
    assert x == prefix + b + "/" + rb;
    var m := if |a| < |b| then |a| else |b|;
    assert x[|prefix| + m] == '/';
    assert a == x[|prefix|..|prefix| + |a|];
  }

  /** Within one copy no path is used twice. */
  lemma BlockPathsDistinct(folderPath: string, block: string, frame: int, i: int, j: int)
    requires 0 <= i < 7 && 0 <= j < 7 && i != j
    ensures BlockWrites(folderPath, block, frame)[i].path != BlockWrites(folderPath, block, frame)[j].path
  {
    var dir := BlockFolder(folderPath, block);
    var e := CopyEntries(frame);
    BlockWritePath(folderPath, block, frame, i);
    BlockWritePath(folderPath, block, frame, j);
    CopyEntriesDistinct(frame, i, j);
    assert (dir + e[i])[|dir|..] == e[i];
    assert (dir + e[j])[|dir|..] == e[j];
  }


  lemma CopyEntriesDistinct(frame: int, i: int, j: int)
    requires 0 <= i < 7 && 0 <= j < 7 && i != j
    ensures CopyEntries(frame)[i] != CopyEntries(frame)[j]
  {
    var e := CopyEntries(frame);
    var f := IntToString(frame);
    assert e[4] == "RGB/" + f + ".png" && e[4][0] == 'R' && |e[4]| > 4;
    assert e[5] == "depth/" + f + ".png" && e[5][0] == 'd' && |e[5]| > 6;
    assert e[6] == "tcw/" + f + ".xml" && e[6][0] == 't' && |e[6]| > 4;
  }

  /** Copies into two different blocks never touch the same path. */
  lemma BlockPathsDisjoint(folderPath: string, a: string, b: string, fa: int, fb: int, i: int, j: int)
    requires '/' !in a && '/' !in b && a != b
    requires 0 <= i < 7 && 0 <= j < 7
    ensures BlockWrites(folderPath, a, fa)[i].path != BlockWrites(folderPath, b, fb)[j].path
  {
    var prefix := folderPath + CategorizedFolder;
    var ea, eb := CopyEntries(fa)[i], CopyEntries(fb)[j];
    BlockWritePath(folderPath, a, fa, i);
    BlockWritePath(folderPath, b, fb, j);
    if prefix + a + "/" + ea == prefix + b + "/" + eb {
      FolderInjective(prefix, a, b, ea, eb);
    }
  }

  /** Write `i` of a block goes to the block folder followed by copy entry `i`. */
  lemma BlockWritePath(folderPath: string, block: string, frame: int, i: int)
    requires 0 <= i < 7
    ensures BlockWrites(folderPath, block, frame)[i].path == BlockFolder(folderPath, block) + CopyEntries(frame)[i]
  {
  }


  /** Copying one frame into a set of distinct, '/'-free blocks never
      writes or creates the same path twice. */
  lemma FrameWritesDistinct(folderPath: string, blocks: seq<string>, frame: int)
    requires forall k :: 0 <= k < |blocks| ==> '/' !in blocks[k]
    requires forall k, l :: 0 <= k < l < |blocks| ==> blocks[k] != blocks[l]
    ensures var w := FrameWrites(folderPath, blocks, frame);
      forall p, q :: 0 <= p < q < |w| ==> w[p].path != w[q].path
  {
    var w := FrameWrites(folderPath, blocks, frame);
    FrameWritesLength(folderPath, blocks, frame);
    forall p, q | 0 <= p < q < |w| ensures w[p].path != w[q].path {
      var kp, kq := p / 7, q / 7;
      assert kp <= kq;
      FrameWriteAt(folderPath, blocks, frame, p);
      FrameWriteAt(folderPath, blocks, frame, q);
      if kp == kq {
        BlockPathsDistinct(folderPath, blocks[kp], frame, p % 7, q % 7);
      } else {
        BlockPathsDisjoint(folderPath, blocks[kp], blocks[kq], frame, frame, p % 7, q % 7);
      }
    }
  }

  /** A categorized set's blocks are distinct and '/'-free, so the copies of a
      frame never collide. */
  lemma CategorizedWritesDistinct(folderPath: string, blocks: seq<string>, frame: int,
                                  img: DepthImage, kinv: Mat3, pose: Pose, s: Settings)
    requires ValidSettings(s)
    requires Sorted(blocks, StringLess)
    requires Elements(blocks) == KeySet(img, kinv, pose, s)
    ensures var w := FrameWrites(folderPath, blocks, frame);
      forall p, q :: 0 <= p < q < |w| ==> w[p].path != w[q].path
  {
    StringLessIsStrictTotalOrder();
    forall k, l | 0 <= k < l < |blocks| ensures blocks[k] != blocks[l] {
      SortedDistinct(blocks, StringLess, k, l);
    }
    forall k | 0 <= k < |blocks| ensures '/' !in blocks[k] {
      assert blocks[k] in Elements(blocks);
      var r, c :| 0 <= r < img.rows && 0 <= c < img.cols && Examined(img, s.precision, r, c)
                  && Accepted(img.at[r][c], s.maxAccurateDistance) && blocks[k] == KeyAt(img, kinv, pose, s, r, c);
      KeyFormat(Project(kinv, pose, r, c, img.at[r][c]), s.blockSize);
    }
    FrameWritesDistinct(folderPath, blocks, frame);
  }
}
