# Block categorization and per-block reconstruction driver

This project models the two sequential programs at the centre of the
offline "categorized" reconstruction of OpenARK-3dRecon, and proves
properties about them.

- **The categorizer** (`openRecon_demo/FileCategorize.cpp`). For each posed
  depth frame it samples every `precision`-th row and column. It drops
  depths below 0.0001 m or beyond `maxAccurateDistance`, back-projects the
  rest as `R * (d * K^-1 * [col, row, 1]) + t`, and turns each world point
  into a block key `"x_y_z"` (`convert`). It then copies the frame into
  each block's folder (`write_to_folders`). The main loop reads frames
  0, 1, 2, ... and gives up after 31 misses in a row.
- **The driver** (`rgbd_realsense_load_categorized.cpp`). It lists the block
  folders (`getFiles`) and reads each folder name back as an origin
  (`getOrigin`). It drops blocks whose origin is farther than 9 from zero on
  any axis. For each remaining block it starts a fusion engine, pushes the
  block's frames by ascending id, and then stops, saves, clears and deletes
  the engine.

Modules, one per concern:

| file | module | what it holds |
|---|---|---|
| `arith.dfy` | `Arith` | stride counting and the multiple/division facts the loops need |
| `decimal.dfy` | `Decimal` | `std::to_string(int)` and the integer reading of `atoi`/`atof` |
| `text.dfy` | `Text` | `find`, `substr(0, find)`, and splitting on a one-character delimiter |
| `ordered_set.dfy` | `OrderedSet` | `std::set` as a strictly sorted sequence, and its `insert` |
| `geometry.dfy` | `Geometry` | vectors, 3x3 matrices, the pinhole back-projection, `K.inv()` |
| `block_key.dfy` | `BlockKey` | `convert` and the geometry of its cells |
| `file_categorize.dfy` | `FileCategorize` | `categorize` and `write_to_folders` |
| `frame_scan.dfy` | `FrameScan` | the categorizer's main loop with its miss counter |
| `load_categorized.dfy` | `LoadCategorized` | `getFiles`, `getOrigin`, the frame-id set, the loader and engine objects, `application_thread` |
| `pipeline.dfy` | `Pipeline` | how the keys and files one program writes are read back by the other |

Modelling choices:

- A `std::set<std::string>` or `std::set<int>` is a strictly increasing
  `seq` under the container's order. Iterating it walks the sequence, and
  `insert` is `OrderedSet.Insert`.
- Floating values are `real`s. `floor` is `.Floor`, and the `(int)` cast is
  truncation toward zero (`BlockKey.Trunc`).
- The file system the driver reads is a map from a directory path to the
  entries `readdir` returns. A path that is not in the map is a directory
  `opendir` cannot open.
- The frames the categorizer reads are a sequence indexed by frame id. Each
  holds a depth image in metres and, when present, the already inverted
  camera-to-world pose.
- What the categorizer writes is returned as a sequence of `Write` values,
  one per `createFolder`, `imwrite` or `FileStorage` call, in call order.
- The loader (`ark::SaveFrame`) and the engine (`ark::PointCloudGenerator`)
  are classes. Each call the driver makes on them appends one event to a
  shared `FusionLog`. The driver's contracts state the resulting event
  sequence.

Behaviour of the code that its purpose might lead one to expect otherwise;
the model follows the code:

- **Block keys.** `getOrigin` has no error path. `atof` reads a token that
  is not a number as 0, and the driver checks `originF[0]`, `originF[1]` and
  `originF[2]` in turn (lines 92-100), each only when the ones before it
  were in range. The model reads any name (`Origin`). The driver needs a
  block folder name whose checks stay within the values it holds
  (`HasOrigin`): three or more values, or a value out of range before the
  missing one. "15" and "3_20" are dropped safely. "1_2" would be read past
  its end (`ShortNames`).
- **Short blocks.** The fewer-than-three-frames check does not come first.
  The code makes the loader and the engine and calls `Start()` (lines
  103-108), then skips the block at line 112 without stopping or deleting
  them. `ShortBlockOnlyStarts` states this.
- **Stopping.** The code calls `SavePly()` right after `RequestStop()`,
  without waiting for the engine to stop.
- **Missing frames.** The scan loop checks only the depth image and the
  pose. A missing colour image is not a miss.

## Model

| member | source | states |
|---|---|---|
| BlockKey.Trunc | openRecon_demo/FileCategorize.cpp:48-50 | the `(int)` cast rounds toward zero: it lies within one unit of its argument, at or below it for non-negative values and at or above it for negative ones |
| BlockKey.Anchor | openRecon_demo/FileCategorize.cpp:48-50 | the cell corner before the cast: `floor((v - 3) / blockSize) * blockSize + 3` for one coordinate |
| BlockKey.Component | openRecon_demo/FileCategorize.cpp:48-50 | one key component: the `(int)` cast of that corner; it depends only on its own coordinate |
| BlockKey.Convert | openRecon_demo/FileCategorize.cpp:47-52 | `convert`: the `to_string` of the x, y and z components joined by '_' |
| BlockKey.Components | openRecon_demo/FileCategorize.cpp:48-50 | the three components of a point in axis order |
| BlockKey.AnchorContains | openRecon_demo/FileCategorize.cpp:48-50 | the cell corner `floor((v-3)/bs)*bs+3` is at or below `v` and less than one block below it |
| BlockKey.CellConstant | openRecon_demo/FileCategorize.cpp:48-50 | every value in one half-open cell `[3+k*bs, 3+(k+1)*bs)` has the same corner and so the same component |
| BlockKey.ComponentMonotone | openRecon_demo/FileCategorize.cpp:48-50 | a key component never decreases as its coordinate grows |
| BlockKey.ComponentNearAnchor | openRecon_demo/FileCategorize.cpp:48-50 | the cast moves the cell corner by less than one unit |
| BlockKey.IntegerBlockAnchored | openRecon_demo/FileCategorize.cpp:48-50 | with a whole-number block size `n` the component `c` satisfies `c <= v < c + n` and `c - 3` is a multiple of `n` |
| BlockKey.KeyFormat | openRecon_demo/FileCategorize.cpp:47-51 | the key holds exactly two '_' and no '/'; split on '_' it gives three `to_string` integers, each the component of its own axis |
| BlockKey.KeyText | openRecon_demo/FileCategorize.cpp:51 | three printed integers joined by '_' split back into exactly those three texts, which hold two '_' in all and no '/' |
| Geometry.ProjectIdentity | openRecon_demo/FileCategorize.cpp:97-110 | with identity intrinsics and pose, the pixel in row `i`, column `j` at depth `d` lands at `(d*j, d*i, d)`: the column is image x and the row image y |
| Geometry.Project | openRecon_demo/FileCategorize.cpp:97-110 | the world point of a pixel: `R * (d * Kinv * [col, row, 1]) + t`, with the column as image x and the row as image y |
| Geometry.ProjectOnRay | openRecon_demo/FileCategorize.cpp:102-110 | every pixel lands on its viewing ray, the pose's translation plus `d` times `R * Kinv * [col, row, 1]`; the depth moves the point only along that ray |
| Geometry.ApplyScale | openRecon_demo/FileCategorize.cpp:106-108 | scaling by the depth before or after the rotation gives the same point |
| Geometry.ProjectTranslate | openRecon_demo/FileCategorize.cpp:108-110 | the pose's translation is added to every projected point |
| Geometry.InverseIntrinsics | openRecon_demo/FileCategorize.cpp:216-219 | the result is a two-sided inverse of `[[fx,0,cx],[0,fy,cy],[0,0,1]]` when both focal lengths are non-zero, and the zero matrix otherwise |
| Geometry.Intrinsics | openRecon_demo/FileCategorize.cpp:216-217 | the camera matrix `K = [[fx, 0, cx], [0, fy, cy], [0, 0, 1]]` built from the settings |
| Geometry.IntrinsicsMapsToPixel | openRecon_demo/FileCategorize.cpp:216-217 | `K` sends the normalised point `(x, y, 1)` to the pixel `(fx*x + cx, fy*y + cy, 1)` |
| Geometry.PixelRay | openRecon_demo/FileCategorize.cpp:102-104 | through `K^-1` a pixel becomes the ray `((col-cx)/fx, (row-cy)/fy, 1)` |
| FileCategorize.Categorize | openRecon_demo/FileCategorize.cpp:83-138 | the result is a sorted set holding exactly the keys of the pixels whose row and column are multiples of `precision` and whose depth is in `[0.0001, maxAccurateDistance]`, and it has at most `ceil(rows/p)*ceil(cols/p)` elements |
| FileCategorize.Accepted | openRecon_demo/FileCategorize.cpp:93-95 | a depth is kept unless it is below 0.0001 or above `maxAccurateDistance`; both bounds are kept |
| FileCategorize.Examined | openRecon_demo/FileCategorize.cpp:90-91 | the pixels the stride loops visit: inside the image, with row and column multiples of `precision` |
| FileCategorize.KeyAt | openRecon_demo/FileCategorize.cpp:92-116 | the block key of one pixel: `convert` of its projected point at its depth |
| FileCategorize.KeySet | openRecon_demo/FileCategorize.cpp:86-135 | the blocks of a frame, by definition: the keys of the examined pixels whose depth is accepted |
| FileCategorize.DefaultSettings | openRecon_demo/FileCategorize.cpp:21-23 | the program's built-in settings: a 10 m accuracy ceiling and every 5th row and column |
| FileCategorize.DefaultSettingsAccept | openRecon_demo/FileCategorize.cpp:21-23 | those settings are valid for any positive block size, sample every 5th pixel, and keep exactly the depths from 0.0001 m to 10 m, both included |
| FileCategorize.CategorizeRow | openRecon_demo/FileCategorize.cpp:91-127 | one pass of the inner loop over row `i` adds the keys of that row's sampled accepted pixels to the set, keeping it sorted, and adds at most `ceil(cols/p)` keys |
| FileCategorize.PixelStep | openRecon_demo/FileCategorize.cpp:92-126 | one column step keeps the loop state: an accepted pixel's key is added, a rejected pixel changes nothing |
| FileCategorize.RowStep | openRecon_demo/FileCategorize.cpp:90-91 | after the last column of row `i` the loop state is the state before row `i + precision` |
| FileCategorize.KeysBeforeStep | openRecon_demo/FileCategorize.cpp:91-126 | the keys seen after one more sampled pixel are the keys before it plus that pixel's key when its depth is accepted |
| FileCategorize.KeysBeforeRow | openRecon_demo/FileCategorize.cpp:90-91 | no sampled pixel lies between the end of row `i` and row `i + precision` |
| FileCategorize.InvalidateShrinks | openRecon_demo/FileCategorize.cpp:93-95 | giving any pixel a rejected depth can only remove blocks from the result |
| FileCategorize.EmptyIffNoAcceptedPixel | openRecon_demo/FileCategorize.cpp:86-135 | the result is empty exactly when no sampled pixel has an accepted depth |
| FileCategorize.CeilingMonotone | openRecon_demo/FileCategorize.cpp:93 | lowering the accuracy ceiling never adds a block |
| FileCategorize.KeySetSingleton | openRecon_demo/FileCategorize.cpp:116-126 | when all accepted sampled pixels share one key the result is that one block |
| FileCategorize.MinusSevenComponent | openRecon_demo/FileCategorize.cpp:48 | with 10-unit blocks every coordinate in `[-7, 3)` has component -7 |
| FileCategorize.KeyOfCellAtMinusSeven | openRecon_demo/FileCategorize.cpp:47-51 | with 10-unit blocks every point of `[-7, 3)^3` gets the key "-7_-7_-7" |
| FileCategorize.SmallGridExample | openRecon_demo/FileCategorize.cpp:83-138 | the 2x2 depth grid `[1, 1; 1, 11]` under identity camera and pose, stride 1 and a 10 m ceiling gives the single block "-7_-7_-7"; the 11 m pixel is dropped |
| FileCategorize.WriteToFolders | openRecon_demo/FileCategorize.cpp:142-172 | for each block, in the set's order, the four folders and then the frame's colour image, depth image and pose file under that block; seven writes per block, so an empty set writes nothing |
| FileCategorize.BlockFolder | openRecon_demo/FileCategorize.cpp:147 | the folder a block's copies go to: the frames path, `/frames_categorized/`, the block key and a closing `/` |
| FileCategorize.CopyEntries | openRecon_demo/FileCategorize.cpp:147-166 | the part of each of one block's seven paths after the block folder: nothing, `RGB/`, `depth/` and `tcw/`, then `RGB/<frame>.png`, `depth/<frame>.png` and `tcw/<frame>.xml` with the frame number as `to_string` prints it |
| FileCategorize.BlockWrites | openRecon_demo/FileCategorize.cpp:147-168 | one block's copy of a frame in call order: the four `createFolder`s, then the colour image, the depth image and the pose file |
| FileCategorize.FrameWrites | openRecon_demo/FileCategorize.cpp:144-171 | the copies of one frame into each block, block after block in the set's order |
| FileCategorize.FrameWritesAppend | openRecon_demo/FileCategorize.cpp:144-171 | one more block appends exactly that block's seven writes |
| FileCategorize.FrameWritesLength | openRecon_demo/FileCategorize.cpp:144-171 | a frame's copies are seven writes per block |
| FileCategorize.FrameWritesAt | openRecon_demo/FileCategorize.cpp:144-171 | the `k`-th block's writes are positions `7k` to `7k+6` |
| FileCategorize.FrameWriteAt | openRecon_demo/FileCategorize.cpp:144-171 | write `n` is write `n mod 7` of block `n / 7` |
| FileCategorize.BlockWritePath | openRecon_demo/FileCategorize.cpp:147-166 | each of a block's writes goes to `folderPath/frames_categorized/<block>/` followed by `""`, `RGB/`, `depth/`, `tcw/`, `RGB/<frame>.png`, `depth/<frame>.png` or `tcw/<frame>.xml` |
| FileCategorize.CopyEntriesDistinct | openRecon_demo/FileCategorize.cpp:147-166 | the seven entries of one copy are pairwise different |
| FileCategorize.BlockPathsDistinct | openRecon_demo/FileCategorize.cpp:147-166 | no path is used twice within one block's copy |
| FileCategorize.FolderInjective | openRecon_demo/FileCategorize.cpp:147 | two '/'-free block names under the same prefix give the same path only when they are equal |
| FileCategorize.BlockPathsDisjoint | openRecon_demo/FileCategorize.cpp:147-166 | copies into two different '/'-free blocks never use the same path |
| FileCategorize.FrameWritesDistinct | openRecon_demo/FileCategorize.cpp:144-171 | copying a frame into distinct '/'-free blocks never uses the same path twice |
| FileCategorize.CategorizedWritesDistinct | openRecon_demo/FileCategorize.cpp:289-292 | the copies of a frame into the blocks `categorize` found never use the same path twice |
| FrameScan.Scan | openRecon_demo/FileCategorize.cpp:221-298 | the loop stops at the first frame that closes a run of 31 misses, no later than 30 ids past the stored frames; it processes exactly the found frames before that, in id order, each with its categorized blocks; and it writes the categorized folder and then each processed frame's copies |
| FrameScan.ResultWrites | openRecon_demo/FileCategorize.cpp:230-298 | the writes of the processed frames: each frame's copies into its blocks, in the order the frames were read |
| FrameScan.ScanWrites | openRecon_demo/FileCategorize.cpp:195 | everything the categorizer writes: the `frames_categorized` folder first, then the processed frames' copies |
| FrameScan.Found | openRecon_demo/FileCategorize.cpp:231-257 | a frame counts as found when its depth image has rows and its pose file holds a pose; ids past the stored frames have neither |
| FrameScan.MissRun | openRecon_demo/FileCategorize.cpp:221-268 | the value of `empty` when frame `f` is read: 0 at the start and after a found frame, one more after each miss |
| FrameScan.Stops | openRecon_demo/FileCategorize.cpp:237-265 | the loop breaks at frame `f`: `f` is a miss that takes `empty` above 30 |
| FrameScan.FoundFrames | openRecon_demo/FileCategorize.cpp:289-295 | the frames processed before frame `n`, in the order they are read |
| FrameScan.MissRunSpec | openRecon_demo/FileCategorize.cpp:237-268 | the miss counter at frame `f` is the length of the run of misses right before `f`, and the frame before that run was found |
| FrameScan.StopsIffMisses | openRecon_demo/FileCategorize.cpp:237-265 | the loop stops at frame `f` exactly when frames `f-30` to `f` are all misses |
| FrameScan.MissRunPastLimit | openRecon_demo/FileCategorize.cpp:241-263 | the counter can reach 31 only when the loop has already stopped at that frame or before it |
| FrameScan.MissRunBeyond | openRecon_demo/FileCategorize.cpp:231-240 | past the last stored frame every id is a miss, so at frame `f` the counter is at least `f - |store|` |
| FrameScan.MissStep | openRecon_demo/FileCategorize.cpp:237-265 | a missing depth image or pose adds one to the counter and processes nothing |
| FrameScan.FoundStep | openRecon_demo/FileCategorize.cpp:268-295 | a frame with both a depth image and a pose resets the counter and is processed |
| FrameScan.FoundFramesSpec | openRecon_demo/FileCategorize.cpp:230-298 | the processed frames are listed once each, in increasing id order, and are exactly the found ids |
| FrameScan.FoundFramesMembers | openRecon_demo/FileCategorize.cpp:230-298 | an id is processed exactly when it is below the current frame and found |
| FrameScan.FoundFramesIncreasing | openRecon_demo/FileCategorize.cpp:222-295 | processed ids strictly increase |
| FrameScan.MissKeepsResults | openRecon_demo/FileCategorize.cpp:237-265 | a miss keeps the results so far correct |
| FrameScan.FoundExtendsResults | openRecon_demo/FileCategorize.cpp:289-292 | appending a found frame's categorized blocks keeps the results correct |
| FrameScan.ScanWritesAppend | openRecon_demo/FileCategorize.cpp:292 | processing one more frame appends exactly its copies to the writes |
| FrameScan.NothingFoundStopsAtThirty | openRecon_demo/FileCategorize.cpp:237-245 | with no readable frame the loop stops at frame 30, after frames 0 to 30, having processed nothing |
| LoadCategorized.LongNames | modelacquisition_xiezhou/Examples/RGB-D/rgbd_realsense_load_categorized.cpp:46-51 | keeps exactly the entries whose `length()` exceeds two, counted in UTF-8 bytes, in listing order |
| LoadCategorized.ListingSpec | modelacquisition_xiezhou/Examples/RGB-D/rgbd_realsense_load_categorized.cpp:37-61 | the set is sorted, holds exactly the listed names longer than two bytes, is empty for a directory that cannot be opened, and never holds "." or ".." |
| LoadCategorized.GetFiles | modelacquisition_xiezhou/Examples/RGB-D/rgbd_realsense_load_categorized.cpp:37-61 | the loop builds that set and counts the names it inserted, zero for a directory that cannot be opened |
| LoadCategorized.Listing | modelacquisition_xiezhou/Examples/RGB-D/rgbd_realsense_load_categorized.cpp:37-61 | the set `getFiles` returns: the entry names longer than two bytes, in string order without repeats; nothing when the directory cannot be opened |
| LoadCategorized.LongNamesCountBytes | modelacquisition_xiezhou/Examples/RGB-D/rgbd_realsense_load_categorized.cpp:47 | the test counts bytes: "." and ".." are dropped, and the two-character, four-byte name "éé" is kept |
| Text.ByteLength | modelacquisition_xiezhou/Examples/RGB-D/rgbd_realsense_load_categorized.cpp:47 | `std::string::length()` of a name in UTF-8: at least its character count and at most four times it, equal to the character count exactly when every character is ASCII |
| LoadCategorized.Abs | modelacquisition_xiezhou/Examples/RGB-D/rgbd_realsense_load_categorized.cpp:92-98 | `std::abs` of a float: non-negative, `x` or `-x`, and beyond 9 exactly when `x` is above 9 or below -9 |
| LoadCategorized.ParseAll | modelacquisition_xiezhou/Examples/RGB-D/rgbd_realsense_load_categorized.cpp:72-76 | one `atof` value per piece, in order |
| LoadCategorized.Origin | modelacquisition_xiezhou/Examples/RGB-D/rgbd_realsense_load_categorized.cpp:65-79 | one value more than the number of '_' in the name |
| LoadCategorized.OriginSpec | modelacquisition_xiezhou/Examples/RGB-D/rgbd_realsense_load_categorized.cpp:71-76 | one value per '_' plus one, each the `atof` of its maximal '_'-free piece in order; an empty piece reads as 0 |
| LoadCategorized.GetOrigin | modelacquisition_xiezhou/Examples/RGB-D/rgbd_realsense_load_categorized.cpp:65-79 | the erase-and-push loop returns exactly that sequence of values |
| LoadCategorized.SkippedIffOutOfRange | modelacquisition_xiezhou/Examples/RGB-D/rgbd_realsense_load_categorized.cpp:92-100 | for any name whose checks stay within its values, a block is dropped exactly when one of its first three origin values is below -9 or above 9; exactly 9 or -9 is kept; a name with fewer than three values is always dropped |
| LoadCategorized.Skipped | modelacquisition_xiezhou/Examples/RGB-D/rgbd_realsense_load_categorized.cpp:92-100 | the three `continue`s, checked in order: the first, else the second, else the third origin value has absolute value above 9 |
| LoadCategorized.Readable | modelacquisition_xiezhou/Examples/RGB-D/rgbd_realsense_load_categorized.cpp:92-100 | the checks read only values that exist: the first value exists, and the second is read only when the first is in range and the third only when the second is too |
| LoadCategorized.HasOrigin | modelacquisition_xiezhou/Examples/RGB-D/rgbd_realsense_load_categorized.cpp:90-100 | a block folder name the loop can check without reading past the values `getOrigin` returns |
| LoadCategorized.ShortNames | modelacquisition_xiezhou/Examples/RGB-D/rgbd_realsense_load_categorized.cpp:90-100 | "15" and "3_20" are checked safely and dropped; "1_2" would be read past its end |
| LoadCategorized.FrameId | modelacquisition_xiezhou/Examples/RGB-D/rgbd_realsense_load_categorized.cpp:118 | a frame file's id: `atoi` of its name up to the first '.' |
| LoadCategorized.FrameIds | modelacquisition_xiezhou/Examples/RGB-D/rgbd_realsense_load_categorized.cpp:116-120 | the `std::set<int>` of the files' ids, built by inserting each id in listing order |
| LoadCategorized.IdsOf | modelacquisition_xiezhou/Examples/RGB-D/rgbd_realsense_load_categorized.cpp:117-118 | each name's id is the `atoi` of its text before the first '.' |
| LoadCategorized.FrameIdsSpec | modelacquisition_xiezhou/Examples/RGB-D/rgbd_realsense_load_categorized.cpp:116-120 | the ids strictly increase and are exactly the ids of the listed files, each once |
| LoadCategorized.FrameIdOfFileName | modelacquisition_xiezhou/Examples/RGB-D/rgbd_realsense_load_categorized.cpp:118 | a name `to_string(id)` followed by an extension reads back as `id` |
| LoadCategorized.CollectFrameIds | modelacquisition_xiezhou/Examples/RGB-D/rgbd_realsense_load_categorized.cpp:116-120 | the insert loop builds exactly that ordered id set |
| LoadCategorized.FusionLog.constructor | modelacquisition_xiezhou/include/PointCloudGenerator.h:26-52 | the log of calls starts empty |
| LoadCategorized.SaveFrame.constructor | modelacquisition_xiezhou/Examples/RGB-D/rgbd_realsense_load_categorized.cpp:103 | making the loader of a block folder logs that call |
| LoadCategorized.SaveFrame.FrameLoad | modelacquisition_xiezhou/Examples/RGB-D/rgbd_realsense_load_categorized.cpp:126 | the loaded frame carries the id asked for |
| LoadCategorized.SaveFrame.Delete | modelacquisition_xiezhou/Examples/RGB-D/rgbd_realsense_load_categorized.cpp:141 | deleting the loader logs that call and nothing else |
| LoadCategorized.PointCloudGenerator.constructor | modelacquisition_xiezhou/include/PointCloudGenerator.h:30 | making the engine at an origin logs that call with the origin |
| LoadCategorized.PointCloudGenerator.Start | modelacquisition_xiezhou/include/PointCloudGenerator.h:32 | logs one `Started` |
| LoadCategorized.PointCloudGenerator.RequestStop | modelacquisition_xiezhou/include/PointCloudGenerator.h:34 | logs one `StopRequested` |
| LoadCategorized.PointCloudGenerator.PushFrame | modelacquisition_xiezhou/include/PointCloudGenerator.h:40 | logs one `Pushed` with the frame's id |
| LoadCategorized.PointCloudGenerator.SavePly | modelacquisition_xiezhou/include/PointCloudGenerator.h:48 | logs one `PlySaved` |
| LoadCategorized.PointCloudGenerator.ClearTSDF | modelacquisition_xiezhou/include/PointCloudGenerator.h:52 | logs one `TsdfCleared` |
| LoadCategorized.PointCloudGenerator.Delete | modelacquisition_xiezhou/Examples/RGB-D/rgbd_realsense_load_categorized.cpp:140 | deleting the engine logs that call |
| LoadCategorized.Pushes | modelacquisition_xiezhou/Examples/RGB-D/rgbd_realsense_load_categorized.cpp:123-134 | one `Pushed` per id, in order |
| LoadCategorized.PushFrames | modelacquisition_xiezhou/Examples/RGB-D/rgbd_realsense_load_categorized.cpp:123-134 | each id is loaded and pushed, in order, and nothing else is logged |
| LoadCategorized.FuseFrames | modelacquisition_xiezhou/Examples/RGB-D/rgbd_realsense_load_categorized.cpp:116-141 | a block with enough frames logs one push per distinct id in increasing order, then stop, save, clear and the two deletes |
| LoadCategorized.ProcessBlock | modelacquisition_xiezhou/Examples/RGB-D/rgbd_realsense_load_categorized.cpp:88-142 | for any name whose checks stay within its values, one turn of the loop logs exactly the calls the block's origin and RGB listing call for (`BlockTrace`) |
| LoadCategorized.BlockCalls | modelacquisition_xiezhou/Examples/RGB-D/rgbd_realsense_load_categorized.cpp:90-141 | the calls one block gets: none when skipped; the loader, the engine and `Start` when it has fewer than three RGB entries; otherwise those, one push per id of the frame-id set, then stop, save, clear and both deletes |
| LoadCategorized.Opening | modelacquisition_xiezhou/Examples/RGB-D/rgbd_realsense_load_categorized.cpp:103-108 | the calls before the frame count is known: the loader of the block folder, the engine at the three origin values, and `Start` |
| LoadCategorized.Closing | modelacquisition_xiezhou/Examples/RGB-D/rgbd_realsense_load_categorized.cpp:136-141 | the calls after the last frame: `RequestStop`, `SavePly`, `ClearTSDF`, then deleting the engine and the loader |
| LoadCategorized.BlockTrace | modelacquisition_xiezhou/Examples/RGB-D/rgbd_realsense_load_categorized.cpp:88-142 | what one turn of the loop should log for a block folder name: its calls, with the origin read from the name, the folder `directoryName + origin + "/"`, and the listing of its `RGB/` sub-folder |
| LoadCategorized.RunTraceStep | modelacquisition_xiezhou/Examples/RGB-D/rgbd_realsense_load_categorized.cpp:88 | the calls for one more block follow those for the blocks before it |
| LoadCategorized.ApplicationThread | modelacquisition_xiezhou/Examples/RGB-D/rgbd_realsense_load_categorized.cpp:82-143 | when every listed name's checks stay within its values, the log gets the calls for each listed block folder, one block after another in the set's string order (`RunTrace`) |
| LoadCategorized.RunTrace | modelacquisition_xiezhou/Examples/RGB-D/rgbd_realsense_load_categorized.cpp:88-142 | what the loop should log for a sequence of block names: the block traces one after another |
| LoadCategorized.PushedIdsAppend | modelacquisition_xiezhou/Examples/RGB-D/rgbd_realsense_load_categorized.cpp:132 | the pushed ids of two call sequences in a row are the pushed ids of each, in a row |
| LoadCategorized.PushedIdsOfPushes | modelacquisition_xiezhou/Examples/RGB-D/rgbd_realsense_load_categorized.cpp:123-134 | pushing a sequence of ids pushes exactly those ids |
| LoadCategorized.OpeningPushesNothing | modelacquisition_xiezhou/Examples/RGB-D/rgbd_realsense_load_categorized.cpp:103-108 | making and starting the objects pushes no frame |
| LoadCategorized.ClosingPushesNothing | modelacquisition_xiezhou/Examples/RGB-D/rgbd_realsense_load_categorized.cpp:136-141 | stopping, saving, clearing and deleting push no frame |
| LoadCategorized.SkippedBlockIsSilent | modelacquisition_xiezhou/Examples/RGB-D/rgbd_realsense_load_categorized.cpp:92-108 | a dropped block makes no call at all, in particular no `Start`; a kept block always makes the loader, then the engine at its origin, then starts it |
| LoadCategorized.ShortBlockOnlyStarts | modelacquisition_xiezhou/Examples/RGB-D/rgbd_realsense_load_categorized.cpp:103-114 | a kept block with fewer than three RGB entries makes and starts its objects and nothing more: no push, stop, save, clear or delete |
| LoadCategorized.FusedBlockTrace | modelacquisition_xiezhou/Examples/RGB-D/rgbd_realsense_load_categorized.cpp:103-141 | a kept block with three or more RGB entries: open, then one push per distinct frame id in strictly increasing order, the ids being exactly those of the RGB files, then stop, save, clear and the two deletes |
| Decimal.NatToString | openRecon_demo/FileCategorize.cpp:48-50 | decimal digits, never empty, a leading '0' only for 0 |
| Decimal.IntToString | openRecon_demo/FileCategorize.cpp:48-50 | `std::to_string(int)`: '-' before the digits of the magnitude for a negative value |
| Decimal.LeadingInt | modelacquisition_xiezhou/Examples/RGB-D/rgbd_realsense_load_categorized.cpp:72-76 | the integer read from the front of a text: an optional sign and then the longest run of digits; no digits read as 0 |
| Decimal.Atoi | modelacquisition_xiezhou/Examples/RGB-D/rgbd_realsense_load_categorized.cpp:118 | `atoi`, as that integer reading |
| Decimal.Atof | modelacquisition_xiezhou/Examples/RGB-D/rgbd_realsense_load_categorized.cpp:72-76 | `atof` on the integer pieces of a block name, as that integer reading |
| Decimal.IntToStringIsDecimal | openRecon_demo/FileCategorize.cpp:48-50 | `to_string` of an int is an optional '-' and digits with no leading zero |
| Decimal.DigitsValueOfNatToString | openRecon_demo/FileCategorize.cpp:48-50 | the digits printed for `n` have the value `n` |
| Decimal.LeadingIntOfIntToString | modelacquisition_xiezhou/Examples/RGB-D/rgbd_realsense_load_categorized.cpp:72-76 | `atoi` and `atof` read back exactly the integer `to_string` printed |
| Decimal.LeadingIntIgnoresSuffix | modelacquisition_xiezhou/Examples/RGB-D/rgbd_realsense_load_categorized.cpp:118 | reading stops at the first non-digit |
| Decimal.LeadingIntNoDigits | modelacquisition_xiezhou/Examples/RGB-D/rgbd_realsense_load_categorized.cpp:72-76 | text with no digit at all, signed or not, reads as 0, and so does text whose first character is neither a digit nor a sign |
| Text.Find | modelacquisition_xiezhou/Examples/RGB-D/rgbd_realsense_load_categorized.cpp:71 | the index of the first occurrence, or the length when there is none |
| Text.Tokens | modelacquisition_xiezhou/Examples/RGB-D/rgbd_realsense_load_categorized.cpp:71-76 | the pieces `getOrigin` reads: each text before the next delimiter, after erasing through it, and the rest as the last piece |
| Text.Before | modelacquisition_xiezhou/Examples/RGB-D/rgbd_realsense_load_categorized.cpp:118 | a prefix with no '.', either all of the text or followed by its first '.' |
| Text.TokensSpec | modelacquisition_xiezhou/Examples/RGB-D/rgbd_realsense_load_categorized.cpp:71-76 | splitting gives one more piece than there are delimiters, no piece holds the delimiter, and rejoining gives the text back |
| Text.TokensCount | modelacquisition_xiezhou/Examples/RGB-D/rgbd_realsense_load_categorized.cpp:71-76 | one more piece than delimiters |
| Text.TokensFree | modelacquisition_xiezhou/Examples/RGB-D/rgbd_realsense_load_categorized.cpp:71-76 | no piece holds the delimiter |
| Text.TokensJoin | modelacquisition_xiezhou/Examples/RGB-D/rgbd_realsense_load_categorized.cpp:71-76 | rejoining the pieces gives the text back |
| Text.TokensOfJoin | modelacquisition_xiezhou/Examples/RGB-D/rgbd_realsense_load_categorized.cpp:71-76 | splitting undoes the joining of delimiter-free pieces |
| Text.CountAppend | openRecon_demo/FileCategorize.cpp:51 | delimiter counts add over concatenation |
| OrderedSet.Insert | openRecon_demo/FileCategorize.cpp:126 | `std::set::insert`: the result stays sorted, gains exactly the element, and grows by one only when the element was absent |
| OrderedSet.InsertString | openRecon_demo/FileCategorize.cpp:126 | the same for a set of strings in `std::string` order |
| OrderedSet.InsertAll | modelacquisition_xiezhou/Examples/RGB-D/rgbd_realsense_load_categorized.cpp:46-51 | a set filled by inserting a sequence is sorted, holds exactly its elements and is no longer than it |
| OrderedSet.SortedDistinct | openRecon_demo/FileCategorize.cpp:86 | a set holds no element twice |
| OrderedSet.SortedUnique | openRecon_demo/FileCategorize.cpp:86 | two sets with the same elements are the same sequence, so iteration order is fixed by the contents |
| OrderedSet.StringLess | openRecon_demo/FileCategorize.cpp:144 | `std::string`'s `operator<`, which orders the block set `write_to_folders` walks (and the block listing at modelacquisition_xiezhou/Examples/RGB-D/rgbd_realsense_load_categorized.cpp:88): lexicographic by character code; a proper prefix comes first and nothing comes before its own prefix |
| OrderedSet.StringLessIsStrictTotalOrder | openRecon_demo/FileCategorize.cpp:86 | `std::string` comparison is a strict total order |
| Pipeline.OriginOfKey | modelacquisition_xiezhou/Examples/RGB-D/rgbd_realsense_load_categorized.cpp:65-79 | reading a block key back as an origin gives exactly three values, the key's three integer components in axis order |
| Pipeline.KeyBlockSkippedIff | modelacquisition_xiezhou/Examples/RGB-D/rgbd_realsense_load_categorized.cpp:90-100 | the driver drops a key's block exactly when one of its components is beyond 9 in absolute value |
| Pipeline.OriginContainsPoint | openRecon_demo/FileCategorize.cpp:47-51 | with a whole-number block size the origin read back for a point's key is the lower corner of a block that contains the point |
| Pipeline.WrittenImageIsLoaded | openRecon_demo/FileCategorize.cpp:147-159 | the colour image written for a frame lands in the block's RGB folder under a name the listing keeps and that reads back as the frame's id |
| Pipeline.PushesWrittenFrames | modelacquisition_xiezhou/Examples/RGB-D/rgbd_realsense_load_categorized.cpp:110-120 | when a block's RGB folder holds the dot entries and the images of some frames, the ids the driver collects are exactly those frames |

## Left out

- File-system effects: `stat`, `mkdir`, `opendir`/`readdir`, `cv::imread`/`imwrite` and `cv::FileStorage` are values (a listing map, a frame store, a sequence of `Write`s). Console output, `perror` and `exit(1)` on a failed `mkdir` are not modelled.
- Command-line and settings parsing (`main` of both programs, openRecon_demo/FileCategorize.cpp:175-210): `main` reads the frames path, the camera intrinsics and `blockSize` (`Voxel.Size.Offline` times `Voxel.Dim.x`). They are parameters of the model. `maxAccurateDistance` (10) and `precision` (5) are not read from the settings; they are built-in globals (openRecon_demo/FileCategorize.cpp:21, 23). The model takes them as parameters too, and `DefaultSettings` holds the built-in values.
- Floating point: reals stand for `float`/`double`, so IEEE rounding and overflow are not modelled. Neither is a cast of a value outside the `int` range.
- `tcwMat.inv()` (openRecon_demo/FileCategorize.cpp:271) and `frame.mTcw.inv()` (modelacquisition_xiezhou/Examples/RGB-D/rgbd_realsense_load_categorized.cpp:130): the stored pose is taken already inverted, and the loaded frame's pose is not modelled.
- Depth scaling by 0.001 on read and by 1000 to 16-bit on write (openRecon_demo/FileCategorize.cpp:162 and 233-234): depths are given in metres, and written images are paths, not contents.
- Image contents, `cv::cvtColor` (modelacquisition_xiezhou/Examples/RGB-D/rgbd_realsense_load_categorized.cpp:128), `magnitude` and `writeToPly` (openRecon_demo/FileCategorize.cpp:55-78, unused).
- General `atof`/`atoi`: only an optional sign followed by the leading run of digits is read. This covers what `to_string` prints and frame names such as `12.png`; fractions and exponents are not read.
- `blockSize <= 0` and `precision <= 0` are excluded (`ValidSettings`). A zero block size divides by zero in `convert` (openRecon_demo/FileCategorize.cpp:48-50). A negative one, which a positive voxel size and dimension do not produce, would give ordinary keys; it is excluded as meaningless. A `precision` of zero or less never advances the loops at openRecon_demo/FileCategorize.cpp:90-91.
- `ark::SaveFrame` and `ark::PointCloudGenerator` internals: their threads, locks and TSDF volume are not modelled, only the order of the calls made on them (modelacquisition_xiezhou/include/PointCloudGenerator.h:26-52).
- LoadCategorized.ApplicationThread: requires `HasOrigin` of every block folder name, i.e. that the three range checks never read past the values `getOrigin` returns. A name such as "1_2" does not meet it: both its values are in range, so the source reads `originF[2]` past the end of the vector (undefined behaviour). "15" and "3_20" meet it and are dropped. LoadCategorized.ProcessBlock requires the same of its one name.
- Entry names are Unicode text whose `length()` is its UTF-8 byte count (`Text.ByteLength`); a name whose bytes are not valid UTF-8 cannot be written in the model.
- `cv::imwrite` of an empty colour image (openRecon_demo/FileCategorize.cpp:159): the scan loop does not check that `RGB/<frame>.png` was read, so an absent colour image gives an empty `RGBMat`, which OpenCV's `imwrite` rejects with an assertion failure. The model records an ordinary `WriteImage` for it.
- The loader and engine of a short block are neither stopped nor deleted in the source (a leak). The model records this in the call log but does not model memory.
- FileCategorize.CategorizeRow: a separate method holding `categorize`'s inner loop. Together with `Categorize` it is the same nested loop.
