/** The categorizer's main loop: frame ids 0, 1, 2, ... are read in turn;
    a frame whose depth image or pose is missing is a miss, any found frame
    resets the miss counter, and the loop ends on the 31st miss in a row. */
module FrameScan {
  import opened Geometry
  import opened OrderedSet
  import opened FileCategorize

  /** What the frames folder holds for one frame id: its depth image in
      metres (zero rows when there is no readable image) and, when its pose
      file holds one, the camera-to-world pose. */
  datatype StoredFrame = StoredFrame(depth: DepthImage, pose: Option<Pose>)

  /** The camera matrix entries read from the settings file. */
  datatype Camera = Camera(fx: real, fy: real, cx: real, cy: real)

  /** The blocks found for one processed frame. */
  datatype FrameResult = FrameResult(frame: nat, blocks: seq<string>)

  /** The number of misses after which the scan gives up is one more than this. */
  const MaxMisses: nat := 30

  /** Frame `f` has a depth image with rows and a pose; ids past the end of
      the store have neither. */
  predicate Found(store: seq<StoredFrame>, f: nat)
  {
    f < |store| && store[f].depth.rows != 0 && store[f].pose.Some?
  }

  /** The value of the miss counter when frame `f` is read. */
  function MissRun(store: seq<StoredFrame>, f: nat): nat
  {
    if f == 0 then 0
    else if Found(store, f - 1) then 0
    else MissRun(store, f - 1) + 1
  }

  /** The scan ends at frame `f`: it is a miss and the counter goes past 30. */
  predicate Stops(store: seq<StoredFrame>, f: nat)
  {
    !Found(store, f) && MissRun(store, f) >= MaxMisses
  }

  /** The found frame ids below `n`, in increasing order. */
  function FoundFrames(store: seq<StoredFrame>, n: nat): seq<nat>
  {
    if n == 0 then [] else FoundFrames(store, n - 1) + (if Found(store, n - 1) then [n - 1] else [])
  }

  /** All writes of a scan: the categorized folder, then each processed
      frame's copies in the order the frames were read. */
  function ResultWrites(folderPath: string, results: seq<FrameResult>): seq<Write>
  {
    if |results| == 0 then []
    else ResultWrites(folderPath, results[..|results| - 1])
         + FrameWrites(folderPath, results[|results| - 1].blocks, results[|results| - 1].frame)
  }

  function ScanWrites(folderPath: string, results: seq<FrameResult>): seq<Write>
  {
    [CreateFolder(folderPath + CategorizedFolder)] + ResultWrites(folderPath, results)
  }

  /** The result for frame `f` is the categorization of its stored image and pose. */
  ghost predicate Categorized(store: seq<StoredFrame>, kinv: Mat3, s: Settings, r: FrameResult)
    requires ValidSettings(s)
  {
    && Found(store, r.frame)
    && Sorted(r.blocks, StringLess)
    && Elements(r.blocks) == KeySet(store[r.frame].depth, kinv, store[r.frame].pose.value, s)
  }

  /** `results` holds one correct result per found frame below `frame`, in order. */
  ghost predicate ResultsUpTo(store: seq<StoredFrame>, kinv: Mat3, s: Settings, frame: nat, results: seq<FrameResult>)
    requires ValidSettings(s)
  {
    && |results| == |FoundFrames(store, frame)|
    && (forall k :: 0 <= k < |results| ==> results[k].frame == FoundFrames(store, frame)[k])
    && (forall k :: 0 <= k < |results| ==> Categorized(store, kinv, s, results[k]))
  }

  lemma MissKeepsResults(store: seq<StoredFrame>, kinv: Mat3, s: Settings, frame: nat, results: seq<FrameResult>)
    requires ValidSettings(s)
    requires ResultsUpTo(store, kinv, s, frame, results) && !Found(store, frame)
    ensures ResultsUpTo(store, kinv, s, frame + 1, results)
  {
    MissStep(store, frame);
  }

  lemma FoundExtendsResults(store: seq<StoredFrame>, kinv: Mat3, s: Settings, frame: nat,
                            results: seq<FrameResult>, blocks: seq<string>)
    requires ValidSettings(s)
    requires ResultsUpTo(store, kinv, s, frame, results) && Found(store, frame)
    requires Sorted(blocks, StringLess)
    requires Elements(blocks) == KeySet(store[frame].depth, kinv, store[frame].pose.value, s)
    ensures ResultsUpTo(store, kinv, s, frame + 1, results + [FrameResult(frame, blocks)])
  {
    FoundStep(store, frame);
  }

  /** The counter counts the misses right before `f`: that many frames before
      `f` are misses, and the one before them, if any, was found. */
  lemma {:induction false} MissRunSpec(store: seq<StoredFrame>, f: nat)
    ensures MissRun(store, f) <= f
    ensures forall g :: f - MissRun(store, f) <= g < f ==> !Found(store, g)
    ensures MissRun(store, f) < f ==> Found(store, f - MissRun(store, f) - 1)
  {
    if f > 0 && !Found(store, f - 1) {
      MissRunSpec(store, f - 1);
    }
  }

  /** The scan stops at `f` exactly when `f` closes a run of 31 misses. */
  lemma StopsIffMisses(store: seq<StoredFrame>, f: nat)
    ensures Stops(store, f) <==> f >= MaxMisses && forall g :: f - MaxMisses <= g <= f ==> !Found(store, g)
  {
    MissRunSpec(store, f);
  }

  /** Once the counter is past 30 some earlier frame already stopped the scan. */
  lemma MissRunPastLimit(store: seq<StoredFrame>, f: nat)
    requires MissRun(store, f) > MaxMisses
    ensures f > 0 && Stops(store, f - 1)
  {
  }

  /** Past the stored frames every id is a miss. */
  lemma {:induction false} MissRunBeyond(store: seq<StoredFrame>, f: nat)
    requires f >= |store|
    ensures MissRun(store, f) >= f - |store|
  {
    if f > |store| {
      MissRunBeyond(store, f - 1);
    }
  }

  /** The found frames below `n` are listed once each, in increasing order,
      and are exactly the found ids below `n`. */
  lemma FoundFramesSpec(store: seq<StoredFrame>, n: nat)
    ensures forall i, j :: 0 <= i < j < |FoundFrames(store, n)| ==> FoundFrames(store, n)[i] < FoundFrames(store, n)[j]
    ensures forall g: nat :: g in FoundFrames(store, n) <==> g < n && Found(store, g)
  {
    FoundFramesMembers(store, n);
    FoundFramesIncreasing(store, n);
  }

  lemma {:induction false} FoundFramesMembers(store: seq<StoredFrame>, n: nat)
    ensures forall g: nat :: g in FoundFrames(store, n) <==> g < n && Found(store, g)
  {
    if n > 0 {
      FoundFramesMembers(store, n - 1);
      if Found(store, n - 1) {
        FoundStep(store, n - 1);
      } else {
        MissStep(store, n - 1);
      }
    }
  }

  lemma {:induction false} FoundFramesIncreasing(store: seq<StoredFrame>, n: nat)
    ensures forall i, j :: 0 <= i < j < |FoundFrames(store, n)| ==> FoundFrames(store, n)[i] < FoundFrames(store, n)[j]
  {
    if n > 0 {
      FoundFramesIncreasing(store, n - 1);
      var prev := FoundFrames(store, n - 1);
      if Found(store, n - 1) {
        FoundFramesMembers(store, n - 1);
        forall i | 0 <= i < |prev| ensures prev[i] < n - 1 {
          assert prev[i] in prev;
        }
        FoundStep(store, n - 1);
      } else {
        MissStep(store, n - 1);
      }
    }
  }

  lemma ScanWritesAppend(folderPath: string, results: seq<FrameResult>, r: FrameResult)
    ensures ScanWrites(folderPath, results + [r])
         == ScanWrites(folderPath, results) + FrameWrites(folderPath, r.blocks, r.frame)
  {
    assert (results + [r])[..|results|] == results;
  }

  /** The main loop of the categorizer over the frames of `store`: `last` is
      the frame at which it stops, `results` holds the blocks of each
      processed frame, and `writes` what it puts on disk. */
  method Scan(store: seq<StoredFrame>, camera: Camera, s: Settings)
    returns (last: nat, results: seq<FrameResult>, writes: seq<Write>)
    requires ValidSettings(s)
    ensures Stops(store, last) && forall g: nat :: g < last ==> !Stops(store, g)
    ensures last <= |store| + MaxMisses
    ensures ResultsUpTo(store, InverseIntrinsics(camera.fx, camera.fy, camera.cx, camera.cy), s, last, results)
    ensures writes == ScanWrites(s.folderPath, results)
  {
    var kinv := InverseIntrinsics(camera.fx, camera.fy, camera.cx, camera.cy);
    writes := [CreateFolder(s.folderPath + CategorizedFolder)];
    results := [];
    var empty: nat := 0;
    var frame: nat := 0;
    while true
      invariant empty == MissRun(store, frame) && empty <= MaxMisses
      invariant frame <= |store| + MaxMisses
      invariant forall g: nat :: g < frame ==> !Stops(store, g)
      invariant ResultsUpTo(store, kinv, s, frame, results)
      invariant writes == ScanWrites(s.folderPath, results)
      decreases |store| + MaxMisses + 1 - frame
    {
      var stored := if frame < |store| then store[frame] else StoredFrame(Mat(0, 0, []), None);
      if stored.depth.rows == 0 || stored.pose.None? {
        MissStep(store, frame);
        MissKeepsResults(store, kinv, s, frame, results);
        empty := empty + 1;
        frame := frame + 1;
        if empty > MaxMisses {
          last := frame - 1;
          return;
        }
        if frame > |store| {
          MissRunBeyond(store, frame);
        }
        continue;
      }
      FoundStep(store, frame);
      empty := 0;
      var blocks := Categorize(stored.depth, kinv, stored.pose.value, s);
      var copies := WriteToFolders(s.folderPath, blocks, frame);
      FoundExtendsResults(store, kinv, s, frame, results, blocks);
      ScanWritesAppend(s.folderPath, results, FrameResult(frame, blocks));
      writes := writes + copies;
      results := results + [FrameResult(frame, blocks)];
      frame := frame + 1;
    }
  }

  /** A store in which no frame is found makes the scan give up after
      frames 0 to 30, having processed nothing. */
  lemma NothingFoundStopsAtThirty(store: seq<StoredFrame>)
    requires forall g: nat :: !Found(store, g)
    ensures Stops(store, MaxMisses) && forall g: nat :: g < MaxMisses ==> !Stops(store, g)
    ensures FoundFrames(store, MaxMisses) == []
  {
    forall g: nat ensures MissRun(store, g) == g {
      MissRunSpec(store, g);
      NoMissResets(store, g);
    }
    NoFoundFrames(store, MaxMisses);
  }

  lemma {:induction false} NoFoundFrames(store: seq<StoredFrame>, n: nat)
    requires forall h: nat :: !Found(store, h)
    ensures FoundFrames(store, n) == []
  {
    if n > 0 {
      NoFoundFrames(store, n - 1);
    }
  }

  lemma {:induction false} NoMissResets(store: seq<StoredFrame>, g: nat)
    requires forall h: nat :: !Found(store, h)
    ensures MissRun(store, g) == g
  {
    if g > 0 {
      NoMissResets(store, g - 1);
    }
  }

  lemma MissStep(store: seq<StoredFrame>, f: nat)
    requires !Found(store, f)
    ensures MissRun(store, f + 1) == MissRun(store, f) + 1
    ensures FoundFrames(store, f + 1) == FoundFrames(store, f)
  {
  }

  lemma FoundStep(store: seq<StoredFrame>, f: nat)
    requires Found(store, f)
    ensures MissRun(store, f + 1) == 0
    ensures FoundFrames(store, f + 1) == FoundFrames(store, f) + [f]
  {
  }
}
