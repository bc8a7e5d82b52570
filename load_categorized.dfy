/** The offline reconstruction driver: it lists the block folders under
    `frames_categorized/`, reads each block's origin back from its folder
    name, drops blocks whose origin is out of range, and feeds the frames of
    each remaining block, by ascending id, to a fusion engine that is
    started, stopped, saved and cleared once per block. */
module LoadCategorized {
  import opened OrderedSet
  import opened Decimal
  import Text

  // ---------------------------------------------------------------------
  // Directory listings (`getFiles`)

  /** What `readdir` returns for each directory that `opendir` can open, in
      the order it returns the entries; a path that is not a key cannot be
      opened. */
  type FileSystem = map<string, seq<string>>

  /** The entries whose `length()` exceeds two, in listing order; this drops
      "." and "..". `length()` counts the bytes of the UTF-8 text, not its
      characters. */
  function LongNames(listing: seq<string>): (r: seq<string>)
    ensures forall n :: n in r <==> n in listing && Text.ByteLength(n) > 2
  {
    if |listing| == 0 then []
    else LongNames(listing[..|listing| - 1]) + (if Text.ByteLength(listing[|listing| - 1]) > 2 then [listing[|listing| - 1]] else [])
  }

  /** The set `getFiles` builds for `path`: the long names of its listing,
      in string order, or nothing when the directory cannot be opened. */
  function Listing(fs: FileSystem, path: string): seq<string>
  {
    StringLessIsStrictTotalOrder();
    if path in fs then InsertAll(LongNames(fs[path]), StringLess) else []
  }

  /** The listing of `path` is sorted, holds exactly the names of byte
      length greater than two that `readdir` returned, and so never "." or
      "..". */
  lemma ListingSpec(fs: FileSystem, path: string)
    ensures Sorted(Listing(fs, path), StringLess)
    ensures forall n :: n in Listing(fs, path) <==> path in fs && n in fs[path] && Text.ByteLength(n) > 2
    ensures "." !in Listing(fs, path) && ".." !in Listing(fs, path)
  {
    StringLessIsStrictTotalOrder();
    if path in fs {
      assert forall n :: n in Listing(fs, path) <==> n in Elements(LongNames(fs[path]));
    }
  }

  /** The test counts bytes: a two-character name whose characters take
      two bytes each is kept, while "." and ".." are dropped. */
  lemma LongNamesCountBytes()
    ensures var r := LongNames([".", "..", "\U{E9}\U{E9}"]);
      "\U{E9}\U{E9}" in r && "." !in r && ".." !in r
  {
    ExampleByteLengths();
  }

  lemma ExampleByteLengths()
    ensures Text.ByteLength(".") == 1 && Text.ByteLength("..") == 2
    ensures Text.ByteLength("\U{E9}\U{E9}") == 4
  {
    assert "\U{E9}\U{E9}"[1..] == "\U{E9}";
    assert "\U{E9}"[1..] == "";
  }

  lemma LongNamesStep(listing: seq<string>, k: int)
    requires 0 <= k < |listing|
    ensures LongNames(listing[..k + 1])
         == LongNames(listing[..k]) + (if Text.ByteLength(listing[k]) > 2 then [listing[k]] else [])
  {
    assert listing[..k + 1][..k] == listing[..k];
  }

  /** `getFiles`: reads the listing once, inserting each name whose byte
      length exceeds two and counting them; an unopenable directory gives the
      empty set and a count of zero. */
  method GetFiles(fs: FileSystem, path: string) returns (files: seq<string>, count: nat)
    ensures files == Listing(fs, path)
    ensures count == if path in fs then |LongNames(fs[path])| else 0
  {
    StringLessIsStrictTotalOrder();
    files := [];
    count := 0;
    if path in fs {
      var listing := fs[path];
      for k := 0 to |listing|
        invariant files == InsertAll(LongNames(listing[..k]), StringLess)
        invariant count == |LongNames(listing[..k])|
      {
        var name := listing[k];
        LongNamesStep(listing, k);
        if Text.ByteLength(name) > 2 {
          assert LongNames(listing[..k + 1]) == LongNames(listing[..k]) + [name];
          InsertAllAppend(LongNames(listing[..k]), name, StringLess);
          files := Insert(files, name, StringLess);
          count := count + 1;
        } else {
          assert LongNames(listing[..k + 1]) == LongNames(listing[..k]) + [];
          assert LongNames(listing[..k]) + [] == LongNames(listing[..k]);
        }
      }
      assert listing[..|listing|] == listing;
    }
  }

  // ---------------------------------------------------------------------
  // Block origins (`getOrigin`)

  const Delimiter: char := '_'

  /** `atof` of each piece, in order. */
  function ParseAll(ts: seq<string>): (r: seq<real>)
    ensures |r| == |ts|
    ensures forall i :: 0 <= i < |ts| ==> r[i] == Atof(ts[i])
  {
    if |ts| == 0 then [] else [Atof(ts[0])] + ParseAll(ts[1..])
  }

  /** The origin values of a block folder name: `atof` of each `'_'`-free
      piece between delimiters. */
  function Origin(name: string): (r: seq<real>)
    ensures |r| == Text.Count(name, Delimiter) + 1
  {
    Text.TokensSpec(name, Delimiter);
    ParseAll(Text.Tokens(name, Delimiter))
  }

  /** One value per delimiter plus one, each read from its piece in order,
      and an empty piece (two '_' in a row, or one at either end) reads as 0. */
  lemma OriginSpec(name: string)
    ensures |Origin(name)| == Text.Count(name, Delimiter) + 1
    ensures forall i :: 0 <= i < |Origin(name)| ==> Origin(name)[i] == Atof(Text.Tokens(name, Delimiter)[i])
    ensures forall i :: 0 <= i < |Origin(name)| && Text.Tokens(name, Delimiter)[i] == "" ==> Origin(name)[i] == 0.0
  {
    Text.TokensSpec(name, Delimiter);
    LeadingIntNoDigits("");
  }

  /** `getOrigin`: while the remaining text holds a '_', reads the number
      before it and erases through it; the rest is the last number. */
  method GetOrigin(origin: string) returns (originF: seq<real>)
    ensures originF == Origin(origin)
  {
    var rest := origin;
    originF := [];
    while Text.Find(rest, Delimiter) != |rest|
      invariant originF + Origin(rest) == Origin(origin)
      decreases |rest|
    {
      var pos := Text.Find(rest, Delimiter);
      assert Text.Tokens(rest, Delimiter) == [rest[..pos]] + Text.Tokens(rest[pos + 1..], Delimiter);
      originF := originF + [Atof(rest[..pos])];
      rest := rest[pos + 1..];
    }
    assert Text.Tokens(rest, Delimiter) == [rest];
    originF := originF + [Atof(rest)];
  }

  /** The sanity bound on each origin value. */
  const OriginBound: real := 9.0

  /** `std::abs` of a float. */
  function Abs(x: real): (r: real)
    ensures r >= 0.0 && (r == x || r == -x)
    ensures r > OriginBound <==> x > OriginBound || x < -OriginBound
  {
    if x < 0.0 then -x else x
  }

  /** The three range checks, made in order, never read past the values
      read: a value is only looked at when every value before it was in
      range. */
  predicate Readable(o: seq<real>)
  {
    |o| >= 1 && (Abs(o[0]) > OriginBound || (|o| >= 2 && (Abs(o[1]) > OriginBound || |o| >= 3)))
  }

  /** The block is dropped when one of its first three origin values, checked
      in order, is farther than the bound from zero. */
  predicate Skipped(o: seq<real>)
    requires Readable(o)
  {
    Abs(o[0]) > OriginBound || Abs(o[1]) > OriginBound || Abs(o[2]) > OriginBound
  }

  // ---------------------------------------------------------------------
  // Frame ids

  /** The id of a frame file: `atoi` of the name up to its first '.'. */
  function FrameId(name: string): int
  {
    Atoi(Text.Before(name, '.'))
  }

  /** The set of ids of the frame files, in increasing order. */
  function FrameIds(names: seq<string>): seq<int>
  {
    IntLessIsStrictTotalOrder();
    InsertAll(IdsOf(names), IntLess)
  }

  function IdsOf(names: seq<string>): (ids: seq<int>)
    ensures |ids| == |names|
    ensures forall i :: 0 <= i < |names| ==> ids[i] == FrameId(names[i])
  {
    if |names| == 0 then [] else IdsOf(names[..|names| - 1]) + [FrameId(names[|names| - 1])]
  }

  /** The ids are strictly increasing, and each is the id of some file and
      every file's id is among them. */
  lemma FrameIdsSpec(names: seq<string>)
    ensures forall i, j :: 0 <= i < j < |FrameIds(names)| ==> FrameIds(names)[i] < FrameIds(names)[j]
    ensures forall id :: id in FrameIds(names) <==> exists n :: n in names && FrameId(n) == id
  {
    IntLessIsStrictTotalOrder();
    var ids := IdsOf(names);
    forall id ensures id in FrameIds(names) <==> exists n :: n in names && FrameId(n) == id {
      assert id in FrameIds(names) <==> id in Elements(ids);
      if id in ids {
        var i :| 0 <= i < |ids| && ids[i] == id;
        assert names[i] in names;
      }
    }
  }

  /** The names `to_string(id) + ".png"` that the categorizer writes read
      back as `id`. */
  lemma FrameIdOfFileName(id: nat, ext: string)
    requires |ext| > 0 && ext[0] == '.'
    ensures FrameId(IntToString(id) + ext) == id
  {
    var s := IntToString(id);
    assert '.' !in s by {
      IntToStringIsDecimal(id);
      assert forall k :: 0 <= k < |s| ==> IsDigit(s[k]);
    }
    Text.FindAfterFree(s, ext[1..], '.');
    assert s + ext == s + ['.'] + ext[1..];
    assert Text.Before(s + ext, '.') == s;
    LeadingIntOfIntToString(id);
  }

  /** The `tframes` loop: each file's id inserted into a `std::set<int>`. */
  method CollectFrameIds(frames: seq<string>) returns (tframes: seq<int>)
    ensures tframes == FrameIds(frames)
  {
    IntLessIsStrictTotalOrder();
    tframes := [];
    for k := 0 to |frames|
      invariant tframes == InsertAll(IdsOf(frames[..k]), IntLess)
    {
      var frameC := frames[k];
      var tframe := Atoi(Text.Before(frameC, '.'));
      assert IdsOf(frames[..k + 1]) == IdsOf(frames[..k]) + [tframe] by {
        assert frames[..k + 1][..k] == frames[..k];
      }
      assert IdsOf(frames[..k]) + [tframe] == IdsOf(frames[..k + 1]);
      tframes := Insert(tframes, tframe, IntLess);
    }
    assert frames[..|frames|] == frames;
  }

  // ---------------------------------------------------------------------
  // The fusion engine, seen through the calls made on it

  /** One call the driver makes on a frame loader or a fusion engine. */
  datatype Event =
    | SaveFrameCreated(folder: string)
    | GeneratorCreated(settingsFile: string, originX: real, originY: real, originZ: real)
    | Started
    | Pushed(frameId: int)
    | StopRequested
    | PlySaved
    | TsdfCleared
    | GeneratorDeleted
    | SaveFrameDeleted

  /** The calls made so far, in order, on every engine and loader. */
  class FusionLog {
    var events: seq<Event>

    constructor()
      ensures events == []
    {
      events := [];
    }
  }

  /** A loaded key frame; its images and pose are not modelled. */
  datatype RGBDFrame = RGBDFrame(frameId: int)

  /** `ark::SaveFrame`: reads the key frames stored under one block folder. */
  class SaveFrame {
    const log: FusionLog
    const folder: string

    constructor(folder: string, log: FusionLog)
      modifies log
      ensures this.log == log && this.folder == folder
      ensures log.events == old(log.events) + [SaveFrameCreated(folder)]
    {
      this.log := log;
      this.folder := folder;
      new;
      log.events := log.events + [SaveFrameCreated(folder)];
    }

    /** `frameLoad`: the frame stored under id `frameId`. */
    method FrameLoad(frameId: int) returns (frame: RGBDFrame)
      ensures frame.frameId == frameId
    {
      frame := RGBDFrame(frameId);
    }

    /** `delete saveFrame`. */
    method Delete()
      modifies log
      ensures log.events == old(log.events) + [SaveFrameDeleted]
    {
      log.events := log.events + [SaveFrameDeleted];
    }
  }

  /** `ark::PointCloudGenerator`: a TSDF fusion engine for one block, only
      through the calls the driver makes on it. */
  class PointCloudGenerator {
    const log: FusionLog

    constructor(settingsFile: string, originX: real, originY: real, originZ: real, log: FusionLog)
      modifies log
      ensures this.log == log
      ensures log.events == old(log.events) + [GeneratorCreated(settingsFile, originX, originY, originZ)]
    {
      this.log := log;
      new;
      log.events := log.events + [GeneratorCreated(settingsFile, originX, originY, originZ)];
    }

    method Start()
      modifies log
      ensures log.events == old(log.events) + [Started]
    {
      log.events := log.events + [Started];
    }

    method PushFrame(frame: RGBDFrame)
      modifies log
      ensures log.events == old(log.events) + [Pushed(frame.frameId)]
    {
      log.events := log.events + [Pushed(frame.frameId)];
    }

    method RequestStop()
      modifies log
      ensures log.events == old(log.events) + [StopRequested]
    {
      log.events := log.events + [StopRequested];
    }

    method SavePly()
      modifies log
      ensures log.events == old(log.events) + [PlySaved]
    {
      log.events := log.events + [PlySaved];
    }

    method ClearTSDF()
      modifies log
      ensures log.events == old(log.events) + [TsdfCleared]
    {
      log.events := log.events + [TsdfCleared];
    }

    /** `delete pointCloudGenerator`. */
    method Delete()
      modifies log
      ensures log.events == old(log.events) + [GeneratorDeleted]
    {
      log.events := log.events + [GeneratorDeleted];
    }
  }

  // ---------------------------------------------------------------------
  // The driver (`application_thread`)

  /** The folder appended to the frames path to find the blocks. */
  const CategorizedSuffix: string := "/frames_categorized/"

  /** Fewer RGB entries than this and the block is not fused. */
  const MinFrames: nat := 3

  /** A block folder name whose range checks stay within the values read
      from it: it holds three values, or one it does hold is out of range
      first. */
  predicate HasOrigin(origin: string)
  {
    Readable(Origin(origin))
  }

  /** `Pushed` for each id, in order. */
  function Pushes(ids: seq<int>): (r: seq<Event>)
    ensures |r| == |ids|
    ensures forall i :: 0 <= i < |ids| ==> r[i] == Pushed(ids[i])
  {
    if |ids| == 0 then [] else [Pushed(ids[0])] + Pushes(ids[1..])
  }

  /** The calls before the frame count is known: the loader of `folder` and
      the engine at origin `o` are made, and the engine is started. */
  function Opening(folder: string, settingsFile: string, o: seq<real>): seq<Event>
    requires |o| >= 3
  {
    [SaveFrameCreated(folder), GeneratorCreated(settingsFile, o[0], o[1], o[2]), Started]
  }

  /** The calls after the last frame: stop, save, clear, then both deletes. */
  function Closing(): seq<Event>
  {
    [StopRequested, PlySaved, TsdfCleared, GeneratorDeleted, SaveFrameDeleted]
  }

  /** The calls made for a block stored in `folder` with origin values `o`
      whose RGB folder lists `frames`. */
  function BlockCalls(folder: string, settingsFile: string, o: seq<real>, frames: seq<string>): seq<Event>
    requires Readable(o)
  {
    if Skipped(o) then []
    else if |frames| < MinFrames then Opening(folder, settingsFile, o)
    else Opening(folder, settingsFile, o) + Pushes(FrameIds(frames)) + Closing()
  }

  /** The calls made for the block folder `origin` under `directoryName`. */
  function BlockTrace(fs: FileSystem, directoryName: string, settingsFile: string, origin: string): seq<Event>
    requires HasOrigin(origin)
  {
    BlockCalls(directoryName + origin + "/", settingsFile, Origin(origin), Listing(fs, directoryName + origin + "/RGB/"))
  }

  /** The calls made for the blocks in order. */
  function RunTrace(fs: FileSystem, directoryName: string, settingsFile: string, blocks: seq<string>): seq<Event>
    requires forall k :: 0 <= k < |blocks| ==> HasOrigin(blocks[k])
  {
    if |blocks| == 0 then []
    else RunTrace(fs, directoryName, settingsFile, blocks[..|blocks| - 1])
         + BlockTrace(fs, directoryName, settingsFile, blocks[|blocks| - 1])
  }

  lemma RunTraceStep(before: seq<Event>, fs: FileSystem, directoryName: string, settingsFile: string,
                     blocks: seq<string>, i: int)
    requires forall k :: 0 <= k < |blocks| ==> HasOrigin(blocks[k])
    requires 0 <= i < |blocks|
    ensures before + RunTrace(fs, directoryName, settingsFile, blocks[..i + 1])
         == before + RunTrace(fs, directoryName, settingsFile, blocks[..i]) + BlockTrace(fs, directoryName, settingsFile, blocks[i])
  {
    assert blocks[..i + 1][..i] == blocks[..i];
    AppendAssoc3(before, RunTrace(fs, directoryName, settingsFile, blocks[..i]), BlockTrace(fs, directoryName, settingsFile, blocks[i]));
  }

  /** The frames of one block pushed to `generator` in order of id. */
  method PushFrames(saveFrame: SaveFrame, generator: PointCloudGenerator, tframes: seq<int>)
    requires saveFrame.log == generator.log
    modifies generator.log
    ensures generator.log.events == old(generator.log.events) + Pushes(tframes)
  {
    var log := generator.log;
    ghost var before := log.events;
    for j := 0 to |tframes|
      invariant log.events == before + Pushes(tframes[..j])
    {
      var frame := saveFrame.FrameLoad(tframes[j]);
      generator.PushFrame(frame);
      assert Pushes(tframes[..j + 1]) == Pushes(tframes[..j]) + [Pushed(tframes[j])];
    }
    assert tframes[..|tframes|] == tframes;
  }

  lemma ClosingParts(es: seq<Event>)
    ensures es + [StopRequested] + [PlySaved] + [TsdfCleared] + [GeneratorDeleted] + [SaveFrameDeleted] == es + Closing()
  {
  }

  lemma AppendAssoc(a: seq<Event>, b: seq<Event>, c: seq<Event>, d: seq<Event>)
    ensures a + b + c + d == a + (b + c + d)
  {
  }

  lemma AppendAssoc3(a: seq<Event>, b: seq<Event>, c: seq<Event>)
    ensures a + b + c == a + (b + c)
  {
  }

  lemma OpeningParts(es: seq<Event>, opening: seq<Event>)
    requires |opening| == 3
    ensures es + [opening[0]] + [opening[1]] + [opening[2]] == es + opening
  {
  }

  /** The frames of a block with enough of them: their ids are collected
      into a set, each is loaded and pushed in increasing order, and the
      engine is stopped, saved, cleared and deleted, then the loader. */
  method FuseFrames(saveFrame: SaveFrame, generator: PointCloudGenerator, frames: seq<string>)
    requires saveFrame.log == generator.log
    modifies generator.log
    ensures generator.log.events == old(generator.log.events) + Pushes(FrameIds(frames)) + Closing()
  {
    var tframes := CollectFrameIds(frames);
    PushFrames(saveFrame, generator, tframes);
    ghost var pushed := generator.log.events;
    generator.RequestStop();
    generator.SavePly();
    generator.ClearTSDF();
    generator.Delete();
    saveFrame.Delete();
    assert generator.log.events
        == pushed + [StopRequested] + [PlySaved] + [TsdfCleared] + [GeneratorDeleted] + [SaveFrameDeleted];
    ClosingParts(pushed);
  }

  /** One turn of the driver's loop: the block `origin` is skipped when it
      is out of range, left after starting its engine when it has fewer
      than three RGB entries, and fused otherwise. */
  method ProcessBlock(fs: FileSystem, directoryName: string, settingsFile: string, origin: string, log: FusionLog)
    requires HasOrigin(origin)
    modifies log
    ensures log.events == old(log.events) + BlockTrace(fs, directoryName, settingsFile, origin)
  {
    ghost var before := log.events;
    var originF := GetOrigin(origin);
    OriginSpec(origin);
    ghost var trace := BlockCalls(directoryName + origin + "/", settingsFile, originF,
                                  Listing(fs, directoryName + origin + "/RGB/"));
    if Abs(originF[0]) > OriginBound {
      return;
    }
    if Abs(originF[1]) > OriginBound {
      return;
    }
    if Abs(originF[2]) > OriginBound {
      return;
    }
    ghost var opening := Opening(directoryName + origin + "/", settingsFile, originF);
    var saveFrame := new SaveFrame(directoryName + origin + "/", log);
    var generator := new PointCloudGenerator(settingsFile, originF[0], originF[1], originF[2], log);
    generator.Start();
    assert log.events == before + [opening[0]] + [opening[1]] + [opening[2]];
    OpeningParts(before, opening);
    var frames, _ := GetFiles(fs, directoryName + origin + "/RGB/");
    if |frames| < MinFrames {
      assert trace == opening;
      return;
    }
    assert trace == opening + Pushes(FrameIds(frames)) + Closing();
    ghost var started := log.events;
    FuseFrames(saveFrame, generator, frames);
    AppendAssoc(before, opening, Pushes(FrameIds(frames)), Closing());
  }

  /** `application_thread`: each block folder under `directoryName`, in the
      set's order, is checked, and the blocks in range are fused one after
      another. The range checks of every block folder name stay within the
      values read from it. */
  method ApplicationThread(fs: FileSystem, directoryName: string, settingsFile: string, log: FusionLog)
    requires forall name :: name in Listing(fs, directoryName) ==> HasOrigin(name)
    modifies log
    ensures log.events == old(log.events) + RunTrace(fs, directoryName, settingsFile, Listing(fs, directoryName))
  {
    var blocks, _ := GetFiles(fs, directoryName);
    ghost var before := log.events;
    assert forall k :: 0 <= k < |blocks| ==> HasOrigin(blocks[k]) by {
      assert forall k :: 0 <= k < |blocks| ==> blocks[k] in blocks;
    }
    for i := 0 to |blocks|
      invariant log.events == before + RunTrace(fs, directoryName, settingsFile, blocks[..i])
    {
      ProcessBlock(fs, directoryName, settingsFile, blocks[i], log);
      RunTraceStep(before, fs, directoryName, settingsFile, blocks, i);
    }
    assert blocks[..|blocks|] == blocks;
  }

  // ---------------------------------------------------------------------
  // What the driver promises about each block

  /** The ids of the `Pushed` events, in order. */
  function PushedIds(es: seq<Event>): seq<int>
  {
    if |es| == 0 then [] else (if es[0].Pushed? then [es[0].frameId] else []) + PushedIds(es[1..])
  }

  lemma {:induction false} PushedIdsAppend(a: seq<Event>, b: seq<Event>)
    ensures PushedIds(a + b) == PushedIds(a) + PushedIds(b)
  {
    if |a| > 0 {
      assert (a + b)[1..] == a[1..] + b;
      PushedIdsAppend(a[1..], b);
    } else {
      assert a + b == b;
    }
  }

  lemma {:induction false} NoPushes(es: seq<Event>)
    requires forall i :: 0 <= i < |es| ==> !es[i].Pushed?
    ensures PushedIds(es) == []
  {
    if |es| > 0 {
      NoPushes(es[1..]);
    }
  }

  lemma OpeningPushesNothing(folder: string, settingsFile: string, o: seq<real>)
    requires |o| >= 3
    ensures PushedIds(Opening(folder, settingsFile, o)) == []
  {
    NoPushes(Opening(folder, settingsFile, o));
  }

  lemma ClosingPushesNothing()
    ensures PushedIds(Closing()) == []
  {
    NoPushes(Closing());
  }

  lemma {:induction false} PushedIdsOfPushes(ids: seq<int>)
    ensures PushedIds(Pushes(ids)) == ids
  {
    if |ids| > 0 {
      assert Pushes(ids)[1..] == Pushes(ids[1..]);
      PushedIdsOfPushes(ids[1..]);
    }
  }

  /** The bound check: a block is dropped exactly when one of its first three
      origin values lies outside `[-9, 9]`; a value of exactly 9 or -9 is kept,
      and a block with fewer than three values is dropped. */
  lemma SkippedIffOutOfRange(o: seq<real>)
    requires Readable(o)
    ensures Skipped(o) <==> exists k :: 0 <= k < 3 && k < |o| && (o[k] < -OriginBound || o[k] > OriginBound)
    ensures |o| < 3 ==> Skipped(o)
  {
    if Skipped(o) {
      var k := if Abs(o[0]) > OriginBound then 0 else if Abs(o[1]) > OriginBound then 1 else 2;
      assert o[k] < -OriginBound || o[k] > OriginBound;
    }
  }

  /** Names with fewer than three values: "15" and "3_20" are read safely and
      dropped, because a value they hold is out of range before a missing
      one would be looked at; "1_2" passes both of its checks and would be
      read past its end. */
  lemma ShortNames()
    ensures HasOrigin("15") && Origin("15") == [15.0] && Skipped(Origin("15"))
    ensures HasOrigin("3_20") && Origin("3_20") == [3.0, 20.0] && Skipped(Origin("3_20"))
    ensures !HasOrigin("1_2")
  {
    OriginSpec("15");
    OriginSpec("3_20");
    OriginSpec("1_2");
    assert Text.Tokens("15", Delimiter) == ["15"];
    assert Text.Find("3_20", Delimiter) == 1;
    assert "3_20"[..1] == "3" && "3_20"[2..] == "20";
    assert Text.Tokens("20", Delimiter) == ["20"];
    assert Text.Find("1_2", Delimiter) == 1;
    assert "1_2"[..1] == "1" && "1_2"[2..] == "2";
    assert Text.Tokens("2", Delimiter) == ["2"];
  }

  /** A dropped block makes no loader, no engine and no call at all; a kept
      block always starts its engine, right after making both. */
  lemma SkippedBlockIsSilent(folder: string, settingsFile: string, o: seq<real>, frames: seq<string>)
    requires Readable(o)
    ensures var calls := BlockCalls(folder, settingsFile, o, frames);
      && (calls == [] <==> Skipped(o))
      && (Started in calls <==> !Skipped(o))
      && (!Skipped(o) ==> calls[..3] == Opening(folder, settingsFile, o))
  {
    var calls := BlockCalls(folder, settingsFile, o, frames);
    if !Skipped(o) {
      var opening := Opening(folder, settingsFile, o);
      if |frames| >= MinFrames {
        assert calls == opening + (Pushes(FrameIds(frames)) + Closing());
      }
      assert calls[..3] == opening;
      assert calls[2] == Started;
    }
  }

  /** A kept block with fewer than three RGB entries is left right after its
      engine is started: nothing is pushed, the engine is never stopped,
      saved or cleared, and neither object is deleted. */
  lemma ShortBlockOnlyStarts(folder: string, settingsFile: string, o: seq<real>, frames: seq<string>)
    requires Readable(o) && !Skipped(o)
    requires |frames| < MinFrames
    ensures var calls := BlockCalls(folder, settingsFile, o, frames);
      && calls == Opening(folder, settingsFile, o)
      && PushedIds(calls) == []
      && StopRequested !in calls && PlySaved !in calls && TsdfCleared !in calls
      && GeneratorDeleted !in calls && SaveFrameDeleted !in calls
  {
    OpeningPushesNothing(folder, settingsFile, o);
  }

  /** A kept block with at least three RGB entries: the engine is made and
      started, the frames are pushed once each by strictly increasing id,
      the ids pushed being exactly the ids of the RGB files, and the engine is
      then stopped, saved, cleared and deleted, and the loader deleted. */
  lemma FusedBlockTrace(folder: string, settingsFile: string, o: seq<real>, frames: seq<string>)
    requires Readable(o) && !Skipped(o)
    requires |frames| >= MinFrames
    ensures var calls := BlockCalls(folder, settingsFile, o, frames);
      var ids := PushedIds(calls);
      && calls == Opening(folder, settingsFile, o) + Pushes(ids) + Closing()
      && (forall i, j :: 0 <= i < j < |ids| ==> ids[i] < ids[j])
      && (forall id :: id in ids <==> exists n :: n in frames && FrameId(n) == id)
  {
    var opening := Opening(folder, settingsFile, o);
    var ids := FrameIds(frames);
    var calls := opening + Pushes(ids) + Closing();
    assert BlockCalls(folder, settingsFile, o, frames) == calls;
    PushedIdsAppend(opening + Pushes(ids), Closing());
    PushedIdsAppend(opening, Pushes(ids));
    PushedIdsOfPushes(ids);
    OpeningPushesNothing(folder, settingsFile, o);
    ClosingPushesNothing();
    assert PushedIds(opening + Pushes(ids)) == [] + ids;
    assert [] + ids == ids;
    assert PushedIds(calls) == ids + [];
    assert ids + [] == ids;
    FrameIdsSpec(frames);
  }
}
