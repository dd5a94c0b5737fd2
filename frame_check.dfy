/** CheckValidity of the graphics importer: before anything is imported, every PNG
    under the import folder is checked for a duplicate file name, for a frame
    number that does not fit an Int32, and, once per sprite, for a hole in the
    sprite's frame numbers. The listing of the folder is a parameter. */
module FrameCheck {
  import opened Wrappers
  import opened Text
  import opened SpriteNames

  datatype ValidityError =
    | DuplicateFile(count: nat, fileName: string)
    | InvalidFrameIndex(fileName: string)
    | MissingFrame(spriteName: string, frame: int)

  // ---------------------------------------------------------------------------
  // Sorted frame numbers and the first hole in them

  predicate Sorted(a: seq<int>) {
    forall i, j :: 0 <= i < j < |a| ==> a[i] <= a[j]
  }

  function Insert(x: int, a: seq<int>): (r: seq<int>)
    ensures multiset(r) == multiset(a) + multiset{x}
  {
    if a == [] || x <= a[0] then [x] + a
    else
      assert a == [a[0]] + a[1..];
      [a[0]] + Insert(x, a[1..])
  }

  lemma {:induction false} InsertSorted(x: int, a: seq<int>)
    requires Sorted(a)
    ensures Sorted(Insert(x, a))
  {
    if a != [] && x > a[0] {
      var tail := Insert(x, a[1..]);
      InsertSorted(x, a[1..]);
      forall k | 0 <= k < |tail| ensures a[0] <= tail[k] {
        assert tail[k] in multiset(tail);
        assert tail[k] == x || tail[k] in multiset(a[1..]);
        if tail[k] != x {
          var m :| 0 <= m < |a[1..]| && a[1..][m] == tail[k];
          assert a[m + 1] == tail[k];
        }
      }
    }
  }

  /** Enumerable.OrderBy on the frame numbers. */
  function Sort(a: seq<int>): (r: seq<int>)
    ensures Sorted(r) && multiset(r) == multiset(a)
  {
    if a == [] then []
    else
      assert a == [a[0]] + a[1..];
      InsertSorted(a[0], Sort(a[1..]));
      Insert(a[0], Sort(a[1..]))
  }

  /** Sorting frame numbers that are already in order leaves them as they are. */
  lemma {:induction false} SortOfSorted(a: seq<int>)
    requires Sorted(a)
    ensures Sort(a) == a
  {
    if a != [] {
      SortOfSorted(a[1..]);
      assert a == [a[0]] + a[1..];
    }
  }

  /** The frame after the first pair of neighbours more than 1 apart, from index `i` on. */
  function FirstGapFrom(a: seq<int>, i: nat): Option<int>
    decreases |a| - i
  {
    if i + 1 >= |a| then None
    else if a[i + 1] - a[i] > 1 then Some(a[i] + 1)
    else FirstGapFrom(a, i + 1)
  }

  function FirstGap(a: seq<int>): Option<int> {
    FirstGapFrom(a, 0)
  }

  /** The gap scan of CheckValidity over sorted frame numbers. */
  method FindMissingFrame(frames: seq<int>) returns (missing: Option<int>)
    ensures missing == FirstGap(frames)
  {
    for i := 0 to if |frames| == 0 then 0 else |frames| - 1
      invariant FirstGapFrom(frames, i) == FirstGap(frames)
    {
      var num := frames[i];
      var nextNum := frames[i + 1];
      if nextNum - num > 1 {
        return Some(num + 1);
      }
    }
    return None;
  }

  lemma {:induction false} FirstGapFromFacts(a: seq<int>, i: nat)
    requires Sorted(a) && i < |a|
    ensures FirstGapFrom(a, i) == None ==> forall n :: a[i] <= n <= a[|a| - 1] ==> n in a
    ensures FirstGapFrom(a, i).Some? ==>
      var g := FirstGapFrom(a, i).value;
      g !in a && g - 1 in a && g < a[|a| - 1] && forall n :: a[i] <= n < g ==> n in a
    decreases |a| - i
  {
    if i + 1 < |a| {
      if a[i + 1] - a[i] > 1 {
        var g := a[i] + 1;
        forall k | 0 <= k < |a| ensures a[k] != g {
          if k <= i { assert a[k] <= a[i]; } else { assert a[i + 1] <= a[k]; }
        }
        assert a[i + 1] <= a[|a| - 1];
      } else {
        FirstGapFromFacts(a, i + 1);
        assert a[i] in a;
      }
    }
  }

  /** The gap check passes on sorted frame numbers exactly when they cover every
      number from the smallest to the largest; when it fails, it names the smallest
      number missing between them. The smallest frame number need not be 0. */
  lemma FirstGapMeansMissing(a: seq<int>)
    requires Sorted(a) && a != []
    ensures FirstGap(a) == None <==> forall n :: a[0] <= n <= a[|a| - 1] ==> n in a
    ensures FirstGap(a).Some? ==>
      var g := FirstGap(a).value;
      a[0] < g < a[|a| - 1] && g !in a && forall n :: a[0] <= n < g ==> n in a
  {
    FirstGapFromFacts(a, 0);
    if FirstGap(a).Some? {
      var g := FirstGap(a).value;
      assert a[0] <= g - 1 by { var k :| 0 <= k < |a| && a[k] == g - 1; }
      assert a[0] <= g <= a[|a| - 1];
    }
  }

  // ---------------------------------------------------------------------------
  // The frames of one sprite

  /** The file-name pattern `{name}_*.png` handed to Directory.GetFiles. */
  predicate GlobMatches(fileName: string, name: string) {
    |fileName| >= |name| + 5 && fileName[..|name| + 1] == name + "_" &&
    fileName[|fileName| - 4..] == ".png"
  }

  /** The frame digits CheckValidity collects for sprite `name` as written: every
      listed file the pattern `{name}_*.png` matches and the frame pattern splits,
      whatever sprite name the frame pattern finds in it. */
  function FrameDigitsAsWritten(files: seq<string>, name: string): seq<string> {
    if files == [] then []
    else
      var rest := FrameDigitsAsWritten(files[1..], name);
      var m := MatchFrame(FileStem(files[0]));
      if GlobMatches(FileName(files[0]), name) && m.Some? then [m.value.1] + rest else rest
  }

  /** The frame digits of sprite `name`: as FrameDigitsAsWritten, keeping only the
      files whose sprite name is `name` itself. */
  function FrameDigits(files: seq<string>, name: string): seq<string> {
    if files == [] then []
    else
      var rest := FrameDigits(files[1..], name);
      var m := MatchFrame(FileStem(files[0]));
      if GlobMatches(FileName(files[0]), name) && m.Some? && m.value.0 == name then [m.value.1] + rest
      else rest
  }

  /** File `file` is a frame of sprite `name` itself, with frame digits `d`, and
      the pattern `{name}_*.png` lists it. */
  predicate OwnFrame(file: string, name: string, d: string) {
    GlobMatches(FileName(file), name) && MatchFrame(FileStem(file)) == Some((name, d))
  }

  /** The hole check of sprite `name` sees exactly the frame digits of the listed
      files that are frames of `name` itself. */
  lemma {:induction false} FrameDigitsOwn(files: seq<string>, name: string)
    ensures forall d :: d in FrameDigits(files, name) <==> exists i :: 0 <= i < |files| && OwnFrame(files[i], name, d)
  {
    if files != [] {
      FrameDigitsOwn(files[1..], name);
      forall d
        ensures d in FrameDigits(files, name) <==> exists i :: 0 <= i < |files| && OwnFrame(files[i], name, d)
      {
        FrameDigitsHead(files, name, d);
        OwnFrameInTail(files, name, d);
      }
    }
  }

  /** Some listed file is a frame of `name` with digits `d` exactly when the first
      one is or some later one is. */
  lemma OwnFrameInTail(files: seq<string>, name: string, d: string)
    requires files != []
    ensures (exists i :: 0 <= i < |files| && OwnFrame(files[i], name, d)) <==>
      OwnFrame(files[0], name, d) || exists i :: 0 <= i < |files[1..]| && OwnFrame(files[1..][i], name, d)
  {
    if exists i :: 0 <= i < |files| && OwnFrame(files[i], name, d) {
      var i :| 0 <= i < |files| && OwnFrame(files[i], name, d);
      if i > 0 {
        assert OwnFrame(files[1..][i - 1], name, d);
      }
    }
    if exists i :: 0 <= i < |files[1..]| && OwnFrame(files[1..][i], name, d) {
      var i :| 0 <= i < |files[1..]| && OwnFrame(files[1..][i], name, d);
      assert OwnFrame(files[i + 1], name, d);
    }
  }

  /** The first listed file adds its digits when it is a frame of `name`. */
  lemma FrameDigitsHead(files: seq<string>, name: string, d: string)
    requires files != []
    ensures d in FrameDigits(files, name) <==> OwnFrame(files[0], name, d) || d in FrameDigits(files[1..], name)
  {
    var m := MatchFrame(FileStem(files[0]));
    if GlobMatches(FileName(files[0]), name) && m.Some? && m.value.0 == name {
      assert FrameDigits(files, name) == [m.value.1] + FrameDigits(files[1..], name);
    } else {
      assert FrameDigits(files, name) == FrameDigits(files[1..], name);
    }
  }

  /** The frame numbers among the digit strings, those that do not fit an Int32
      dropped. */
  function ParseFrames(digits: seq<string>): seq<int> {
    if digits == [] then []
    else
      var rest := ParseFrames(digits[1..]);
      if AllDigits(digits[0]) && TryParseInt32Digits(digits[0]).Some? then
        [TryParseInt32Digits(digits[0]).value as int] + rest
      else rest
  }

  /** The hole check of one sprite over its frame digit strings: a sprite with a
      single frame file, or a single readable frame number, passes. */
  function GapCheck(name: string, digits: seq<string>): (r: Option<ValidityError>)
    ensures r.Some? ==> r.value.MissingFrame? && r.value.spriteName == name
  {
    if |digits| == 1 then None
    else
      var frames := Sort(ParseFrames(digits));
      if |frames| == 1 then None
      else match FirstGap(frames)
        case None => None
        case Some(g) => Some(MissingFrame(name, g))
  }

  // ---------------------------------------------------------------------------
  // The whole check

  /** The number of listed files with the file name `fileName`. */
  function CountFileName(files: seq<string>, fileName: string): nat {
    if files == [] then 0
    else (if FileName(files[0]) == fileName then 1 else 0) + CountFileName(files[1..], fileName)
  }

  /** The verdict CheckValidity reaches on one listed file. */
  function FileCheck(files: seq<string>, file: string, importUnknownAsSprite: bool): Option<ValidityError> {
    var t := GetSpriteType(file);
    var fileName := FileName(file);
    if t != Sprite && t != Background && !importUnknownAsSprite then None
    else if CountFileName(files, fileName) > 1 then Some(DuplicateFile(CountFileName(files, fileName), fileName))
    else if t == Background then None
    else SpriteFileCheck(files, file)
  }

  /** The verdict on a file taken as a sprite frame: nothing to check when the
      frame pattern does not match, an error when the frame number does not fit an
      Int32, otherwise the hole check of its sprite. */
  function SpriteFileCheck(files: seq<string>, file: string): Option<ValidityError> {
    FrameVerdict(files, FileName(file), MatchFrame(FileStem(file)))
  }

  /** The verdict on a sprite frame file named `fileName`, from what the frame
      pattern found in its stem. */
  function FrameVerdict(files: seq<string>, fileName: string, parts: Option<(string, string)>): Option<ValidityError>
    requires parts.Some? ==> AllDigits(parts.value.1)
  {
    match parts
    case None => None
    case Some((name, digits)) =>
      if TryParseInt32Digits(digits).None? then Some(InvalidFrameIndex(fileName))
      else GapCheck(name, FrameDigits(files, name))
  }

  /** The verdict on every listed file, in listing order. */
  function Verdicts(files: seq<string>, importUnknownAsSprite: bool): (vs: seq<Option<ValidityError>>)
    ensures |vs| == |files|
  {
    seq(|files|, j requires 0 <= j < |files| => FileCheck(files, files[j], importUnknownAsSprite))
  }

  /** The first verdict that is a problem, from index `i` on. */
  function FirstSome(vs: seq<Option<ValidityError>>, i: nat): Option<ValidityError>
    decreases |vs| - i
  {
    if i >= |vs| then None
    else if vs[i].Some? then vs[i] else FirstSome(vs, i + 1)
  }

  /** The hole check of one sprite as CheckValidity runs it on the frame digits
      collected for it; `checked` tells whether the full check ran, which is when
      CheckValidity remembers the sprite as checked. */
  method CheckFrames(spriteName: string, spriteFrames: seq<string>) returns (missing: Option<ValidityError>, checked: bool)
    ensures missing == GapCheck(spriteName, spriteFrames)
    ensures checked ==> missing == None
  {
    if |spriteFrames| == 1 {
      return None, false;
    }
    var frameIndexes := Sort(ParseFrames(spriteFrames));
    if |frameIndexes| == 1 {
      return None, false;
    }
    var gap := FindMissingFrame(frameIndexes);
    if gap.Some? {
      return Some(MissingFrame(spriteName, gap.value)), false;
    }
    return None, true;
  }

  /** CheckValidity: the listed files in order, reporting the first problem. The
      hole check of a sprite runs at its first frame file and is skipped for the
      following files of the same sprite once it passed. */
  method CheckValidity(files: seq<string>, importUnknownAsSprite: bool) returns (r: Option<ValidityError>)
    ensures r == FirstSome(Verdicts(files, importUnknownAsSprite), 0)
  {
    ghost var verdicts := Verdicts(files, importUnknownAsSprite);
    var currSpriteName: Option<string> := None;
    for i := 0 to |files|
      invariant FirstSome(verdicts, i) == FirstSome(verdicts, 0)
      invariant currSpriteName.Some? ==> GapCheck(currSpriteName.value, FrameDigits(files, currSpriteName.value)) == None
    {
      var verdict;
      verdict, currSpriteName := CheckFile(files, i, importUnknownAsSprite, currSpriteName);
      if verdict.Some? {
        return verdict;
      }
    }
    return None;
  }

  /** The file at index `i` of CheckValidity's loop, given the sprite whose hole
      check last passed: the file's verdict, and the sprite to remember next. */
  method CheckFile(files: seq<string>, i: nat, importUnknownAsSprite: bool, currSpriteName: Option<string>)
    returns (verdict: Option<ValidityError>, nextSpriteName: Option<string>)
    requires i < |files|
    requires currSpriteName.Some? ==> GapCheck(currSpriteName.value, FrameDigits(files, currSpriteName.value)) == None
    ensures verdict == Verdicts(files, importUnknownAsSprite)[i]
    ensures nextSpriteName.Some? ==> GapCheck(nextSpriteName.value, FrameDigits(files, nextSpriteName.value)) == None
  {
    var file := files[i];
    assert Verdicts(files, importUnknownAsSprite)[i] == FileCheck(files, file, importUnknownAsSprite);
    nextSpriteName := currSpriteName;
    var fileName := FileName(file);
    var stripped := FileStem(file);
    var spriteType := GetSpriteType(file);
    if spriteType != Sprite && spriteType != Background {
      if !importUnknownAsSprite {
        return None, nextSpriteName;
      }
      spriteType := Sprite;
    }
    var dupFiles := CountFileName(files, fileName);
    if dupFiles > 1 {
      return Some(DuplicateFile(dupFiles, fileName)), nextSpriteName;
    }
    if spriteType == Background {
      return None, nextSpriteName;
    }
    assert FileCheck(files, file, importUnknownAsSprite) == FrameVerdict(files, fileName, MatchFrame(stripped));
    verdict, nextSpriteName := CheckSpriteFile(files, fileName, MatchFrame(stripped), currSpriteName);
  }

  /** A file taken as a sprite frame, given what the frame pattern found in its
      stem and the sprite whose hole check last passed: that sprite's frames are
      not checked again. */
  method CheckSpriteFile(files: seq<string>, fileName: string, spriteParts: Option<(string, string)>,
                         currSpriteName: Option<string>)
    returns (verdict: Option<ValidityError>, nextSpriteName: Option<string>)
    requires spriteParts.Some? ==> AllDigits(spriteParts.value.1)
    requires currSpriteName.Some? ==> GapCheck(currSpriteName.value, FrameDigits(files, currSpriteName.value)) == None
    ensures verdict == FrameVerdict(files, fileName, spriteParts)
    ensures nextSpriteName.Some? ==> GapCheck(nextSpriteName.value, FrameDigits(files, nextSpriteName.value)) == None
  {
    nextSpriteName := currSpriteName;
    if spriteParts.None? {
      return None, nextSpriteName;
    }
    var spriteName := spriteParts.value.0;
    if TryParseInt32Digits(spriteParts.value.1).None? {
      return Some(InvalidFrameIndex(fileName)), nextSpriteName;
    }
    if currSpriteName == Some(spriteName) {
      return None, nextSpriteName;
    }
    var spriteFrames := FrameDigits(files, spriteName);
    var checked;
    verdict, checked := CheckFrames(spriteName, spriteFrames);
    if verdict.None? {
      nextSpriteName := if checked then Some(spriteName) else None;
    }
  }

  // ---------------------------------------------------------------------------
  // The frame pattern `{name}_*.png` also collects other sprites' frames

  lemma FileStemOf(dir: string, stem: string)
    requires NoSeparator(stem)
    ensures FileName(dir + "/" + stem + ".png") == stem + ".png"
    ensures FileStem(dir + "/" + stem + ".png") == stem
  {
    var name := stem + ".png";
    assert NoSeparator(name);
    assert dir + "/" + stem + ".png" == dir + ['/'] + name;
    AfterSeparatorAppend(dir, '/', name);
    assert name[|name| - 4] == '.';
    assert LastIndexOf(name, '.') == |stem|;
    assert name[..|stem|] == stem;
  }

  /** The path of frame `digits` of sprite `name` in folder `dir`. */
  function FramePath(dir: string, name: string, digits: string): string {
    dir + "/" + name + "_" + digits + ".png"
  }

  lemma FrameStemNoSeparator(name: string, digits: string)
    requires NoSeparator(name) && AllDigits(digits)
    ensures NoSeparator(name + "_" + digits)
  {
    var stem := name + "_" + digits;
    forall i | 0 <= i < |stem| ensures !IsSeparator(stem[i]) {
      if i < |name| { assert stem[i] == name[i]; }
      else if i > |name| { assert stem[i] == digits[i - |name| - 1]; }
    }
  }

  lemma FrameFileGlob(name: string, digits: string, glob: string)
    requires name == glob || (|name| > |glob| && name[..|glob| + 1] == glob + "_")
    ensures GlobMatches(name + "_" + digits + ".png", glob)
  {
    var file := name + "_" + digits + ".png";
    assert file[..|glob| + 1] == glob + "_" by {
      if name == glob {
        assert file[..|glob| + 1] == (name + "_" + digits)[..|name| + 1] == name + "_";
      } else {
        assert file[..|glob| + 1] == name[..|glob| + 1];
      }
    }
    assert file[|file| - 4..] == ".png";
  }

  /** A frame file is split into its sprite name and digits, and the pattern
      `{glob}_*.png` matches it when the sprite name is `glob` or starts with
      `glob` and '_'. */
  lemma FrameFileOf(dir: string, name: string, digits: string, glob: string)
    requires name != [] && NoSeparator(name) && '\n' !in name
    requires digits != [] && AllDigits(digits)
    requires name == glob || (|name| > |glob| && name[..|glob| + 1] == glob + "_")
    ensures GlobMatches(FileName(FramePath(dir, name, digits)), glob)
    ensures MatchFrame(FileStem(FramePath(dir, name, digits))) == Some((name, digits))
  {
    var stem := name + "_" + digits;
    FrameStemNoSeparator(name, digits);
    FileStemOf(dir, stem);
    assert FramePath(dir, name, digits) == dir + "/" + stem + ".png";
    MatchFrameOf(name, digits);
    FrameFileGlob(name, digits, glob);
  }

  lemma RunFramesParsed()
    ensures ParseFrames(["0", "1", "3"]) == [0, 1, 3]
  {
    assert ParseFrames(["3"]) == [3];
    assert ParseFrames(["1", "3"]) == [1, 3];
  }

  lemma RunFramesSorted()
    ensures Sort([0, 1, 3]) == [0, 1, 3]
  {
    SortOfSorted([0, 1, 3]);
  }

  lemma RunFramesGap()
    ensures FirstGap([0, 1, 3]) == Some(2)
  {
    assert FirstGapFrom([0, 1, 3], 1) == Some(2);
  }

  lemma WalkFramesParsed()
    ensures ParseFrames(["0", "1"]) == [0, 1]
  {
    assert ParseFrames(["1"]) == [1];
  }

  lemma WalkFramesSorted()
    ensures Sort([0, 1]) == [0, 1]
  {
    SortOfSorted([0, 1]);
  }

  /** An illustration of FirstGapMeansMissing, and a step of GlobCollectsOtherSprites:
      the hole check finds frame 2 missing among frames 0, 1 and 3. */
  lemma RunGap(name: string)
    ensures GapCheck(name, ["0", "1", "3"]) == Some(MissingFrame(name, 2))
  {
    RunFramesParsed();
    RunFramesSorted();
    RunFramesGap();
  }

  /** An illustration of FirstGapMeansMissing, and a step of GlobCollectsOtherSprites:
      the hole check passes frames 0 and 1. */
  lemma WalkNoGap(name: string)
    ensures GapCheck(name, ["0", "1"]) == None
  {
    WalkFramesParsed();
    WalkFramesSorted();
    assert FirstGap([0, 1]) == None;
  }

  lemma RunName(name: string)
    requires name != [] && NoSeparator(name) && '\n' !in name
    ensures var run := name + "_run";
      run != name && NoSeparator(run) && '\n' !in run && run[..|name| + 1] == name + "_"
  {
    var run := name + "_run";
    assert run[..|name| + 1] == name + "_";
    forall i | 0 <= i < |run| ensures !IsSeparator(run[i]) && run[i] != '\n' {
      if i < |name| { assert run[i] == name[i]; } else { assert run[i] == "_run"[i - |name|]; }
    }
  }

  lemma CollectOne(f: string, rest: seq<string>, glob: string, name: string, digits: string)
    requires GlobMatches(FileName(f), glob) && MatchFrame(FileStem(f)) == Some((name, digits))
    ensures FrameDigitsAsWritten([f] + rest, glob) == [digits] + FrameDigitsAsWritten(rest, glob)
    ensures name == glob ==> FrameDigits([f] + rest, glob) == [digits] + FrameDigits(rest, glob)
    ensures name != glob ==> FrameDigits([f] + rest, glob) == FrameDigits(rest, glob)
  {
    assert ([f] + rest)[1..] == rest;
  }

  lemma ThreeItems<X>(a: X, b: X, c: X)
    ensures [a, b, c] == [a] + ([b] + ([c] + []))
  {
    assert [a] + ([b] + ([c] + [])) == [a] + [b, c];
  }

  lemma TwoItems<X>(a: X, b: X)
    ensures [a, b] == [a] + ([b] + [])
  {
    assert [b] + [] == [b];
  }

  lemma Collect(f0: string, f1: string, f2: string, name: string, run: string)
    requires run != name
    requires GlobMatches(FileName(f0), name) && MatchFrame(FileStem(f0)) == Some((name, "0"))
    requires GlobMatches(FileName(f1), name) && MatchFrame(FileStem(f1)) == Some((name, "1"))
    requires GlobMatches(FileName(f2), name) && MatchFrame(FileStem(f2)) == Some((run, "3"))
    ensures FrameDigitsAsWritten([f0, f1, f2], name) == ["0", "1", "3"]
    ensures FrameDigits([f0, f1, f2], name) == ["0", "1"]
  {
    CollectOne(f2, [], name, run, "3");
    CollectOne(f1, [f2] + [], name, name, "1");
    CollectOne(f0, [f1] + ([f2] + []), name, name, "0");
    ThreeItems(f0, f1, f2);
    ThreeItems("0", "1", "3");
    TwoItems("0", "1");
  }

  /** Two frames 0 and 1 of a sprite (say "walk") next to a one-frame sprite whose
      name extends it with "_run", at frame 3: the pattern `walk_*.png` also
      matches walk_run_3.png, so CheckValidity as written sees frames 0, 1 and 3
      for "walk" and reports frame 2 missing. Keeping only the files whose sprite
      name is "walk" finds frames 0 and 1 and no hole. */
  lemma GlobCollectsOtherSprites(dir: string, name: string)
    requires name != [] && NoSeparator(name) && '\n' !in name
    ensures var files := [FramePath(dir, name, "0"), FramePath(dir, name, "1"), FramePath(dir, name + "_run", "3")];
      FrameDigitsAsWritten(files, name) == ["0", "1", "3"] &&
      GapCheck(name, FrameDigitsAsWritten(files, name)) == Some(MissingFrame(name, 2)) &&
      FrameDigits(files, name) == ["0", "1"] &&
      GapCheck(name, FrameDigits(files, name)) == None
  {
    CollectWalkAndRun(dir, name);
    RunGap(name);
    WalkNoGap(name);
  }

  /** The digits the pattern and the exact sprite name collect from the three files. */
  lemma CollectWalkAndRun(dir: string, name: string)
    requires name != [] && NoSeparator(name) && '\n' !in name
    ensures var files := [FramePath(dir, name, "0"), FramePath(dir, name, "1"), FramePath(dir, name + "_run", "3")];
      FrameDigitsAsWritten(files, name) == ["0", "1", "3"] && FrameDigits(files, name) == ["0", "1"]
  {
    var run := name + "_run";
    WalkFrameFile(dir, name, "0");
    WalkFrameFile(dir, name, "1");
    RunFrameFile(dir, name);
    Collect(FramePath(dir, name, "0"), FramePath(dir, name, "1"), FramePath(dir, run, "3"), name, run);
  }

  lemma WalkFrameFile(dir: string, name: string, digits: string)
    requires name != [] && NoSeparator(name) && '\n' !in name
    requires digits == "0" || digits == "1"
    ensures GlobMatches(FileName(FramePath(dir, name, digits)), name)
    ensures MatchFrame(FileStem(FramePath(dir, name, digits))) == Some((name, digits))
  {
    FrameFileOf(dir, name, digits, name);
  }

  /** The pattern of `name` matches frame 3 of `name` + "_run", whose sprite name
      is not `name`. */
  lemma RunFrameFile(dir: string, name: string)
    requires name != [] && NoSeparator(name) && '\n' !in name
    ensures name + "_run" != name
    ensures GlobMatches(FileName(FramePath(dir, name + "_run", "3")), name)
    ensures MatchFrame(FileStem(FramePath(dir, name + "_run", "3"))) == Some((name + "_run", "3"))
  {
    RunName(name);
    FrameFileOf(dir, name + "_run", "3", name);
  }

  /** CheckValidity passes exactly when every listed file passes on its own, and a
      reported problem is the verdict on some listed file all of whose predecessors
      pass. */
  lemma {:induction false} FirstSomeMeaning(vs: seq<Option<ValidityError>>, i: nat)
    requires i <= |vs|
    ensures FirstSome(vs, i) == None <==> forall j :: i <= j < |vs| ==> vs[j] == None
    ensures FirstSome(vs, i).Some? ==>
      exists j :: i <= j < |vs| && vs[j] == FirstSome(vs, i) && forall k :: i <= k < j ==> vs[k] == None
    decreases |vs| - i
  {
    if i < |vs| && vs[i] == None {
      FirstSomeMeaning(vs, i + 1);
      if FirstSome(vs, i).Some? {
        var j :| i + 1 <= j < |vs| && vs[j] == FirstSome(vs, i + 1) && forall k :: i + 1 <= k < j ==> vs[k] == None;
        assert forall k :: i <= k < j ==> vs[k] == None;
      }
    }
  }
}
