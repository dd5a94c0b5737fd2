/** The audio importer: every .ogg or .wav file of the import folder becomes a
    sound of the game data, or replaces the sound of the same name. Per file it
    decides whether the audio is embedded in the data file, decoded on load and
    placed in an audio group, from the global settings or, in manual mode, from
    the file's own entry in the configuration; the sound's flags follow from
    that decision.

    A file is a path and its bytes; the folder's own existence check, the
    reading of the bytes and the log lines are not part of this model. Audio
    groups are represented by their names and referred to by index. */
module AudioImport {
  import opened Wrappers
  import opened Text
  import opened SpriteNames

  datatype Flag = Embedded | Compressed | Regular

  /** The per-file entry of the configuration; a missing value is null. */
  datatype FileConfig = FileConfig(embed: Option<bool>, decode: Option<bool>, audiogroup: Option<string>)

  datatype ImportConfig = ImportConfig(replaceProperties: bool, embed: bool, decode: bool,
                                       useFolderAsAudioGroup: bool, manual: bool,
                                       files: Option<map<string, FileConfig>>)

  datatype AudioFile = AudioFile(path: string, data: seq<bv8>)

  predicate IsOgg(filename: string) {
    EndsWithIgnoreCase(filename, ".ogg")
  }

  /** The files the importer takes; every other file is skipped. */
  predicate IsAudio(filename: string) {
    IsOgg(filename) || EndsWithIgnoreCase(filename, ".wav")
  }

  /** The sound name of an audio file is its file name without the extension. */
  lemma SoundNameOfAudio(path: string)
    requires IsAudio(FileName(path))
    ensures var filename := FileName(path);
      FileStem(path) == filename[..|filename| - 4]
  {
    ExtensionDotIsLast(FileName(path));
  }

  /** The last dot of an audio file name is the one of its extension. */
  lemma ExtensionDotIsLast(filename: string)
    requires IsAudio(filename)
    ensures LastIndexOf(filename, '.') == |filename| - 4
  {
    ExtensionChars(filename);
    assert filename[|filename| - 4] == '.';
  }

  /** In the last four characters of an audio file name only the first is a dot. */
  lemma ExtensionChars(filename: string)
    requires IsAudio(filename)
    ensures |filename| >= 4
    ensures forall j :: |filename| - 4 <= j < |filename| ==> (filename[j] == '.' <==> j == |filename| - 4)
  {
    var n := |filename|;
    var tail := filename[n - 4..];
    var suffix := if IsOgg(filename) then ".ogg" else ".wav";
    assert EqualsIgnoreCase(tail, suffix);
    assert Lower(tail) == Lower(suffix);
    forall j | n - 4 <= j < n
      ensures filename[j] == '.' <==> j == n - 4
    {
      var k := j - (n - 4);
      assert filename[j] == tail[k];
      assert LowerChar(tail[k]) == LowerChar(suffix[k]) by {
        assert Lower(tail)[k] == Lower(suffix)[k];
      }
      ExtensionDot(suffix, k);
    }
  }

  /** Only the first character of an audio extension is a dot, and its letters
      are lower case. */
  lemma ExtensionDot(suffix: string, k: int)
    requires suffix == ".ogg" || suffix == ".wav"
    requires 0 <= k < 4
    ensures suffix[k] == '.' <==> k == 0
    ensures LowerChar(suffix[k]) == suffix[k]
  {
    if k == 0 {
    } else if k == 1 {
    } else if k == 2 {
    } else {
    }
  }

  // ---------------------------------------------------------------------------
  // The decision for one file

  /** What the importer decides for one file. */
  datatype Decision = Decision(isOgg: bool, embed: bool, decode: bool, groupName: string, useGroup: bool)

  function FileConfigOf(config: ImportConfig, filename: string): Option<FileConfig> {
    if config.files.Some? && filename in config.files.value then Some(config.files.value[filename])
    else None
  }

  /** Without manual configuration a .wav is always embedded and never decoded
      and an .ogg follows the global settings; in manual mode the file's entry
      decides, a missing entry or value meaning false or no group. A group is
      used only for embedded audio, when the data has audio groups and the group
      name is not empty. */
  function Decide(config: ImportConfig, folderName: string, hasGroups: bool, filename: string): (d: Decision)
    ensures d.isOgg == IsOgg(filename)
    ensures d.useGroup <==> d.embed && hasGroups && d.groupName != ""
    ensures !config.manual && d.isOgg ==> d.embed == config.embed && d.decode == config.decode
    ensures !config.manual && !d.isOgg ==> d.embed && !d.decode
    ensures !config.manual ==> d.groupName == (if config.useFolderAsAudioGroup then folderName else "")
    ensures config.manual ==>
      var fc := FileConfigOf(config, filename);
      d.embed == (fc.Some? && fc.value.embed == Some(true)) &&
      d.decode == (fc.Some? && fc.value.decode == Some(true)) &&
      d.groupName == (if fc.Some? && fc.value.audiogroup.Some? then fc.value.audiogroup.value else "")
  {
    var isOgg := IsOgg(filename);
    var fc := FileConfigOf(config, filename);
    var embed := if config.manual then (if fc.Some? then Pick(fc.value.embed, false) else false)
                 else (if isOgg then config.embed else true);
    var decode := if config.manual then (if fc.Some? then Pick(fc.value.decode, false) else false)
                  else (if isOgg then config.decode else false);
    var groupName := if config.manual then (if fc.Some? then Pick(fc.value.audiogroup, "") else "")
                     else (if config.useFolderAsAudioGroup then folderName else "");
    Decision(isOgg, embed, decode, groupName, embed && hasGroups && groupName != "")
  }

  function Pick<T>(o: Option<T>, default: T): T {
    if o.Some? then o.value else default
  }

  /** The sound's flags: always Regular; Compressed for embedded Ogg; Embedded
      for Wave, and for Ogg that is embedded and decoded. */
  function EntryFlags(d: Decision): (flags: set<Flag>)
    ensures Regular in flags
    ensures Compressed in flags <==> d.isOgg && d.embed
    ensures Embedded in flags <==> !d.isOgg || (d.embed && d.decode)
  {
    if d.isOgg && d.embed && d.decode then {Embedded, Compressed, Regular}
    else if d.isOgg && d.embed then {Compressed, Regular}
    else if !d.isOgg then {Embedded, Regular}
    else {Regular}
  }

  /** The audio is stored in the data file itself when it is embedded and not
      placed in a group. */
  predicate Inline(d: Decision) {
    d.embed && !d.useGroup
  }

  /** Without manual configuration a Wave file always ends up inline with the
      flags Embedded and Regular, unless it goes to a group. */
  lemma WaveIsEmbedded(config: ImportConfig, folderName: string, hasGroups: bool, filename: string)
    requires !config.manual && !IsOgg(filename)
    ensures var d := Decide(config, folderName, hasGroups, filename);
      EntryFlags(d) == {Embedded, Regular} && (Inline(d) <==> !d.useGroup)
  {
  }

  // ---------------------------------------------------------------------------
  // Lookups

  /** The first index of `name` in `names`, if any. */
  function IndexOf(names: seq<string>, name: string): (i: Option<nat>)
    ensures i.Some? ==> i.value < |names| && names[i.value] == name &&
                        forall j :: 0 <= j < i.value ==> names[j] != name
    ensures i.None? <==> name !in names
  {
    if names == [] then None
    else if names[0] == name then Some(0)
    else match IndexOf(names[1..], name)
      case None => None
      case Some(j) => Some(j + 1)
  }

  /** The group lookup as the importer writes it: the first index whose group
      has the name, and 0, the default of int, when none has. */
  function GroupIndexAsWritten(groups: seq<string>, name: string): nat {
    match IndexOf(groups, name)
    case Some(i) => i
    case None => 0
  }

  /** The group lookup as intended: the index of the group with that name, a new
      group being appended when none has it. */
  function GroupIndex(groups: seq<string>, name: string): (r: (seq<string>, nat))
    ensures r.1 < |r.0| && r.0[r.1] == name
    ensures name in groups ==> r.0 == groups && r.1 == IndexOf(groups, name).value
    ensures name !in groups ==> r.0 == groups + [name] && r.1 == |groups|
  {
    match IndexOf(groups, name)
    case Some(i) => (groups, i)
    case None => (groups + [name], |groups|)
  }

  /** The lookup as written never appends a group: a name no group has sends the
      sound to group 0, whose name differs. */
  lemma GroupLookupMissesNewName(groups: seq<string>, name: string)
    requires groups != [] && name !in groups
    ensures GroupIndexAsWritten(groups, name) == 0 && groups[0] != name
    ensures GroupIndex(groups, name).0[GroupIndex(groups, name).1] == name
  {
  }

  /** When the group exists both lookups agree. */
  lemma GroupLookupsAgree(groups: seq<string>, name: string)
    requires name in groups
    ensures GroupIndex(groups, name) == (groups, GroupIndexAsWritten(groups, name))
  {
  }

  /** List.Remove: the first occurrence of `x` taken out, when there is one. */
  function RemoveFirst<T(==)>(s: seq<T>, x: T): (r: seq<T>)
    ensures x !in s ==> r == s
    ensures x in s ==> |r| == |s| - 1 && multiset(r) == multiset(s) - multiset{x}
    ensures forall y :: y in r ==> y in s
    ensures forall y :: y in s && y != x ==> y in r
  {
    if s == [] then []
    else if s[0] == x then assert s == [s[0]] + s[1..]; s[1..]
    else assert s == [s[0]] + s[1..]; [s[0]] + RemoveFirst(s[1..], x)
  }

  // ---------------------------------------------------------------------------
  // The game data

  class EmbeddedAudio {
    const Data: seq<bv8>

    constructor (data: seq<bv8>)
      ensures Data == data
    {
      Data := data;
    }
  }

  /** The fields of a sound record the importer sets; the group is its index. */
  datatype SoundFields = SoundFields(flags: set<Flag>, kind: string, file: string, effects: int,
                                     volume: real, pitch: real, audioID: int,
                                     audioFile: Option<EmbeddedAudio>, audioGroup: Option<int>,
                                     groupID: int)

  class Sound {
    const Name: string
    var Flags: set<Flag>
    var Kind: string
    var File: string
    var Effects: int
    var Volume: real
    var Pitch: real
    var AudioID: int
    var AudioFile: Option<EmbeddedAudio>
    var AudioGroup: Option<int>
    var GroupID: int

    function Fields(): SoundFields
      reads this
    {
      SoundFields(Flags, Kind, File, Effects, Volume, Pitch, AudioID, AudioFile, AudioGroup, GroupID)
    }

    constructor (name: string, f: SoundFields)
      ensures Name == name && Fields() == f
    {
      Name := name;
      Flags, Kind, File, Effects, Volume := f.flags, f.kind, f.file, f.effects, f.volume;
      Pitch, AudioID, AudioFile, AudioGroup, GroupID := f.pitch, f.audioID, f.audioFile, f.audioGroup, f.groupID;
    }

    method SetFields(f: SoundFields)
      modifies this
      ensures Fields() == f
    {
      Flags, Kind, File, Effects, Volume := f.flags, f.kind, f.file, f.effects, f.volume;
      Pitch, AudioID, AudioFile, AudioGroup, GroupID := f.pitch, f.audioID, f.audioFile, f.audioGroup, f.groupID;
    }
  }

  /** The first sound with the name. */
  function FindSound(sounds: seq<Sound>, name: string): (i: Option<nat>)
    ensures i.Some? ==> i.value < |sounds| && sounds[i.value].Name == name &&
                        forall j :: 0 <= j < i.value ==> sounds[j].Name != name
    ensures i.None? ==> forall j :: 0 <= j < |sounds| ==> sounds[j].Name != name
  {
    if sounds == [] then None
    else if sounds[0].Name == name then Some(0)
    else match FindSound(sounds[1..], name)
      case None => None
      case Some(j) => Some(j + 1)
  }

  /** The names of the sounds. */
  function Names(sounds: seq<Sound>): (names: set<string>)
    ensures forall i :: 0 <= i < |sounds| ==> sounds[i].Name in names
  {
    set s | s in sounds :: s.Name
  }

  /** Sounds added at the end keep the names that were there. */
  lemma NamesGrow(a: seq<Sound>, b: seq<Sound>)
    requires a <= b
    ensures Names(a) <= Names(b)
  {
    forall n | n in Names(a) ensures n in Names(b) {
      var s :| s in a && s.Name == n;
      var i :| 0 <= i < |a| && a[i] == s;
      assert b[i] == s;
    }
  }

  /** The names of the sounds the audio files of a folder listing import. */
  function AudioStems(files: seq<AudioFile>): (stems: set<string>)
    ensures forall k :: 0 <= k < |files| && IsAudio(FileName(files[k].path)) ==> FileStem(files[k].path) in stems
  {
    if files == [] then {}
    else
      var last := files[|files| - 1];
      AudioStems(files[..|files| - 1]) + (if IsAudio(FileName(last.path)) then {FileStem(last.path)} else {})
  }

  /** The fields of each sound, in order. */
  function FieldsOf(sounds: seq<Sound>): (fields: seq<SoundFields>)
    reads set s | s in sounds
    ensures |fields| == |sounds| && forall k :: 0 <= k < |sounds| ==> fields[k] == sounds[k].Fields()
  {
    if sounds == [] then [] else FieldsOf(sounds[..|sounds| - 1]) + [sounds[|sounds| - 1].Fields()]
  }

  /** The fields a new or replaced sound gets. */
  function ImportedFields(d: Decision, filename: string, audioID: int, audio: Option<EmbeddedAudio>,
                          hasGroups: bool, group: int, builtinGroup: int): SoundFields
  {
    var groupID := if d.useGroup then group else builtinGroup;
    SoundFields(EntryFlags(d), if d.isOgg then ".ogg" else ".wav", filename, 0, 1.0, 1.0,
                audioID, audio, if hasGroups then Some(groupID) else None, groupID)
  }

  function LastAudio(embedded: seq<EmbeddedAudio>): Option<EmbeddedAudio> {
    if embedded == [] then None else Some(embedded[|embedded| - 1])
  }

  function NewFields(d: Decision, embedded: seq<EmbeddedAudio>, filename: string, hasGroups: bool, group: int, builtinGroup: int): SoundFields {
    ImportedFields(d, filename, if Inline(d) then |embedded| - 1 else -1, if Inline(d) then LastAudio(embedded) else None, hasGroups, group, builtinGroup)
  }

  /** The arguments of one file's import and the group it ends with, as one value. */
  datatype Step = Step(d: Decision, e: Option<nat>, name: string, filename: string, data: seq<bv8>,
                       replace: bool, hasGroups: bool, builtinGroup: int, groupBefore: int, groupAfter: int)

  class AudioData {
    var Sounds: seq<Sound>
    var EmbeddedAudio: seq<EmbeddedAudio>
    var AudioGroups: seq<string>

    /** The sounds are distinct records, every sound's audio is in the embedded
        list, and no two sounds share it. */
    predicate Linked()
      reads this, Sounds
    {
      (forall i, j :: 0 <= i < j < |Sounds| ==> Sounds[i] != Sounds[j]) &&
      (forall i :: 0 <= i < |Sounds| && Sounds[i].AudioFile.Some? ==> Sounds[i].AudioFile.value in EmbeddedAudio) &&
      (forall i, j :: 0 <= i < j < |Sounds| && Sounds[i].AudioFile.Some? ==> Sounds[i].AudioFile != Sounds[j].AudioFile)
    }

    constructor (sounds: seq<Sound>, embedded: seq<EmbeddedAudio>, groups: seq<string>)
      ensures Sounds == sounds && EmbeddedAudio == embedded && AudioGroups == groups
    {
      Sounds, EmbeddedAudio, AudioGroups := sounds, embedded, groups;
    }

    /** The group of a new sound that goes to a group: looked up by name, and
        appended when missing. */
    method PlaceInGroup(name: string) returns (groupID: int)
      modifies this
      ensures (AudioGroups, groupID) == (GroupIndex(old(AudioGroups), name).0, GroupIndex(old(AudioGroups), name).1 as int)
      ensures Sounds == old(Sounds) && EmbeddedAudio == old(EmbeddedAudio)
    {
      groupID := -1;
      var i := 0;
      while i < |AudioGroups|
        invariant 0 <= i <= |AudioGroups| && AudioGroups == old(AudioGroups)
        invariant forall j :: 0 <= j < i ==> AudioGroups[j] != name
      {
        if AudioGroups[i] == name {
          groupID := i;
          break;
        }
        i := i + 1;
      }
      if groupID < 0 {
        AudioGroups := AudioGroups + [name];
        groupID := |AudioGroups| - 1;
      }
    }

    /** The audio of an inline sound: the sound's old audio, if any, taken out of
        the embedded list, and the new audio appended. */
    method EmbedAudio(old_audio: Option<EmbeddedAudio>, data: seq<bv8>) returns (embedID: int)
      modifies this
      ensures |EmbeddedAudio| >= 1 && embedID == |EmbeddedAudio| - 1
      ensures fresh(EmbeddedAudio[embedID]) && EmbeddedAudio[embedID].Data == data
      ensures EmbeddedAudio[..embedID] ==
        if old_audio.Some? then RemoveFirst(old(EmbeddedAudio), old_audio.value) else old(EmbeddedAudio)
      ensures Sounds == old(Sounds) && AudioGroups == old(AudioGroups)
    {
      var sd := new EmbeddedAudio(data);
      if old_audio.Some? {
        EmbeddedAudio := RemoveFirst(EmbeddedAudio, old_audio.value);
      }
      EmbeddedAudio := EmbeddedAudio + [sd];
      embedID := |EmbeddedAudio| - 1;
    }

    /** The data after an audio file was imported with decision `d`, `e` being
        the existing sound of that name: the group of a new grouped sound is
        looked up, or appended; inline audio replaces the sound's old audio in
        the embedded list by the new one at the end; a new name gets a new sound
        at the end, and an existing sound gets every field replaced when
        properties are replaced, and otherwise only its audio. */
    twostate predicate Imported(d: Decision, e: Option<nat>, name: string, filename: string,
                                data: seq<bv8>, replace: bool, hasGroups: bool, builtinGroup: int,
                                groupID: int, groupID': int)
      reads this, Sounds
    {
      (e.Some? ==> e.value < |old(Sounds)|) &&
      groupID' == (if d.useGroup && e.None? then GroupIndex(old(AudioGroups), d.groupName).1 as int
                   else if e.Some? then old(Sounds[e.value].GroupID) else groupID) &&
      AudioGroups == (if d.useGroup && e.None? then GroupIndex(old(AudioGroups), d.groupName).0
                      else old(AudioGroups)) &&
      (!Inline(d) ==> EmbeddedAudio == old(EmbeddedAudio)) &&
      (Inline(d) ==> |EmbeddedAudio| >= 1 && fresh(EmbeddedAudio[|EmbeddedAudio| - 1]) &&
                     EmbeddedAudio[|EmbeddedAudio| - 1].Data == data &&
                     EmbeddedAudio[..|EmbeddedAudio| - 1] ==
                       (if e.Some? && old(Sounds[e.value].AudioFile).Some?
                        then RemoveFirst(old(EmbeddedAudio), old(Sounds[e.value].AudioFile).value)
                        else old(EmbeddedAudio))) &&
      (e.None? ==> |Sounds| == |old(Sounds)| + 1 && Sounds[..|old(Sounds)|] == old(Sounds) &&
                   fresh(Sounds[|old(Sounds)|]) && Sounds[|old(Sounds)|].Name == name &&
                   Sounds[|old(Sounds)|].Fields() == NewFields(d, EmbeddedAudio, filename, hasGroups, groupID', builtinGroup) &&
                   forall s :: s in old(Sounds) ==> s.Fields() == old(s.Fields())) &&
      (e.Some? ==> Sounds == old(Sounds) &&
                   Sounds[e.value].Fields() ==
                     (if replace then NewFields(d, EmbeddedAudio, filename, hasGroups, groupID', builtinGroup)
                      else old(Sounds[e.value].Fields()).(audioID := NewFields(d, EmbeddedAudio, filename, hasGroups, groupID', builtinGroup).audioID, audioFile := NewFields(d, EmbeddedAudio, filename, hasGroups, groupID', builtinGroup).audioFile)) &&
                   forall s :: s in old(Sounds) && s != old(Sounds[e.value]) ==> s.Fields() == old(s.Fields()))
    }

    /** One file of the import folder. Files that are not audio change nothing;
        an audio file is imported with the decision its name and the
        configuration give, as the first sound of its name. `groupID` is carried
        from file to file as the importer does. */
    method ImportFile(file: AudioFile, config: ImportConfig, folderName: string, hasGroups: bool,
                      builtinGroup: int, groupID: int) returns (groupID': int)
      modifies this, Sounds
      ensures var filename := FileName(file.path);
        !IsAudio(filename) ==> Sounds == old(Sounds) && EmbeddedAudio == old(EmbeddedAudio) &&
                               AudioGroups == old(AudioGroups) && groupID' == groupID &&
                               forall s :: s in Sounds ==> s.Fields() == old(s.Fields())
      ensures var filename := FileName(file.path);
        IsAudio(filename) ==>
          Imported(Decide(config, folderName, hasGroups, filename), FindSound(old(Sounds), FileStem(file.path)),
                   FileStem(file.path), filename, file.data, config.replaceProperties, hasGroups,
                   builtinGroup, groupID, groupID')
      ensures old(Sounds) <= Sounds && old(AudioGroups) <= AudioGroups
      ensures forall k :: 0 <= k < |Sounds| ==> Sounds[k] in old(Sounds) || fresh(Sounds[k])
      ensures IsAudio(FileName(file.path)) ==> FileStem(file.path) in Names(Sounds)
      ensures old(Linked()) ==> Linked()
    {
      var filename := FileName(file.path);
      if !IsAudio(filename) {
        return groupID;
      }
      var name := FileStem(file.path);
      var d := Decide(config, folderName, hasGroups, filename);
      var e := FindSound(Sounds, name);
      groupID' := ImportDecided(d, e, name, filename, file.data, config.replaceProperties, hasGroups,
                                builtinGroup, groupID);
    }

    /** An audio file imported with decision `d`. */
    method ImportDecided(d: Decision, e: Option<nat>, name: string, filename: string, data: seq<bv8>,
                         replace: bool, hasGroups: bool, builtinGroup: int, groupID: int)
      returns (groupID': int)
      requires e.Some? ==> e.value < |Sounds|
      modifies this, Sounds
      ensures Imported(d, e, name, filename, data, replace, hasGroups, builtinGroup, groupID, groupID')
      ensures old(Sounds) <= Sounds && old(AudioGroups) <= AudioGroups
      ensures forall k :: 0 <= k < |Sounds| ==> Sounds[k] in old(Sounds) || fresh(Sounds[k])
      ensures e.None? || old(Sounds[e.value].Name) == name ==> name in Names(Sounds)
      ensures old(Linked()) ==> Linked()
    {
      ghost var wasLinked := Linked();
      groupID' := ApplyDecision(d, e, name, filename, data, replace, hasGroups, builtinGroup, groupID);
      if wasLinked {
        ImportedKeepsLinked(Step(d, e, name, filename, data, replace, hasGroups, builtinGroup, groupID, groupID'));
      }
    }

    /** Importing a file keeps the sounds linked to their audio: the old audio
        of a relinked sound was its own, and new audio is fresh. */
    twostate lemma ImportedKeepsLinked(s: Step)
      requires old(Linked())
      requires Imported(s.d, s.e, s.name, s.filename, s.data, s.replace, s.hasGroups, s.builtinGroup,
                        s.groupBefore, s.groupAfter)
      ensures Linked()
    {
      if s.e.None? {
        NewSoundKeepsLinked(s);
      } else {
        ReplacedSoundKeepsLinked(s);
      }
    }

    /** A new sound at the end gets fresh audio, or none. */
    twostate lemma NewSoundKeepsLinked(s: Step)
      requires old(Linked()) && s.e.None?
      requires Imported(s.d, s.e, s.name, s.filename, s.data, s.replace, s.hasGroups, s.builtinGroup,
                        s.groupBefore, s.groupAfter)
      ensures Linked()
    {
      var n := |old(Sounds)|;
      forall y | y in old(EmbeddedAudio) ensures Inline(s.d) ==> y in EmbeddedAudio {
        if Inline(s.d) {
          assert y in EmbeddedAudio[..|EmbeddedAudio| - 1];
        }
      }
      forall i | 0 <= i < n
        ensures Sounds[i] == old(Sounds[i]) && Sounds[i].Fields() == old(Sounds[i].Fields())
      {
        assert Sounds[..n][i] == Sounds[i];
      }
    }

    /** A replaced sound gives its old audio up for the new one, which is fresh;
        the other sounds keep theirs. */
    twostate lemma ReplacedSoundKeepsLinked(s: Step)
      requires old(Linked()) && s.e.Some?
      requires Imported(s.d, s.e, s.name, s.filename, s.data, s.replace, s.hasGroups, s.builtinGroup,
                        s.groupBefore, s.groupAfter)
      ensures Linked()
    {
      var e := s.e.value;
      forall y | y in old(EmbeddedAudio) && old(Sounds[e].AudioFile) != Some(y)
        ensures Inline(s.d) ==> y in EmbeddedAudio
      {
        if Inline(s.d) {
          assert y in EmbeddedAudio[..|EmbeddedAudio| - 1];
        }
      }
      forall i | 0 <= i < |Sounds| && i != e
        ensures Sounds[i].Fields() == old(Sounds[i].Fields())
      {
        assert old(Sounds[i]) != old(Sounds[e]);
      }
    }

    /** The steps of an import with decision `d`: the group, the audio, the sound. */
    method ApplyDecision(d: Decision, e: Option<nat>, name: string, filename: string, data: seq<bv8>,
                         replace: bool, hasGroups: bool, builtinGroup: int, groupID: int)
      returns (groupID': int)
      requires e.Some? ==> e.value < |Sounds|
      modifies this, Sounds
      ensures Imported(d, e, name, filename, data, replace, hasGroups, builtinGroup, groupID, groupID')
      ensures old(Sounds) <= Sounds && old(AudioGroups) <= AudioGroups
      ensures forall k :: 0 <= k < |Sounds| ==> Sounds[k] in old(Sounds) || fresh(Sounds[k])
      ensures e.None? || old(Sounds[e.value].Name) == name ==> name in Names(Sounds)
    {
      groupID' := groupID;
      if d.useGroup && e.None? {
        groupID' := PlaceInGroup(d.groupName);
      } else if e.Some? {
        groupID' := Sounds[e.value].GroupID;
      }
      var embedID := -1;
      if d.embed && !d.useGroup {
        var old_audio := if e.Some? then Sounds[e.value].AudioFile else None;
        embedID := EmbedAudio(old_audio, data);
      }
      var audio := if Inline(d) then Some(EmbeddedAudio[embedID]) else None;
      var audioID := if Inline(d) then embedID else -1;
      var fields := ImportedFields(d, filename, audioID, audio, hasGroups, groupID', builtinGroup);
      assert Sounds == old(Sounds);
      assert forall s :: s in Sounds ==> s.Fields() == old(s.Fields());
      StoreSound(e, name, fields, replace);
      if e.None? {
        assert Sounds[|old(Sounds)|].Name == name;
      } else {
        assert Sounds[e.value].Name == old(Sounds[e.value].Name);
      }
    }

    /** One file of the import folder, with what the importer's loop keeps of
        it: the sounds and groups grow, new sounds are fresh and named after the
        file, only a sound of the file's name changes, a file that is not audio
        changes nothing, the file's sound exists and the sounds stay linked. */
    method ImportKeepingLinks(file: AudioFile, config: ImportConfig, folderName: string, hasGroups: bool,
                              builtinGroup: int, groupID: int) returns (groupID': int)
      modifies this, Sounds
      ensures !IsAudio(FileName(file.path)) ==>
        Sounds == old(Sounds) && EmbeddedAudio == old(EmbeddedAudio) && AudioGroups == old(AudioGroups)
      ensures forall s :: s in old(Sounds) && !(IsAudio(FileName(file.path)) && s.Name == FileStem(file.path)) ==>
        s.Fields() == old(s.Fields())
      ensures forall k :: |old(Sounds)| <= k < |Sounds| ==>
        IsAudio(FileName(file.path)) && Sounds[k].Name == FileStem(file.path)
      ensures old(Sounds) <= Sounds && old(AudioGroups) <= AudioGroups
      ensures forall k :: 0 <= k < |Sounds| ==> Sounds[k] in old(Sounds) || fresh(Sounds[k])
      ensures IsAudio(FileName(file.path)) ==> FileStem(file.path) in Names(Sounds)
      ensures old(Linked()) ==> Linked()
    {
      groupID' := ImportFile(file, config, folderName, hasGroups, builtinGroup, groupID);
    }

    /** The importer: a missing folder is error 311 and changes nothing;
        otherwise every file is imported in turn, and afterwards every audio
        file of the folder has a sound of its name, the sounds that were there
        are still there, in front, a sound whose name no audio file has keeps
        its fields, every new sound is named after an audio file, a folder
        without audio changes nothing, and the sounds stay linked to their
        audio. */
    method Import(folder: Option<seq<AudioFile>>, folderName: string, config: ImportConfig,
                  builtinGroup: int) returns (code: int)
      modifies this, Sounds
      ensures folder.None? ==> code == 311 && Sounds == old(Sounds) &&
                               EmbeddedAudio == old(EmbeddedAudio) && AudioGroups == old(AudioGroups)
      ensures folder.Some? ==> code == 0
      ensures old(Sounds) <= Sounds && old(AudioGroups) <= AudioGroups
      ensures old(Linked()) ==> Linked()
      ensures folder.Some? ==>
        forall k :: 0 <= k < |folder.value| && IsAudio(FileName(folder.value[k].path)) ==>
          FileStem(folder.value[k].path) in Names(Sounds)
      ensures folder.Some? ==>
        forall k :: 0 <= k < |old(Sounds)| && Sounds[k].Name !in AudioStems(folder.value) ==>
          Sounds[k].Fields() == old(Sounds[k].Fields())
      ensures folder.Some? ==>
        forall k :: |old(Sounds)| <= k < |Sounds| ==> Sounds[k].Name in AudioStems(folder.value)
      ensures folder.Some? && AudioStems(folder.value) == {} ==>
        Sounds == old(Sounds) && EmbeddedAudio == old(EmbeddedAudio) && AudioGroups == old(AudioGroups)
    {
      if folder.None? {
        return 311;
      }
      var files := folder.value;
      var hasGroups := |AudioGroups| > 0;
      var groupID := -1;
      ghost var fields := FieldsOf(Sounds);
      assert files[..0] == [];
      var i := 0;
      while i < |files|
        invariant 0 <= i <= |files|
        invariant forall k :: 0 <= k < |Sounds| ==> Sounds[k] in old(Sounds) || fresh(Sounds[k])
        invariant old(Linked()) ==> Linked()
        invariant FolderSoFar(files, i, old(Sounds), fields, old(EmbeddedAudio), old(AudioGroups))
      {
        groupID := ImportNext(files, i, config, folderName, hasGroups, builtinGroup, groupID,
                              old(Sounds), fields, old(EmbeddedAudio), old(AudioGroups));
        i := i + 1;
      }
      FolderDone(files, old(Sounds), fields, old(EmbeddedAudio), old(AudioGroups));
      return 0;
    }

    /** The state after the first `i` files of the folder, against the sounds,
        their fields, the embedded audio and the groups before the import: the
        sounds and groups grew, each audio file so far has a sound of its name,
        a sound whose name no audio file so far has keeps its fields, every new
        sound is named after one of those files, and without any audio file so
        far nothing changed. */
    ghost predicate FolderSoFar(files: seq<AudioFile>, i: nat, sounds: seq<Sound>, fields: seq<SoundFields>,
                                embedded: seq<EmbeddedAudio>, groups: seq<string>)
      requires i <= |files| && |fields| == |sounds|
      reads this, Sounds
    {
      sounds <= Sounds && groups <= AudioGroups &&
      (forall k :: 0 <= k < i && IsAudio(FileName(files[k].path)) ==> FileStem(files[k].path) in Names(Sounds)) &&
      (forall k :: 0 <= k < |sounds| && sounds[k].Name !in AudioStems(files[..i]) ==> sounds[k].Fields() == fields[k]) &&
      (forall k :: |sounds| <= k < |Sounds| ==> Sounds[k].Name in AudioStems(files[..i])) &&
      (AudioStems(files[..i]) == {} ==> Sounds == sounds && EmbeddedAudio == embedded && AudioGroups == groups)
    }

    /** After the whole folder, what held of the files so far holds of all of them. */
    lemma FolderDone(files: seq<AudioFile>, sounds: seq<Sound>, fields: seq<SoundFields>,
                     embedded: seq<EmbeddedAudio>, groups: seq<string>)
      requires |fields| == |sounds| && FolderSoFar(files, |files|, sounds, fields, embedded, groups)
      ensures forall k :: 0 <= k < |sounds| && sounds[k].Name !in AudioStems(files) ==> sounds[k].Fields() == fields[k]
      ensures forall k :: |sounds| <= k < |Sounds| ==> Sounds[k].Name in AudioStems(files)
      ensures AudioStems(files) == {} ==> Sounds == sounds && EmbeddedAudio == embedded && AudioGroups == groups
    {
      assert files[..|files|] == files;
    }

    /** One turn of the import loop: file `i` is imported, and what holds of
        the files before it then holds of the files up to it. */
    method ImportNext(files: seq<AudioFile>, i: nat, config: ImportConfig, folderName: string, hasGroups: bool,
                      builtinGroup: int, groupID: int, ghost sounds: seq<Sound>,
                      ghost fields: seq<SoundFields>, ghost embedded: seq<EmbeddedAudio>,
                      ghost groups: seq<string>) returns (groupID': int)
      requires i < |files| && |fields| == |sounds| && FolderSoFar(files, i, sounds, fields, embedded, groups)
      modifies this, Sounds
      ensures FolderSoFar(files, i + 1, sounds, fields, embedded, groups)
      ensures forall k :: 0 <= k < |Sounds| ==> Sounds[k] in old(Sounds) || fresh(Sounds[k])
      ensures old(Linked()) ==> Linked()
    {
      ghost var before := Sounds;
      assert files[..i + 1][..i] == files[..i];
      groupID' := ImportKeepingLinks(files[i], config, folderName, hasGroups, builtinGroup, groupID);
      NamesGrow(before, Sounds);
      forall k | 0 <= k < |sounds| && sounds[k].Name !in AudioStems(files[..i + 1])
        ensures sounds[k].Fields() == fields[k]
      {
        assert sounds[k] in before && sounds[k].Name !in AudioStems(files[..i]);
      }
      forall k | |sounds| <= k < |Sounds|
        ensures Sounds[k].Name in AudioStems(files[..i + 1])
      {
        if k < |before| {
          assert Sounds[k] == before[k];
        }
      }
    }

    /** The sound record of an imported file: a new sound at the end, or the
        existing sound `e` with every field replaced, or only its audio. */
    method StoreSound(e: Option<nat>, name: string, fields: SoundFields, replace: bool)
      requires e.Some? ==> e.value < |Sounds|
      modifies this, Sounds
      ensures EmbeddedAudio == old(EmbeddedAudio) && AudioGroups == old(AudioGroups)
      ensures e.None? ==>
        |Sounds| == |old(Sounds)| + 1 && Sounds[..|old(Sounds)|] == old(Sounds) &&
        fresh(Sounds[|old(Sounds)|]) && Sounds[|old(Sounds)|].Name == name &&
        Sounds[|old(Sounds)|].Fields() == fields &&
        forall s :: s in old(Sounds) ==> s.Fields() == old(s.Fields())
      ensures e.Some? ==>
        Sounds == old(Sounds) &&
        Sounds[e.value].Fields() ==
          (if replace then fields
           else old(Sounds[e.value].Fields()).(audioID := fields.audioID, audioFile := fields.audioFile)) &&
        forall s :: s in old(Sounds) && s != old(Sounds[e.value]) ==> s.Fields() == old(s.Fields())
    {
      if e.None? {
        var sound := new Sound(name, fields);
        Sounds := Sounds + [sound];
      } else if replace {
        Sounds[e.value].SetFields(fields);
      } else {
        var existing := Sounds[e.value];
        existing.AudioID := fields.audioID;
        existing.AudioFile := fields.audioFile;
      }
    }
  }
}
