/**
 * The normalised timeline record (`JumpListEvent`) and its projection to a dictionary
 * (`to_dict`), which drops every field whose value is `None`, and the rebuilding of a record from
 * such a dictionary (`JumpListEvent(**e)`).
 */
module Events {
  import opened Wrappers

  /**
   * One JumpList timeline event. `app_id` is optional here because the row normaliser copies the
   * CSV cell as it is, and a short CSV row yields `None` for it; the other four required fields
   * can never be `None` on any path of the program.
   */
  datatype JumpListEvent = JumpListEvent(
    source: string,
    artifact: string,
    timestampUtc: string,
    appId: Option<string>,
    targetPath: string,
    targetCreatedUtc: Option<string>,
    targetModifiedUtc: Option<string>,
    targetAccessedUtc: Option<string>,
    fileSize: Option<int>,
    machineId: Option<string>,
    volumeSerial: Option<string>,
    entryNumber: Option<int>)

  /** A dictionary value: the projection holds strings and integers only. */
  datatype Value = Str(s: string) | Int(i: int)

  /** The twelve dataclass fields, in declaration order. */
  datatype Field =
    | Source | Artifact | TimestampUtc | AppId | TargetPath
    | TargetCreatedUtc | TargetModifiedUtc | TargetAccessedUtc
    | FileSize | MachineId | VolumeSerial | EntryNumber

  /** The Python name of a field, the key `to_dict` uses for it. */
  function FieldName(f: Field): string {
    match f
    case Source => "source"
    case Artifact => "artifact"
    case TimestampUtc => "timestamp_utc"
    case AppId => "app_id"
    case TargetPath => "target_path"
    case TargetCreatedUtc => "target_created_utc"
    case TargetModifiedUtc => "target_modified_utc"
    case TargetAccessedUtc => "target_accessed_utc"
    case FileSize => "file_size"
    case MachineId => "machine_id"
    case VolumeSerial => "volume_serial"
    case EntryNumber => "entry_number"
  }

  /** The fields the dataclass declares without a default. */
  predicate IsRequired(f: Field) {
    f.Source? || f.Artifact? || f.TimestampUtc? || f.AppId? || f.TargetPath?
  }

  /** The dictionary `to_dict` returns, keyed by field. */
  type Projection = map<Field, Value>

  /** The value of field `f` of `e`, `None` when the field is `None`. */
  function FieldValue(e: JumpListEvent, f: Field): Option<Value> {
    match f
    case Source => Some(Str(e.source))
    case Artifact => Some(Str(e.artifact))
    case TimestampUtc => Some(Str(e.timestampUtc))
    case AppId => if e.appId.Some? then Some(Str(e.appId.value)) else None
    case TargetPath => Some(Str(e.targetPath))
    case TargetCreatedUtc => if e.targetCreatedUtc.Some? then Some(Str(e.targetCreatedUtc.value)) else None
    case TargetModifiedUtc => if e.targetModifiedUtc.Some? then Some(Str(e.targetModifiedUtc.value)) else None
    case TargetAccessedUtc => if e.targetAccessedUtc.Some? then Some(Str(e.targetAccessedUtc.value)) else None
    case FileSize => if e.fileSize.Some? then Some(Int(e.fileSize.value)) else None
    case MachineId => if e.machineId.Some? then Some(Str(e.machineId.value)) else None
    case VolumeSerial => if e.volumeSerial.Some? then Some(Str(e.volumeSerial.value)) else None
    case EntryNumber => if e.entryNumber.Some? then Some(Int(e.entryNumber.value)) else None
  }

  const AllFields: set<Field> :=
    {Source, Artifact, TimestampUtc, AppId, TargetPath, TargetCreatedUtc, TargetModifiedUtc,
     TargetAccessedUtc, FileSize, MachineId, VolumeSerial, EntryNumber}

  lemma AllFieldsComplete(f: Field)
    ensures f in AllFields
  {
  }

  /** `to_dict`: every field of `e`, under its name, whose value is not `None`. */
  function ToDict(e: JumpListEvent): Projection {
    map f | f in AllFields && FieldValue(e, f).Some? :: FieldValue(e, f).value
  }

  /** A string-valued optional entry of `d`: absent gives `None`; `None` overall for an integer. */
  function OptStr(d: Projection, f: Field): Option<Option<string>> {
    if f !in d then Some(None)
    else if d[f].Str? then Some(Some(d[f].s))
    else None
  }

  function OptInt(d: Projection, f: Field): Option<Option<int>> {
    if f !in d then Some(None)
    else if d[f].Int? then Some(Some(d[f].i))
    else None
  }

  function ReqStr(d: Projection, f: Field): Option<string> {
    if f in d && d[f].Str? then Some(d[f].s) else None
  }

  /**
   * `JumpListEvent(**d)`: fails (Python raises `TypeError`) when `d` lacks a required field. A
   * value of the wrong kind is refused too; Python would store it unchecked, but no dictionary
   * this program builds holds one.
   */
  function FromDict(d: Projection): (r: Option<JumpListEvent>)
    ensures r.Some? ==> forall f | IsRequired(f) :: f in d
  {
    if ReqStr(d, Source).None? || ReqStr(d, Artifact).None? || ReqStr(d, TimestampUtc).None?
       || ReqStr(d, AppId).None? || ReqStr(d, TargetPath).None? then None
    else if OptStr(d, TargetCreatedUtc).None? || OptStr(d, TargetModifiedUtc).None?
         || OptStr(d, TargetAccessedUtc).None? || OptInt(d, FileSize).None?
         || OptStr(d, MachineId).None? || OptStr(d, VolumeSerial).None?
         || OptInt(d, EntryNumber).None? then None
    else
      Some(JumpListEvent(
        ReqStr(d, Source).value, ReqStr(d, Artifact).value, ReqStr(d, TimestampUtc).value,
        Some(ReqStr(d, AppId).value), ReqStr(d, TargetPath).value,
        OptStr(d, TargetCreatedUtc).value, OptStr(d, TargetModifiedUtc).value,
        OptStr(d, TargetAccessedUtc).value, OptInt(d, FileSize).value,
        OptStr(d, MachineId).value, OptStr(d, VolumeSerial).value,
        OptInt(d, EntryNumber).value))
  }

  /**
   * Rebuilding an event from its projection gives the event back exactly when its one nullable
   * required field, `app_id`, is present; otherwise the rebuild raises.
   */
  lemma RoundTrip(e: JumpListEvent)
    ensures FromDict(ToDict(e)) == if e.appId.Some? then Some(e) else None
  {
    var d := ToDict(e);
    assert Source in AllFields && Artifact in AllFields && TimestampUtc in AllFields;
    assert AppId in AllFields && TargetPath in AllFields;
    if e.appId.Some? {
      assert OptStr(d, TargetCreatedUtc) == Some(e.targetCreatedUtc);
      assert OptStr(d, TargetModifiedUtc) == Some(e.targetModifiedUtc);
      assert OptStr(d, TargetAccessedUtc) == Some(e.targetAccessedUtc);
      assert OptInt(d, FileSize) == Some(e.fileSize);
      assert OptStr(d, MachineId) == Some(e.machineId);
      assert OptStr(d, VolumeSerial) == Some(e.volumeSerial);
      assert OptInt(d, EntryNumber) == Some(e.entryNumber);
    }
  }

  /** Conversely, a dictionary that rebuilds into an event is that event's projection. */
  lemma RebuiltProjects(d: Projection)
    requires FromDict(d).Some?
    ensures ToDict(FromDict(d).value) == d
  {
    var e := FromDict(d).value;
    var p := ToDict(e);
    forall f
      ensures f in p <==> f in d
      ensures f in d ==> p[f] == d[f]
    {
      AllFieldsComplete(f);
      match f
      case Source =>
      case Artifact =>
      case TimestampUtc =>
      case AppId =>
      case TargetPath =>
      case TargetCreatedUtc =>
      case TargetModifiedUtc =>
      case TargetAccessedUtc =>
      case FileSize =>
      case MachineId =>
      case VolumeSerial =>
      case EntryNumber =>
    }
  }

  /** An event whose optional fields are all `None` projects to its five required fields only. */
  lemma MinimalProjection(e: JumpListEvent)
    requires e.appId.Some?
    requires e.targetCreatedUtc.None? && e.targetModifiedUtc.None? && e.targetAccessedUtc.None?
    requires e.fileSize.None? && e.machineId.None? && e.volumeSerial.None? && e.entryNumber.None?
    ensures forall f :: f in ToDict(e) <==> IsRequired(f)
  {
    forall f
      ensures f in ToDict(e) <==> IsRequired(f)
    {
      AllFieldsComplete(f);
    }
  }

  /** `d.get(name, '')` for a string-valued entry. */
  function GetStr(d: Projection, f: Field): string {
    if f in d && d[f].Str? then d[f].s else ""
  }
}
