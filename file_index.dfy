/**
 * One entry of the database's JSON file index, the HDF5 group `files/{id}`
 * that holds the entry's data, and the rules by which the repair pass
 * rebuilds a damaged entry from that group.
 */
module FileIndex {
  import opened Wrappers
  import opened PathNames

  /**
   * A JSON value of a record field. The repair pass only ever asks two things
   * of a value: whether it is a string (and which), and its Python truth
   * value; every other JSON value is kept as `NonStr` with that truth value.
   */
  datatype Value = Str(s: string) | NonStr(truthy: bool)

  /**
   * The key of a record field. The four fields the repair pass writes are
   * named; every other field keeps its JSON key in `Other`. By convention
   * `Other` never carries "original_path", "file_name", "file_type" or
   * "status", so each JSON key has exactly one `Field`; no operation of the
   * model creates an `Other` key.
   */
  datatype Field = OriginalPath | FileName | FileType | Status | Other(key: string)

  /** A FileRecord: the dictionary the index maps an entry id to. */
  type Record = map<Field, Value>

  /** The sentinel the application writes when it cannot name a file. */
  const Unknown := "Unknown"
  const Recovered := "recovered"
  const PlaceholderPrefix := "recovered_file_"

  /** Python's truth value of a JSON value. */
  predicate Truthy(v: Value) {
    match v
    case Str(s) => s != []
    case NonStr(t) => t
  }

  /** A record is damaged when `original_path` is missing, falsy, or the "Unknown" sentinel. */
  predicate NeedsRepair(rec: Record) {
    OriginalPath !in rec || !Truthy(rec[OriginalPath]) || rec[OriginalPath] == Str(Unknown)
  }

  /** An HDF5 attribute value: a string (bytes already decoded), or anything else. */
  datatype AttrValue = Text(s: string) | NonText

  datatype Attribute = Attribute(name: string, value: AttrValue)

  /** The `raw_data` subgroup; only whether it holds `photon_data` matters here. */
  datatype RawData = RawData(hasPhotonData: bool)

  /** The group `files/{id}`: its attributes in iteration order and its optional `raw_data`. */
  datatype Group = Group(attrs: seq<Attribute>, rawData: Option<RawData>)

  /** Why the repair of one record raised, aborting the whole pass. */
  datatype RepairError =
    | MissingOriginalPath   // KeyError on `file_info['original_path']`
    | OriginalPathNotText   // TypeError from `os.path.basename` on a non-string

  /** An attribute the pass adopts as the original path. */
  predicate IsPathAttribute(a: Attribute) {
    a.value.Text? && LooksLikePath(a.value.s)
  }

  /**
   * The value of the first path-like string attribute in iteration order.
   * None exactly when no attribute qualifies; otherwise the value of a
   * qualifying attribute that no qualifying attribute precedes.
   */
  function FirstPathAttribute(attrs: seq<Attribute>): (r: Option<string>)
    ensures r.None? <==> forall i :: 0 <= i < |attrs| ==> !IsPathAttribute(attrs[i])
    ensures r.Some? ==> exists i :: 0 <= i < |attrs| && IsPathAttribute(attrs[i]) && attrs[i].value.s == r.value
                                    && forall j :: 0 <= j < i ==> !IsPathAttribute(attrs[j])
    ensures r.Some? ==> LooksLikePath(r.value)
  {
    if attrs == [] then None
    else if IsPathAttribute(attrs[0]) then Some(attrs[0].value.s)
    else
      var r := FirstPathAttribute(attrs[1..]);
      assert r.Some? ==> exists i :: 1 <= i < |attrs| && IsPathAttribute(attrs[i]) && attrs[i].value.s == r.value
                                    && forall j :: 0 <= j < i ==> !IsPathAttribute(attrs[j]) by {
        if r.Some? {
          var i :| 0 <= i < |attrs| - 1 && IsPathAttribute(attrs[1..][i]) && attrs[1..][i].value.s == r.value
                   && forall j :: 0 <= j < i ==> !IsPathAttribute(attrs[1..][j]);
          assert forall j :: 0 <= j < i + 1 ==> !IsPathAttribute(attrs[j]) by {
            forall j | 0 <= j < i + 1 ensures !IsPathAttribute(attrs[j]) {
              if j > 0 { assert attrs[j] == attrs[1..][j - 1]; }
            }
          }
        }
      }
      r
  }

  /**
   * The type the repair pass infers from an extension, compared without
   * regard to case: ".flz" and ".fld" give "flz", ".flr" gives "flr",
   * ".flb" gives "flb", anything else gives nothing.
   */
  function TypeForExtension(ext: string): (r: Option<string>)
    ensures r.Some? ==> |ext| == 4 && r.value in {"flz", "flr", "flb"}
    ensures r == Some("flz") <==> Lower(ext) == ".flz" || Lower(ext) == ".fld"
    ensures r == Some("flr") <==> Lower(ext) == ".flr"
    ensures r == Some("flb") <==> Lower(ext) == ".flb"
    ensures r.None? <==> Lower(ext) != ".flz" && Lower(ext) != ".fld" && Lower(ext) != ".flr" && Lower(ext) != ".flb"
  {
    var e := Lower(ext);
    if e == ".flz" || e == ".fld" then Some("flz")
    else if e == ".flr" then Some("flr")
    else if e == ".flb" then Some("flb")
    else None
  }

  /** The table ignores case: an extension gives the type its lower-cased form gives. */
  lemma TypeIgnoresCase(ext: string)
    ensures TypeForExtension(ext) == TypeForExtension(Lower(ext))
  {
    LowerIdempotent(ext);
  }

  /** Upper- and mixed-case spellings of the known extensions. */
  lemma UpperCaseExtensions()
    ensures TypeForExtension(".FLD") == Some("flz")
    ensures TypeForExtension(".FLZ") == Some("flz")
    ensures TypeForExtension(".Flr") == Some("flr")
    ensures TypeForExtension(".FLB") == Some("flb")
    ensures TypeForExtension(".FL") == None
  {
    assert Lower(".FLD") == ".fld";
    assert Lower(".FLZ") == ".flz";
    assert Lower(".Flr") == ".flr";
    assert Lower(".FLB") == ".flb";
    assert Lower(".FL") == ".fl";
  }

  /** The file type inferred from a path's extension. */
  function InferredType(path: string): Option<string> {
    TypeForExtension(Extension(path))
  }

  /**
   * Adopting a path found in an attribute: `original_path` becomes the path,
   * `file_name` its basename, and `file_type` the inferred type when the
   * extension is one the table knows.
   */
  function AdoptPath(rec: Record, path: string): Record {
    var named := rec[OriginalPath := Str(path)][FileName := Str(Basename(path))];
    var t := InferredType(path);
    if t.Some? then named[FileType := Str(t.value)] else named
  }

  /**
   * After adoption the record names the path and its basename; `file_type`
   * is the inferred type, or is left exactly as it was (present or absent)
   * for an unknown extension; no other field changes and none disappears.
   */
  lemma AdoptPathFields(rec: Record, path: string)
    ensures OriginalPath in AdoptPath(rec, path) && AdoptPath(rec, path)[OriginalPath] == Str(path)
    ensures FileName in AdoptPath(rec, path) && AdoptPath(rec, path)[FileName] == Str(Basename(path))
    ensures InferredType(path).Some? ==>
              FileType in AdoptPath(rec, path) && AdoptPath(rec, path)[FileType] == Str(InferredType(path).value)
    ensures InferredType(path).None? ==> (FileType in AdoptPath(rec, path) <==> FileType in rec)
    ensures InferredType(path).None? && FileType in rec ==> AdoptPath(rec, path)[FileType] == rec[FileType]
    ensures forall k :: k in AdoptPath(rec, path) <==>
              k in rec || k == OriginalPath || k == FileName || (k == FileType && InferredType(path).Some?)
    ensures forall k :: k in rec && k != OriginalPath && k != FileName && k != FileType ==> AdoptPath(rec, path)[k] == rec[k]
  {
  }

  /** The deterministic name given to an entry whose original path is lost. */
  function PlaceholderPath(id: string, hasPhotonData: bool): (r: string)
    ensures |r| == |PlaceholderPrefix| + |id| + (if hasPhotonData then 4 else 0)
    ensures r[..|PlaceholderPrefix|] == PlaceholderPrefix
    ensures hasPhotonData ==> r[|r| - 4..] == ".flz"
    ensures r[|PlaceholderPrefix|..|PlaceholderPrefix| + |id|] == id
  {
    PlaceholderPrefix + id + (if hasPhotonData then ".flz" else "")
  }

  /**
   * With `raw_data` present, the record gets the type its contents suggest
   * and a placeholder path; without it, nothing changes.
   */
  function PlaceFromRawData(id: string, rec: Record, raw: Option<RawData>): Record {
    match raw
    case Some(d) =>
      rec[FileType := Str(if d.hasPhotonData then "flz" else "unknown")]
         [OriginalPath := Str(PlaceholderPath(id, d.hasPhotonData))]
    case None => rec
  }

  /**
   * The fallback when no attribute names the file: place from `raw_data`,
   * then set `file_name` to the basename of `original_path` and `status` to
   * "recovered" — which raises when `original_path` is missing (KeyError)
   * or not a string (TypeError).
   */
  function Recover(id: string, rec: Record, raw: Option<RawData>): Result<Record, RepairError> {
    var placed := PlaceFromRawData(id, rec, raw);
    if OriginalPath !in placed then Failure(MissingOriginalPath)
    else if !placed[OriginalPath].Str? then Failure(OriginalPathNotText)
    else Success(placed[FileName := Str(Basename(placed[OriginalPath].s))][Status := Str(Recovered)])
  }

  /**
   * With `raw_data` the fallback always succeeds, with the placeholder path
   * and the type the contents suggest; without it `original_path` is kept,
   * and the fallback raises exactly when that field is missing (KeyError) or
   * not a string (TypeError). On success `file_name` is the basename of
   * `original_path`, `status` is "recovered", and no other field changes.
   */
  lemma RecoverFields(id: string, rec: Record, raw: Option<RawData>)
    ensures raw.Some? ==> Recover(id, rec, raw).Success?
    ensures raw.None? ==> (Recover(id, rec, raw) == Failure(MissingOriginalPath) <==> OriginalPath !in rec)
    ensures raw.None? ==>
              (Recover(id, rec, raw) == Failure(OriginalPathNotText) <==> OriginalPath in rec && !rec[OriginalPath].Str?)
    ensures Recover(id, rec, raw).Success? ==> forall k :: k in Recover(id, rec, raw).value <==>
              k in rec || k == OriginalPath || k == FileName || k == Status || (k == FileType && raw.Some?)
    ensures Recover(id, rec, raw).Success? && raw.Some? ==>
              Recover(id, rec, raw).value[OriginalPath] == Str(PlaceholderPath(id, raw.value.hasPhotonData))
    ensures Recover(id, rec, raw).Success? && raw.Some? ==>
              Recover(id, rec, raw).value[FileType] == Str(if raw.value.hasPhotonData then "flz" else "unknown")
    ensures Recover(id, rec, raw).Success? && raw.None? ==> Recover(id, rec, raw).value[OriginalPath] == rec[OriginalPath]
    ensures Recover(id, rec, raw).Success? ==>
              && Recover(id, rec, raw).value[OriginalPath].Str?
              && Recover(id, rec, raw).value[FileName] == Str(Basename(Recover(id, rec, raw).value[OriginalPath].s))
              && Recover(id, rec, raw).value[Status] == Str(Recovered)
    ensures Recover(id, rec, raw).Success? ==> forall k :: k in rec && k != OriginalPath && k != FileName && k != FileType && k != Status ==>
              Recover(id, rec, raw).value[k] == rec[k]
    ensures Recover(id, rec, raw).Success? && raw.None? && FileType in rec ==>
              Recover(id, rec, raw).value[FileType] == rec[FileType]
  {
  }

  /** A record after the pass has looked at it, and whether it counted as repaired. */
  datatype Entry = Entry(record: Record, counted: bool)

  /**
   * What the repair pass does to one index entry, given the entry's group
   * `files/{id}` if the container has one: an undamaged record, or one
   * without a group, is left alone; a damaged record with a group is
   * rebuilt from its first path-like attribute or else by the fallback.
   */
  function RepairEntry(id: string, rec: Record, group: Option<Group>): Result<Entry, RepairError> {
    if !NeedsRepair(rec) || group.None? then Success(Entry(rec, false))
    else match FirstPathAttribute(group.value.attrs)
      case Some(path) => Success(Entry(AdoptPath(rec, path), true))
      case None =>
        match Recover(id, rec, group.value.rawData)
        case Success(rebuilt) => Success(Entry(rebuilt, true))
        case Failure(e) => Failure(e)
  }

  /**
   * Undamaged records and records without a group come out as they went in
   * and do not count; a damaged record with a group counts exactly once;
   * only the fallback without `raw_data` can raise; no field is removed.
   */
  lemma RepairEntryOutcome(id: string, rec: Record, group: Option<Group>)
    ensures RepairEntry(id, rec, group).Success? ==>
              (RepairEntry(id, rec, group).value.counted <==> NeedsRepair(rec) && group.Some?)
    ensures RepairEntry(id, rec, group).Success? && !RepairEntry(id, rec, group).value.counted ==>
              RepairEntry(id, rec, group).value.record == rec
    ensures RepairEntry(id, rec, group).Success? ==> rec.Keys <= RepairEntry(id, rec, group).value.record.Keys
    ensures RepairEntry(id, rec, group).Failure? ==>
              NeedsRepair(rec) && group.Some? && FirstPathAttribute(group.value.attrs).None? && group.value.rawData.None?
  {
  }

  /**
   * Repairing a record a second time, with the same group, changes nothing.
   * A damaged record with a group is selected again exactly when neither an
   * attribute nor `raw_data` rebuilt it, that is when it kept its empty or
   * "Unknown" `original_path`; only then does the second repair count again.
   */
  lemma RepairEntryIdempotent(id: string, rec: Record, group: Option<Group>)
    requires RepairEntry(id, rec, group).Success?
    ensures var r := RepairEntry(id, rec, group).value.record;
            RepairEntry(id, r, group) == Success(Entry(r, NeedsRepair(r) && group.Some?))
    ensures NeedsRepair(rec) && group.Some? ==>
              (NeedsRepair(RepairEntry(id, rec, group).value.record) <==>
                 FirstPathAttribute(group.value.attrs).None? && group.value.rawData.None?)
  {
    if NeedsRepair(rec) && group.Some? {
      var attrs := group.value.attrs;
      var r := RepairEntry(id, rec, group).value.record;
      match FirstPathAttribute(attrs)
      case Some(path) =>
        AdoptPathFields(rec, path);
        assert r[OriginalPath] == Str(path);
        assert path != Unknown by {
          assert '/' !in Unknown && '\\' !in Unknown;
        }
      case None =>
        RecoverFields(id, rec, group.value.rawData);
        match group.value.rawData
        case Some(d) =>
          var placeholder := PlaceholderPath(id, d.hasPhotonData);
          assert r[OriginalPath] == Str(placeholder);
          assert |placeholder| > |Unknown|;
        case None =>
          var name := r[FileName];
          assert r[OriginalPath] == rec[OriginalPath];
          RecoverFields(id, r, None);
          assert Recover(id, r, None).value == r[FileName := name][Status := Str(Recovered)];
          assert r[FileName := name][Status := Str(Recovered)] == r;
    }
  }
}
