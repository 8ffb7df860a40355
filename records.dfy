/** `process_image`: one metadata record per file, built from the file's byte
    size and its decoded tag table. Every field starts at its default and is
    overwritten step by step; an exception anywhere stops the filling but the
    record is still returned. */
module Records {
  import opened Optional
  import opened Text
  import opened Tags
  import Paths
  import Gps
  import Sizes
  import Dates

  /** A coordinate cell: the empty string by default, degrees when known. */
  datatype Coord = Blank | Degrees(deg: real)

  /** The size cell: "0 KB" by default, otherwise `format_bytes` of the size. */
  datatype SizeField = DefaultSize | Shown(value: real, unitLabel: string)

  datatype Record = Record(
    path: string,
    filename: string,
    date: string,
    lat: Coord,
    lon: Coord,
    camera: string,
    size: SizeField,
    details: map<string, string>)

  /** What the file system and the tag decoder give for one path: the byte
      size (`None` when `os.path.getsize` raises) and the tag table (`None`
      when opening or reading the file raises). */
  datatype FileInput = FileInput(byteSize: Option<nat>, tags: Option<TagTable>)

  /** The record before anything is read from the file. */
  function Defaults(path: string): Record {
    Record(path, Paths.Basename(path), "-", Blank, Blank, "-", DefaultSize, map[])
  }

  /** The technical tags copied into `details`, as (namespace prefix, name);
      the tag looked up is prefix + name and the key written is the name. */
  const AllowList: seq<(string, string)> := [
    ("Image ", "Software"), ("EXIF ", "ISOSpeedRatings"), ("EXIF ", "ExposureTime"),
    ("EXIF ", "FNumber"), ("EXIF ", "FocalLength"), ("EXIF ", "Flash")]

  function TagName(entry: (string, string)): string {
    entry.0 + entry.1
  }

  /** The date tag: the original capture time if present, else the file's
      date; decoded tags are always truthy, so the default "-" stays only when
      neither tag exists. */
  function DateOf(tags: TagTable): string {
    if DateTimeOriginal in tags then Dates.ParseDate(Dates.TagArg(tags[DateTimeOriginal]))
    else if DateTime in tags then Dates.ParseDate(Dates.TagArg(tags[DateTime]))
    else "-"
  }

  /** The camera: stripped make and model joined by a space and stripped
      again, or "-" when both are empty. */
  function CameraOf(tags: TagTable): string {
    Camera(Strip(PrintableOr(tags, Make)), Strip(PrintableOr(tags, Model)))
  }

  function Camera(make: string, model: string): string {
    if make != [] || model != [] then Strip(make + " " + model) else "-"
  }

  /** The coordinates are stored only when the returned latitude is truthy,
      that is, present and not zero. */
  function CoordsOf(tags: TagTable): (Coord, Coord) {
    match Gps.GetGpsCoords(tags)
    case Some((lat, lon)) => if lat != 0.0 then (Degrees(lat), Degrees(lon)) else (Blank, Blank)
    case None => (Blank, Blank)
  }

  /** `details` after the allow-list loop has visited `entries`, in order. */
  function DetailsOf(tags: TagTable, entries: seq<(string, string)>): map<string, string> {
    if entries == [] then map[]
    else
      var d := DetailsOf(tags, entries[..|entries| - 1]);
      var e := entries[|entries| - 1];
      if TagName(e) in tags then d[e.1 := tags[TagName(e)].printable] else d
  }

  /** The fields `process_image` derives from a decoded tag table. */
  function WithTags(r: Record, tags: TagTable): Record {
    var (lat, lon) := CoordsOf(tags);
    r.(date := DateOf(tags), camera := CameraOf(tags), lat := lat, lon := lon,
       details := DetailsOf(tags, AllowList))
  }

  /** The record `process_image` returns for `path`. */
  function RecordOf(path: string, input: FileInput): Record {
    var base := Defaults(path);
    if input.byteSize.None? then base
    else
      match Sizes.FormatBytesSpec(input.byteSize.value)
      case KeyError(_) => base
      case Formatted(v, _, unitLabel) =>
        var sized := base.(size := Shown(v, unitLabel));
        if input.tags.None? then sized else WithTags(sized, input.tags.value)
  }

  /** `process_image`, updating the record field by field. */
  method ProcessImage(path: string, input: FileInput) returns (res: Record)
    ensures res == RecordOf(path, input)
  {
    res := Defaults(path);
    if input.byteSize.None? {
      return;  // os.path.getsize raised
    }
    var scaled := Sizes.FormatBytes(input.byteSize.value);
    if scaled.KeyError? {
      return;  // no label beyond GB
    }
    res := res.(size := Shown(scaled.value, scaled.unitLabel));
    if input.tags.None? {
      return;  // the file could not be read
    }
    var tags := input.tags.value;

    var dt: Option<TagValue> :=
      if DateTimeOriginal in tags then Some(tags[DateTimeOriginal])
      else if DateTime in tags then Some(tags[DateTime])
      else None;
    if dt.Some? {
      res := res.(date := Dates.ParseDate(Dates.TagArg(dt.value)));
    }
    assert res.date == DateOf(tags);

    var make := Strip(PrintableOr(tags, Make));
    var model := Strip(PrintableOr(tags, Model));
    if make != [] || model != [] {
      res := res.(camera := Strip(make + " " + model));
    }
    assert res.camera == CameraOf(tags);

    var coords := Gps.GetGpsCoords(tags);
    if coords.Some? && coords.value.0 != 0.0 {
      res := res.(lat := Degrees(coords.value.0), lon := Degrees(coords.value.1));
    }
    assert (res.lat, res.lon) == CoordsOf(tags);

    var details := CollectDetails(tags, AllowList);
    res := res.(details := details);
  }

  /** The allow-list loop of `process_image`: each listed tag that is present
      is written under its name without the namespace prefix. */
  method CollectDetails(tags: TagTable, entries: seq<(string, string)>)
    returns (details: map<string, string>)
    ensures details == DetailsOf(tags, entries)
  {
    details := map[];
    for i := 0 to |entries|
      invariant details == DetailsOf(tags, entries[..i])
    {
      var e := entries[i];
      assert entries[..i + 1][..i] == entries[..i];
      if TagName(e) in tags {
        details := details[e.1 := tags[TagName(e)].printable];
      }
    }
    assert entries[..|entries|] == entries;
  }

  /** The path is kept and the file name is its last component, whatever the
      file holds. A size that cannot be read, or one above 1024^4 bytes (whose
      unit label does not exist), leaves every other field at its default;
      otherwise the size is shown scaled to at most 1024 of its unit. */
  lemma RecordDefaults(path: string, input: FileInput)
    ensures RecordOf(path, input).path == path
    ensures RecordOf(path, input).filename == Paths.Basename(path)
    ensures input.byteSize.None? || input.byteSize.value as real > Sizes.Pow(4) ==>
      RecordOf(path, input) == Defaults(path)
    ensures input.byteSize.Some? && input.byteSize.value as real <= Sizes.Pow(4) ==>
      RecordOf(path, input).size.Shown? && RecordOf(path, input).size.value <= 1024.0
  {
    RecordPath(path, input);
    if input.byteSize.None? {
      UnsizedRecord(path, input);
    } else {
      Sizes.FormatBytesKeyError(input.byteSize.value);
      if Sizes.FormatBytesSpec(input.byteSize.value).KeyError? {
        UnsizedRecord(path, input);
      } else {
        SizedRecord(path, input);
      }
    }
  }

  lemma RecordPath(path: string, input: FileInput)
    ensures RecordOf(path, input).path == path
    ensures RecordOf(path, input).filename == Paths.Basename(path)
  {
  }

  lemma UnsizedRecord(path: string, input: FileInput)
    requires input.byteSize.None? || Sizes.FormatBytesSpec(input.byteSize.value).KeyError?
    ensures RecordOf(path, input) == Defaults(path)
  {
  }

  lemma SizedRecord(path: string, input: FileInput)
    requires input.byteSize.Some? && Sizes.FormatBytesSpec(input.byteSize.value).Formatted?
    ensures var s := Sizes.FormatBytesSpec(input.byteSize.value);
      RecordOf(path, input).size == Shown(s.value, s.unitLabel)
  {
  }

  /** A size of at most 1024^4 bytes, for which `format_bytes` finds a unit
      label instead of raising KeyError. */
  predicate HasUnitLabel(n: nat) {
    n as real <= Sizes.Pow(4)
  }

  /** A file whose size has a unit label and whose tags decode: the size
      cell is filled and every other field comes from the tag table. */
  lemma TaggedRecord(path: string, n: nat, tags: TagTable)
    requires HasUnitLabel(n)
    ensures var s := Sizes.FormatBytesSpec(n);
      && s.Formatted?
      && RecordOf(path, FileInput(Some(n), Some(tags)))
           == WithTags(Defaults(path).(size := Shown(s.value, s.unitLabel)), tags)
  {
    Sizes.FormatBytesKeyError(n);
    FormattedRecord(path, n, tags);
  }

  lemma FormattedRecord(path: string, n: nat, tags: TagTable)
    requires Sizes.FormatBytesSpec(n).Formatted?
    ensures var s := Sizes.FormatBytesSpec(n);
      RecordOf(path, FileInput(Some(n), Some(tags)))
        == WithTags(Defaults(path).(size := Shown(s.value, s.unitLabel)), tags)
  {
  }

  lemma LabelledDate(path: string, n: nat, tags: TagTable)
    requires HasUnitLabel(n)
    ensures RecordOf(path, FileInput(Some(n), Some(tags))).date == DateOf(tags)
  {
    TaggedRecord(path, n, tags);
  }

  lemma LabelledCamera(path: string, n: nat, tags: TagTable)
    requires HasUnitLabel(n)
    ensures RecordOf(path, FileInput(Some(n), Some(tags))).camera == CameraOf(tags)
  {
    TaggedRecord(path, n, tags);
  }

  lemma LabelledCoords(path: string, n: nat, tags: TagTable)
    requires HasUnitLabel(n)
    ensures var r := RecordOf(path, FileInput(Some(n), Some(tags)));
      (r.lat, r.lon) == CoordsOf(tags)
  {
    TaggedRecord(path, n, tags);
  }

  lemma LabelledDetails(path: string, n: nat, tags: TagTable)
    requires HasUnitLabel(n)
    ensures RecordOf(path, FileInput(Some(n), Some(tags))).details == DetailsOf(tags, AllowList)
  {
    TaggedRecord(path, n, tags);
  }

  /** The original capture date wins over the file date; with neither tag the
      date stays "-". */
  lemma RecordDate(path: string, n: nat, tags: TagTable)
    requires HasUnitLabel(n)
    ensures var r := RecordOf(path, FileInput(Some(n), Some(tags)));
      && (DateTimeOriginal in tags ==>
            r.date == Dates.ParseDate(Dates.TagArg(tags[DateTimeOriginal])))
      && (DateTimeOriginal !in tags && DateTime in tags ==>
            r.date == Dates.ParseDate(Dates.TagArg(tags[DateTime])))
      && (DateTimeOriginal !in tags && DateTime !in tags ==> r.date == "-")
  {
    LabelledDate(path, n, tags);
  }

  /** An original capture date in the `YYYY:MM:DD HH:MM:SS` layout is shown as
      `DD.MM.YYYY HH:MM`, whatever the file date says. */
  lemma RecordDateWellFormed(path: string, n: nat, tags: TagTable, dt: Dates.DateTime,
                             pre: string, post: string)
    requires HasUnitLabel(n)
    requires Dates.Valid(dt) && AllSpaces(pre) && AllSpaces(post)
    requires DateTimeOriginal in tags
    requires tags[DateTimeOriginal].printable == pre + Dates.Canonical(dt) + post
    ensures RecordOf(path, FileInput(Some(n), Some(tags))).date == Dates.Format(dt)
  {
    RecordDate(path, n, tags);
    Dates.ParseDateWellFormed(dt, pre, post);
  }

  /** Joining a stripped make and model: "-" when both are blank, the one that
      is not blank alone, or both separated by one space. */
  lemma JoinStripped(make: string, model: string)
    requires Stripped(make) && Stripped(model)
    ensures Camera(make, model) ==
      if make == [] && model == [] then "-"
      else if make == [] then model
      else if model == [] then make
      else make + " " + model
  {
    if make == [] {
      JoinModelOnly(make, model);
    } else if model == [] {
      JoinMakeOnly(make, model);
    } else {
      JoinBoth(make, model);
    }
  }

  lemma JoinModelOnly(make: string, model: string)
    requires make == [] && Stripped(model)
    ensures Strip(make + " " + model) == model
  {
    assert AllSpaces(" ");
    assert make + " " + model == " " + model;
    TrimLeftPadded(" ", model);
    TrimRightPadded(model, []);
    assert model + [] == model;
  }

  lemma JoinMakeOnly(make: string, model: string)
    requires Stripped(make) && make != [] && model == []
    ensures Strip(make + " " + model) == make
  {
    assert AllSpaces(" ");
    var x := make + " ";
    assert make + " " + model == [] + x && x[0] == make[0];
    TrimLeftPadded([], x);
    TrimRightPadded(make, " ");
  }

  lemma JoinBoth(make: string, model: string)
    requires Stripped(make) && Stripped(model) && make != [] && model != []
    ensures Strip(make + " " + model) == make + " " + model
  {
    var s := make + " " + model;
    assert s[0] == make[0] && s[|s| - 1] == model[|model| - 1];
    StripStripped(s);
  }

  lemma CameraJoin(tags: TagTable)
    ensures var make := Strip(PrintableOr(tags, Make));
      var model := Strip(PrintableOr(tags, Model));
      CameraOf(tags) ==
        if make == [] && model == [] then "-"
        else if make == [] then model
        else if model == [] then make
        else make + " " + model
  {
    var make := Strip(PrintableOr(tags, Make));
    var model := Strip(PrintableOr(tags, Model));
    assert CameraOf(tags) == Camera(make, model);
    JoinStripped(make, model);
  }

  /** The camera: "-" when make and model are both blank, the one that is not
      blank alone, otherwise both separated by one space. */
  lemma RecordCamera(path: string, n: nat, tags: TagTable)
    requires HasUnitLabel(n)
    ensures var make := Strip(PrintableOr(tags, Make));
      var model := Strip(PrintableOr(tags, Model));
      RecordOf(path, FileInput(Some(n), Some(tags))).camera ==
        if make == [] && model == [] then "-"
        else if make == [] then model
        else if model == [] then make
        else make + " " + model
  {
    LabelledCamera(path, n, tags);
    CameraJoin(tags);
  }

  /** Coordinates are stored as a pair, and only when the GPS tags resolve to
      a latitude other than zero; a photo on the equator keeps blank cells. */
  lemma RecordCoordinates(path: string, n: nat, tags: TagTable)
    requires HasUnitLabel(n)
    ensures var r := RecordOf(path, FileInput(Some(n), Some(tags)));
      var g := Gps.GetGpsCoords(tags);
      && (r.lat.Degrees? <==> g.Some? && g.value.0 != 0.0)
      && (r.lat.Degrees? <==> r.lon.Degrees?)
      && (r.lat.Degrees? ==> r.lat.deg == g.value.0 && r.lon.deg == g.value.1)
  {
    LabelledCoords(path, n, tags);
  }

  /** The names the allow-list writes under are pairwise different. */
  predicate DistinctNames(entries: seq<(string, string)>) {
    forall i, j :: 0 <= i < j < |entries| ==> entries[i].1 != entries[j].1
  }

  /** `details` holds exactly the listed tags that are present, each under its
      name and with its printable value; nothing else. */
  lemma {:induction false} DetailsExactly(tags: TagTable, entries: seq<(string, string)>)
    requires DistinctNames(entries)
    ensures var d := DetailsOf(tags, entries);
      && (forall k :: k in d <==>
            exists i :: 0 <= i < |entries| && entries[i].1 == k && TagName(entries[i]) in tags)
      && (forall i :: 0 <= i < |entries| && TagName(entries[i]) in tags ==>
            entries[i].1 in d && d[entries[i].1] == tags[TagName(entries[i])].printable)
  {
    if entries != [] {
      var n := |entries| - 1;
      var init := entries[..n];
      var last := entries[n];
      assert DistinctNames(init);
      DetailsExactly(tags, init);
      var d0 := DetailsOf(tags, init);
      var d := DetailsOf(tags, entries);
      assert d == if TagName(last) in tags then d0[last.1 := tags[TagName(last)].printable] else d0;
      forall k
        ensures k in d <==>
          exists i :: 0 <= i < |entries| && entries[i].1 == k && TagName(entries[i]) in tags
      {
        if k in d0 {
          assert k in DetailsOf(tags, init);
          assert exists i :: 0 <= i < |init| && init[i].1 == k && TagName(init[i]) in tags;
          var i :| 0 <= i < |init| && init[i].1 == k && TagName(init[i]) in tags;
          assert entries[i] == init[i];
        }
        if exists i :: 0 <= i < |entries| && entries[i].1 == k && TagName(entries[i]) in tags {
          var i :| 0 <= i < |entries| && entries[i].1 == k && TagName(entries[i]) in tags;
          if i < n {
            assert init[i] == entries[i];
          }
        }
      }
      forall i | 0 <= i < |entries| && TagName(entries[i]) in tags
        ensures entries[i].1 in d && d[entries[i].1] == tags[TagName(entries[i])].printable
      {
        if i < n {
          assert init[i] == entries[i];
          assert entries[i].1 != last.1;
        }
      }
    }
  }

  lemma AllowListDistinct()
    ensures DistinctNames(AllowList)
  {
  }

  lemma RecordDetails(path: string, n: nat, tags: TagTable)
    requires HasUnitLabel(n)
    ensures var d := RecordOf(path, FileInput(Some(n), Some(tags))).details;
      && (forall k :: k in d <==>
            exists i :: 0 <= i < |AllowList| && AllowList[i].1 == k && TagName(AllowList[i]) in tags)
      && (forall i :: 0 <= i < |AllowList| && TagName(AllowList[i]) in tags ==>
            AllowList[i].1 in d && d[AllowList[i].1] == tags[TagName(AllowList[i])].printable)
  {
    LabelledDetails(path, n, tags);
    AllowListDistinct();
    DetailsExactly(tags, AllowList);
  }

  /** A file whose size has a unit label and that has no metadata gets a
      record whose derived fields all keep their defaults. */
  lemma NoMetadata(path: string, n: nat)
    requires HasUnitLabel(n)
    ensures var r := RecordOf(path, FileInput(Some(n), Some(map[])));
      && r.date == "-" && r.camera == "-" && r.lat == Blank && r.lon == Blank
      && r.details == map[] && r.size.Shown?
  {
    TaggedRecord(path, n, map[]);
    LabelledDate(path, n, map[]);
    LabelledCamera(path, n, map[]);
    LabelledCoords(path, n, map[]);
    LabelledDetails(path, n, map[]);
    EmptyTable();
    NoDetails(AllowList);
  }

  lemma EmptyTable()
    ensures DateOf(map[]) == "-" && CameraOf(map[]) == "-" && CoordsOf(map[]) == (Blank, Blank)
  {
    assert PrintableOr(map[], Make) == [] && PrintableOr(map[], Model) == [];
    assert Gps.GetGpsCoords(map[]).None?;
  }

  lemma {:induction false} NoDetails(entries: seq<(string, string)>)
    ensures DetailsOf(map[], entries) == map[]
  {
    if entries != [] {
      NoDetails(entries[..|entries| - 1]);
    }
  }

  /** Valid GPS tags at latitude 0 N, longitude 10 E resolve, yet the record
      keeps blank coordinates because the latitude is falsy. */
  lemma EquatorDropped(path: string, n: nat)
    requires HasUnitLabel(n)
    ensures var tags := map[
        GpsLatitude := Ratios([Ratio(0, 1), Ratio(0, 1), Ratio(0, 1)], "[0, 0, 0]"),
        GpsLatitudeRef := Text("N"),
        GpsLongitude := Ratios([Ratio(10, 1), Ratio(0, 1), Ratio(0, 1)], "[10, 0, 0]"),
        GpsLongitudeRef := Text("E")];
      && Gps.GetGpsCoords(tags) == Some((0.0, 10.0))
      && RecordOf(path, FileInput(Some(n), Some(tags))).lat == Blank
  {
    var tags := map[
        GpsLatitude := Ratios([Ratio(0, 1), Ratio(0, 1), Ratio(0, 1)], "[0, 0, 0]"),
        GpsLatitudeRef := Text("N"),
        GpsLongitude := Ratios([Ratio(10, 1), Ratio(0, 1), Ratio(0, 1)], "[10, 0, 0]"),
        GpsLongitudeRef := Text("E")];
    assert Gps.GetGpsCoords(tags) == Some((0.0, 10.0));
    RecordCoordinates(path, n, tags);
  }
}
