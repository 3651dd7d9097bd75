/** Looking up the EXIF orientation of an image (app.py, get_orientation).

    The imaging library's tag table maps numeric tag ids to tag names; the
    application walks it in its iteration order, takes the first id whose name
    is "Orientation" and reads that id from the image's EXIF mapping. In the
    standard table that id is 274 (0x0112), the Orientation tag of TIFF 6.0,
    Section 8, which Exif reuses. */
module ExifTags {
  import opened Wrappers

  const OrientationName: string := "Orientation"

  /** Tag 0x0112 of TIFF 6.0, Section 8. */
  const OrientationTagId: int := 0x0112

  /** One entry of the library's tag table. */
  datatype TagEntry = TagEntry(id: int, name: string)

  /** The tag table in its iteration order. */
  type TagTable = seq<TagEntry>

  /** An image's EXIF data: tag id to stored value. */
  type ExifData = map<int, int>

  /** Reading a tag from an image that carries no EXIF data at all (the
      library hands back no mapping and the lookup on it raises). */
  datatype LookupError = NoExifData

  /** Index of the first entry whose name is `name`. */
  ghost predicate FirstNamed(tags: TagTable, name: string, i: int) {
    0 <= i < |tags| && tags[i].name == name &&
    forall j :: 0 <= j < i ==> tags[j].name != name
  }

  /** The id of the first table entry named `name`, or None when no entry
      carries that name: the loop over the table's keys with its early return. */
  function FindTagId(tags: TagTable, name: string): (r: Option<int>)
    ensures r.None? <==> forall i :: 0 <= i < |tags| ==> tags[i].name != name
    ensures r.Some? ==> exists i :: FirstNamed(tags, name, i) && tags[i].id == r.value
  {
    if |tags| == 0 then None
    else if tags[0].name == name then
      assert FirstNamed(tags, name, 0);
      Some(tags[0].id)
    else
      assert forall i :: FirstNamed(tags[1..], name, i) ==> FirstNamed(tags, name, i + 1);
      FindTagId(tags[1..], name)
  }

  /** The orientation value stored in `exif`, or None when the tag table has
      no Orientation entry or the mapping has no value under its id. `exif` is
      None for an image without EXIF data; reading from it then fails, but
      only once the Orientation id has been found. */
  function GetOrientation(tags: TagTable, exif: Option<ExifData>): (r: Result<Option<int>, LookupError>)
    ensures r.Failure? <==> FindTagId(tags, OrientationName).Some? && exif.None?
    ensures r.Success? && r.value.Some? ==>
              exists i :: FirstNamed(tags, OrientationName, i) &&
                          tags[i].id in exif.value && exif.value[tags[i].id] == r.value.value
    ensures forall i :: FirstNamed(tags, OrientationName, i) && exif.Some? ==>
              (r.Success? && (r.value.Some? <==> tags[i].id in exif.value))
  {
    match FindTagId(tags, OrientationName)
    case None => Success(None)
    case Some(id) =>
      match exif
      case None => Failure(NoExifData)
      case Some(m) => Success(if id in m then Some(m[id]) else None)
  }

  /** The table entry for Orientation is the standard one: some entry is
      named Orientation, and every such entry has id 0x0112. */
  ghost predicate StandardOrientationEntry(tags: TagTable) {
    (exists i :: 0 <= i < |tags| && tags[i].name == OrientationName) &&
    forall i :: 0 <= i < |tags| && tags[i].name == OrientationName ==> tags[i].id == OrientationTagId
  }

  /** With the standard table the lookup is exactly "the value under tag 274,
      if any", and it fails only for an image without EXIF data. */
  lemma StandardLookup(tags: TagTable, exif: Option<ExifData>)
    requires StandardOrientationEntry(tags)
    ensures exif.None? ==> GetOrientation(tags, exif) == Failure(NoExifData)
    ensures exif.Some? ==>
              GetOrientation(tags, exif) ==
              Success(if OrientationTagId in exif.value then Some(exif.value[OrientationTagId]) else None)
  {
    var r := FindTagId(tags, OrientationName);
    assert r.Some?;
    var i :| FirstNamed(tags, OrientationName, i) && tags[i].id == r.value;
  }

  /** Without an Orientation entry in the table the lookup answers None for
      every image, with or without EXIF data, without reading the mapping (a
      corollary of the contract of GetOrientation, stated for the reader). */
  lemma NoOrientationEntry(tags: TagTable, exif: Option<ExifData>)
    requires forall i :: 0 <= i < |tags| ==> tags[i].name != OrientationName
    ensures GetOrientation(tags, exif) == Success(None)
  {
  }
}
