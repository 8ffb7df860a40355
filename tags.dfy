/** The decoded tag table that the tag decoder hands to the record builder.
    Decoding itself is not modelled: a table is an input. */
module Tags {

  /** An unsigned or signed rational as the decoder stores it. */
  datatype Ratio = Ratio(num: int, den: int)

  /** One decoded tag. Every tag has a printable form (`str(tag)`); a
      rational-valued tag also carries its list of ratios, while an
      ASCII-valued tag carries only text. */
  datatype TagValue =
    | Text(printable: string)
    | Ratios(values: seq<Ratio>, printable: string)

  /** Tag name ("GPS GPSLatitude", "EXIF DateTimeOriginal", ...) to value. */
  type TagTable = map<string, TagValue>

  const GpsLatitude := "GPS GPSLatitude"
  const GpsLongitude := "GPS GPSLongitude"
  const GpsLatitudeRef := "GPS GPSLatitudeRef"
  const GpsLongitudeRef := "GPS GPSLongitudeRef"
  const DateTimeOriginal := "EXIF DateTimeOriginal"
  const DateTime := "Image DateTime"
  const Make := "Image Make"
  const Model := "Image Model"

  /** `str(tags.get(name, ''))`. */
  function PrintableOr(tags: TagTable, name: string): string {
    if name in tags then tags[name].printable else ""
  }
}
