/** EXIF metadata as the code receives it from the metadata library: a map
    from namespaced tag names to string values. */
module Exif {
  import opened Wrappers

  type Metadata = map<string, string>

  const DateTimeTag := "Exif.Image.DateTime"
  const DateTimeOriginalTag := "Exif.Photo.DateTimeOriginal"
  const MakeTag := "Exif.Image.Make"
  const ModelTag := "Exif.Image.Model"
  const LatitudeTag := "Exif.GPSInfo.GPSLatitude"
  const LongitudeTag := "Exif.GPSInfo.GPSLongitude"

  /** `metadata.get(tag)`: the tag's value, or None when the tag is absent. */
  function Get(md: Metadata, tag: string): (r: Option<string>)
    ensures r.Some? <==> tag in md
    ensures r.Some? ==> r.value == md[tag]
  {
    if tag in md then Some(md[tag]) else None
  }

  /** `device_make`, the same in both versions: the `Exif.Image.Make` value,
      None when the tag is absent, an empty value included. */
  function DeviceMake(md: Metadata): (r: Option<string>)
    ensures r.None? <==> MakeTag !in md
    ensures r.Some? ==> r.value == md[MakeTag]
  {
    Get(md, MakeTag)
  }

  /** `device_model`, the same in both versions: the `Exif.Image.Model` value,
      None when the tag is absent, an empty value included. */
  function DeviceModel(md: Metadata): (r: Option<string>)
    ensures r.None? <==> ModelTag !in md
    ensures r.Some? ==> r.value == md[ModelTag]
  {
    Get(md, ModelTag)
  }

  /** Python truthiness of an optional string: present and not empty. */
  predicate Truthy(v: Option<string>) { v.Some? && v.value != "" }
}
