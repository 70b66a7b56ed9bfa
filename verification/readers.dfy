/**
 What the file system and the image libraries hand the extractor. The model does not
 read files or decode images; each pass receives the reader's result, with a failed read
 as `None` or `Raised`.
 */
module Readers {
  import opened Wrappers
  import opened Text
  import opened Dicts
  import opened ExifValue

  /** `os.stat` of the image: its size and the ISO renderings of its timestamps (which can raise). */
  datatype FileStat = FileStat(size: nat, created: Attempt<string>, modified: Attempt<string>)

  /**
   An embedded ICC profile: its length in bytes and the four readings `ImageCms` makes of it.
   A profile that cannot be parsed at all reads as a description that raised.
   */
  datatype IccProfile = IccProfile(
    size: nat,
    description: Attempt<string>,
    manufacturer: Attempt<string>,
    model: Attempt<string>,
    copyright: Attempt<string>)

  /**
   An image as Pillow opens it: `format` (absent for images not read from a file), `mode`,
   size, band names, the outcome of `_getexif()` as (tag id, value) pairs (an empty list
   when there is no EXIF), the `info` entries with `str()` of each value, and the ICC profile.
   */
  datatype PilImage = PilImage(
    format: Option<string>,
    mode: string,
    width: nat,
    height: nat,
    bands: seq<string>,
    exif: Attempt<seq<(int, RawValue)>>,
    info: Dict<string>,
    icc: Option<IccProfile>)

  /** An exifread tag as the GPS pass reads it: `str(tag)` and what `float()` makes of each of its `values`. */
  datatype TagReading = TagReading(shown: string, numbers: seq<Option<real>>)

  /** `str(t)` for a tuple of strings, such as `('R', 'G', 'B')` or `('L',)`. */
  function TupleRepr(xs: seq<string>): (r: string)
    ensures |r| >= 2 && r[0] == '(' && r[|r| - 1] == ')'
  {
    var quoted := seq(|xs|, i requires 0 <= i < |xs| => "'" + xs[i] + "'");
    "(" + Join(", ", quoted) + (if |xs| == 1 then "," else "") + ")"
  }
}
