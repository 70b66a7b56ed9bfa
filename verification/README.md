# MetaDate-JOOT metadata extractor, modelled in Dafny

MetaDate-JOOT reads every piece of metadata it can find in a photograph and can add an
"OSINT" layer on top: where the photo was taken, which device took it, which timestamps it
carries, file hashes, and links or e-mail addresses hidden in its fields. It has three front
ends: a Python library (`UltraMetadataExtractor` and `OSINTEnhancer`), a Qt window and a
command line.

This project models the logic of that core as pure Dafny functions over immutable data:

- **The metadata record.** A Python `dict` is modelled as an ordered association list
  (`Dicts.Dict`). `Set` is dict assignment, `Update` is `dict.update`, and `Merge` chains
  updates. Values are `Records.Value`: text, an integer, or `None`.
- **Value normalisation** (`ExifValue`). This is `_process_exif_value`.
- **The GPS arithmetic** (`Gps`). These are `_convert_gps_coord` and `_decimal_to_dms`.
- **The ten extraction passes and their merge** (`FilePasses`, `ExifPasses`, `GpsPass`,
  `Extractor`). The passes are modelled after their readers return: the tags from
  `exifread`, the Pillow image, the `piexif` dictionary, the raw bytes and `os.stat`. These
  reader outputs are the inputs of the model (`Readers`).
- **The OSINT enhancer** (`Coordinates`, `OsintLocation`, `OsintScans`, `Enhancer`). This
  covers the five analyses, the map file, coordinate discovery, the location type and the
  lens summary, and `extract_osint_metadata`.
- **The window** (`Gui`). This covers the category classifier and the tree it fills, the
  map button and the status line.
- **The command line** (`Cli`). This covers `find_images`, `write_json` and the `--limit`
  loop of `main`.

The program calls out to outside code. In the model, those results are function parameters
and input data:

- The `Host` datatype holds text decoding, UTF-8 encoding, MD5, SHA-1, SHA-256, `float()`,
  fixed-point formatting and `repr` of floats.
- `OsintLocation.Services` holds the geocoders, `reverse_geocoder` and the temporary
  directory.
- `Cli.FileSystem` holds `isfile`, `exists`, `listdir` and `walk`.
- An exception that a library may raise is an `Attempt` value: `Done(x)` or `Raised(msg)`.
  The model follows each one to the handler the source gives it.

## Model

| member | source | states |
|---|---|---|
| ExifValue.Process | core.py:744-781 | `None`, an empty list and a blank scalar give nothing. A shown scalar gives its stripped text. Bytes give their decoded, stripped text unless it is empty or only NUL and space; then they give the byte-count placeholder. An object with `.values` gives the text of those values, or its own text when that fails. A non-empty list whose elements all show gives them joined by '\|'. An exception becomes "value_error_" and its message. |
| ExifValue.ShowAll | core.py:771 | Showing every element succeeds exactly when each element does, and keeps their order. Otherwise it reports an exception that one element raised. |
| ExifValue.ProcessSequenceRoundTrip | core.py:768-771 | The text of a non-empty list splits back at '\|' into exactly its elements, when no element holds a '\|'. |
| ExifValue.ProcessNulBytes | core.py:750-757 | Bytes that are all NUL or space are reported as the placeholder naming their length, under a UTF-8 decoder. |
| ExifValue.PlaceholderInjective | core.py:757 | Two placeholders are equal only for equal byte counts. |
| ExifValue.ProcessTextStable | core.py:775-778 | Normalising an already normalised text gives the same text. |
| Gps.ConvertGpsCoord | core.py:783-798 | Three or more readings give d + m/60 + s/3600; two give d + m/60; one gives d. No reading, or a reading `float()` rejects, gives 0.0. |
| Gps.ConvertIgnoresTail | core.py:786-790 | Readings after the third never change the result. |
| Gps.DecimalToDms | core.py:800-811 | The hemisphere is N/E exactly for a non-negative angle. Minutes and seconds are below 60. Degrees, minutes and seconds add up exactly to the magnitude. |
| Gps.DmsRoundTrip | core.py:783-811 | Converting a well-formed (d, m, s) to decimal degrees and splitting it again returns the same d, m and s. |
| Gps.DmsText | core.py:813 | The rendered text starts with the degree count and ends with the hemisphere letter. |
| FilePasses.ExtensionOf | core.py:424 | The extension is empty, or one dot with no further dot or '/' and no upper-case letter. |
| FilePasses.ExtensionOfName | core.py:724 | The extension of "stem.EXT" is ".ext" in lower case. |
| FilePasses.FileInfo | core.py:413-427 | A failed stat gives no fields. Otherwise the path, name and size come first. All seven fields are present exactly when both timestamps can be rendered, ending with the lower-case extension. Keys are distinct. |
| FilePasses.BitDepth | core.py:634-644 | A bit depth is reported exactly for the modes L, P, I, F, RGB and RGBA. |
| FilePasses.TechnicalSpecs | core.py:614-648 | No image gives nothing. A zero height stops after five fields, where the aspect ratio divides by zero. Otherwise the band count follows, and then the bit depth for the modes of the table. |
| FilePasses.IccFields | core.py:661-668 | The profile readings are stored under their names in order. The first reading that raises becomes "Color_ICC_Error" and ends the list. |
| FilePasses.ColorAnalysis | core.py:650-674 | No profile gives "Color_ICC_Present" = "NO" alone. A profile gives "YES" and its byte size first, then its readings. |
| FilePasses.XmpStart | core.py:685-687 | The packet starts at the first "<x:xmpmeta", else at the first "<xpacket". The result is -1 exactly when neither occurs. |
| FilePasses.XmpEnd | core.py:691-694 | The packet ends 12 bytes past the first closing tag after the start. Without a closing tag it ends 20000 bytes after the start. The end is always clipped to the data. |
| FilePasses.XmpFields | core.py:684-703 | The decoded packet and "YES" when a start marker occurs; "NO" alone otherwise. |
| FilePasses.IptcFields | core.py:705-715 | "YES" and a decoded sample of the first 4000 bytes exactly when an IPTC marker occurs; "NO" alone otherwise. |
| FilePasses.XmpIptc | core.py:676-719 | Unreadable bytes give nothing. Otherwise the XMP fields come first and the IPTC fields last, with distinct keys. |
| FilePasses.RawFormatName | core.py:727-736 | A format name exists exactly for the six RAW extensions. |
| FilePasses.RawSpecific | core.py:721-742 | "RAW_File" is always the last field, and it is "YES" exactly for a RAW extension. A RAW extension also reports its format name. |
| FilePasses.RawDetected | core.py:724-738 | A file whose extension is a RAW one in any letter case gets exactly two fields: the format name of that family, then "RAW_File" = "YES". |
| ExifPasses.DeepExifread | core.py:429-449 | Every field is "EXIFDEEP_"-prefixed, with non-blank text and distinct keys. A file that cannot be read gives nothing. |
| ExifPasses.DeepExifreadKeeps | core.py:437-445 | A tag that is not a thumbnail and whose normalised value is non-blank is stored under "EXIFDEEP_" + tag with that value. |
| ExifPasses.DeepExifreadDrops | core.py:439-445 | A thumbnail, or a tag whose value normalises to nothing or blank, leaves no field. |
| ExifPasses.DeepFieldOwnKey | core.py:437-445 | No other tag produces the key of a given tag. |
| ExifPasses.TagName | core.py:468 | A known tag id gives its name; an unknown id gives its decimal text. |
| ExifPasses.PilBasics | core.py:457-462 | The six basic image fields, with distinct keys. |
| ExifPasses.ExtendedPil | core.py:451-486 | The six basic fields come first. An EXIF read that raises ends the pass with those six. Keys are distinct. |
| ExifPasses.ExtendedPilExifKept | core.py:465-476 | An EXIF entry that is not skipped and normalises to a non-empty text is stored under "PILEXIF_" + its tag name with that text, unless a later entry of the same name is stored too. |
| ExifPasses.ExtendedPilInfoKept | core.py:479-482 | Every info entry other than "exif" and "icc_profile" is stored under "PILINFO_" + its key with its text. |
| ExifPasses.ExtendedPilSkipsBlobs | core.py:479-482 | The "exif" and "icc_profile" info entries are never copied. |
| ExifPasses.PilSkipsZero | core.py:471-472 | A zero value is skipped by the pass, even though normalisation alone would keep it as "0". |
| ExifPasses.PiexifEntries | core.py:495-497 | The entries come only from sections that are present, and in the fixed section order. |
| ExifPasses.IfdBlock | core.py:496-497 | A present section yields one entry per tag, in order. An absent section yields none. |
| ExifPasses.PiexifEntriesOrdered | core.py:495-497 | Entries of an earlier section precede entries of a later one. |
| ExifPasses.PiexifEntriesComplete | core.py:495-497 | Every tag of every present section is visited. |
| ExifPasses.LowLevelPiexif | core.py:488-515 | Every field is "PIEXIF_"-prefixed with distinct keys. A failed load gives nothing. |
| ExifPasses.PiexifNamedKept | core.py:495-507 | A named tag that is not skipped and normalises to a non-empty text is stored under "PIEXIF_" + section + "_" + name with that text, unless a later entry sets the same key. |
| ExifPasses.PiexifFieldPrefixed | core.py:498-511 | Both the value field and the error field of an entry are "PIEXIF_"-prefixed. |
| ExifPasses.PiexifRecordsLookupFailure | core.py:498-511 | A tag whose name lookup fails is recorded under its "PIEXIF_ERROR_" key. |
| ExifPasses.MakerTagTest | core.py:596 | The maker-note test is a case-insensitive search for "makernote". |
| ExifPasses.MakerNotes | core.py:586-612 | Without maker tags the pass reports "NO" alone. With them it reports "YES" first and the number of maker tags under "MakerNotes_Count". |
| ExifPasses.MakerNotesKept | core.py:595-604 | A maker tag whose value normalises to a non-empty text is stored under "MAKER_" + tag with that text. |
| ExifPasses.MakerNotesCountLast | core.py:599-606 | With maker tags, the last field is "MakerNotes_Count" with the number of maker tags. |
| ExifPasses.MakerNotesPresentKept | core.py:599-604 | The "YES" marker stays the first field whatever tags follow. |
| ExifPasses.MakerNotesCount | core.py:606 | The count is the number of maker tags, including those whose value normalises to nothing. |
| GpsPass.GpsDataGet | core.py:525-529 | The GPS subset keeps exactly the value of every tag containing "GPS". |
| GpsPass.GpsDataEmpty | core.py:531 | The subset is empty exactly when no tag contains "GPS". |
| GpsPass.Angle | core.py:537-551 | A reference equal to the negative hemisphere, after upper-casing, negates the converted angle. Otherwise the angle is kept. |
| GpsPass.ReadFix | core.py:536-551 | A fix exists exactly when both latitude and longitude tags are present. |
| GpsPass.DetailedGps | core.py:517-584 | Unreadable tags, or tags without "GPS", give nothing. Every field is "GPS_"-prefixed, with distinct keys. |
| GpsPass.GpsRecordShape | core.py:524-580 | No GPS tag gives nothing. Otherwise the record is "GPS_"-prefixed, with distinct keys. |
| GpsPass.GpsPresence | core.py:531-532 | "GPS_Presence" reads "YES" exactly when a GPS tag exists. |
| GpsPass.GpsRawEcho | core.py:526-529 | Every GPS tag is echoed under "GPS_RAW_" + tag with its text. |
| GpsPass.RawKeyKept | core.py:526-529 | The named fields never overwrite a "GPS_RAW_" echo. |
| GpsPass.FieldGet | core.py:553-580 | Each named field reads as the table of coordinate and mapping values gives it. |
| GpsPass.ReadFixAgrees | core.py:536-551 | Reading the fix from the GPS subset agrees with reading it from all tags. |
| GpsPass.GpsCoordinates | core.py:535-556 | "GPS_Coordinates" is present exactly when both angle tags are. It then shows the signed latitude and longitude. |
| GpsPass.FixPresence | core.py:536 | A fix exists exactly when both angle tags exist. A latitude tag implies that GPS tags are present. |
| GpsPass.SouthernLatitude | core.py:541-561 | For a positive latitude angle, the DMS text ends in 'S' exactly when the latitude reference reads "S" once upper-cased. |
| GpsPass.LatitudeDmsEnds | core.py:803-813 | The DMS text of a latitude ends in 'S' exactly when the latitude is negative. |
| GpsPass.GpsFriendly | core.py:568-580 | Each of the seven mapped tags is stored under its friendly name exactly when present. |
| Extractor.ExtractMetadata | core.py:352-394 | An escaping exception gives the single "Error" field. Otherwise keys are distinct and "RAW_File" reflects the extension. |
| Extractor.RawFileLast | core.py:386-387 | No earlier pass overwrites "RAW_File". |
| Extractor.RunShaped | core.py:359-387 | Each pass names its fields with its own initial letters, and each has distinct keys. |
| Extractor.OwnedKey | core.py:359-387 | A key whose initial belongs to one pass alone reads, after the merge, as that pass set it. |
| Extractor.PassOwnsKey | core.py:359-387 | The same for the whole extraction. |
| Extractor.FileFieldsKept | core.py:360 | Every "File_" field of the result is the file-information pass's. |
| Extractor.GpsFieldsKept | core.py:372 | Every "GPS_" field of the result is the GPS pass's. |
| Extractor.ExtendedPilPrefixed | core.py:451-486 | Every Pillow field starts with "PIL". |
| Extractor.MakerNotesPrefixed | core.py:586-612 | Every maker-note field starts with 'M'. |
| Extractor.ColorDistinct | core.py:650-674 | The colour pass never repeats a key. |
| Extractor.MakerNotesDistinct | core.py:586-612 | The maker-note pass never repeats a key. |
| Coordinates.DecimalStepOverrides | core.py:276-286 | A "gps…decimal" field sets the component its key names, and only when `float()` accepts the value. |
| Coordinates.FallbackStepOverrides | core.py:290-298 | A "coordinates" field with exactly two comma-separated parts sets both components. |
| Coordinates.LatitudeNameWins | core.py:277-286 | A key naming both latitude and longitude sets only the latitude. |
| Coordinates.ScanLast | core.py:274-286 | After a scan, a component holds the reading of the last field that gives one. |
| Coordinates.ScanNone | core.py:274-286 | A scan in which no field gives a reading leaves the component as it was. |
| Coordinates.CoordinatesFromDecimal | core.py:274-301 | When both decimal components are found, they are the answer, from the last field giving each. |
| Coordinates.CoordinatesFromFallback | core.py:288-301 | When a decimal component is missing, the last "coordinates" fields decide. |
| Coordinates.LastReading | core.py:274-298 | The reading of a scan is that of the last field giving one; none means no field gives one. |
| Coordinates.ScanOverride | core.py:274-298 | A scan of overriding assignments leaves a component at its last reading, or as it was when no field gives one. |
| Coordinates.CoordinatesMixed | core.py:274-301 | When a decimal component is missing, each component is the last fallback reading for it if there is one, and otherwise the last decimal reading. An answer exists exactly when both components end up known. |
| Coordinates.CoordinatesMissing | core.py:300-302 | Without a source for one of the components there is no answer. |
| OsintLocation.City | core.py:75 | The city is "city", else "town", else "Unknown". |
| OsintLocation.AddressFields | core.py:70-78 | No address is found exactly when there are no fields. All fields are "OSINT_"-prefixed. |
| OsintLocation.PlaceFields | core.py:81-90 | A failed or empty search gives nothing. Otherwise the fields are "OSINT_"-prefixed. |
| OsintLocation.Words | core.py:307-309 | The text is "demo.words." followed by at most eight digest characters. |
| OsintLocation.MapLinks | core.py:93-97 | Five "OSINT_" map links. |
| OsintLocation.KindFirstMarker | core.py:319-328 | The first marker present in the address decides the place kind. |
| OsintLocation.KindUnmarked | core.py:329-330 | Without a marker the place is "Urban/Residential". |
| OsintLocation.LocationType | core.py:311-333 | A failed lookup gives "Unknown", and no answer gives `None`. An answer gives the kind of its address. |
| OsintLocation.LocationTypeMarked | core.py:319-328 | An address with an airport, tourism, historic, leisure or water marker gets that kind, tested in that order. |
| OsintLocation.LocationTypeResidential | core.py:329-330 | An address with none of the markers is "Urban/Residential". |
| OsintLocation.AltitudeField | core.py:100-101 | The altitude note appears exactly when the record's text mentions "GPS GPSAltitude". |
| OsintLocation.Findings | core.py:66-104 | All findings are "OSINT_"-prefixed, at least six of them, and the place kind comes last. |
| OsintLocation.GpsOsint | core.py:56-109 | No fields exactly when no coordinates are found. Every field is "OSINT_"-prefixed. |
| OsintLocation.GeocoderFailure | core.py:69-107 | A failing reverse lookup leaves only the coordinates and the GPS error. |
| OsintLocation.GeocoderAnswer | core.py:64-104 | A working reverse lookup gives the coordinates first and the place kind last, with at least seven fields. |
| OsintLocation.OsmMap | core.py:238-266 | A map path is returned exactly when coordinates are found and the map is saved. |
| OsintScans.MakeFrom | core.py:121-124 | The make is the first field with "make" in its key and a non-empty text. |
| OsintScans.ModelFrom | core.py:121-126 | A known model is never replaced. Otherwise the model is the text of the first field that names "model" with non-empty text and, if its key also names "make", comes after the make is known; without such a field it stays unknown. |
| OsintScans.MakerKeyGivesModel | core.py:121-126 | A key naming both "make" and "model", such as a maker-note model key, gives the model once an earlier field gave the make. |
| OsintScans.SerialFrom | core.py:121-128 | A known serial is never replaced. Otherwise the serial is the text of the first field that names "serial" with non-empty text and that neither the make branch nor the model branch takes, because the make, or the model, is already known when its key names it. |
| OsintScans.IdentifyMake | core.py:121-131 | The reported make is the first non-empty make field. |
| OsintScans.LensParts | core.py:339-345 | No lens parts exactly when no field is a lens, focal-length or aperture field. |
| OsintScans.LensPartsConcat | core.py:339-345 | The lens scan distributes over concatenated records. |
| OsintScans.LensInfo | core.py:335-347 | The summary is absent exactly when no field contributes to it. |
| OsintScans.IdentityFields | core.py:130-137 | No identity fields exactly when make, model and serial are all unknown. A known make comes first. |
| OsintScans.FingerprintFields | core.py:140-142 | The fingerprint appears exactly when make and model are both known, and reads "make model". |
| OsintScans.LensField | core.py:145-147 | The lens field appears exactly when a lens summary exists. |
| OsintScans.CameraOsint | core.py:111-152 | The fields are "OSINT_"-prefixed. There are none exactly when nothing is identified. The first is the make when one is found. |
| OsintScans.Stamps | core.py:160-164 | The timestamps are exactly the fields with date or time in the key and "201" or "202" in the value. |
| OsintScans.StampsComplete | core.py:161-164 | A field is among the timestamps exactly when it qualifies. |
| OsintScans.StampFields | core.py:166-173 | The count comes first, then at most five timestamps, then the timeline note when there is more than one. |
| OsintScans.ZoneField | core.py:176-179 | The zone is the value of the first key naming "timezone", and absent exactly when there is none. |
| OsintScans.TimeOsint | core.py:154-184 | No fields exactly when there is neither a timestamp nor a timezone key. |
| OsintScans.NameFields | core.py:205-209 | The file name is always reported. The camera-naming note is added exactly for names containing img, dsc, photo or pic. |
| OsintScans.HashFields | core.py:195-197 | Three hashes of the file's bytes. |
| OsintScans.StatFields | core.py:200-209 | The size comes first. Both times and the name fields follow when the times can be rendered. |
| OsintScans.ForensicOsint | core.py:186-214 | A failing read or stat ends with the forensic error. Otherwise the hashes, size, times and name fields appear in order. |
| OsintScans.Probes | core.py:222-231 | Each field is probed for a link and then for an e-mail, in record order. |
| OsintScans.NetworkOsint | core.py:216-236 | Every field is "OSINT_"-prefixed. |
| OsintScans.UrlNotEmail | core.py:227-231 | A link key never equals an e-mail key. |
| OsintScans.UrlKeyInjective | core.py:227 | Different fields give different link keys. |
| OsintScans.EmailKeyInjective | core.py:231 | Different fields give different e-mail keys. |
| OsintScans.NetworkUrl | core.py:222-227 | A field is reported as a link exactly when its text contains "http" (any case), and then with that text. |
| OsintScans.NetworkEmail | core.py:222-231 | A field is reported as e-mail-like exactly when its text has '@' and '.'. |
| Enhancer.AbsorbKeepsOutside | core.py:28-44 | Updates with "OSINT_" parts leave every other key as it was. |
| Enhancer.AbsorbDistinct | core.py:28-44 | Updating a dictionary keeps its keys distinct. |
| Enhancer.Analyze | core.py:32-44 | The report holds the GPS, camera, time, forensic and network analyses of the record, all in the "OSINT_" namespace. |
| Enhancer.AbsorbLast | core.py:28-44 | After the chain of updates, a key reads as its last assignment in the parts. |
| Enhancer.Enhance | core.py:26-54 | "OSINT_Map_File" reads as the map path whenever a map is written. Every field of the five analyses whose key no later field or analysis sets again, other than the map key, reads in the enhanced record with its value. |
| Enhancer.EnhanceKeepsExtracted | core.py:26-54 | A key outside the "OSINT_" namespace reads after enhancing as it read before. |
| Enhancer.EnhanceKeepsOrder | core.py:28 | The extracted fields keep their positions at the head of the enhanced record. |
| Enhancer.EnhanceDistinct | core.py:26-54 | Enhancing a dictionary keeps its keys distinct. |
| Enhancer.EnhanceReportsLinks | core.py:44-49 | A field holding a link is reported in the enhanced record, and nothing later overwrites the report. |
| Enhancer.ExtractOsint | core.py:396-411 | The enhanced record has distinct keys, and every non-"OSINT_" field is the extractor's. |
| Gui.FirstRuleFrom | gui.py:123-144 | In a rule chain, the first rule that fires decides the category. |
| Gui.NoRuleFrom | gui.py:143-144 | A key that no rule fires for is "Other Metadata". |
| Gui.ClassifyFirst | gui.py:120-144 | The category is that of the first rule, in source order, whose marker occurs in the lower-cased key. |
| Gui.ClassifyOther | gui.py:143-144 | A key matching no rule is "Other Metadata". |
| Gui.SizeIsFileInformation | gui.py:123-134 | Any key containing "size" is File Information, never Image Properties. |
| Gui.CameraBeforeGpsAndOsint | gui.py:125-140 | A camera key is Camera & Lens even when it also names GPS or OSINT. |
| Gui.OsintBeforeExif | gui.py:139-142 | An OSINT key is OSINT Intelligence even when it also names EXIF. |
| Gui.Group | gui.py:120-144 | A group holds only keys of its category, and never more than the record. |
| Gui.GroupExactly | gui.py:120-144 | A group is the record's fields of its category, in record order: a field is in it exactly when it is classified there. |
| Gui.GroupSizesStep | gui.py:120-144 | Each field adds one to the group of its category. |
| Gui.GroupsPartitionBy | gui.py:105-144 | With each category listed once, the group sizes add up to the record size. |
| Gui.DeclaredOnce | gui.py:105-117 | The declaration lists each of the eleven categories exactly once. |
| Gui.GroupsPartition | gui.py:105-144 | The group sizes of the eleven declared categories add up to the number of fields, so every field lands in exactly one category. |
| Gui.CategoryNode | gui.py:147-160 | A category row shows its label and the number of its children. Its children are the fields of its group, in record order, each as its key and shown value. |
| Gui.ShownExactly | gui.py:146-147 | The categories that get a row are those with a non-empty group, in declaration order. |
| Gui.CategoryNodes | gui.py:146-160 | There is one row per non-empty category, in declaration order, each the row of that category. The rows hold as many children as the groups. |
| Gui.Tree | gui.py:100-160 | An empty record shows the single "No metadata" row. Otherwise there is one row per non-empty declared category, in declaration order, holding that category's fields, so the rows hold every field exactly once. |
| Gui.TreePlacesField | gui.py:120-160 | Every field appears, as its key and shown value, under the row titled with its category's label. |
| Gui.MapScanUrl | gui.py:478-486 | The scan stops at the first Google-Maps key that is not a map-file key, and reports its value. |
| Gui.MapScanNoFile | gui.py:478-480 | Without a map-file key before the first link, no file is found. |
| Gui.MapScanLastFile | gui.py:478-480 | The file found is the last map-file key before the first link. |
| Gui.OpenMap | gui.py:469-493 | With no record nothing happens. A non-empty first link is opened, and only then. |
| Gui.OpenMapFile | gui.py:488-491 | Without a usable link, the last map file before it is opened as a file URL when it exists. |
| Gui.OsintCount | gui.py:427 | The OSINT count is 0 exactly when no key contains "OSINT_", and the record size exactly when all do. |
| Gui.StatusOf | gui.py:416-437 | The status reports the field count, the OSINT count, and "GPS Located" exactly when a key has both "GPS" and "Coordinates". It fails exactly when the path cannot be named. |
| Cli.SelectExactly | cli.py:20-27 | The listing filter yields a path exactly when it joins an accepted name. |
| Cli.FindImages | cli.py:10-27 | A file is yielded alone. A missing path yields nothing. The search raises exactly when the non-recursive listing of a directory raises. |
| Cli.FindImagesListing | cli.py:23-27 | Without recursion, a directory that can be listed yields exactly its entries that are files with an image extension. |
| Cli.FindImagesWalk | cli.py:18-22 | With recursion, a directory yields exactly the image-named files of every directory of the walk. |
| Cli.WalkImagesExactly | cli.py:19-22 | The walk listing contains a path exactly when it joins some directory with one of its image-named files. |
| Cli.ImageNameByExtension | cli.py:11-21 | A name is taken exactly when its lower-cased extension is one of the thirteen image extensions. |
| Cli.CaseInsensitive | cli.py:21 | The letter case of the extension never changes whether a file is taken. |
| Cli.OutputNameOfImage | cli.py:31-33 | "dir/stem.ext" is written as "stem" + suffix + ".json". |
| Cli.OutputPathName | cli.py:31-38 | Wherever the document goes, its file name is the output name. |
| Cli.OutputBesideSource | cli.py:31-38 | Without an output directory, the document's directory is the image's directory, for every image path, and its file name is the output name. |
| Cli.OutputBesideImage | cli.py:31-38 | Without an output directory, "dir/stem.ext" is written to "dir/stem" + suffix + ".json", for any directory part. |
| Cli.WriteJson | cli.py:30-47 | The document goes to the output name, inside the output directory when one is given and beside the source otherwise. It holds the source path, the time and the metadata unchanged. |
| Cli.Data | cli.py:68-71 | Both modes give a dictionary whose non-"OSINT_" fields are those of the plain extraction. |
| Cli.RunBatch | cli.py:62-79 | The loop processes a prefix of the images and counts the saved ones. With a positive limit, every image processed was started while fewer than the limit were saved, and a stop before the end comes right after the limit-th save. A zero limit processes all images, and a negative one none. |
| Cli.OutputsFrom | cli.py:73-75 | Every written path belongs to an image that was saved. |
| Cli.Process | cli.py:50-79 | A listing that raises ends the run before any image is processed. Otherwise the count never exceeds a positive limit or the number of images found, and every written path is the output path of a found image. |
| Cli.SavedBound | cli.py:75 | Stopping early never counts more than running to the end. |
| Cli.SavedAll | cli.py:75 | When every save succeeds, the count is the number of images processed. |

## Left out

- Qt widgets, colours, fonts, the context menu, the image viewer, threads and `_export_json`: these are presentation, not logic. The tree is modelled as its rows and counts only.
- Logging, `print` and `QMessageBox`: these have no effect on the data.
- Reading files, `exifread`, Pillow, `piexif`, `ImageCms`, `os.stat`, the clock, `hashlib`, the geocoders, `reverse_geocoder`, `folium`, `webbrowser` and `tempfile`: these are foreign calls. The model takes their results as inputs (`Readers`, `Host`, `Services`, `FileSystem`).
- Floating-point rounding and the `:.2f`, `:.6f` and `:.8f` formats: formatting is a `Host` function, so the GPS arithmetic is exact over reals. Because of that, -0.0 is not distinguished from 0.0.
- The `OSINT_Error` handler of `enhance_metadata`: it is not modelled, because every analysis catches its own exceptions and `_create_osm_map` returns `None` on failure, so nothing reaches it.
- The fallback to plain extraction in `extract_osint_metadata`: it is not modelled for the same reason.
- The `OSINT_Camera_Error` handler: it is not modelled, because the only calls that could raise there (`str()`, `encode`, the hashes) are total in the model.
- The `GPS_Error` handler of the GPS pass: it is not modelled, because the coordinate block cannot raise once both angle tags are present.
- `extract_metadata`'s own handler: it is kept as the `failure` input. No pass in the model lets an exception escape, so the input stands for whatever the readers might raise.
- The readers run once per pass, and each pass opens the file itself. Every read is a separate input (`Extractor.Sources`): the three `exifread` reads of the detailed pass, the GPS pass and the maker-note pass are not tied to each other, so one may fail while another succeeds.
- Coordinate discovery: the last matching field wins, because the loops in `_extract_coordinates` overwrite on every match.
- Case folding: `Text.Lower` and `Text.Upper` fold the ASCII letters only. Python's `str.lower` and `str.upper` also fold other letters (the Kelvin sign lowers to 'k', the long s uppers to 'S'). This affects the key tests of core.py:122,162,177,275,291,340-344, gui.py:121 and cli.py:21, and the GPS reference tests of core.py:542,548.
- ExifPasses.ExtendedPil: its own contract states the shape of the record only. The stored EXIF and info values are stated by `ExtendedPilExifKept` and `ExtendedPilInfoKept`.
- ExifPasses.LowLevelPiexif: its own contract states the namespace and distinct keys only. The stored values are stated by `PiexifNamedKept` and `PiexifRecordsLookupFailure`.
- ExifPasses.MakerNotes: its own contract states the marker and the count only. The stored tag values are stated by `MakerNotesKept`, and the position of the count by `MakerNotesCountLast`.
- `'GPS GPSAltitude' in str(metadata)`: this is modelled as the phrase occurring in a key or in a shown value (`ShowsText`). The exact `repr` layout of a Python dict is not modelled.
- The `</xpacket>` end: it keeps two bytes past the 10-byte tag, as written (`end_tag + 12`).
- Cli.RunBatch: whether one image fails is the input `saves`. Extraction and writing are not told apart, and `os.makedirs` is not modelled.
- Cli.FindImages: `os.walk` and `os.listdir` are inputs, so their order is whatever the file system gives. `os.walk` ignores directories it cannot read, so only the non-recursive listing can raise.
