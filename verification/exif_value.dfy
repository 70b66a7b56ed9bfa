/**
 The value normaliser of the extractor (`UltraMetadataExtractor._process_exif_value`): it
 turns whatever a tag reader returned into display text, or into nothing, and never raises.
 */
module ExifValue {
  import opened Wrappers
  import opened Text
  import opened Records

  /** A scalar, or one element of a list or tuple. */
  datatype Atom =
    | Text(s: string)
    | Integer(i: int)
      /** Any other object: what `str()` makes of it (or the exception it raises), and whether it compares equal to 0. */
    | Opaque(shown: Attempt<string>, isZero: bool)

  /** A value as a tag reader hands it over. */
  datatype RawValue =
    | NoneValue
    | Bytes(bytes: seq<byte>)
      /** An object with a `.values` attribute (an exifread tag): `str(value.values)` and `str(value)`. */
    | WithValues(values: Attempt<string>, whole: Attempt<string>)
    | Sequence(items: seq<Atom>)
    | Scalar(atom: Atom)

  /** `str(a)`. */
  function ShowAtom(a: Atom): Attempt<string> {
    match a
    case Text(s) => Done(s)
    case Integer(i) => Done(IntToString(i))
    case Opaque(shown, _) => shown
  }

  /** `str(x)` for every element in order, or the first exception raised. */
  function ShowAll(items: seq<Atom>): (r: Attempt<seq<string>>)
    ensures r.Done? <==> forall i :: 0 <= i < |items| ==> ShowAtom(items[i]).Done?
    ensures r.Done? ==> |r.value| == |items| && forall i :: 0 <= i < |items| ==> r.value[i] == ShowAtom(items[i]).value
    ensures r.Raised? ==> exists i :: 0 <= i < |items| && ShowAtom(items[i]) == Raised(r.msg)
  {
    if |items| == 0 then Done([])
    else match ShowAtom(items[0])
      case Raised(m) => Raised(m)
      case Done(s) =>
        match ShowAll(items[1..])
        case Raised(m) => Raised(m)
        case Done(rest) => Done([s] + rest)
  }

  /** The text reported for bytes that decode to nothing readable. */
  function Placeholder(n: nat): string {
    "binary_data_" + NatToString(n) + "_bytes"
  }

  /** The text reported when an exception escapes the conversion. */
  function ValueError(msg: string): string {
    "value_error_" + msg
  }

  /** Every character is NUL or a space. */
  predicate NulOrSpace(s: string) {
    forall i :: 0 <= i < |s| ==> s[i] == '\0' || s[i] == ' '
  }

  /**
   `_process_exif_value(value)`. Bytes become their stripped decoded text, or a placeholder
   naming the byte count when that text is empty or only NUL and space; an object with
   `.values` becomes the text of its values; a non-empty list becomes its elements joined
   by '|'; anything else becomes its stripped text. `None`, an empty list and a blank scalar
   give nothing, and an exception from `str()` becomes "value_error_" and its message.
   */
  function Process(host: Host, raw: RawValue): (r: Option<string>)
    ensures raw.NoneValue? ==> r.None?
    ensures raw.Bytes? ==> r.Some? && !NulOrSpace(r.value)
    ensures raw.Bytes? ==> r.value == Strip(host.decode(raw.bytes)) || r.value == Placeholder(|raw.bytes|)
    ensures raw.Bytes? && NulOrSpace(Strip(host.decode(raw.bytes))) ==> r == Some(Placeholder(|raw.bytes|))
    ensures raw.Bytes? && !NulOrSpace(Strip(host.decode(raw.bytes))) ==> r == Some(Strip(host.decode(raw.bytes)))
    ensures raw.WithValues? ==> r.Some?
    ensures raw.WithValues? && raw.values.Done? ==> r.value == raw.values.value
    ensures raw.WithValues? && raw.values.Raised? && raw.whole.Done? ==> r.value == raw.whole.value
    ensures raw.WithValues? && raw.values.Raised? && raw.whole.Raised? ==> r.value == ValueError(raw.whole.msg)
    ensures raw.Sequence? ==> (r.None? <==> raw.items == [])
    ensures raw.Sequence? && r.Some? && ShowAll(raw.items).Raised? ==> r.value == ValueError(ShowAll(raw.items).msg)
    ensures raw.Sequence? && raw.items != [] && ShowAll(raw.items).Done? ==> r == Some(Join("|", ShowAll(raw.items).value))
    ensures raw.Scalar? && ShowAtom(raw.atom).Raised? ==> r == Some(ValueError(ShowAtom(raw.atom).msg))
    ensures raw.Scalar? && ShowAtom(raw.atom).Done? ==>
      (r.None? <==> forall i :: 0 <= i < |ShowAtom(raw.atom).value| ==> IsSpace(ShowAtom(raw.atom).value[i]))
    ensures raw.Scalar? && ShowAtom(raw.atom).Done? && r.Some? ==> r.value == Strip(ShowAtom(raw.atom).value)
    ensures raw.Scalar? && ShowAtom(raw.atom).Done? && r.Some? ==> r.value != [] && Strip(r.value) == r.value
  {
    match raw
    case NoneValue => None
    case Bytes(b) =>
      var decoded := Strip(host.decode(b));
      if decoded != [] && !NulOrSpace(decoded) then Some(decoded)
      else
        assert Placeholder(|b|)[0] == 'b';
        Some(Placeholder(|b|))
    case WithValues(values, whole) =>
      if values.Done? then Some(values.value)
      else if whole.Done? then Some(whole.value)
      else Some(ValueError(whole.msg))
    case Sequence(items) =>
      if |items| == 0 then None
      else (
        match ShowAll(items)
        case Done(shown) => Some(Join("|", shown))
        case Raised(m) => Some(ValueError(m)))
    case Scalar(a) =>
      match ShowAtom(a)
      case Raised(m) => Some(ValueError(m))
      case Done(s) =>
        var t := Strip(s);
        StripIdempotent(s);
        if t != [] then Some(t) else None
  }

  /** The text of a non-empty list splits back at '|' into its elements, when none of them holds a '|'. */
  lemma ProcessSequenceRoundTrip(host: Host, items: seq<Atom>)
    requires items != []
    requires forall i :: 0 <= i < |items| ==> ShowAtom(items[i]).Done? && '|' !in ShowAtom(items[i]).value
    ensures Process(host, Sequence(items)).Some?
    ensures Split(Process(host, Sequence(items)).value, '|') == ShowAll(items).value
  {
    SplitJoin(ShowAll(items).value, '|');
  }

  /** Bytes that are all NUL or space are reported by their length, under a UTF-8 decoder. */
  lemma ProcessNulBytes(host: Host, b: seq<byte>)
    requires DecodesAscii(host)
    requires forall i :: 0 <= i < |b| ==> b[i] == 0 || b[i] == 32
    ensures Process(host, Bytes(b)) == Some(Placeholder(|b|))
  {
    var text := host.decode(b);
    assert text == AsciiText(b);
    assert forall c :: c in text ==> c == '\0' || c == ' ';
    var t := Strip(text);
    assert forall i :: 0 <= i < |t| ==> t[i] in text;
  }

  /** The placeholder names the byte count unambiguously. */
  lemma PlaceholderInjective(m: nat, n: nat)
    requires Placeholder(m) == Placeholder(n)
    ensures m == n
  {
    var pm, pn := NatToString(m), NatToString(n);
    assert Placeholder(m)[12..12 + |pm|] == pm;
    assert |pm| == |pn|;
    assert Placeholder(n)[12..12 + |pn|] == pn;
    NatToStringInjective(m, n);
  }

  /** Normalising a normalised text again leaves it as it is. */
  lemma ProcessTextStable(host: Host, s: string)
    requires Process(host, Scalar(Text(s))).Some?
    ensures Process(host, Scalar(Text(Process(host, Scalar(Text(s))).value))) == Process(host, Scalar(Text(s)))
  {
    StripIdempotent(s);
  }
}
