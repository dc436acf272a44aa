/** From captured output to replacement text: the output formats
    (`DATA_FORMATS`), the base64 image tag, and the execution result. */
module Output {
  import opened PyStr

  /** The outcome of running an assembled unit with standard output captured:
      the captured text, or the formatted traceback of the raised exception. */
  datatype ExecResult = Ok(stdout: string) | Fault(traceback: string)

  /** The encoders of `DATA_FORMATS`. */
  datatype Format = Png | Jpg | Svg | Html

  /** The keys of `DATA_FORMATS`. */
  const FormatKeys: set<string> := {"png", "jpg", "svg", "html"}

  function KeyOf(f: Format): string {
    match f
    case Png => "png"
    case Jpg => "jpg"
    case Svg => "svg"
    case Html => "html"
  }

  /** `DATA_FORMATS.get(key)`: exactly the four keys are present, each naming
      its own encoder. */
  function DataFormat(key: string): (r: Option<Format>)
    ensures r.Some? <==> key in FormatKeys
    ensures r.Some? ==> KeyOf(r.value) == key
  {
    if key == "png" then Some(Png)
    else if key == "jpg" then Some(Jpg)
    else if key == "svg" then Some(Svg)
    else if key == "html" then Some(Html)
    else None
  }

  /** The media subtype each image encoder passes to `raw_to_b64image`. */
  function MediaType(f: Format): string {
    match f
    case Png => "png"
    case Jpg => "jpg"
    case Svg => "svg+xml"
    case Html => ""
  }

  /** `raw_to_b64image(raw, alt, title, format)`. */
  function RawToB64Image(raw: string, alt: string, title: string, format: string): string {
    var data := "data:image/" + format + ";base64," + Strip(raw);
    var altAttr := if alt != "" then " alt=\"" + alt + "\"" else "";
    var titleAttr := if title != "" then " title=\"" + title + "\"" else "";
    "<img src=\"" + data + "\"" + altAttr + titleAttr + " />"
  }

  /** The parts of an image tag: media subtype, payload, and the alt and
      title attributes when the tag carries them. */
  datatype Img = Img(format: string, payload: string, alt: Option<string>, title: Option<string>)

  /** Reads an image tag back: media subtype, payload, alt and title (`None`
      for an attribute the tag does not carry, `Some("")` for `alt=""`). */
  function ParseImg(s: string): Option<Img> {
    var pre := "<img src=\"data:image/";
    if pre <= s then ParseFormat(s[|pre|..]) else None
  }

  function ParseFormat(s: string): Option<Img> {
    if ';' in s then ParsePayload(s[..IndexOf(s, ';')], s[IndexOf(s, ';')..]) else None
  }

  function ParsePayload(format: string, s: string): Option<Img> {
    if ";base64," <= s && '"' in s[8..] then
      var t := s[8..];
      var j := IndexOf(t, '"');
      var attrs := ParseAttrs(t[j + 1..]);
      if attrs.None? then None else Some(Img(format, t[..j], attrs.value.0, attrs.value.1))
    else None
  }

  /** The optional alt and title attributes and the closing ` />`. */
  function ParseAttrs(s: string): Option<(Option<string>, Option<string>)> {
    var alt := ParseAttr(" alt=\"", s);
    var title := ParseAttr(" title=\"", alt.1);
    if title.1 == " />" then Some((alt.0, title.0)) else None
  }

  /** An optional `key"value"` attribute at the front of `s`: its value and
      what follows it, or no value and `s` itself. */
  function ParseAttr(key: string, s: string): (Option<string>, string) {
    if key <= s && '"' in s[|key|..] then
      var t := s[|key|..];
      var j := IndexOf(t, '"');
      (Some(t[..j]), t[j + 1..])
    else (None, s)
  }

  lemma IndexOfAfter(a: string, c: char, b: string)
    requires c !in a
    ensures c in a + [c] + b && IndexOf(a + [c] + b, c) == |a|
  {
    var s := a + [c] + b;
    assert s[|a|] == c;
    assert s[..|a|] == a;
  }

  lemma ParseAttrPresent(key: string, v: string, rest: string)
    requires '"' !in v
    ensures ParseAttr(key, key + v + "\"" + rest) == (Some(v), rest)
  {
    var s := key + v + "\"" + rest;
    assert s[..|key|] == key;
    var t := s[|key|..];
    assert t == v + ['"'] + rest;
    IndexOfAfter(v, '"', rest);
    assert t[..|v|] == v;
    assert t[|v| + 1..] == rest;
  }

  lemma ParseAttrAbsent(key: string, rest: string)
    requires |rest| > 1 && |key| > 1 && rest[1] != key[1]
    ensures ParseAttr(key, rest) == (None, rest)
  {
    assert !(key <= rest);
  }

  lemma ParseAttrsRoundTrip(alt: string, title: string)
    requires '"' !in alt && '"' !in title
    ensures ParseAttrs((if alt != "" then " alt=\"" + alt + "\"" else "")
                       + (if title != "" then " title=\"" + title + "\"" else "") + " />")
            == Some((if alt == "" then None else Some(alt), if title == "" then None else Some(title)))
  {
    var altAttr := if alt != "" then " alt=\"" + alt + "\"" else "";
    var titleAttr := if title != "" then " title=\"" + title + "\"" else "";
    var tail := titleAttr + " />";
    assert tail[1] == (if title != "" then 't' else '/');
    assert altAttr + titleAttr + " />" == altAttr + tail;
    if alt != "" {
      assert altAttr + tail == " alt=\"" + alt + "\"" + tail;
      ParseAttrPresent(" alt=\"", alt, tail);
    } else {
      assert altAttr + tail == tail;
      ParseAttrAbsent(" alt=\"", tail);
    }
    if title != "" {
      assert tail == " title=\"" + title + "\"" + " />";
      ParseAttrPresent(" title=\"", title, " />");
    } else {
      assert tail == " />";
      ParseAttrAbsent(" title=\"", " />");
    }
  }

  lemma ParsePayloadOf(format: string, payload: string, rest: string)
    requires '"' !in payload
    ensures var attrs := ParseAttrs(rest);
            ParsePayload(format, ";base64," + payload + "\"" + rest)
            == if attrs.None? then None else Some(Img(format, payload, attrs.value.0, attrs.value.1))
  {
    var s := ";base64," + payload + "\"" + rest;
    assert s[..8] == ";base64,";
    var t := s[8..];
    assert t == payload + ['"'] + rest;
    IndexOfAfter(payload, '"', rest);
    assert t[..|payload|] == payload;
    assert t[|payload| + 1..] == rest;
  }

  lemma ParseFormatOf(format: string, s: string)
    requires ';' !in format && s != [] && s[0] == ';'
    ensures ParseFormat(format + s) == ParsePayload(format, s)
  {
    var t := format + s;
    assert t == format + [';'] + s[1..];
    IndexOfAfter(format, ';', s[1..]);
    assert t[..|format|] == format;
    assert t[|format|..] == s;
  }

  lemma ParseImgOf(s: string)
    ensures ParseImg("<img src=\"data:image/" + s) == ParseFormat(s)
  {
    var pre := "<img src=\"data:image/";
    assert (pre + s)[..|pre|] == pre;
    assert (pre + s)[|pre|..] == s;
  }

  /** The image tag reads back as what was written: the payload is the raw
      text with its surrounding whitespace removed (so a base64 payload
      decodes to the original bytes), and the alt and title attributes are
      present exactly when their values are non-empty, with those values. */
  lemma ImgRoundTrip(raw: string, alt: string, title: string, format: string)
    requires ';' !in format && '"' !in raw && '"' !in alt && '"' !in title
    ensures ParseImg(RawToB64Image(raw, alt, title, format))
         == Some(Img(format, Strip(raw), if alt == "" then None else Some(alt),
                     if title == "" then None else Some(title)))
  {
    var payload := Strip(raw);
    StripKeepsOut(raw, '"');
    var altAttr := if alt != "" then " alt=\"" + alt + "\"" else "";
    var titleAttr := if title != "" then " title=\"" + title + "\"" else "";
    var rest := altAttr + titleAttr + " />";
    ParseAttrsRoundTrip(alt, title);
    var b64 := ";base64," + payload + "\"" + rest;
    ParsePayloadOf(format, payload, rest);
    ParseFormatOf(format, b64);
    ParseImgOf(format + b64);
    RawToB64ImageShape(raw, alt, title, format);
  }

  /** Proof step of ImgRoundTrip: the tag regrouped as the reader takes it apart. */
  lemma RawToB64ImageShape(raw: string, alt: string, title: string, format: string)
    ensures RawToB64Image(raw, alt, title, format)
         == "<img src=\"data:image/" + (format + (";base64," + Strip(raw) + "\""
              + ((if alt != "" then " alt=\"" + alt + "\"" else "")
                 + (if title != "" then " title=\"" + title + "\"" else "") + " />")))
  {
    var d := Strip(raw);
    var a := if alt != "" then " alt=\"" + alt + "\"" else "";
    var t := if title != "" then " title=\"" + title + "\"" else "";
    ConcatShape("<img src=\"", "data:image/", format, ";base64,", d, "\"", a, t, " />");
  }

  lemma ConcatShape(p0: string, p1: string, f: string, p2: string, d: string, q: string,
                    a: string, t: string, z: string)
    ensures p0 + (p1 + f + p2 + d) + q + a + t + z == (p0 + p1) + (f + (p2 + d + q + (a + t + z)))
  {
  }

  /** `DATA_FORMATS[f](data, alt, title)`: `html` passes the captured text
      through whatever alt and title are; the image formats build a tag that
      reads back with the format's media type (`svg+xml` for svg). */
  function Encode(f: Format, data: string, alt: string, title: string): (r: string)
    ensures f == Html ==> r == data
    ensures f != Html && '"' !in data && '"' !in alt && '"' !in title ==>
              ParseImg(r) == Some(Img(MediaType(f), Strip(data), if alt == "" then None else Some(alt),
                                      if title == "" then None else Some(title)))
  {
    match f
    case Html => data
    case _ =>
      var r := RawToB64Image(data, alt, title, MediaType(f));
      if '"' !in data && '"' !in alt && '"' !in title then
        ImgRoundTrip(data, alt, title, MediaType(f));
        r
      else r
  }

  /** `generate_html`: on a fault no encoder runs and the traceback comes
      back indented by four spaces; otherwise the selected encoder gets the
      captured output, and an image format gives a tag that reads back to
      the format's media type, the stripped output, alt and title. */
  function GenerateHtml(exec: string -> ExecResult, code: string, format: string, alt: string, title: string): (r: string)
    requires format in FormatKeys
    ensures exec(code).Fault? ==> r == Indent(exec(code).traceback, "    ")
    ensures exec(code).Ok? && format == "html" ==> r == exec(code).stdout
    ensures exec(code).Ok? && format != "html" && '"' !in exec(code).stdout && '"' !in alt && '"' !in title ==>
              ParseImg(r) == Some(Img(MediaType(DataFormat(format).value), Strip(exec(code).stdout),
                                      if alt == "" then None else Some(alt),
                                      if title == "" then None else Some(title)))
  {
    match exec(code)
    case Fault(tb) => Indent(tb, "    ")
    case Ok(out) => Encode(DataFormat(format).value, out, alt, title)
  }
}
