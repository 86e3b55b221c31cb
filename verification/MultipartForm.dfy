/** Building a multipart/form-data body and reading it back. */
module MultipartForm {
  import opened Text
  import opened Multipart

  datatype Item = Item(name: string, content: string, filename: string, contentType: string)

  const DISPOSITION: string := "Content-Disposition: form-data; name=\""
  const FILENAME: string := "; filename=\""
  const CONTENT_TYPE: string := "Content-Type: "
  const FORM_TYPE: string := "multipart/form-data; boundary="
  const QUOTE: string := "\""

  /** The characters `Post` accepts in a boundary. */
  predicate BoundaryChar(c: char) {
    '0' <= c <= '9' || 'A' <= c <= 'Z' || 'a' <= c <= 'z' || c == '-' || c == '_'
  }

  predicate BoundaryAllowed(boundary: string) {
    forall i | 0 <= i < |boundary| :: BoundaryChar(boundary[i])
  }

  const BOUNDARY_CHARS: string := CAPITALS + SMALL + DIGITS + "-_"

  lemma {:induction false} BoundaryCharIff(c: char)
    ensures BoundaryChar(c) <==> c in BOUNDARY_CHARS
  {
    AlphanumericIff(c);
    assert c in "-_" <==> c in BOUNDARY_CHARS[62..];
  }

  function DispositionLine(item: Item): string {
    DISPOSITION + item.name + QUOTE + (if item.filename == "" then "" else FILENAME + item.filename + QUOTE)
  }

  function TypeLine(item: Item): string {
    if item.contentType == "" then "" else CONTENT_TYPE + item.contentType + CRLF
  }

  function Head(item: Item): string {
    DispositionLine(item) + CRLF + TypeLine(item) + CRLF
  }

  function ItemsText(items: seq<Item>, boundary: string): string {
    if items == [] then ""
    else
      var last := items[|items| - 1];
      ItemsText(items[..|items| - 1], boundary) + Opening(boundary) + Head(last) + last.content + CRLF
  }

  function Form(items: seq<Item>, boundary: string): string {
    ItemsText(items, boundary) + DASHES + boundary + DASHES + CRLF
  }

  /** `body` after the loop has appended one item, piece by piece. */
  function Appended(body: string, boundary: string, item: Item): string {
    var named := body + DASHES + boundary + CRLF + DISPOSITION + item.name + QUOTE;
    var filed := if item.filename == "" then named else named + FILENAME + item.filename + QUOTE;
    var typed := if item.contentType == "" then filed + CRLF
                 else filed + CRLF + CONTENT_TYPE + item.contentType + CRLF;
    typed + CRLF + item.content + CRLF
  }

  lemma {:induction false} Assoc(a: string, b: string, c: string)
    ensures a + b + c == a + (b + c)
  {
  }

  lemma {:induction false} Assoc4(a: string, b: string, c: string, d: string)
    ensures a + b + c + d == a + (b + c + d)
  {
  }

  lemma {:induction false} AppendedIs(body: string, boundary: string, item: Item)
    ensures Appended(body, boundary, item) == body + Opening(boundary) + Head(item) + item.content + CRLF
  {
    var o := body + Opening(boundary);
    Assoc4(body, DASHES, boundary, CRLF);
    Assoc4(o, DISPOSITION, item.name, QUOTE);
    var named := DISPOSITION + item.name + QUOTE;
    Assoc4(o + named, FILENAME, item.filename, QUOTE);
    Assoc(o, named, FILENAME + item.filename + QUOTE);
    assert named + "" == named;
    var line := DispositionLine(item);
    Assoc(o, line, CRLF);
    Assoc4(o + line + CRLF, CONTENT_TYPE, item.contentType, CRLF);
    Assoc(o, line + CRLF, TypeLine(item));
    assert line + CRLF + "" == line + CRLF;
    Assoc(o, line + CRLF + TypeLine(item), CRLF);
  }

  /** The body and the Content-Type that `Post` sends, or `None` when it refuses the boundary. */
  method Build(items: seq<Item>, boundary: string) returns (request: Option<(string, string)>)
    ensures request.Some? <==> BoundaryAllowed(boundary)
    ensures request.Some? ==> request.value == (Form(items, boundary), FORM_TYPE + boundary)
  {
    for i := 0 to |boundary|
      invariant forall j | 0 <= j < i :: BoundaryChar(boundary[j])
    {
      if !BoundaryChar(boundary[i]) { return None; }
    }
    var body := "";
    for i := 0 to |items|
      invariant body == ItemsText(items[..i], boundary)
    {
      var item := items[i];
      assert items[..i + 1][..i] == items[..i];
      AppendedIs(body, boundary, item);
      body := body + DASHES + boundary + CRLF;
      body := body + DISPOSITION + item.name + QUOTE;
      if item.filename != "" {
        body := body + FILENAME + item.filename + QUOTE;
      }
      body := body + CRLF;
      if item.contentType != "" {
        body := body + CONTENT_TYPE + item.contentType + CRLF;
      }
      body := body + CRLF;
      body := body + item.content + CRLF;
    }
    assert items[..|items|] == items;
    body := body + DASHES + boundary + DASHES + CRLF;
    request := Some((body, FORM_TYPE + boundary));
  }

  /** `parse_multipart_boundary`. */
  function ParseBoundary(contentType: string): (r: Option<string>)
    ensures r.Some? ==> r.value != ""
  {
    match Find(contentType, "boundary=", 0)
    case None => None
    case Some(pos) =>
      var b := contentType[pos + 9..];
      var c := if |b| >= 2 && b[0] == '"' && b[|b| - 1] == '"' then b[1..|b| - 1] else b;
      if c == "" then None else Some(c)
  }

  /** The receiver recovers exactly the boundary that was announced. */
  lemma {:induction false} BoundaryRecovered(boundary: string)
    requires BoundaryAllowed(boundary)
    ensures ParseBoundary(FORM_TYPE + boundary) == if boundary == "" then None else Some(boundary)
  {
    var t := FORM_TYPE + boundary;
    assert FORM_TYPE[21..30] == "boundary=";
    assert t[21..21 + 9] == FORM_TYPE[21..30];
    forall i: nat | i < 21 ensures !OccursAt(t, "boundary=", i) {
      if i + 9 <= |t| {
        assert t[i..i + 9][0] == FORM_TYPE[i];
        assert FORM_TYPE[i] != 'b';
      }
    }
    FindIs(t, "boundary=", 0, 21);
    assert t[30..] == boundary;
  }

  /** A boundary may be in quotes, which are taken off, and anything may stand in front of the parameter; without the
      parameter, or with nothing in it, there is none. */
  lemma {:induction false} BoundaryParameter(before: string, value: string)
    requires Find(before + "boundary=", "boundary=", 0) == Some(|before|)
    ensures ParseBoundary(before + "boundary=" + ("\"" + value + "\"")) == if value == "" then None else Some(value)
    ensures !(|value| >= 2 && value[0] == value[|value| - 1] == '"') ==>
      ParseBoundary(before + "boundary=" + value) == if value == "" then None else Some(value)
  {
    hide Text.Find;
    var p, quoted := before + "boundary=", "\"" + value + "\"";
    FindAppend(p, value, "boundary=", 0);
    FindAppend(p, quoted, "boundary=", 0);
    assert (p + value)[|before| + 9..] == value && (p + quoted)[|before| + 9..] == quoted;
    assert quoted[1..|quoted| - 1] == value;
  }

  lemma {:induction false} NoBoundary(contentType: string)
    requires forall i: nat :: !OccursAt(contentType, "boundary=", i)
    ensures ParseBoundary(contentType) == None
  {
    FindNone(contentType, "boundary=", 0);
  }
}
