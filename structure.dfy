/**
 * The structure record of a message part (the object `imap_fetchstructure`
 * returns, or the one MessagePart::getStructureAlternative builds), the
 * property getters over it (MessagePart::getProperty), the parameter lists
 * (parseParams, decodeMime, getParameters) and the fallback reconstruction
 * of a structure from raw header and body text.
 */
module Structures {

  import opened Wrappers
  import opened Text
  import opened Assoc
  import opened Encoding
  import opened Headers

  const TYPE_TEXT := 0
  const TYPE_MULTIPART := 1
  const TYPE_MESSAGE := 2
  const TYPE_APPLICATION := 3
  const TYPE_AUDIO := 4
  const TYPE_IMAGE := 5
  const TYPE_VIDEO := 6
  const TYPE_MODEL := 7
  const TYPE_OTHER := 8

  /** `MessagePart::$types`: the primary type names, indexed by their constant. */
  const Types: seq<string> :=
    ["text", "multipart", "message", "application", "audio", "image", "video", "model", "other"]

  /** The charset `decodeMime` assumes for words without one. */
  const DEFAULT_IMAP_CHARSET := "utf-8"

  /** One entry of a `parameters` or `dparameters` list; either side may be unset. */
  datatype Param = Param(attribute: Option<string>, value: Option<string>)

  /**
   * A structure record. Every property may be unset (`None`); the `if...`
   * flags are the ones `imap_fetchstructure` provides. `body` is the raw
   * body that the fallback stashes in a non-multipart record (`_body`).
   */
  datatype Structure = Structure(
    primaryType: Option<int>,
    encoding: Option<int>,
    ifsubtype: Option<bool>, subtype: Option<string>,
    ifdescription: Option<bool>, description: Option<string>,
    ifid: Option<bool>, id: Option<string>,
    lines: Option<int>,
    bytes: Option<int>,
    ifdisposition: Option<bool>, disposition: Option<string>,
    ifparameters: Option<bool>, parameters: Option<seq<Param>>,
    ifdparameters: Option<bool>, dparameters: Option<seq<Param>>,
    parts: PartList,
    body: Option<string>)

  /** The `parts` property: unset, or the list of the children's records. */
  datatype PartList = Unset | Parts(items: seq<Structure>)

  // ---------------------------------------------------------------- getProperty

  /**
   * getProperty: a property is read only if it is set and its `if` flag is
   * absent or true.
   */
  function Property<T>(flag: Option<bool>, value: Option<T>): (r: Option<T>)
    ensures r.Some? <==> flag != Some(false) && value.Some?
    ensures r.Some? ==> r == value
  {
    if flag != Some(false) && value.Some? then value else None
  }

  // The getters; `type`, `encoding`, `lines` and `bytes` have no `if` flag.

  function TypeOf(s: Structure): (r: Option<int>)
    ensures r == s.primaryType
  {
    Property(None, s.primaryType)
  }

  function EncodingOf(s: Structure): (r: Option<int>)
    ensures r == s.encoding
  {
    Property(None, s.encoding)
  }

  function LinesOf(s: Structure): (r: Option<int>)
    ensures r == s.lines
  {
    Property(None, s.lines)
  }

  function BytesOf(s: Structure): (r: Option<int>)
    ensures r == s.bytes
  {
    Property(None, s.bytes)
  }

  function SubtypeOf(s: Structure): (r: Option<string>)
    ensures r.Some? <==> s.ifsubtype != Some(false) && s.subtype.Some?
    ensures r.Some? ==> r == s.subtype
  {
    Property(s.ifsubtype, s.subtype)
  }

  function DescriptionOf(s: Structure): (r: Option<string>)
    ensures r.Some? <==> s.ifdescription != Some(false) && s.description.Some?
    ensures r.Some? ==> r == s.description
  {
    Property(s.ifdescription, s.description)
  }

  function IdOf(s: Structure): (r: Option<string>)
    ensures r.Some? <==> s.ifid != Some(false) && s.id.Some?
    ensures r.Some? ==> r == s.id
  {
    Property(s.ifid, s.id)
  }

  function DispositionOf(s: Structure): (r: Option<string>)
    ensures r.Some? <==> s.ifdisposition != Some(false) && s.disposition.Some?
    ensures r.Some? ==> r == s.disposition
  {
    Property(s.ifdisposition, s.disposition)
  }

  function ParametersOf(s: Structure): (r: Option<seq<Param>>)
    ensures r.Some? <==> s.ifparameters != Some(false) && s.parameters.Some?
    ensures r.Some? ==> r == s.parameters
  {
    Property(s.ifparameters, s.parameters)
  }

  function DparametersOf(s: Structure): (r: Option<seq<Param>>)
    ensures r.Some? <==> s.ifdparameters != Some(false) && s.dparameters.Some?
    ensures r.Some? ==> r == s.dparameters
  {
    Property(s.ifdparameters, s.dparameters)
  }

  // ---------------------------------------------------------------- decodeMime

  /** The charset a decoded word is converted from: its own, or UTF-8 for `default` or none. */
  function WordCharset(w: MimeWord): string {
    match w.charset
    case None => DEFAULT_IMAP_CHARSET
    case Some(c) => if c == "default" then DEFAULT_IMAP_CHARSET else c
  }

  /** The words of an encoded header, each converted to `target`, concatenated. */
  function DecodedWords(words: seq<MimeWord>, target: string, codec: Codec): string {
    if words == [] then ""
    else
      var w := words[|words| - 1];
      DecodedWords(words[..|words| - 1], target, codec) + codec.convert(w.text, target, WordCharset(w))
  }

  /** Decoding a list of words is decoding each part and concatenating. */
  lemma {:induction false} DecodedWordsConcat(a: seq<MimeWord>, b: seq<MimeWord>, target: string, codec: Codec)
    ensures DecodedWords(a + b, target, codec) == DecodedWords(a, target, codec) + DecodedWords(b, target, codec)
  {
    if b != [] {
      assert (a + b)[..|a + b| - 1] == a + b[..|b| - 1];
      DecodedWordsConcat(a, b[..|b| - 1], target, codec);
    } else {
      assert a + b == a;
    }
  }

  /** A word without a charset, or marked `default`, is converted from UTF-8. */
  lemma DecodedDefaultWord(text: string, target: string, codec: Codec)
    ensures DecodedWords([MimeWord(None, text)], target, codec) == codec.convert(text, target, "utf-8")
    ensures DecodedWords([MimeWord(Some("default"), text)], target, codec) == codec.convert(text, target, "utf-8")
  {
    assert [MimeWord(None, text)][..0] == [];
    assert [MimeWord(Some("default"), text)][..0] == [];
  }

  /** decodeMime: the loop over the decoded words of `text`. */
  method DecodeMime(text: string, target: string, codec: Codec) returns (result: string)
    ensures result == DecodedWords(codec.mimeWords(text), target, codec)
  {
    var list := codec.mimeWords(text);
    result := "";
    var i := 0;
    while i < |list|
      invariant 0 <= i <= |list|
      invariant result == DecodedWords(list[..i], target, codec)
    {
      assert list[..i + 1][..i] == list[..i];
      result := result + codec.convert(list[i].text, target, WordCharset(list[i]));
      i := i + 1;
    }
    assert list[..i] == list;
  }

  // ---------------------------------------------------------------- parseParams

  /** A parsed parameter list: attribute to decoded value (`null` when the entry had no value). */
  type ParamMap = seq<(string, Option<string>)>

  /** The parameter map of a list: later attributes overwrite earlier ones, entries without attribute are skipped. */
  function ParamsFrom(ps: seq<Param>, target: string, codec: Codec): ParamMap {
    if ps == [] then []
    else
      var m := ParamsFrom(ps[..|ps| - 1], target, codec);
      var p := ps[|ps| - 1];
      match p.attribute
      case None => m
      case Some(a) =>
        Put(m, a, match p.value case None => None case Some(v) => Some(DecodedWords(codec.mimeWords(v), target, codec)))
  }

  /** The specification of parseParams: an unset list gives the empty map. */
  function ParamsOf(params: Option<seq<Param>>, target: string, codec: Codec): ParamMap {
    ParamsFrom(params.GetOr([]), target, codec)
  }

  /** The last entry of `ps` carrying attribute `key`. */
  function LastWithAttribute(ps: seq<Param>, key: string): Option<Param> {
    if ps == [] then None
    else if ps[|ps| - 1].attribute == Some(key) then Some(ps[|ps| - 1])
    else LastWithAttribute(ps[..|ps| - 1], key)
  }

  /**
   * parseParams stores each attribute once, and what it stores under an
   * attribute is the decoded value of the LAST entry with that attribute.
   */
  lemma {:induction false} ParamsFromLookup(ps: seq<Param>, target: string, codec: Codec, key: string)
    ensures UniqueKeys(ParamsFrom(ps, target, codec))
    ensures Lookup(ParamsFrom(ps, target, codec), key) ==
            match LastWithAttribute(ps, key)
            case None => None
            case Some(p) => Some(match p.value case None => None case Some(v) => Some(DecodedWords(codec.mimeWords(v), target, codec)))
  {
    if ps != [] {
      ParamsFromLookup(ps[..|ps| - 1], target, codec, key);
    }
  }

  /** parseParams: the loop over the entries of a parameter list. */
  method ParseParams(params: Option<seq<Param>>, target: string, codec: Codec) returns (arr: ParamMap)
    ensures arr == ParamsOf(params, target, codec)
  {
    arr := [];
    if params.Some? {
      var ps := params.value;
      var i := 0;
      while i < |ps|
        invariant 0 <= i <= |ps|
        invariant arr == ParamsFrom(ps[..i], target, codec)
      {
        assert ps[..i + 1][..i] == ps[..i];
        var p := ps[i];
        if p.attribute.Some? {
          if p.value.Some? {
            var decoded := DecodeMime(p.value.value, target, codec);
            arr := Put(arr, p.attribute.value, Some(decoded));
          } else {
            arr := Put(arr, p.attribute.value, None);
          }
        }
        i := i + 1;
      }
      assert ps[..i] == ps;
    }
  }

  /** getParameters(name): the value stored under `name`, unless it is unset or `null`. */
  function ParamValue(m: ParamMap, name: string): (r: Option<string>)
    ensures r.Some? <==> Lookup(m, name).Some? && Lookup(m, name).value.Some?
    ensures r.Some? ==> Lookup(m, name) == Some(r)
  {
    var found := Lookup(m, name);
    if found.Some? && found.value.Some? then found.value else None
  }

  // ---------------------------------------------------------------- the fallback

  /** `array_search(name, $types)`, falling back to TYPE_OTHER. */
  function TypeIndex(name: string): (r: int)
    ensures 0 <= r < |Types|
    ensures name in Types ==> Types[r] == name
    ensures name !in Types ==> r == TYPE_OTHER
  {
    SearchFrom(name, 0)
  }

  function SearchFrom(name: string, i: nat): (r: int)
    requires i <= |Types|
    ensures 0 <= r < |Types|
    ensures name in Types[i..] ==> Types[r] == name
    ensures name !in Types[i..] ==> r == TYPE_OTHER
    decreases |Types| - i
  {
    if i == |Types| then TYPE_OTHER
    else if Types[i] == name then i
    else
      assert Types[i..] == [Types[i]] + Types[i + 1..];
      SearchFrom(name, i + 1)
  }

  /** The name "other" is the last type. */
  lemma TypeIndexOther()
    ensures TypeIndex("other") == TYPE_OTHER
  {
    assert Types[TYPE_OTHER] == "other";
  }

  /** A header's first positional value, `$headers[name][0]`. */
  function FirstValue(h: HeaderMap, name: string): Option<string> {
    var e := EntryOf(h, name);
    if e.positional == [] then None else Some(e.positional[0])
  }

  /** The Content-Type value the fallback reads: `other` with no header, empty with no positional value. */
  function ContentTypeOf(h: HeaderMap): string {
    if "content-type" in h then FirstValue(h, "content-type").GetOr("") else "other"
  }

  /** The named parameters of a header as a parameter list, in insertion order. */
  function NamedParams(named: seq<(string, string)>): (r: seq<Param>)
    ensures |r| == |named|
    ensures forall i :: 0 <= i < |r| ==> r[i] == Param(Some(named[i].0), Some(named[i].1))
  {
    if named == [] then [] else [Param(Some(named[0].0), Some(named[0].1))] + NamedParams(named[1..])
  }

  /**
   * The segments between `--boundary` delimiters: the pieces of the body
   * with the preamble (first piece) and the close piece (last) dropped.
   */
  function Segments(boundary: string, body: string): (r: seq<string>)
    ensures var n := Occurrences("--" + boundary, body);
            |r| == if n == 0 then 0 else n - 1
    ensures |Explode("--" + boundary, body)| >= 2 ==>
            r == Explode("--" + boundary, body)[1..|Explode("--" + boundary, body)| - 1]
  {
    var pieces := Explode("--" + boundary, body);
    ExplodeCount("--" + boundary, body);
    if |pieces| >= 2 then pieces[1..|pieces| - 1] else []
  }

  /** The structure of one segment: the trimmed text before the first blank CRLF line, and the rest (if any). */
  function SegmentHead(segment: string): string {
    Trim(SplitFirst(segment, "\r\n\r\n").0)
  }

  function SegmentBody(segment: string): Option<string> {
    SplitFirst(segment, "\r\n\r\n").1
  }

  /** Every segment split into its parsed sub-header and its sub-body. */
  function SplitSegments(segments: seq<string>): (r: seq<(HeaderMap, Option<string>)>)
    ensures |r| == |segments|
    ensures forall i :: 0 <= i < |r| ==> r[i] == (HeadersOf(SegmentHead(segments[i])), SegmentBody(segments[i]))
  {
    seq(|segments|, i requires 0 <= i < |segments| => (HeadersOf(SegmentHead(segments[i])), SegmentBody(segments[i])))
  }

  /** The boundary parameter of the Content-Type header, if any. */
  function BoundaryOf(h: HeaderMap): Option<string> {
    Lookup(EntryOf(h, "content-type").named, "boundary")
  }

  /**
   * The part of getStructureAlternative that reads only the parsed headers:
   * every property but the children, the stashed body and the length.
   */
  function HeaderRecord(h: HeaderMap): (r: Structure)
    ensures r.primaryType == Some(TypeIndex(Explode("/", ContentTypeOf(h))[0]))
    ensures r.parts == Parts([]) && r.body.None? && r.bytes.None? && r.lines.None?
  {
    var pieces := Explode("/", ContentTypeOf(h));
    var sub := if |pieces| > 1 then Some(pieces[1]) else None;
    var ct := EntryOf(h, "content-type");
    var cd := EntryOf(h, "content-disposition");
    var disposition := if "content-disposition" in h then FirstValue(h, "content-disposition") else None;
    Structure(
      Some(TypeIndex(pieces[0])),
      Some(ConvertEncoding(if "content-transfer-encoding" in h then FirstValue(h, "content-transfer-encoding").GetOr("") else "other")),
      Some(sub.Some?), sub,
      Some(false), None,
      Some("content-id" in h), if "content-id" in h then FirstValue(h, "content-id") else None,
      None,
      None,
      Some(disposition.Some?), disposition,
      Some(ct.named != []), Some(NamedParams(ct.named)),
      if disposition.Some? then Some(cd.named != []) else None,
      if disposition.Some? then Some(NamedParams(cd.named)) else None,
      Parts([]),
      None)
  }

  /**
   * getStructureAlternative on parsed headers `h`: the record built from them. A multipart record with a boundary gets one child per
   * segment of `rootBody` (the root part's raw body, whatever the nesting);
   * any other record stashes `body` and records its length. `fuel` bounds the
   * nesting; running out gives `None`.
   */
  function Alternative(h: HeaderMap, body: Option<string>, rootBody: string, fuel: nat): (r: Option<Structure>)
    decreases fuel, 1
  {
    if fuel == 0 then None
    else
      var base := HeaderRecord(h);
      if base.primaryType != Some(TYPE_MULTIPART) then Some(base.(body := body, bytes := Some(|body.GetOr("")|)))
      else if HasBoundary(h) then AltMultipart(h, rootBody, fuel)
      else Some(base)
  }

  /** A Content-Type boundary parameter that PHP reads as true. */
  predicate HasBoundary(h: HeaderMap) {
    BoundaryOf(h).Some? && Truthy(BoundaryOf(h).value)
  }

  /** The multipart record with one child per segment of `rootBody`; `None` if a child runs out of fuel. */
  function AltMultipart(h: HeaderMap, rootBody: string, fuel: nat): (r: Option<Structure>)
    requires fuel > 0
    decreases fuel, 0
  {
    MultipartRecord(HeaderRecord(h), AltChildren(SplitSegments(Segments(BoundaryOf(h).GetOr(""), rootBody)), rootBody, fuel - 1))
  }

  /** The record `base` of a multipart header with its children; `None` if building a child ran out of fuel. */
  function MultipartRecord(base: Structure, children: Option<seq<Structure>>): Option<Structure> {
    match children
    case None => None
    case Some(items) => Some(base.(parts := Parts(items)))
  }

  /** The records of the segments' (header, body) pairs, in order; `None` if any of them runs out of fuel. */
  function AltChildren(segments: seq<(HeaderMap, Option<string>)>, rootBody: string, fuel: nat): (r: Option<seq<Structure>>)
    decreases fuel, 2
  {
    if forall i | 0 <= i < |segments| :: Alternative(segments[i].0, segments[i].1, rootBody, fuel).Some? then
      Some(seq(|segments|, i requires 0 <= i < |segments| => Alternative(segments[i].0, segments[i].1, rootBody, fuel).value))
    else None
  }

  /** When every segment has a record, the children are exactly those records. */
  lemma AltChildrenAll(segments: seq<(HeaderMap, Option<string>)>, rootBody: string, fuel: nat, built: seq<Structure>)
    requires |built| == |segments|
    requires forall j :: 0 <= j < |segments| ==> Alternative(segments[j].0, segments[j].1, rootBody, fuel) == Some(built[j])
    ensures AltChildren(segments, rootBody, fuel) == Some(built)
  {
    var r := AltChildren(segments, rootBody, fuel);
    assert r.Some?;
    assert |r.value| == |built|;
    assert forall j :: 0 <= j < |segments| ==> r.value[j] == built[j];
    assert r.value == built;
  }

  /** The children of one more segment: those of the others, then its record. */
  lemma AltChildrenSnoc(segments: seq<(HeaderMap, Option<string>)>, rootBody: string, fuel: nat, i: nat, built: seq<Structure>, child: Structure)
    requires i < |segments|
    requires AltChildren(segments[..i], rootBody, fuel) == Some(built)
    requires Alternative(segments[i].0, segments[i].1, rootBody, fuel) == Some(child)
    ensures AltChildren(segments[..i + 1], rootBody, fuel) == Some(built + [child])
  {
    var prefix := segments[..i + 1];
    forall j | 0 <= j < i + 1
      ensures Alternative(prefix[j].0, prefix[j].1, rootBody, fuel) == Some((built + [child])[j])
    {
      if j < i {
        assert prefix[j] == segments[..i][j];
      }
    }
    AltChildrenAll(prefix, rootBody, fuel, built + [child]);
  }

  /** One segment without a record leaves the whole list without children. */
  lemma AltChildrenMissing(segments: seq<(HeaderMap, Option<string>)>, rootBody: string, fuel: nat, i: nat)
    requires i < |segments| && Alternative(segments[i].0, segments[i].1, rootBody, fuel).None?
    ensures AltChildren(segments, rootBody, fuel).None?
  {
  }

  /** A multipart record is built from the records of its segments. */
  lemma AltMultipartUnfold(h: HeaderMap, rootBody: string, fuel: nat)
    requires fuel > 0
    ensures AltMultipart(h, rootBody, fuel) == MultipartRecord(HeaderRecord(h), AltChildren(SplitSegments(Segments(BoundaryOf(h).GetOr(""), rootBody)), rootBody, fuel - 1))
  {
  }

  /** getStructureAlternative(head, body) for a given header text. */
  function StructureAlternative(head: string, body: Option<string>, rootBody: string, fuel: nat): Option<Structure> {
    Alternative(HeadersOf(head), body, rootBody, fuel)
  }

  // ---------------------------------------------------------------- properties of the fallback

  /** The shape of every fallback record: the header record with its children, stashed body and length filled in. */
  lemma AltShape(h: HeaderMap, body: Option<string>, rootBody: string, fuel: nat)
    ensures FallbackShape(Alternative(h, body, rootBody, fuel), HeaderRecord(h), body)
  {
    if fuel > 0 {
      var base := HeaderRecord(h);
      if base.primaryType != Some(TYPE_MULTIPART) {
        AltFlat(h, body, rootBody, fuel);
        FlatShape(base, body);
      } else if HasBoundary(h) {
        AltIsMultipart(h, body, rootBody, fuel);
        AltMultipartUnfold(h, rootBody, fuel);
        MultipartShape(base, AltChildren(SplitSegments(Segments(BoundaryOf(h).GetOr(""), rootBody)), rootBody, fuel - 1), body);
      } else {
        AltBare(h, body, rootBody, fuel);
        MultipartShape(base, Some([]), body);
      }
    }
  }

  /**
   * `r` is `base` with its children, stashed body and length filled in; a
   * multipart record has no stashed body, any other one stashes `body`,
   * records its length and has no children.
   */
  predicate FallbackShape(r: Option<Structure>, base: Structure, body: Option<string>) {
    r.Some? ==>
      r.value == base.(parts := r.value.parts, body := r.value.body, bytes := r.value.bytes) &&
      r.value.parts.Parts? &&
      (r.value.primaryType != Some(TYPE_MULTIPART) ==>
         r.value.body == body && r.value.bytes == Some(|body.GetOr("")|) && r.value.parts == Parts([])) &&
      (r.value.primaryType == Some(TYPE_MULTIPART) ==> r.value.body.None? && r.value.bytes.None?)
  }

  lemma FlatShape(base: Structure, body: Option<string>)
    requires base.primaryType != Some(TYPE_MULTIPART) && base.parts == Parts([])
    ensures FallbackShape(Some(base.(body := body, bytes := Some(|body.GetOr("")|))), base, body)
  {
  }

  lemma MultipartShape(base: Structure, children: Option<seq<Structure>>, body: Option<string>)
    requires base.primaryType == Some(TYPE_MULTIPART) && base.body.None? && base.bytes.None?
    ensures FallbackShape(MultipartRecord(base, children), base, body)
  {
  }

  /** A record that is not multipart stashes the body and its length. */
  lemma AltFlat(h: HeaderMap, body: Option<string>, rootBody: string, fuel: nat)
    requires fuel > 0 && HeaderRecord(h).primaryType != Some(TYPE_MULTIPART)
    ensures Alternative(h, body, rootBody, fuel) == Some(HeaderRecord(h).(body := body, bytes := Some(|body.GetOr("")|)))
  {
  }

  /** A multipart record without a truthy boundary is the header record alone. */
  lemma AltBare(h: HeaderMap, body: Option<string>, rootBody: string, fuel: nat)
    requires fuel > 0 && HeaderRecord(h).primaryType == Some(TYPE_MULTIPART) && !HasBoundary(h)
    ensures Alternative(h, body, rootBody, fuel) == Some(HeaderRecord(h))
  {
  }

  /** Content-Type `a/b`: the type is the index of `a` in the type names (else "other"), the subtype is `b`. */
  lemma AltTypeAndSubtype(h: HeaderMap, body: Option<string>, rootBody: string, fuel: nat, a: string, b: string)
    requires ContentTypeOf(h) == a + "/" + b && '/' !in a && '/' !in b
    ensures var r := Alternative(h, body, rootBody, fuel);
            r.Some? ==> r.value.primaryType == Some(TypeIndex(a)) && SubtypeOf(r.value) == Some(b)
  {
    AltShape(h, body, rootBody, fuel);
    ExplodeAtChar('/', a, b);
  }

  /** Content-Type without `/`: the type comes from the whole value, and there is no subtype. */
  lemma AltNoSubtype(h: HeaderMap, body: Option<string>, rootBody: string, fuel: nat)
    requires '/' !in ContentTypeOf(h)
    ensures var r := Alternative(h, body, rootBody, fuel);
            r.Some? ==> r.value.primaryType == Some(TypeIndex(ContentTypeOf(h))) &&
                        r.value.ifsubtype == Some(false) && SubtypeOf(r.value).None?
  {
    AltShape(h, body, rootBody, fuel);
    ExplodeWithoutChar('/', ContentTypeOf(h));
  }

  /** Without a Content-Type header the type is "other", with no subtype and no parameters. */
  lemma AltMissingContentType(h: HeaderMap, body: Option<string>, rootBody: string, fuel: nat)
    requires "content-type" !in h
    ensures var r := Alternative(h, body, rootBody, fuel);
            r.Some? ==> r.value.primaryType == Some(TYPE_OTHER) && SubtypeOf(r.value).None? &&
                        ParametersOf(r.value).None? && r.value.parts == Parts([])
  {
    AltNoSubtype(h, body, rootBody, fuel);
    TypeIndexOther();
  }

  /**
   * The other headers: the transfer encoding is the named constant (ENCOTHER
   * without the header), the Content-Type named parameters are the
   * parameters, and a disposition with its parameters exists exactly when the
   * Content-Disposition header has a positional value.
   */
  lemma AltHeaderFields(h: HeaderMap, body: Option<string>, rootBody: string, fuel: nat)
    ensures var r := Alternative(h, body, rootBody, fuel);
            r.Some? ==>
              r.value.encoding == Some(ConvertEncoding(if "content-transfer-encoding" in h
                                                       then FirstValue(h, "content-transfer-encoding").GetOr("")
                                                       else "other")) &&
              r.value.parameters == Some(NamedParams(EntryOf(h, "content-type").named)) &&
              (ParametersOf(r.value).Some? <==> EntryOf(h, "content-type").named != []) &&
              (DispositionOf(r.value).Some? <==> "content-disposition" in h && FirstValue(h, "content-disposition").Some?) &&
              (DispositionOf(r.value).Some? ==> DispositionOf(r.value) == FirstValue(h, "content-disposition")) &&
              (DparametersOf(r.value).Some? <==> DispositionOf(r.value).Some? && EntryOf(h, "content-disposition").named != []) &&
              (DparametersOf(r.value).Some? ==> DparametersOf(r.value) == Some(NamedParams(EntryOf(h, "content-disposition").named)))
  {
    AltShape(h, body, rootBody, fuel);
  }

  /** ENCOTHER is the encoding without a Content-Transfer-Encoding header. */
  lemma AltDefaultEncoding(h: HeaderMap, body: Option<string>, rootBody: string, fuel: nat)
    requires "content-transfer-encoding" !in h
    ensures var r := Alternative(h, body, rootBody, fuel);
            r.Some? ==> r.value.encoding == Some(ENCOTHER)
  {
    AltHeaderFields(h, body, rootBody, fuel);
    ConvertEncodingOther();
  }

  /** A multipart record with a truthy boundary is the record with the segments' children. */
  lemma AltIsMultipart(h: HeaderMap, body: Option<string>, rootBody: string, fuel: nat)
    requires fuel > 0 && HeaderRecord(h).primaryType == Some(TYPE_MULTIPART) && HasBoundary(h)
    ensures Alternative(h, body, rootBody, fuel) == AltMultipart(h, rootBody, fuel)
  {
  }

  /** More fuel changes nothing once the fallback has a record: the record does not depend on the bound. */
  lemma {:induction false} AltMono(h: HeaderMap, body: Option<string>, rootBody: string, fuel: nat)
    requires Alternative(h, body, rootBody, fuel).Some?
    ensures Alternative(h, body, rootBody, fuel + 1) == Alternative(h, body, rootBody, fuel)
    decreases fuel, 1
  {
    if HeaderRecord(h).primaryType == Some(TYPE_MULTIPART) && HasBoundary(h) {
      AltIsMultipart(h, body, rootBody, fuel);
      AltIsMultipart(h, body, rootBody, fuel + 1);
      AltMultipartMono(h, rootBody, fuel);
    } else {
      AltLeafMono(h, body, rootBody, fuel);
    }
  }

  /** A record without children to build is the same for any positive fuel. */
  lemma AltLeafMono(h: HeaderMap, body: Option<string>, rootBody: string, fuel: nat)
    requires fuel > 0 && !(HeaderRecord(h).primaryType == Some(TYPE_MULTIPART) && HasBoundary(h))
    ensures Alternative(h, body, rootBody, fuel + 1) == Alternative(h, body, rootBody, fuel)
  {
    if HeaderRecord(h).primaryType != Some(TYPE_MULTIPART) {
      AltFlat(h, body, rootBody, fuel);
      AltFlat(h, body, rootBody, fuel + 1);
    } else {
      AltBare(h, body, rootBody, fuel);
      AltBare(h, body, rootBody, fuel + 1);
    }
  }

  /** A multipart record that was built had all its children built. */
  lemma AltMultipartChildrenSome(h: HeaderMap, rootBody: string, below: nat, segments: seq<(HeaderMap, Option<string>)>)
    requires AltMultipart(h, rootBody, below + 1).Some?
    requires segments == SplitSegments(Segments(BoundaryOf(h).GetOr(""), rootBody))
    ensures AltChildren(segments, rootBody, below).Some?
  {
    AltMultipartUnfold(h, rootBody, below + 1);
  }

  /** The multipart record depends on the fuel only through its children. */
  lemma AltMultipartStep(h: HeaderMap, rootBody: string, below: nat, segments: seq<(HeaderMap, Option<string>)>)
    requires segments == SplitSegments(Segments(BoundaryOf(h).GetOr(""), rootBody))
    requires AltChildren(segments, rootBody, below + 1) == AltChildren(segments, rootBody, below)
    ensures AltMultipart(h, rootBody, below + 2) == AltMultipart(h, rootBody, below + 1)
  {
    AltMultipartUnfold(h, rootBody, below + 1);
    AltMultipartUnfold(h, rootBody, below + 2);
  }

  /** More fuel changes nothing once the multipart record with its children was built. */
  lemma {:induction false} AltMultipartMono(h: HeaderMap, rootBody: string, fuel: nat)
    requires fuel > 0 && AltMultipart(h, rootBody, fuel).Some?
    ensures AltMultipart(h, rootBody, fuel + 1) == AltMultipart(h, rootBody, fuel)
    decreases fuel, 0
  {
    var segments := SplitSegments(Segments(BoundaryOf(h).GetOr(""), rootBody));
    var below: nat := fuel - 1;
    AltMultipartChildrenSome(h, rootBody, below, segments);
    AltChildrenMono(segments, rootBody, below);
    AltMultipartStep(h, rootBody, below, segments);
  }

  /** Too little fuel: a multipart record with a boundary and at least one segment has no record at fuel 1. */
  lemma AltOutOfFuel(h: HeaderMap, body: Option<string>, rootBody: string)
    requires HeaderRecord(h).primaryType == Some(TYPE_MULTIPART) && HasBoundary(h)
    requires |SplitSegments(Segments(BoundaryOf(h).GetOr(""), rootBody))| > 0
    ensures Alternative(h, body, rootBody, 1).None?
  {
    var segments := SplitSegments(Segments(BoundaryOf(h).GetOr(""), rootBody));
    AltChildrenMissing(segments, rootBody, 0, 0);
    AltIsMultipart(h, body, rootBody, 1);
    AltMultipartUnfold(h, rootBody, 1);
  }

  /** More fuel changes nothing once every segment has a record. */
  lemma {:induction false} AltChildrenMono(segments: seq<(HeaderMap, Option<string>)>, rootBody: string, fuel: nat)
    requires AltChildren(segments, rootBody, fuel).Some?
    ensures AltChildren(segments, rootBody, fuel + 1) == AltChildren(segments, rootBody, fuel)
    decreases fuel, 2
  {
    var built := AltChildren(segments, rootBody, fuel).value;
    forall j | 0 <= j < |segments|
      ensures Alternative(segments[j].0, segments[j].1, rootBody, fuel + 1) == Some(built[j])
    {
      assert Alternative(segments[j].0, segments[j].1, rootBody, fuel) == Some(built[j]);
      AltMono(segments[j].0, segments[j].1, rootBody, fuel);
    }
    AltChildrenAll(segments, rootBody, fuel + 1, built);
  }

  /** Any fuel beyond one that gives a record gives the same record. */
  lemma {:induction false} AltFuelSettled(h: HeaderMap, body: Option<string>, rootBody: string, fuel: nat, more: nat)
    requires fuel <= more && Alternative(h, body, rootBody, fuel).Some?
    ensures Alternative(h, body, rootBody, more) == Alternative(h, body, rootBody, fuel)
    decreases more - fuel
  {
    if fuel < more {
      AltMono(h, body, rootBody, fuel);
      AltFuelSettled(h, body, rootBody, fuel + 1, more);
    }
  }

  /**
   * A multipart record with a boundary `b` has one child per segment:
   * (number of `--b` delimiters in the root body) - 1 of them, and child i is
   * the fallback of segment i's sub-header and sub-body.
   */
  lemma AltMultipartChildren(h: HeaderMap, body: Option<string>, rootBody: string, fuel: nat, b: string)
    requires fuel > 0
    requires HeaderRecord(h).primaryType == Some(TYPE_MULTIPART)
    requires BoundaryOf(h) == Some(b) && Truthy(b)
    ensures var r := Alternative(h, body, rootBody, fuel);
            var segments := Segments(b, rootBody);
            var n := Occurrences("--" + b, rootBody);
            r.Some? ==>
              r.value.parts.Parts? && |r.value.parts.items| == |segments| == (if n == 0 then 0 else n - 1) &&
              forall i :: 0 <= i < |segments| ==>
                Alternative(HeadersOf(SegmentHead(segments[i])), SegmentBody(segments[i]), rootBody, fuel - 1) ==
                Some(r.value.parts.items[i])
  {
    AltIsMultipart(h, body, rootBody, fuel);
    var r := AltMultipart(h, rootBody, fuel);
    if r.Some? {
      var segments := Segments(b, rootBody);
      var pairs := SplitSegments(segments);
      var children := AltChildren(pairs, rootBody, fuel - 1);
      assert children.Some? && r.value.parts.items == children.value;
      forall i | 0 <= i < |segments|
        ensures Alternative(HeadersOf(SegmentHead(segments[i])), SegmentBody(segments[i]), rootBody, fuel - 1) ==
                Some(r.value.parts.items[i])
      {
        assert pairs[i] == (HeadersOf(SegmentHead(segments[i])), SegmentBody(segments[i]));
      }
    }
  }

  /** A multipart record without a (truthy) boundary has no children; it is built whenever there is fuel. */
  lemma AltMultipartWithoutBoundary(h: HeaderMap, body: Option<string>, rootBody: string, fuel: nat)
    requires fuel > 0
    requires HeaderRecord(h).primaryType == Some(TYPE_MULTIPART)
    requires BoundaryOf(h).None? || !Truthy(BoundaryOf(h).value)
    ensures var r := Alternative(h, body, rootBody, fuel);
            r.Some? && r.value.parts == Parts([]) && r.value.body.None?
  {
    AltBare(h, body, rootBody, fuel);
  }

  /** With fuel, only a child running out of fuel makes the fallback unavailable. */
  lemma AltNoneOnlyFromChildren(h: HeaderMap, body: Option<string>, rootBody: string, fuel: nat)
    requires fuel > 0
    requires Alternative(h, body, rootBody, fuel).None?
    ensures HeaderRecord(h).primaryType == Some(TYPE_MULTIPART)
    ensures BoundaryOf(h).Some? && Truthy(BoundaryOf(h).value)
    ensures var segments := Segments(BoundaryOf(h).value, rootBody);
            exists i :: 0 <= i < |segments| &&
              Alternative(HeadersOf(SegmentHead(segments[i])), SegmentBody(segments[i]), rootBody, fuel - 1).None?
  {
    var segments := Segments(BoundaryOf(h).value, rootBody);
    var pairs := SplitSegments(segments);
    AltIsMultipart(h, body, rootBody, fuel);
    assert AltChildren(pairs, rootBody, fuel - 1).None?;
    var i :| 0 <= i < |pairs| && Alternative(pairs[i].0, pairs[i].1, rootBody, fuel - 1).None?;
    assert pairs[i] == (HeadersOf(SegmentHead(segments[i])), SegmentBody(segments[i]));
  }
}
