/**
 * The ImapMessage object: its caches are fields that its lazy getters fill
 * in place. Every method is proved to leave the caches exactly as the
 * corresponding function over the cache value says, and to return what that
 * function gives.
 */
module ImapMessages {

  import opened Wrappers
  import opened Text
  import opened Assoc
  import opened Encoding
  import opened Headers
  import opened Structures
  import opened Sessions
  import opened Parts
  import opened ImapFiles
  import opened Bodies
  import opened Messages

  /**
   * getStructureAlternative(head, body) on the parsed header `h`: for a
   * multipart record with a truthy boundary, splits the message's raw body
   * `rootBody` and builds one child per segment.
   */
  method BuildAlternative(h: HeaderMap, partBody: Option<string>, rootBody: string, depth: nat) returns (r: Option<Structure>)
    ensures r == Alternative(h, partBody, rootBody, depth)
    decreases depth, 1
  {
    if depth == 0 {
      return None;
    }
    var base := HeaderRecord(h);
    if base.primaryType != Some(TYPE_MULTIPART) {
      return Some(base.(body := partBody, bytes := Some(|partBody.GetOr("")|)));
    }
    if !HasBoundary(h) {
      return Some(base);
    }
    r := BuildMultipart(base, BoundaryOf(h).GetOr(""), rootBody, depth);
    AltMultipartUnfold(h, rootBody, depth);
  }

  /**
   * getStructureAlternative for a multipart record `base` with the truthy
   * boundary `boundary`: its children from the segments of `rootBody`.
   */
  method BuildMultipart(base: Structure, boundary: string, rootBody: string, depth: nat) returns (r: Option<Structure>)
    requires depth > 0
    ensures r == MultipartRecord(base, AltChildren(SplitSegments(Segments(boundary, rootBody)), rootBody, depth - 1))
    decreases depth, 0
  {
    var segments := Segments(boundary, rootBody);
    var children := BuildChildren(segments, rootBody, depth - 1);
    r := MultipartRecord(base, children);
  }

  /** The loop of getStructureAlternative over the segments: each is split, its header parsed and its record built. */
  method BuildChildren(segments: seq<string>, rootBody: string, depth: nat) returns (children: Option<seq<Structure>>)
    ensures children == AltChildren(SplitSegments(segments), rootBody, depth)
    decreases depth, 2
  {
    ghost var pairs := SplitSegments(segments);
    var built: seq<Structure> := [];
    var i := 0;
    AltChildrenAll(pairs[..0], rootBody, depth, []);
    while i < |segments|
      invariant 0 <= i <= |segments|
      invariant AltChildren(pairs[..i], rootBody, depth) == Some(built)
    {
      var h := ParseHeaders(SegmentHead(segments[i]));
      assert pairs[i] == (h, SegmentBody(segments[i]));
      var child := BuildAlternative(h, SegmentBody(segments[i]), rootBody, depth);
      if child.None? {
        AltChildrenMissing(pairs, rootBody, depth, i);
        return None;
      }
      AltChildrenSnoc(pairs, rootBody, depth, i, built, child.value);
      built := built + [child.value];
      i := i + 1;
    }
    assert pairs[..i] == pairs;
    children := Some(built);
  }

  /** Only a multipart record with a truthy boundary reads the message's raw body, and only with fuel left. */
  lemma AltIgnoresRootBody(h: HeaderMap, partBody: Option<string>, x: string, y: string, depth: nat)
    requires depth == 0 || !Messages.NeedsRootBody(h)
    ensures Alternative(h, partBody, x, depth) == Alternative(h, partBody, y, depth)
  {
  }

  class ImapMessage {
    /** What the session gives for this message (its uid is implicit). */
    const session: Session
    /** The nesting depth the fallback may go to. */
    const fuel: nat

    var structure: Option<Structure>
    var parts: Option<seq<Part>>
    var parameters: Option<ParamMap>
    var dparameters: Option<ParamMap>
    var bodyRaw: Option<string>
    var subject: Option<string>
    var body: Option<Groups>
    var attachments: Option<seq<Part>>
    var content: Option<seq<Part>>

    /** The caches as one value. */
    function StateNow(): State
      reads this
    {
      State(structure, parts, parameters, dparameters, bodyRaw, subject, body, attachments, content)
    }

    constructor (session: Session, fuel: nat)
      ensures this.session == session && this.fuel == fuel
      ensures StateNow() == Fresh
    {
      this.session := session;
      this.fuel := fuel;
      structure, parts, parameters, dparameters := None, None, None, None;
      bodyRaw, subject, body, attachments, content := None, None, None, None, None;
    }

    method GetStructure() returns (s: Structure)
      modifies this
      ensures s == StructureOf(old(StateNow()), session)
      ensures StateNow() == AfterGetStructure(old(StateNow()), session)
    {
      if structure.None? {
        structure := Some(session.structure);
      }
      s := structure.value;
    }

    method GetType() returns (t: Option<int>)
      modifies this
      ensures t == TypeOf(StructureOf(old(StateNow()), session))
      ensures StateNow() == AfterGetStructure(old(StateNow()), session)
    {
      var s := GetStructure();
      t := TypeOf(s);
    }

    method GetSubtype() returns (t: Option<string>)
      modifies this
      ensures t == SubtypeOf(StructureOf(old(StateNow()), session))
      ensures StateNow() == AfterGetStructure(old(StateNow()), session)
    {
      var s := GetStructure();
      t := SubtypeOf(s);
    }

    method GetEncoding() returns (e: Option<int>)
      modifies this
      ensures e == EncodingOf(StructureOf(old(StateNow()), session))
      ensures StateNow() == AfterGetStructure(old(StateNow()), session)
    {
      var s := GetStructure();
      e := EncodingOf(s);
    }

    method GetBodyRaw() returns (raw: string)
      modifies this
      ensures raw == RawBodyOf(old(StateNow()), session)
      ensures StateNow() == AfterGetBodyRaw(old(StateNow()), session)
    {
      if bodyRaw.None? {
        if structure.Some? && structure.value.body.Some? {
          bodyRaw := structure.value.body;
          structure := Some(structure.value.(body := None));
        } else {
          bodyRaw := Some(session.body);
        }
      }
      raw := bodyRaw.value;
    }

    /** getData: the raw body, decoded as the record's encoding says. */
    method GetData() returns (data: string)
      modifies this
      ensures data == RootDataOf(old(StateNow()), session)
      ensures StateNow() == AfterGetStructure(AfterGetBodyRaw(old(StateNow()), session), session)
    {
      var raw := GetBodyRaw();
      var encoding := GetEncoding();
      data := DecodeData(raw, encoding, session.codec);
    }

    method GetSubject() returns (s: string)
      modifies this
      ensures s == SubjectOf(old(StateNow()), session)
      ensures StateNow() == AfterGetSubject(old(StateNow()), session)
    {
      if subject.None? {
        var decoded := DecodeMime(session.subject.GetOr(""), session.serverCharset, session.codec);
        subject := Some(decoded);
      }
      s := subject.value;
    }

    method GetParameters() returns (m: ParamMap)
      modifies this
      ensures m == ParametersMapOf(old(StateNow()), session)
      ensures StateNow() == AfterGetParameters(old(StateNow()), session)
    {
      if parameters.None? {
        var s := GetStructure();
        var parsed := ParseParams(ParametersOf(s), session.serverCharset, session.codec);
        parameters := Some(parsed);
      }
      m := parameters.value;
    }

    method GetParameter(name: string) returns (v: Option<string>)
      modifies this
      ensures v == ParamValue(ParametersMapOf(old(StateNow()), session), name)
      ensures StateNow() == AfterGetParameters(old(StateNow()), session)
    {
      var m := GetParameters();
      v := ParamValue(m, name);
    }

    method GetDparameters() returns (m: ParamMap)
      modifies this
      ensures m == DparametersMapOf(old(StateNow()), session)
      ensures StateNow() == AfterGetDparameters(old(StateNow()), session)
    {
      if dparameters.None? {
        var s := GetStructure();
        var parsed := ParseParams(DparametersOf(s), session.serverCharset, session.codec);
        dparameters := Some(parsed);
      }
      m := dparameters.value;
    }

    method GetDparameter(name: string) returns (v: Option<string>)
      modifies this
      ensures v == ParamValue(DparametersMapOf(old(StateNow()), session), name)
      ensures StateNow() == AfterGetDparameters(old(StateNow()), session)
    {
      var m := GetDparameters();
      v := ParamValue(m, name);
    }

    /** getStructureAlternative for the message: its fallback record, fetching the raw body when the record splits it. */
    method BuildRootAlternative() returns (alt: Option<Structure>)
      modifies this
      ensures alt == AltOf(old(StateNow()), session, fuel)
      ensures StateNow() == AfterAlt(old(StateNow()), session, fuel)
    {
      // The message's part number is 0, so the fallback reads the header fetched for the message.
      var h := ParseHeaders(session.header);
      ghost var st := StateNow();
      assert AltOf(st, session, fuel) == Alternative(h, None, RawBodyOf(st, session), fuel);
      var rootBody := "";
      if fuel > 0 && Messages.NeedsRootBody(h) {
        // The first record that splits the body fetches it; every later one reads the cache.
        rootBody := GetBodyRaw();
      } else {
        AltIgnoresRootBody(h, None, rootBody, RawBodyOf(st, session), fuel);
      }
      alt := BuildAlternative(h, None, rootBody, fuel);
    }

    /** fetchStructureAlternative: replaces the record by the fallback's when their numbers of parts differ. */
    method FetchStructureAlternative() returns (replaced: bool)
      modifies this
      ensures StateNow() == FetchAlternative(old(StateNow()), session, fuel).0
      ensures replaced == FetchAlternative(old(StateNow()), session, fuel).1
    {
      var alt := BuildRootAlternative();
      replaced := ReplaceStructure(alt);
    }

    /** The comparison step of fetchStructureAlternative for the record `alt` the fallback built. */
    method ReplaceStructure(alt: Option<Structure>) returns (replaced: bool)
      modifies this
      ensures (StateNow(), replaced) == Messages.ReplaceStructure(old(StateNow()), alt, session)
    {
      if alt.None? {
        return false;
      }
      var s := GetStructure();
      if CountParts(s.parts) != CountParts(alt.value.parts) {
        structure := alt;
        parameters := None;
        dparameters := None;
        return true;
      }
      return false;
    }

    method GetParts() returns (ps: seq<Part>)
      modifies this
      ensures (StateNow(), ps) == Messages.GetParts(old(StateNow()), session, fuel)
    {
      if parts.Some? {
        return parts.value;
      }
      ghost var st := StateNow();
      parts := Some([]);
      var s := GetStructure();
      ghost var st1 := StateNow();
      assert st1 == PartsStart(st, session);
      if s.parts.Unset? {
        return [];
      }
      var replaced := false;
      if |s.parts.items| < 2 {
        replaced := FetchStructureAlternative();
      }
      ghost var fetched := (StateNow(), replaced);
      assert fetched == if |s.parts.items| < 2 then FetchAlternative(st1, session, fuel) else (st1, false);
      var source := s;
      if replaced {
        // The warning logged here reads the subject.
        var logged := GetSubject();
        source := GetStructure();
      }
      ghost var st3 := StateNow();
      assert st3 == if fetched.1 then AfterGetSubject(fetched.0, session) else fetched.0;
      assert source == if fetched.1 then StructureOf(st3, session) else s;
      var children := BuildParts(ROOT_PARTNO, ItemsOf(source.parts));
      var current := GetStructure();
      structure := Some(current.(parts := Unset));
      parts := Some(children);
      ps := children;
    }

    /** fetchBody's loop over the subparts `ps`, recursing into nested multiparts. */
    method VisitParts(ps: seq<Part>, ghost bound: Structure)
      requires forall i :: 0 <= i < |ps| ==> ps[i].structure < bound
      modifies this
      ensures StateNow() == WithCollected(old(StateNow()), VisitAll(old(CollectedOf(StateNow())), ps, bound))
      decreases bound
    {
      ghost var st0 := StateNow();
      var i := 0;
      while i < |ps|
        invariant 0 <= i <= |ps|
        invariant StateNow() == WithCollected(st0, VisitAll(CollectedOf(st0), ps[..i], bound))
      {
        assert ps[..i + 1][..i] == ps[..i];
        var sub := ps[i];
        if sub.kind == File {
          if IsAttachment(sub) {
            attachments := Some(attachments.GetOr([]) + [sub]);
          } else {
            content := Some(content.GetOr([]) + [sub]);
          }
        } else if TypeOf(sub.structure) == Some(TYPE_TEXT) {
          body := Some(AddEntry(body, GroupKey(sub), PartEntry(sub)));
        } else if TypeOf(sub.structure) == Some(TYPE_MULTIPART) {
          VisitParts(PartChildren(sub), sub.structure);
        }
        i := i + 1;
      }
      assert ps[..i] == ps;
    }

    /** Files the message itself under its lower-cased subtype. */
    method AddRoot()
      modifies this
      ensures StateNow() == FileRoot(AfterGetStructure(old(StateNow()), session), session)
    {
      var subtype := GetSubtype();
      body := Some(AddEntry(body, Lower(subtype.GetOr("")), RootEntry));
    }

    /** fetchBody as written: the type is read once, before getParts. */
    method FetchBody(force: bool)
      modifies this
      ensures StateNow() == FetchBodyAsWritten(old(StateNow()), session, fuel, force)
    {
      if !force && body.Some? {
        return;
      }
      attachments := None;
      content := None;
      var t := GetType();
      if t == Some(TYPE_MULTIPART) {
        ghost var st0 := StateNow();
        var ps := GetParts();
        ghost var got := (StateNow(), ps);
        assert got == Messages.GetParts(st0, session, fuel);
        VisitParts(ps, Enclosing(ps));
      } else {
        AddRoot();
      }
    }

    /** implodeBody on the message itself. */
    method GetRootText() returns (text: string)
      modifies this
      ensures text == RootTextOf(old(StateNow()), session)
      ensures StateNow() == AfterRootText(old(StateNow()), session)
    {
      var charset := GetParameter("charset");
      var data := GetData();
      text := if charset.None? || charset.value == session.serverCharset then data
              else session.codec.convert(data, session.serverCharset, charset.value);
    }

    /** implodeBody on one group: the texts of its entries joined with `glue`. */
    method ImplodeEntries(glue: string, es: seq<Bodies.Entry>) returns (text: string)
      modifies this
      ensures text == Join(glue, EntryTexts(es, RootTextOf(old(StateNow()), session), session))
      ensures StateNow() == if RootEntry in es then AfterRootText(old(StateNow()), session) else old(StateNow())
    {
      ghost var st0 := StateNow();
      ghost var rootText := RootTextOf(st0, session);
      var texts: seq<string> := [];
      var i := 0;
      ghost var seen := false;
      assert es[..0] == [];
      while i < |es|
        invariant 0 <= i <= |es|
        invariant |texts| == i
        invariant texts == EntryTexts(es[..i], rootText, session)
        invariant seen == (RootEntry in es[..i])
        invariant StateNow() == if seen then AfterRootText(st0, session) else st0
      {
        assert es[..i + 1] == es[..i] + [es[i]];
        EntryTextsSnoc(es, i, rootText, session);
        match es[i] {
          case RootEntry =>
            RootTextRead(st0, session, seen, true);
            var t := GetRootText();
            texts := texts + [t];
            seen := true;
          case PartEntry(p) =>
            texts := texts + [TextFrom(PartParameter(p, "charset", session), PartData(p, session), session)];
        }
        i := i + 1;
      }
      assert es[..i] == es;
      assert texts == EntryTexts(es, rootText, session);
      text := Join(glue, texts);
    }

    /** implodeBody on all groups: each group imploded with `glue`, then the results. */
    method ImplodeGroups(glue: string, gs: Groups) returns (text: string)
      modifies this
      ensures text == Join(glue, GroupTexts(glue, gs, RootTextOf(old(StateNow()), session), session))
      ensures StateNow() == if AnyRoot(gs) then AfterRootText(old(StateNow()), session) else old(StateNow())
    {
      ghost var st0 := StateNow();
      ghost var rootText := RootTextOf(st0, session);
      var texts: seq<string> := [];
      var i := 0;
      ghost var seen := false;
      assert gs[..0] == [];
      while i < |gs|
        invariant 0 <= i <= |gs|
        invariant |texts| == i
        invariant texts == GroupTexts(glue, gs[..i], rootText, session)
        invariant seen == AnyRoot(gs[..i])
        invariant StateNow() == if seen then AfterRootText(st0, session) else st0
      {
        assert gs[..i + 1][..i] == gs[..i];
        assert AnyRoot(gs[..i + 1]) == (AnyRoot(gs[..i]) || RootEntry in gs[i].1);
        GroupTextsSnoc(glue, gs, i, rootText, session);
        RootTextRead(st0, session, seen, RootEntry in gs[i].1);
        var t := ImplodeEntries(glue, gs[i].1);
        texts := texts + [t];
        seen := seen || RootEntry in gs[i].1;
        i := i + 1;
      }
      assert gs[..i] == gs;
      assert texts == GroupTexts(glue, gs, rootText, session);
      text := Join(glue, texts);
    }

    /** getBody; the kind of text asked for defaults to "html", as in the source. */
    method GetBody(kind: string := "html") returns (r: Option<string>)
      modifies this
      ensures (StateNow(), r) == Messages.GetBody(old(StateNow()), session, fuel, kind)
    {
      FetchBody(false);
      if body.None? || body.value == [] {
        return None;
      }
      var key := Lower(kind);
      var found := Lookup(body.value, key);
      if found.Some? {
        var t := ImplodeEntries("", found.value);
        return Some(t);
      }
      var all := ImplodeGroups(GLUE, body.value);
      if key == "html" {
        all := Replace(Replace(all, "\r\n", "<br/>"), "\n", "<br/>");
      }
      return Some(all);
    }

    method GetContent() returns (files: seq<Part>)
      modifies this
      ensures (StateNow(), files) == Messages.GetContent(old(StateNow()), session, fuel)
    {
      FetchBody(false);
      files := content.GetOr([]);
    }

    method GetAttachments() returns (files: seq<Part>)
      modifies this
      ensures (StateNow(), files) == Messages.GetAttachments(old(StateNow()), session, fuel)
    {
      FetchBody(false);
      files := attachments.GetOr([]);
    }
  }
}
