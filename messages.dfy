/**
 * The caches of an ImapMessage as one value, and what each of its lazy
 * operations does to them. The ImapMessage class keeps these caches in its
 * fields; its methods are proved against the functions here, and the
 * lemmas here state what the source's memoisation promises.
 */
module Messages {

  import opened Wrappers
  import opened Text
  import opened Assoc
  import opened Encoding
  import opened Headers
  import opened Structures
  import opened Sessions
  import opened Parts
  import opened Bodies

  /** `_structure`, `_parts`, `_parameters`, `_dparameters`, `_bodyRAW`, `_subject`, `_body`, `_attachments`, `_content`. */
  datatype State = State(
    structure: Option<Structure>,
    parts: Option<seq<Part>>,
    parameters: Option<ParamMap>,
    dparameters: Option<ParamMap>,
    bodyRaw: Option<string>,
    subject: Option<string>,
    body: Option<Groups>,
    attachments: Option<seq<Part>>,
    content: Option<seq<Part>>)

  /** A message just constructed from a uid: nothing fetched yet. */
  const Fresh := State(None, None, None, None, None, None, None, None, None)

  // ---------------------------------------------------------------- getStructure

  function StructureOf(st: State, session: Session): Structure {
    st.structure.GetOr(session.structure)
  }

  /** getStructure fetches the record once and keeps it. */
  function AfterGetStructure(st: State, session: Session): (r: State)
    ensures r == st.(structure := Some(StructureOf(st, session)))
    ensures StructureOf(r, session) == StructureOf(st, session)
    ensures st.structure.Some? ==> r == st
  {
    st.(structure := Some(StructureOf(st, session)))
  }

  // ---------------------------------------------------------------- getBodyRAW

  /** The raw body: cached, else stashed in the record by the fallback, else fetched for the whole message. */
  function RawBodyOf(st: State, session: Session): string {
    if st.bodyRaw.Some? then st.bodyRaw.value
    else if st.structure.Some? && st.structure.value.body.Some? then st.structure.value.body.value
    else session.body
  }

  /** getBodyRAW caches the raw body and, when it takes it from the record, removes it there. */
  function AfterGetBodyRaw(st: State, session: Session): (r: State)
    ensures r.bodyRaw == Some(RawBodyOf(st, session))
    ensures RawBodyOf(r, session) == RawBodyOf(st, session)
    ensures r.structure.Some? <==> st.structure.Some?
    ensures st.structure.Some? ==> r.structure.value == st.structure.value.(body := r.structure.value.body)
    ensures r == st.(bodyRaw := r.bodyRaw, structure := r.structure)
    ensures st.bodyRaw.Some? ==> r == st
  {
    if st.bodyRaw.Some? then st
    else if st.structure.Some? && st.structure.value.body.Some? then
      st.(bodyRaw := st.structure.value.body, structure := Some(st.structure.value.(body := None)))
    else st.(bodyRaw := Some(session.body))
  }

  // ---------------------------------------------------------------- getSubject

  function SubjectOf(st: State, session: Session): string {
    st.subject.GetOr(DecodedWords(session.codec.mimeWords(session.subject.GetOr("")), session.serverCharset, session.codec))
  }

  /** getSubject decodes the subject once: a cached subject is kept, and the subject read afterwards is the one read first. */
  function AfterGetSubject(st: State, session: Session): (r: State)
    ensures r.subject.Some?
    ensures SubjectOf(r, session) == SubjectOf(st, session)
    ensures st.subject.Some? ==> r == st
    ensures r == st.(subject := r.subject)
  {
    st.(subject := Some(SubjectOf(st, session)))
  }

  // ---------------------------------------------------------------- getParameters, getDparameters

  function ParametersMapOf(st: State, session: Session): ParamMap {
    st.parameters.GetOr(ParamsOf(ParametersOf(StructureOf(st, session)), session.serverCharset, session.codec))
  }

  function AfterGetParameters(st: State, session: Session): (r: State)
    ensures r.parameters == Some(ParametersMapOf(st, session))
    ensures st.parameters.Some? ==> r == st
    ensures st.parameters.None? ==> r == AfterGetStructure(st, session).(parameters := r.parameters)
  {
    if st.parameters.Some? then st
    else AfterGetStructure(st, session).(parameters := Some(ParametersMapOf(st, session)))
  }

  function DparametersMapOf(st: State, session: Session): ParamMap {
    st.dparameters.GetOr(ParamsOf(DparametersOf(StructureOf(st, session)), session.serverCharset, session.codec))
  }

  function AfterGetDparameters(st: State, session: Session): (r: State)
    ensures r.dparameters == Some(DparametersMapOf(st, session))
    ensures st.dparameters.Some? ==> r == st
    ensures st.dparameters.None? ==> r == AfterGetStructure(st, session).(dparameters := r.dparameters)
  {
    if st.dparameters.Some? then st
    else AfterGetStructure(st, session).(dparameters := Some(DparametersMapOf(st, session)))
  }

  /** The parameter maps are computed once: the value read later is the value read first. */
  lemma ParametersCached(st: State, session: Session)
    ensures ParametersMapOf(AfterGetParameters(st, session), session) == ParametersMapOf(st, session)
    ensures AfterGetParameters(AfterGetParameters(st, session), session) == AfterGetParameters(st, session)
    ensures DparametersMapOf(AfterGetDparameters(st, session), session) == DparametersMapOf(st, session)
    ensures AfterGetDparameters(AfterGetDparameters(st, session), session) == AfterGetDparameters(st, session)
  {
  }

  // ---------------------------------------------------------------- fetchStructureAlternative

  /** Whether the fallback for these headers reads the message's raw body: multipart with a truthy boundary. */
  predicate NeedsRootBody(h: HeaderMap) {
    HeaderRecord(h).primaryType == Some(TYPE_MULTIPART) && BoundaryOf(h).Some? && Truthy(BoundaryOf(h).value)
  }

  /** The record the fallback builds for the message, from its header and its raw body. */
  function AltOf(st: State, session: Session, fuel: nat): Option<Structure> {
    AlternativeAt(ROOT_PARTNO, session, RawBodyOf(st, session), fuel)
  }

  /** Building the fallback record fetches the raw body when it splits it. */
  function AfterAlt(st: State, session: Session, fuel: nat): State {
    if fuel > 0 && NeedsRootBody(HeadersOf(session.header)) then AfterGetBodyRaw(st, session) else st
  }

  /** `count` of a parts list; an unset list counts 0. */
  function CountParts(pl: PartList): (r: nat)
    ensures pl.Parts? ==> r == |pl.items|
    ensures pl.Unset? ==> r == 0
  {
    match pl
    case Unset => 0
    case Parts(items) => |items|
  }

  /** The fallback replaces the record iff it built one whose number of parts differs from the record's. */
  function FetchAlternative(st: State, session: Session, fuel: nat): (r: (State, bool))
    ensures var alt := AltOf(st, session, fuel);
            r.1 <==> alt.Some? && CountParts(StructureOf(st, session).parts) != CountParts(alt.value.parts)
    ensures r.1 ==> r.0 == AfterAlt(st, session, fuel).(structure := AltOf(st, session, fuel), parameters := None, dparameters := None)
    ensures !r.1 && AltOf(st, session, fuel).Some? ==> r.0 == AfterGetStructure(AfterAlt(st, session, fuel), session)
    ensures AltOf(st, session, fuel).None? ==> r.0 == AfterAlt(st, session, fuel)
  {
    var st1 := AfterAlt(st, session, fuel);
    assert StructureOf(st1, session).parts == StructureOf(st, session).parts;
    ReplaceStructure(st1, AltOf(st, session, fuel), session)
  }

  /**
   * The comparison step of fetchStructureAlternative, given the record `alt`
   * the fallback built: the record is replaced, and both parameter caches
   * dropped, exactly when their numbers of parts differ.
   */
  function ReplaceStructure(st: State, alt: Option<Structure>, session: Session): (r: (State, bool))
    ensures r.1 <==> alt.Some? && CountParts(StructureOf(st, session).parts) != CountParts(alt.value.parts)
    ensures r.1 ==> r.0 == st.(structure := alt, parameters := None, dparameters := None)
    ensures !r.1 && alt.Some? ==> r.0 == AfterGetStructure(st, session)
    ensures alt.None? ==> r.0 == st
  {
    if alt.None? then (st, false)
    else
      var st2 := AfterGetStructure(st, session);
      if CountParts(StructureOf(st2, session).parts) != CountParts(alt.value.parts) then
        (st2.(structure := alt, parameters := None, dparameters := None), true)
      else (st2, false)
  }

  // ---------------------------------------------------------------- getParts

  function ItemsOf(pl: PartList): seq<Structure> {
    match pl
    case Unset => []
    case Parts(items) => items
  }

  /**
   * getParts: once per message. A record without a parts list gives no
   * parts. A list of fewer than two parts is checked against the fallback;
   * if the fallback replaces the record (logging a warning that reads the
   * subject), its children are used. The list is cleared from the record.
   */
  function GetParts(st: State, session: Session, fuel: nat): (r: (State, seq<Part>))
    ensures r.0.parts == Some(r.1)
    ensures r.0.body == st.body && r.0.attachments == st.attachments && r.0.content == st.content
    ensures st.structure.Some? ==> r.0.structure.Some?
  {
    if st.parts.Some? then (st, st.parts.value)
    else
      var st1 := AfterGetStructure(st.(parts := Some([])), session);
      var s := StructureOf(st1, session);
      if s.parts.Unset? then (st1, [])
      else
        var fetched := if |s.parts.items| < 2 then FetchAlternative(st1, session, fuel) else (st1, false);
        var st3 := if fetched.1 then AfterGetSubject(fetched.0, session) else fetched.0;
        var source := if fetched.1 then StructureOf(st3, session) else s;
        var children := ChildParts(ROOT_PARTNO, ItemsOf(source.parts));
        (st3.(parts := Some(children), structure := Some(StructureOf(st3, session).(parts := Unset))), children)
  }

  /** The state getParts starts from once it has marked the parts as fetched and read the record. */
  function PartsStart(st: State, session: Session): (r: State)
    ensures StructureOf(r, session) == StructureOf(st, session)
  {
    AfterGetStructure(st.(parts := Some([])), session)
  }

  /** The fallback record getParts would consider now. */
  function FallbackOf(st: State, session: Session, fuel: nat): Option<Structure> {
    AltOf(PartsStart(st, session), session, fuel)
  }

  /** Whether getParts, run now, replaces the record by the fallback. */
  predicate FallbackReplaces(st: State, session: Session, fuel: nat) {
    var s := StructureOf(st, session);
    st.parts.None? && s.parts.Parts? && |s.parts.items| < 2 &&
    FetchAlternative(PartsStart(st, session), session, fuel).1
  }

  /** getParts is memoised: the second call changes nothing and gives the same parts. */
  lemma GetPartsCached(st: State, session: Session, fuel: nat)
    ensures var first := GetParts(st, session, fuel);
            first.0.parts == Some(first.1) && GetParts(first.0, session, fuel) == first
  {
  }

  /** A multipart record with two or more parts (or one the fallback keeps) gives its own children, numbered from 1. */
  lemma GetPartsNative(st: State, session: Session, fuel: nat)
    requires st.parts.None? && StructureOf(st, session).parts.Parts?
    requires !FallbackReplaces(st, session, fuel)
    ensures var r := GetParts(st, session, fuel);
            r.1 == ChildParts(ROOT_PARTNO, StructureOf(st, session).parts.items) &&
            r.0.structure.Some? && r.0.structure.value.parts.Unset? &&
            r.0.parameters == st.parameters && r.0.dparameters == st.dparameters
  {
    var st1 := PartsStart(st, session);
    var s := StructureOf(st1, session);
    var fetched := if |s.parts.items| < 2 then FetchAlternative(st1, session, fuel) else (st1, false);
    assert !fetched.1;
    assert fetched.0.parameters == st.parameters && fetched.0.dparameters == st.dparameters;
  }

  /** When the fallback replaces the record, the parts are its children, the parameter caches are dropped and the subject is read. */
  lemma GetPartsFallback(st: State, session: Session, fuel: nat)
    requires FallbackReplaces(st, session, fuel)
    ensures var alt := FallbackOf(st, session, fuel);
            var r := GetParts(st, session, fuel);
            alt.Some? &&
            r.1 == ChildParts(ROOT_PARTNO, alt.value.parts.items) &&
            r.0.structure == Some(alt.value.(parts := Unset)) &&
            r.0.parameters.None? && r.0.dparameters.None? && r.0.subject.Some?
  {
    var st1 := PartsStart(st, session);
    var fetched := FetchAlternative(st1, session, fuel);
    assert fetched.1;
    assert fetched.0.structure == FallbackOf(st, session, fuel);
  }

  /** The fallback only replaces a record whose list has fewer than two parts, and only with a different count. */
  lemma FallbackNeedsFewParts(st: State, session: Session, fuel: nat)
    requires FallbackReplaces(st, session, fuel)
    ensures |StructureOf(st, session).parts.items| < 2
    ensures FallbackOf(st, session, fuel).Some?
    ensures CountParts(FallbackOf(st, session, fuel).value.parts) != |StructureOf(st, session).parts.items|
  {
    assert FetchAlternative(PartsStart(st, session), session, fuel).1;
  }

  /** A record without a parts list gives no parts and stays as it was. */
  lemma GetPartsWithoutList(st: State, session: Session, fuel: nat)
    requires st.parts.None? && StructureOf(st, session).parts.Unset?
    ensures GetParts(st, session, fuel) == (st.(parts := Some([]), structure := Some(StructureOf(st, session))), [])
  {
  }

  // ---------------------------------------------------------------- the message's own text

  /** getData of the message: its raw body decoded as its record's transfer encoding says. */
  function RootDataOf(st: State, session: Session): string {
    var st1 := AfterGetBodyRaw(st, session);
    DecodeData(RawBodyOf(st, session), EncodingOf(StructureOf(st1, session)), session.codec)
  }

  /** implodeBody on the message itself: the charset parameter is read first, then the data. */
  function RootTextOf(st: State, session: Session): string {
    var st1 := AfterGetParameters(st, session);
    TextFrom(ParamValue(ParametersMapOf(st, session), "charset"), RootDataOf(st1, session), session)
  }

  function AfterRootText(st: State, session: Session): State {
    AfterGetStructure(AfterGetBodyRaw(AfterGetParameters(st, session), session), session)
  }

  /** The message's text is read once: reading it again changes nothing and gives the same text. */
  lemma RootTextStable(st: State, session: Session)
    ensures AfterRootText(AfterRootText(st, session), session) == AfterRootText(st, session)
    ensures RootTextOf(AfterRootText(st, session), session) == RootTextOf(st, session)
  {
    var st1 := AfterGetParameters(st, session);
    var st2 := AfterGetBodyRaw(st1, session);
    var st3 := AfterGetStructure(st2, session);
    assert st3.parameters.Some? && st3.bodyRaw.Some? && st3.structure.Some?;
    assert AfterGetParameters(st3, session) == st3;
    assert AfterGetBodyRaw(st3, session) == st3;
    assert ParametersMapOf(st3, session) == ParametersMapOf(st, session);
    assert RawBodyOf(st3, session) == RawBodyOf(st1, session);
    assert StructureOf(st3, session) == StructureOf(st2, session);
  }

  /**
   * Reading the message's text at some step of a loop: the text is the one
   * read first, and the state is the one after the first read once any step
   * has read it.
   */
  lemma RootTextRead(st: State, session: Session, seen: bool, read: bool)
    ensures var before := if seen then AfterRootText(st, session) else st;
            RootTextOf(before, session) == RootTextOf(st, session) &&
            (if read then AfterRootText(before, session) else before) ==
            (if seen || read then AfterRootText(st, session) else st)
  {
    RootTextStable(st, session);
  }

  // ---------------------------------------------------------------- fetchBody

  /** The state of the walk's lists in a state. */
  function CollectedOf(st: State): Collected {
    Collected(st.body, st.attachments, st.content)
  }

  function WithCollected(st: State, c: Collected): State {
    st.(body := c.body, attachments := c.attachments, content := c.content)
  }

  /** fetchBody's first steps: the two file lists are dropped and the record is read. */
  function BodyStart(st: State, session: Session): State {
    AfterGetStructure(st.(attachments := None, content := None), session)
  }

  /** Files the message itself under its record's lower-cased subtype. */
  function FileRoot(st: State, session: Session): State {
    st.(body := Some(AddEntry(st.body, Lower(SubtypeOf(StructureOf(st, session)).GetOr("")), RootEntry)))
  }

  /** Walks the parts getParts gives and fills the lists from them. */
  function WalkParts(got: (State, seq<Part>)): State {
    WithCollected(got.0, Walk(CollectedOf(got.0), got.1))
  }

  /**
   * fetchBody on the message as written. Without `force` it runs only while
   * `_body` is unset. It drops the two file lists (but not `_body`), reads
   * the type of the record, and then either walks the parts (read through
   * getParts, which may replace the record) or files the message itself
   * under its lower-cased subtype.
   */
  function FetchBodyAsWritten(st: State, session: Session, fuel: nat, force: bool): State {
    if !force && st.body.Some? then st
    else
      var st0 := BodyStart(st, session);
      if TypeOf(StructureOf(st0, session)) == Some(TYPE_MULTIPART) then WalkParts(GetParts(st0, session, fuel))
      else FileRoot(st0, session)
  }

  /**
   * As written, fetchBody can give a different result on its second run: when
   * getParts replaces a multipart record of one part by a record that is not
   * multipart, the first run walks no parts and leaves `_body` unset; the
   * second reads the replaced record and files the message itself.
   */
  lemma FetchBodyAsWrittenNotIdempotent(session: Session, fuel: nat)
    requires TypeOf(session.structure) == Some(TYPE_MULTIPART)
    requires FallbackReplaces(Fresh, session, fuel)
    requires TypeOf(FallbackOf(Fresh, session, fuel).value) != Some(TYPE_MULTIPART)
    ensures FetchBodyAsWritten(Fresh, session, fuel, false).body.None?
    ensures FetchBodyAsWritten(FetchBodyAsWritten(Fresh, session, fuel, false), session, fuel, false).body.Some?
  {
    var st0 := BodyStart(Fresh, session);
    assert PartsStart(st0, session) == PartsStart(Fresh, session);
    GetPartsFallback(st0, session, fuel);
    var got := GetParts(st0, session, fuel);
    var alt := FallbackOf(Fresh, session, fuel).value;
    assert alt.parts == Parts([]);
    assert got.1 == [];
    var first := WalkParts(got);
    assert first == got.0;
    assert StructureOf(BodyStart(first, session), session) == alt.(parts := Unset);
  }

  /**
   * fetchBody as evidently intended: a multipart message whose record
   * getParts replaces by one that is not multipart is filed as a single part
   * on the first run already, by reading the type again after getParts.
   */
  function FetchBody(st: State, session: Session, fuel: nat, force: bool): State {
    if !force && st.body.Some? then st
    else
      var st0 := BodyStart(st, session);
      if TypeOf(StructureOf(st0, session)) == Some(TYPE_MULTIPART) then
        var got := GetParts(st0, session, fuel);
        if TypeOf(StructureOf(got.0, session)) == Some(TYPE_MULTIPART) then WalkParts(got)
        else FileRoot(got.0, session)
      else FileRoot(st0, session)
  }

  /** fetchBody gives the same result however often it runs: a second run changes nothing. */
  lemma FetchBodyIdempotent(st: State, session: Session, fuel: nat)
    ensures FetchBody(FetchBody(st, session, fuel, false), session, fuel, false) == FetchBody(st, session, fuel, false)
  {
    var first := FetchBody(st, session, fuel, false);
    if st.body.None? && first.body.None? {
      var st0 := BodyStart(st, session);
      var got := GetParts(st0, session, fuel);
      assert TypeOf(StructureOf(st0, session)) == Some(TYPE_MULTIPART);
      assert TypeOf(StructureOf(got.0, session)) == Some(TYPE_MULTIPART);
      assert first == WalkParts(got);
      var again := BodyStart(first, session);
      assert again == got.0.(attachments := None, content := None);
      assert GetParts(again, session, fuel) == (again, got.1);
      assert CollectedOf(again) == CollectedOf(got.0);
    }
  }

  /** The two agree whenever getParts keeps a multipart record multipart, or the record is not multipart. */
  lemma FetchBodyAgrees(st: State, session: Session, fuel: nat, force: bool)
    requires TypeOf(StructureOf(st, session)) == Some(TYPE_MULTIPART) ==>
               TypeOf(StructureOf(GetParts(BodyStart(st, session), session, fuel).0, session)) == Some(TYPE_MULTIPART)
    ensures FetchBody(st, session, fuel, force) == FetchBodyAsWritten(st, session, fuel, force)
  {
  }

  /** Once `_body` is set, fetchBody without `force` does nothing, as written and as intended. */
  lemma FetchBodyCached(st: State, session: Session, fuel: nat)
    requires st.body.Some?
    ensures FetchBodyAsWritten(st, session, fuel, false) == st
    ensures FetchBody(st, session, fuel, false) == st
  {
  }

  /** The message's parts as fetchBody reads them, and the record after reading them. */
  function RootParts(st: State, session: Session, fuel: nat): seq<Part> {
    GetParts(BodyStart(st, session), session, fuel).1
  }

  function RecordAfterParts(st: State, session: Session, fuel: nat): Structure {
    StructureOf(GetParts(BodyStart(st, session), session, fuel).0, session)
  }

  /** Every part the walk over the message's parts reaches, depth first. */
  function RootReached(st: State, session: Session, fuel: nat): seq<Part> {
    var ps := RootParts(st, session, fuel);
    ReachedAll(ps, Enclosing(ps))
  }

  /**
   * On a multipart message whose record stays multipart through getParts,
   * the two file lists hold exactly the files reached whose disposition is,
   * or is not, "attachment", and each group gains exactly the text parts
   * reached with its subtype, in order.
   */
  lemma FetchBodyMultipart(st: State, session: Session, fuel: nat, force: bool)
    requires force || st.body.None?
    requires TypeOf(StructureOf(st, session)) == Some(TYPE_MULTIPART)
    requires TypeOf(RecordAfterParts(st, session, fuel)) == Some(TYPE_MULTIPART)
    ensures var after := FetchBodyAsWritten(st, session, fuel, force);
            var reached := RootReached(st, session, fuel);
            after.attachments.GetOr([]) == Filter(reached, IsAttachedFile) &&
            after.content.GetOr([]) == Filter(reached, IsContentFile) &&
            (forall key :: Lookup(after.body.GetOr([]), key).GetOr([]) ==
                           Lookup(st.body.GetOr([]), key).GetOr([]) + Entries(Filter(reached, IsTextUnder(key)))) &&
            (after.body.None? <==> st.body.None? && Filter(reached, IsText) == [])
  {
    var got := GetParts(BodyStart(st, session), session, fuel);
    VisitAllMeetsSpec(CollectedOf(got.0), got.1, Enclosing(got.1));
  }

  /**
   * A message that is not multipart is filed under its record's lower-cased
   * subtype and has no files; when `_body` was unset, it is the only entry.
   */
  lemma FetchBodySinglePart(st: State, session: Session, fuel: nat, force: bool)
    requires force || st.body.None?
    requires TypeOf(StructureOf(st, session)) != Some(TYPE_MULTIPART)
    ensures var after := FetchBodyAsWritten(st, session, fuel, force);
            var key := Lower(SubtypeOf(StructureOf(st, session)).GetOr(""));
            after.attachments.None? && after.content.None? &&
            Lookup(after.body.GetOr([]), key) == Some(Lookup(st.body.GetOr([]), key).GetOr([]) + [RootEntry]) &&
            (forall k :: k != key ==> Lookup(after.body.GetOr([]), k) == Lookup(st.body.GetOr([]), k)) &&
            (st.body.None? ==> after.body == Some([(key, [RootEntry])]))
  {
  }

  /**
   * As written, a multipart message whose record getParts replaces by one
   * that is not multipart walks no parts: `_body` is left as it was and
   * both file lists are unset.
   */
  lemma FetchBodyReplaced(st: State, session: Session, fuel: nat, force: bool)
    requires force || st.body.None?
    requires TypeOf(StructureOf(st, session)) == Some(TYPE_MULTIPART)
    requires TypeOf(RecordAfterParts(st, session, fuel)) != Some(TYPE_MULTIPART)
    ensures var after := FetchBodyAsWritten(st, session, fuel, force);
            after.body == st.body && after.attachments.None? && after.content.None?
  {
    var st0 := BodyStart(st, session);
    ReplacedHasNoParts(st0, session, fuel);
    var got := GetParts(st0, session, fuel);
    assert WalkParts(got) == got.0;
  }

  /** When getParts changes a multipart record's type, the fallback replaced it by a record without parts. */
  lemma ReplacedHasNoParts(st: State, session: Session, fuel: nat)
    requires TypeOf(StructureOf(st, session)) == Some(TYPE_MULTIPART)
    requires TypeOf(StructureOf(GetParts(st, session, fuel).0, session)) != Some(TYPE_MULTIPART)
    ensures GetParts(st, session, fuel).1 == []
  {
    if st.parts.None? && StructureOf(st, session).parts.Parts? {
      if FallbackReplaces(st, session, fuel) {
        GetPartsFallback(st, session, fuel);
        var alt := FallbackOf(st, session, fuel).value;
        AltShape(HeadersOf(session.header), None, RawBodyOf(PartsStart(st, session), session), fuel);
        assert alt.parts == Parts([]);
      } else {
        GetPartsNative(st, session, fuel);
        assert false;
      }
    } else if st.parts.Some? {
      assert false;
    }
  }

  /**
   * fetchBody as intended files such a message under its replaced record's
   * lower-cased subtype on the first run already.
   */
  lemma FetchBodyReplacedIntended(st: State, session: Session, fuel: nat, force: bool)
    requires force || st.body.None?
    requires TypeOf(StructureOf(st, session)) == Some(TYPE_MULTIPART)
    requires TypeOf(RecordAfterParts(st, session, fuel)) != Some(TYPE_MULTIPART)
    ensures var after := FetchBody(st, session, fuel, force);
            var key := Lower(SubtypeOf(RecordAfterParts(st, session, fuel)).GetOr(""));
            after.attachments.None? && after.content.None? &&
            Lookup(after.body.GetOr([]), key) == Some(Lookup(st.body.GetOr([]), key).GetOr([]) + [RootEntry])
  {
  }

  // ---------------------------------------------------------------- getBody, getContent, getAttachments

  /** getBody(kind): fetchBody, then the rendering of the groups; the message's text is read only if it is rendered. */
  function GetBody(st: State, session: Session, fuel: nat, kind: string): (State, Option<string>) {
    var st1 := FetchBodyAsWritten(st, session, fuel, false);
    var text := Render(st1.body, kind, RootTextOf(st1, session), session);
    (if RendersRoot(st1.body, kind) then AfterRootText(st1, session) else st1, text)
  }

  function GetContent(st: State, session: Session, fuel: nat): (State, seq<Part>) {
    var st1 := FetchBodyAsWritten(st, session, fuel, false);
    (st1, st1.content.GetOr([]))
  }

  function GetAttachments(st: State, session: Session, fuel: nat): (State, seq<Part>) {
    var st1 := FetchBodyAsWritten(st, session, fuel, false);
    (st1, st1.attachments.GetOr([]))
  }

  /** getBody gives `null` exactly when fetchBody left no group. */
  lemma GetBodyNothing(st: State, session: Session, fuel: nat, kind: string)
    ensures var body := FetchBodyAsWritten(st, session, fuel, false).body;
            GetBody(st, session, fuel, kind).1.None? <==> body.None? || body.value == []
  {
  }

  /** getAttachments and getContent of a multipart message split the files reached by their disposition. */
  lemma AttachmentsAndContent(st: State, session: Session, fuel: nat)
    requires st.body.None? && TypeOf(StructureOf(st, session)) == Some(TYPE_MULTIPART)
    requires TypeOf(RecordAfterParts(st, session, fuel)) == Some(TYPE_MULTIPART)
    ensures var reached := RootReached(st, session, fuel);
            GetAttachments(st, session, fuel).1 == Filter(reached, IsAttachedFile) &&
            GetContent(st, session, fuel).1 == Filter(reached, IsContentFile) &&
            multiset(GetAttachments(st, session, fuel).1) + multiset(GetContent(st, session, fuel).1) ==
              multiset(Filter(reached, IsFile))
  {
    FetchBodyMultipart(st, session, fuel, false);
    FilesSplit(RootReached(st, session, fuel));
  }
}
