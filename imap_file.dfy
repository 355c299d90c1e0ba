/**
 * ImapFile: the metadata of a part that is not read as message text
 * (an attachment, or inline content such as an image).
 */
module ImapFiles {

  import opened Wrappers
  import opened Text
  import opened Structures
  import opened Sessions
  import opened Parts

  /** `$types[type]`: the name of a type constant, or PHP's `null` (the empty string) for any other value. */
  function TypeName(t: Option<int>): (r: string)
    ensures t.Some? && 0 <= t.value < |Types| ==> r == Types[t.value]
    ensures !(t.Some? && 0 <= t.value < |Types|) ==> r == ""
  {
    if t.Some? && 0 <= t.value < |Types| then Types[t.value] else ""
  }

  /** getMimetype: the lower-cased `type/subtype`; an unset subtype is empty. */
  function Mimetype(p: Part): (r: string)
    ensures r == Lower(TypeName(TypeOf(p.structure))) + "/" + Lower(SubtypeOf(p.structure).GetOr(""))
    ensures IsLowerCase(r)
  {
    var typeName := TypeName(TypeOf(p.structure));
    var subtype := SubtypeOf(p.structure).GetOr("");
    LowerAroundSlash(typeName, subtype);
    Lower(typeName + "/" + subtype)
  }

  /** getTitle: the Content-Type `name` parameter. */
  function Title(p: Part, session: Session): Option<string> {
    PartParameter(p, "name", session)
  }

  /**
   * getFilename: the disposition `filename` parameter; failing that, the
   * title, or the current time `now` without one, followed by `.` and the
   * subtype.
   */
  function Filename(p: Part, session: Session, now: nat): (r: string)
    ensures PartDparameter(p, "filename", session).Some? ==> r == PartDparameter(p, "filename", session).value
    ensures PartDparameter(p, "filename", session).None? && Title(p, session).Some? ==>
              r == Title(p, session).value + "." + SubtypeOf(p.structure).GetOr("")
    ensures PartDparameter(p, "filename", session).None? && Title(p, session).None? ==>
              r == NatToString(now) + "." + SubtypeOf(p.structure).GetOr("")
  {
    match PartDparameter(p, "filename", session)
    case Some(filename) => filename
    case None =>
      (match Title(p, session) case Some(title) => title case None => NatToString(now)) + "." + SubtypeOf(p.structure).GetOr("")
  }

  /** getSize: the part's `bytes`. */
  function Size(p: Part): (r: Option<int>)
    ensures r == p.structure.bytes
  {
    BytesOf(p.structure)
  }

  /** getIsAttachment: the disposition is exactly "attachment". */
  function IsAttachment(p: Part): (r: bool)
    ensures r <==> p.structure.ifdisposition != Some(false) && p.structure.disposition == Some("attachment")
  {
    DispositionOf(p.structure) == Some("attachment")
  }

  /** A file named in its Content-Disposition: the decoded value of the last `filename` entry. */
  lemma FilenameFromDisposition(p: Part, session: Session, now: nat, ps: seq<Param>, raw: string)
    requires DparametersOf(p.structure) == Some(ps)
    requires LastWithAttribute(ps, "filename").Some? && LastWithAttribute(ps, "filename").value.value == Some(raw)
    ensures Filename(p, session, now) == DecodedWords(session.codec.mimeWords(raw), session.serverCharset, session.codec)
  {
    ParameterLookup(ps, "filename", session);
  }

  /**
   * A file without a `filename` disposition parameter but with a Content-Type
   * `name` entry: the decoded name, `.`, the subtype.
   */
  lemma FilenameFromTitle(p: Part, session: Session, now: nat, ps: seq<Param>, raw: string)
    requires DparametersOf(p.structure).None?
    requires ParametersOf(p.structure) == Some(ps)
    requires LastWithAttribute(ps, "name").Some? && LastWithAttribute(ps, "name").value.value == Some(raw)
    ensures Filename(p, session, now) ==
            DecodedWords(session.codec.mimeWords(raw), session.serverCharset, session.codec) + "." + SubtypeOf(p.structure).GetOr("")
  {
    ParameterLookup(ps, "name", session);
    assert ParamsOf(None, session.serverCharset, session.codec) == [];
  }

  /** A file with no parameter lists at all is named after the clock. */
  lemma FilenameFromClock(p: Part, session: Session, now: nat)
    requires DparametersOf(p.structure).None? && ParametersOf(p.structure).None?
    ensures Filename(p, session, now) == NatToString(now) + "." + SubtypeOf(p.structure).GetOr("")
  {
    assert ParamsOf(None, session.serverCharset, session.codec) == [];
  }
}
