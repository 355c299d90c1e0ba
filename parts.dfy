/**
 * The child parts MessagePart::getParts builds from a structure record:
 * their part numbers, their class (a nested MessagePart or an ImapFile),
 * and what a child part reads through its own caches (its raw body, its
 * data, its parameters). A child part is a value: its caches only memoise
 * values fixed by its record and the session.
 */
module Parts {

  import opened Wrappers
  import opened Text
  import opened Assoc
  import opened Encoding
  import opened Headers
  import opened Structures
  import opened Sessions

  /** The PHP class of a part: a nested MessagePart or an ImapFile. */
  datatype Kind = Node | File

  datatype Part = Part(kind: Kind, partno: string, structure: Structure)

  /** The message itself has part number 0, which is falsy. */
  const ROOT_PARTNO := "0"

  /** The number of child `i` (0-based): `i+1`, after `partno.` when the parent's number is truthy. */
  function ChildNumber(parent: string, i: nat): (r: string)
    ensures Truthy(r)
    ensures !Truthy(parent) ==> r == NatToString(i + 1)
    ensures Truthy(parent) ==> r == parent + "." + NatToString(i + 1)
  {
    var own := NatToString(i + 1);
    var r := (if Truthy(parent) then parent + "." else "") + own;
    assert r[|r| - |own|] == own[0] != '0';
    r
  }

  /** Sibling part numbers are all different. */
  lemma ChildNumbersDistinct(parent: string, i: nat, j: nat)
    requires i != j
    ensures ChildNumber(parent, i) != ChildNumber(parent, j)
  {
    var prefix := if Truthy(parent) then parent + "." else "";
    var a, b := NatToString(i + 1), NatToString(j + 1);
    if a == b {
      NatToStringInjective(i + 1, j + 1);
      assert false;
    }
    PrefixCancels(prefix, a, b);
  }

  lemma PrefixCancels(prefix: string, a: string, b: string)
    requires a != b
    ensures prefix + a != prefix + b
  {
    assert (prefix + a)[|prefix|..] == a;
    assert (prefix + b)[|prefix|..] == b;
  }

  /** A child is a nested MessagePart iff it is multipart, or text whose disposition is not exactly "attachment". */
  predicate IsNode(s: Structure) {
    TypeOf(s) == Some(TYPE_MULTIPART) || (TypeOf(s) == Some(TYPE_TEXT) && DispositionOf(s) != Some("attachment"))
  }

  function Classify(parent: string, i: nat, s: Structure): Part {
    Part(if IsNode(s) then Node else File, ChildNumber(parent, i), s)
  }

  /** The children getParts builds from the records `structs`, in order. */
  function ChildParts(parent: string, structs: seq<Structure>): (r: seq<Part>)
    ensures |r| == |structs|
    ensures forall i :: 0 <= i < |r| ==> r[i] == Classify(parent, i, structs[i])
  {
    if structs == [] then []
    else
      var n := |structs| - 1;
      ChildParts(parent, structs[..n]) + [Classify(parent, n, structs[n])]
  }

  /** The loop of getParts over the records of the children. */
  method BuildParts(parent: string, structs: seq<Structure>) returns (parts: seq<Part>)
    ensures parts == ChildParts(parent, structs)
  {
    parts := [];
    var i := 0;
    while i < |structs|
      invariant 0 <= i <= |structs|
      invariant parts == ChildParts(parent, structs[..i])
    {
      assert structs[..i + 1][..i] == structs[..i];
      parts := parts + [Classify(parent, i, structs[i])];
      i := i + 1;
    }
    assert structs[..i] == structs;
  }

  /**
   * getStructureAlternative as fetchStructureAlternative calls it: always
   * without a header, so it reads the session's header for the message
   * itself and gives nothing for any other part.
   */
  function AlternativeAt(partno: string, session: Session, rootBody: string, fuel: nat): (r: Option<Structure>)
    ensures Truthy(partno) ==> r.None?
    ensures r.Some? ==> r.value.parts.Parts? && r.value.body.None?
    ensures r.Some? && r.value.primaryType != Some(TYPE_MULTIPART) ==> r.value.parts == Parts([])
  {
    AltShape(HeadersOf(session.header), None, rootBody, fuel);
    if Truthy(partno) then None else StructureAlternative(session.header, None, rootBody, fuel)
  }

  /** The fallback never applies to a child part: child numbers are truthy. */
  lemma ChildHasNoAlternative(parent: string, i: nat, session: Session, rootBody: string, fuel: nat)
    ensures AlternativeAt(ChildNumber(parent, i), session, rootBody, fuel).None?
  {
  }

  /**
   * getParts of a child part. Its fallback never applies, so the children
   * are those of its own record, numbered under its own number.
   */
  function PartChildren(p: Part): (r: seq<Part>)
    ensures forall i :: 0 <= i < |r| ==> r[i].structure < p.structure
  {
    match p.structure.parts
    case Unset => []
    case Parts(items) =>
      assert forall i :: 0 <= i < |items| ==> items[i] in items;
      ChildParts(p.partno, items)
  }

  /** getBodyRAW of a child part: the body stashed in its record by the fallback, else the session's. */
  function PartBodyRaw(p: Part, session: Session): (r: string)
    ensures p.structure.body.Some? ==> r == p.structure.body.value
    ensures p.structure.body.None? ==> r == session.partBody(p.partno)
  {
    match p.structure.body
    case Some(stashed) => stashed
    case None => session.partBody(p.partno)
  }

  /** getData of a child part: its raw body decoded as its transfer encoding says. */
  function PartData(p: Part, session: Session): string {
    DecodeData(PartBodyRaw(p, session), EncodingOf(p.structure), session.codec)
  }

  /** getParameters(name) of a child part. */
  function PartParameter(p: Part, name: string, session: Session): Option<string> {
    ParamValue(ParamsOf(ParametersOf(p.structure), session.serverCharset, session.codec), name)
  }

  /** getDparameters(name) of a child part. */
  function PartDparameter(p: Part, name: string, session: Session): Option<string> {
    ParamValue(ParamsOf(DparametersOf(p.structure), session.serverCharset, session.codec), name)
  }

  /**
   * A part parameter is the decoded value of the last entry with that
   * attribute, and is absent when no entry has it or that entry has no value.
   */
  lemma ParameterLookup(ps: seq<Param>, name: string, session: Session)
    ensures var v := ParamValue(ParamsOf(Some(ps), session.serverCharset, session.codec), name);
            match LastWithAttribute(ps, name)
            case None => v.None?
            case Some(p) =>
              match p.value
              case None => v.None?
              case Some(raw) => v == Some(DecodedWords(session.codec.mimeWords(raw), session.serverCharset, session.codec))
  {
    ParamsFromLookup(ps, session.serverCharset, session.codec, name);
  }
}
