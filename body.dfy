/**
 * ImapMessage::fetchBody's walk over the part tree and getBody's rendering
 * (with implodeBody): text parts are grouped by lower-cased subtype,
 * ImapFile parts are routed to the attachment or the content list, and the
 * groups are joined into one text.
 */
module Bodies {

  import opened Wrappers
  import opened Text
  import opened Assoc
  import opened Encoding
  import opened Structures
  import opened Sessions
  import opened Parts
  import opened ImapFiles

  /** An entry of a text group: the message itself or one of its parts. */
  datatype Entry = RootEntry | PartEntry(part: Part)

  /** `_body`: lower-cased subtype to the entries found with it, in first-insertion order. */
  type Groups = seq<(string, seq<Entry>)>

  /** The fields fetchBody fills: `_body`, `_attachments` and `_content` (each `null` until first appended to). */
  datatype Collected = Collected(body: Option<Groups>, attachments: Option<seq<Part>>, content: Option<seq<Part>>)

  /** `$this->_body[key][] = entry`. */
  function AddEntry(groups: Option<Groups>, key: string, e: Entry): (r: Groups)
    ensures Lookup(r, key) == Some(Lookup(groups.GetOr([]), key).GetOr([]) + [e])
    ensures forall k :: k != key ==> Lookup(r, k) == Lookup(groups.GetOr([]), k)
    ensures groups.None? ==> r == [(key, [e])]
  {
    var named := groups.GetOr([]);
    var entries := Lookup(named, key).GetOr([]) + [e];
    assert groups.None? ==> entries == [e] && Put(named, key, entries) == [(key, [e])];
    Put(named, key, entries)
  }

  /** `$list[] = part` on a list that may still be `null`. */
  function Append(list: Option<seq<Part>>, p: Part): (r: Option<seq<Part>>)
    ensures r == Some(list.GetOr([]) + [p])
  {
    Some(list.GetOr([]) + [p])
  }

  /** The group a text part joins. */
  function GroupKey(p: Part): string {
    Lower(SubtypeOf(p.structure).GetOr(""))
  }

  predicate IsTextPart(p: Part) {
    p.kind == Node && TypeOf(p.structure) == Some(TYPE_TEXT)
  }

  predicate IsNestedMultipart(p: Part) {
    p.kind == Node && TypeOf(p.structure) == Some(TYPE_MULTIPART)
  }

  // ---------------------------------------------------------------- the walk

  /** One subpart in fetchBody's loop. */
  function Visit(st: Collected, p: Part): Collected
    decreases p.structure, 1
  {
    if p.kind == File then
      if IsAttachment(p) then st.(attachments := Append(st.attachments, p))
      else st.(content := Append(st.content, p))
    else if TypeOf(p.structure) == Some(TYPE_TEXT) then
      st.(body := Some(AddEntry(st.body, GroupKey(p), PartEntry(p))))
    else if TypeOf(p.structure) == Some(TYPE_MULTIPART) then
      VisitAll(st, PartChildren(p), p.structure)
    else st
  }

  /** fetchBody's loop over the subparts `ps`, in order; `bound` only bounds the recursion. */
  function VisitAll(st: Collected, ps: seq<Part>, bound: Structure): Collected
    requires forall i :: 0 <= i < |ps| ==> ps[i].structure < bound
    decreases bound, 0, |ps|
  {
    if ps == [] then st else Visit(VisitAll(st, ps[..|ps| - 1], bound), ps[|ps| - 1])
  }

  /** A record all of whose children are the records of `ps`, which bounds the walk over `ps`. */
  function Enclosing(ps: seq<Part>): (r: Structure)
    ensures forall i :: 0 <= i < |ps| ==> ps[i].structure < r
  {
    var items := seq(|ps|, i requires 0 <= i < |ps| => ps[i].structure);
    var r := Structure(None, None, None, None, None, None, None, None, None, None, None, None,
                       None, None, None, None, Parts(items), None);
    forall i | 0 <= i < |ps| ensures ps[i].structure < r {
      assert items[i] in r.parts.items;
      assert items[i] < r.parts;
    }
    r
  }

  /** The walk over the message's own parts. */
  function Walk(st: Collected, ps: seq<Part>): Collected {
    VisitAll(st, ps, Enclosing(ps))
  }

  // ---------------------------------------------------------------- the reference: parts reached

  /** The part and, below a nested multipart, every part reached under it, depth first. */
  function Reached(p: Part): seq<Part>
    decreases p.structure, 1
  {
    [p] + if IsNestedMultipart(p) then ReachedAll(PartChildren(p), p.structure) else []
  }

  function ReachedAll(ps: seq<Part>, bound: Structure): seq<Part>
    requires forall i :: 0 <= i < |ps| ==> ps[i].structure < bound
    decreases bound, 0, |ps|
  {
    if ps == [] then [] else ReachedAll(ps[..|ps| - 1], bound) + Reached(ps[|ps| - 1])
  }

  function Filter(ps: seq<Part>, keep: Part -> bool): (r: seq<Part>)
    ensures |r| <= |ps|
    ensures forall i :: 0 <= i < |r| ==> keep(r[i])
  {
    if ps == [] then [] else Filter(ps[..|ps| - 1], keep) + (if keep(ps[|ps| - 1]) then [ps[|ps| - 1]] else [])
  }

  lemma {:induction false} FilterConcat(a: seq<Part>, b: seq<Part>, keep: Part -> bool)
    ensures Filter(a + b, keep) == Filter(a, keep) + Filter(b, keep)
    decreases |b|
  {
    if b == [] {
      assert a + b == a;
    } else {
      assert (a + b)[..|a + b| - 1] == a + b[..|b| - 1];
      FilterConcat(a, b[..|b| - 1], keep);
    }
  }

  /** Files routed to the attachment list, files routed to the content list, text parts under `key`. */
  function IsAttachedFile(p: Part): bool { p.kind == File && IsAttachment(p) }
  function IsContentFile(p: Part): bool { p.kind == File && !IsAttachment(p) }
  function IsFile(p: Part): bool { p.kind == File }
  function IsTextUnder(key: string): Part -> bool { p => IsTextPart(p) && GroupKey(p) == key }
  function IsText(p: Part): bool { IsTextPart(p) }

  function Entries(ps: seq<Part>): (r: seq<Entry>)
    ensures |r| == |ps|
    ensures forall i :: 0 <= i < |ps| ==> r[i] == PartEntry(ps[i])
  {
    if ps == [] then [] else Entries(ps[..|ps| - 1]) + [PartEntry(ps[|ps| - 1])]
  }

  lemma EntriesConcat(a: seq<Part>, b: seq<Part>)
    ensures Entries(a + b) == Entries(a) + Entries(b)
  {
    assert forall i :: 0 <= i < |a + b| ==> Entries(a + b)[i] == (Entries(a) + Entries(b))[i];
  }

  /** What the walk adds to each list, stated against the parts it reaches. */
  ghost predicate WalkSpec(before: Collected, after: Collected, reached: seq<Part>) {
    after.attachments.GetOr([]) == before.attachments.GetOr([]) + Filter(reached, IsAttachedFile) &&
    after.content.GetOr([]) == before.content.GetOr([]) + Filter(reached, IsContentFile) &&
    (forall key :: Lookup(after.body.GetOr([]), key).GetOr([]) ==
                   Lookup(before.body.GetOr([]), key).GetOr([]) + Entries(Filter(reached, IsTextUnder(key)))) &&
    (after.body.None? <==> before.body.None? && Filter(reached, IsText) == [])
  }

  lemma WalkSpecEmpty(st: Collected)
    ensures WalkSpec(st, st, [])
  {
  }

  lemma WalkSpecCompose(a: Collected, b: Collected, c: Collected, r1: seq<Part>, r2: seq<Part>)
    requires WalkSpec(a, b, r1) && WalkSpec(b, c, r2)
    ensures WalkSpec(a, c, r1 + r2)
  {
    ListsCompose(a.attachments.GetOr([]), b.attachments.GetOr([]), c.attachments.GetOr([]), r1, r2, IsAttachedFile);
    ListsCompose(a.content.GetOr([]), b.content.GetOr([]), c.content.GetOr([]), r1, r2, IsContentFile);
    GroupsCompose(a.body.GetOr([]), b.body.GetOr([]), c.body.GetOr([]), r1, r2);
    FilterConcat(r1, r2, IsText);
  }

  /** A list extended by the parts of `r1` it keeps, then of `r2`, is extended by those of `r1 + r2`. */
  lemma ListsCompose(x: seq<Part>, y: seq<Part>, z: seq<Part>, r1: seq<Part>, r2: seq<Part>, keep: Part -> bool)
    requires y == x + Filter(r1, keep) && z == y + Filter(r2, keep)
    ensures z == x + Filter(r1 + r2, keep)
  {
    FilterConcat(r1, r2, keep);
  }

  /** The same for every group of text parts. */
  lemma GroupsCompose(x: Groups, y: Groups, z: Groups, r1: seq<Part>, r2: seq<Part>)
    requires forall key :: Lookup(y, key).GetOr([]) == Lookup(x, key).GetOr([]) + Entries(Filter(r1, IsTextUnder(key)))
    requires forall key :: Lookup(z, key).GetOr([]) == Lookup(y, key).GetOr([]) + Entries(Filter(r2, IsTextUnder(key)))
    ensures forall key :: Lookup(z, key).GetOr([]) == Lookup(x, key).GetOr([]) + Entries(Filter(r1 + r2, IsTextUnder(key)))
  {
    forall key ensures Lookup(z, key).GetOr([]) == Lookup(x, key).GetOr([]) + Entries(Filter(r1 + r2, IsTextUnder(key))) {
      FilterConcat(r1, r2, IsTextUnder(key));
      EntriesConcat(Filter(r1, IsTextUnder(key)), Filter(r2, IsTextUnder(key)));
    }
  }

  /** One part reached on its own: what Visit adds is what its own entry in Reached says. */
  lemma VisitSingle(st: Collected, p: Part)
    requires !IsNestedMultipart(p)
    ensures WalkSpec(st, Visit(st, p), [p])
  {
    assert [p][..0] == [];
    forall key ensures Lookup(Visit(st, p).body.GetOr([]), key).GetOr([]) ==
                       Lookup(st.body.GetOr([]), key).GetOr([]) + Entries(Filter([p], IsTextUnder(key))) {
      assert Entries([p]) == [PartEntry(p)];
    }
  }

  /**
   * The walk routes every file it reaches to exactly the list its
   * disposition selects, and appends every text part it reaches to the group
   * of its lower-cased subtype, in depth-first order.
   */
  lemma {:induction false} VisitMeetsSpec(st: Collected, p: Part)
    ensures WalkSpec(st, Visit(st, p), Reached(p))
    decreases p.structure, 1
  {
    if IsNestedMultipart(p) {
      var children := PartChildren(p);
      VisitAllMeetsSpec(st, children, p.structure);
      WalkSpecEmpty(st);
      assert Visit(st, p) == VisitAll(st, children, p.structure);
      assert Filter([p], IsAttachedFile) == [] && Filter([p], IsContentFile) == [] && Filter([p], IsText) == [];
      assert WalkSpec(st, st, [p]) by {
        forall key ensures Filter([p], IsTextUnder(key)) == [] {
          assert [p][..0] == [];
        }
      }
      WalkSpecCompose(st, st, Visit(st, p), [p], ReachedAll(children, p.structure));
    } else {
      VisitSingle(st, p);
    }
  }

  lemma {:induction false} VisitAllMeetsSpec(st: Collected, ps: seq<Part>, bound: Structure)
    requires forall i :: 0 <= i < |ps| ==> ps[i].structure < bound
    ensures WalkSpec(st, VisitAll(st, ps, bound), ReachedAll(ps, bound))
    decreases bound, 0, |ps|
  {
    if ps == [] {
      WalkSpecEmpty(st);
    } else {
      var init := ps[..|ps| - 1];
      var mid := VisitAll(st, init, bound);
      VisitAllMeetsSpec(st, init, bound);
      VisitMeetsSpec(mid, ps[|ps| - 1]);
      WalkSpecCompose(st, mid, VisitAll(st, ps, bound), ReachedAll(init, bound), Reached(ps[|ps| - 1]));
    }
  }

  /** Each reached file is in exactly one of the two lists: the two filters split the files. */
  lemma {:induction false} FilesSplit(ps: seq<Part>)
    ensures multiset(Filter(ps, IsAttachedFile)) + multiset(Filter(ps, IsContentFile)) == multiset(Filter(ps, IsFile))
  {
    if ps != [] {
      FilesSplit(ps[..|ps| - 1]);
    }
  }

  // ---------------------------------------------------------------- rendering

  /** implodeBody on one part: its data as is, unless its charset names another one than the server's. */
  function TextFrom(charset: Option<string>, data: string, session: Session): (r: string)
    ensures charset.None? || charset.value == session.serverCharset ==> r == data
    ensures charset.Some? && charset.value != session.serverCharset ==>
              r == session.codec.convert(data, session.serverCharset, charset.value)
  {
    if charset.None? || charset.value == session.serverCharset then data
    else session.codec.convert(data, session.serverCharset, charset.value)
  }

  /** The text of an entry; the message's own text is given. */
  function EntryText(e: Entry, rootText: string, session: Session): string {
    match e
    case RootEntry => rootText
    case PartEntry(p) => TextFrom(PartParameter(p, "charset", session), PartData(p, session), session)
  }

  function EntryTexts(es: seq<Entry>, rootText: string, session: Session): (r: seq<string>)
    ensures |r| == |es|
    ensures forall i :: 0 <= i < |es| ==> r[i] == EntryText(es[i], rootText, session)
  {
    if es == [] then [] else [EntryText(es[0], rootText, session)] + EntryTexts(es[1..], rootText, session)
  }

  /** implodeBody(glue, groups): each group imploded with the glue, then the results imploded with it. */
  function GroupTexts(glue: string, gs: Groups, rootText: string, session: Session): (r: seq<string>)
    ensures |r| == |gs|
    ensures forall i :: 0 <= i < |gs| ==> r[i] == Join(glue, EntryTexts(gs[i].1, rootText, session))
  {
    if gs == [] then [] else [Join(glue, EntryTexts(gs[0].1, rootText, session))] + GroupTexts(glue, gs[1..], rootText, session)
  }

  /** The texts of one more entry: those of the others, then its own. */
  lemma EntryTextsSnoc(es: seq<Entry>, i: nat, rootText: string, session: Session)
    requires i < |es|
    ensures EntryTexts(es[..i + 1], rootText, session) ==
            EntryTexts(es[..i], rootText, session) + [EntryText(es[i], rootText, session)]
  {
    var a := EntryTexts(es[..i + 1], rootText, session);
    var b := EntryTexts(es[..i], rootText, session) + [EntryText(es[i], rootText, session)];
    assert |a| == |b|;
    forall j | 0 <= j < |a| ensures a[j] == b[j] {
      assert es[..i + 1][j] == es[j];
      if j < i {
        assert es[..i][j] == es[j];
      }
    }
  }

  /** The texts of one more group: those of the others, then its own. */
  lemma GroupTextsSnoc(glue: string, gs: Groups, i: nat, rootText: string, session: Session)
    requires i < |gs|
    ensures GroupTexts(glue, gs[..i + 1], rootText, session) ==
            GroupTexts(glue, gs[..i], rootText, session) + [Join(glue, EntryTexts(gs[i].1, rootText, session))]
  {
    var a := GroupTexts(glue, gs[..i + 1], rootText, session);
    var b := GroupTexts(glue, gs[..i], rootText, session) + [Join(glue, EntryTexts(gs[i].1, rootText, session))];
    assert |a| == |b|;
    forall j | 0 <= j < |a| ensures a[j] == b[j] {
      assert gs[..i + 1][j] == gs[j];
      if j < i {
        assert gs[..i][j] == gs[j];
      }
    }
  }

  const GLUE := "\r\n<br/>"

  /**
   * getBody(type) after the walk: nothing without groups; the group of the
   * lower-cased type joined without glue if there is one; otherwise every
   * group joined with "\r\n<br/>", with line breaks rewritten to "<br/>" when
   * the type is "html".
   */
  function Render(groups: Option<Groups>, kind: string, rootText: string, session: Session): Option<string> {
    if groups.None? || groups.value == [] then None
    else
      var key := Lower(kind);
      match Lookup(groups.value, key)
      case Some(es) => Some(Join("", EntryTexts(es, rootText, session)))
      case None =>
        var all := Join(GLUE, GroupTexts(GLUE, groups.value, rootText, session));
        if key == "html" then Some(Replace(Replace(all, "\r\n", "<br/>"), "\n", "<br/>")) else Some(all)
  }

  /** Whether rendering reads the message's own text. */
  predicate RendersRoot(groups: Option<Groups>, kind: string) {
    groups.Some? && groups.value != [] &&
    match Lookup(groups.value, Lower(kind))
    case Some(es) => RootEntry in es
    case None => AnyRoot(groups.value)
  }

  /** Whether some group holds the message itself. */
  predicate AnyRoot(gs: Groups) {
    gs != [] && (AnyRoot(gs[..|gs| - 1]) || RootEntry in gs[|gs| - 1].1)
  }

  function Flatten(xss: seq<seq<Entry>>): seq<Entry> {
    if xss == [] then [] else xss[0] + Flatten(xss[1..])
  }

  function GroupEntries(gs: Groups): seq<seq<Entry>> {
    if gs == [] then [] else [gs[0].1] + GroupEntries(gs[1..])
  }

  predicate NonEmptyGroups(gs: Groups) {
    gs == [] || (gs[0].1 != [] && NonEmptyGroups(gs[1..]))
  }

  lemma {:induction false} JoinConcat(glue: string, a: seq<string>, b: seq<string>)
    requires a != [] && b != []
    ensures Join(glue, a + b) == Join(glue, a) + glue + Join(glue, b)
  {
    if |a| == 1 {
      assert (a + b)[1..] == b;
    } else {
      assert (a + b)[1..] == a[1..] + b;
      JoinConcat(glue, a[1..], b);
    }
  }

  lemma {:induction false} EntryTextsConcat(a: seq<Entry>, b: seq<Entry>, rootText: string, session: Session)
    ensures EntryTexts(a + b, rootText, session) == EntryTexts(a, rootText, session) + EntryTexts(b, rootText, session)
  {
    if a != [] {
      assert (a + b)[1..] == a[1..] + b;
      EntryTextsConcat(a[1..], b, rootText, session);
    } else {
      assert a + b == b;
    }
  }

  /** Joining the joined groups is joining all their entries, group by group, with the one glue. */
  lemma {:induction false} JoinGroups(glue: string, gs: Groups, rootText: string, session: Session)
    requires NonEmptyGroups(gs)
    ensures Join(glue, GroupTexts(glue, gs, rootText, session)) ==
            Join(glue, EntryTexts(Flatten(GroupEntries(gs)), rootText, session))
  {
    if |gs| == 1 {
      assert GroupEntries(gs) == [gs[0].1];
      assert Flatten(GroupEntries(gs)) == gs[0].1;
    } else if |gs| > 1 {
      JoinGroups(glue, gs[1..], rootText, session);
      var first := EntryTexts(gs[0].1, rootText, session);
      var rest := EntryTexts(Flatten(GroupEntries(gs[1..])), rootText, session);
      assert Flatten(GroupEntries(gs)) == gs[0].1 + Flatten(GroupEntries(gs[1..]));
      EntryTextsConcat(gs[0].1, Flatten(GroupEntries(gs[1..])), rootText, session);
      assert gs[1].1 != [] && GroupEntries(gs[1..])[0] == gs[1].1;
      assert rest != [] by {
        assert Flatten(GroupEntries(gs[1..])) == gs[1].1 + Flatten(GroupEntries(gs[2..]));
      }
      JoinConcat(glue, first, rest);
    }
  }

  lemma {:induction false} PutNonEmpty(gs: Groups, key: string, es: seq<Entry>)
    requires NonEmptyGroups(gs) && es != []
    ensures NonEmptyGroups(Put(gs, key, es))
  {
    if gs != [] && gs[0].0 != key {
      PutNonEmpty(gs[1..], key, es);
    }
  }

  /** The walk only ever creates groups by adding an entry to them. */
  lemma {:induction false} VisitNonEmpty(st: Collected, p: Part)
    requires st.body.Some? ==> NonEmptyGroups(st.body.value)
    ensures var after := Visit(st, p); after.body.Some? ==> NonEmptyGroups(after.body.value)
    decreases p.structure, 1
  {
    if p.kind == Node && TypeOf(p.structure) == Some(TYPE_TEXT) {
      PutNonEmpty(st.body.GetOr([]), GroupKey(p), Lookup(st.body.GetOr([]), GroupKey(p)).GetOr([]) + [PartEntry(p)]);
    } else if p.kind == Node && TypeOf(p.structure) == Some(TYPE_MULTIPART) {
      VisitAllNonEmpty(st, PartChildren(p), p.structure);
    }
  }

  lemma {:induction false} VisitAllNonEmpty(st: Collected, ps: seq<Part>, bound: Structure)
    requires forall i :: 0 <= i < |ps| ==> ps[i].structure < bound
    requires st.body.Some? ==> NonEmptyGroups(st.body.value)
    ensures var after := VisitAll(st, ps, bound); after.body.Some? ==> NonEmptyGroups(after.body.value)
    decreases bound, 0, |ps|
  {
    if ps != [] {
      VisitAllNonEmpty(st, ps[..|ps| - 1], bound);
      VisitNonEmpty(VisitAll(st, ps[..|ps| - 1], bound), ps[|ps| - 1]);
    }
  }

  /** getBody gives nothing exactly when no group exists. */
  lemma RenderNothing(groups: Option<Groups>, kind: string, rootText: string, session: Session)
    ensures Render(groups, kind, rootText, session).None? <==> groups.None? || groups.value == []
  {
  }

  /** A group for the requested type (compared lower-cased) is rendered alone, without glue. */
  lemma RenderRequested(gs: Groups, kind: string, es: seq<Entry>, rootText: string, session: Session)
    requires Lookup(gs, Lower(kind)) == Some(es)
    ensures Render(Some(gs), kind, rootText, session) == Some(Join("", EntryTexts(es, rootText, session)))
  {
    assert gs != [];
  }

  /**
   * Without a group for the requested type, every entry of every group is
   * joined with "\r\n<br/>", group by group; types other than "html" keep the
   * text as joined, and "html" turns each "\r\n", then each remaining "\n",
   * into "<br/>".
   */
  lemma RenderAll(gs: Groups, kind: string, rootText: string, session: Session)
    requires gs != [] && NonEmptyGroups(gs) && Lookup(gs, Lower(kind)).None?
    ensures var all := Join(GLUE, EntryTexts(Flatten(GroupEntries(gs)), rootText, session));
            Render(Some(gs), kind, rootText, session) ==
              if Lower(kind) == "html" then Some(Replace(Replace(all, "\r\n", "<br/>"), "\n", "<br/>"))
              else Some(all)
  {
    JoinGroups(GLUE, gs, rootText, session);
  }

  /** For "html" without an "html" group the result holds no line feed: every one became "<br/>". */
  lemma RenderHtmlHasNoLineFeed(gs: Groups, kind: string, rootText: string, session: Session)
    requires gs != [] && Lookup(gs, Lower(kind)).None? && Lower(kind) == "html"
    ensures var r := Render(Some(gs), kind, rootText, session);
            r.Some? && '\n' !in r.value
  {
    var all := Join(GLUE, GroupTexts(GLUE, gs, rootText, session));
    ReplaceRemovesLineFeeds(Replace(all, "\r\n", "<br/>"), "<br/>");
  }
}
