/**
 * MessagePart::parseHeaders: raw header text to a map from lower-cased header
 * name to the header's positional values and `key=value` parameters.
 *
 * The source does this with three regular expressions; this module states the
 * behaviour they are used for as a line parser and a parameter scanner:
 * only the text before the first "\n\n" is parsed; a line that starts with a
 * space or tab continues the previous line; a line of the form `name: value`
 * (name made of letters, digits, `_`, `.`, `-`) is a header, any other line
 * is skipped; the value is trimmed, CRLF-plus-indentation is removed, and the
 * value is scanned into `;`-separated tokens.
 */
module Headers {

  import opened Wrappers
  import opened Text
  import opened Assoc

  /** One match of the parameter expression: a bare value or a `key=value` pair (key lower-cased). */
  datatype Token = Positional(text: string) | Named(key: string, value: string)

  /**
   * The PHP array stored under one header name: its positional values in
   * order, and its named parameters in first-insertion order (a later value
   * for the same key overwrites in place, as PHP array assignment does).
   */
  datatype Entry = Entry(positional: seq<string>, named: seq<(string, string)>)

  type HeaderMap = map<string, Entry>

  // ---------------------------------------------------------------- character classes

  /** PCRE's `[\w.-]`. */
  predicate IsNameChar(c: char) {
    ('a' <= c <= 'z') || ('A' <= c <= 'Z') || ('0' <= c <= '9') || c == '_' || c == '.' || c == '-'
  }

  /** PCRE's `\s`. */
  predicate IsBlank(c: char) {
    c == ' ' || c == '\t' || c == '\n' || c == '\r' || c as int == 11 || c as int == 12
  }

  /** The length of the longest prefix of `s` made of name characters. */
  function NameRunLength(s: string): (n: nat)
    ensures n <= |s|
    ensures forall i :: 0 <= i < n ==> IsNameChar(s[i])
    ensures n < |s| ==> !IsNameChar(s[n])
  {
    if s != [] && IsNameChar(s[0]) then 1 + NameRunLength(s[1..]) else 0
  }

  /** The length of the longest blank prefix of `s`. */
  function BlankRunLength(s: string): (n: nat)
    ensures n <= |s|
    ensures forall i :: 0 <= i < n ==> IsBlank(s[i])
    ensures n < |s| ==> !IsBlank(s[n])
  {
    if s != [] && IsBlank(s[0]) then 1 + BlankRunLength(s[1..]) else 0
  }

  /** The offset of the first `c` in `s`, or `|s|`. */
  function CharIndex(s: string, c: char): (n: nat)
    ensures n <= |s|
    ensures forall i :: 0 <= i < n ==> s[i] != c
    ensures n < |s| ==> s[n] == c
  {
    if s == [] || s[0] == c then 0 else 1 + CharIndex(s[1..], c)
  }

  // ---------------------------------------------------------------- the parameter scanner

  /**
   * The `"inner"` alternative at the start of a parameter value: a quote,
   * at least one non-quote byte, a quote, then `;` or the end. Gives the inner
   * text and the length consumed.
   */
  function QuotedValue(rest: string): (r: Option<(string, nat)>)
    ensures r.Some? ==> 2 < r.value.1 <= |rest| && rest[0] == '"' && rest[r.value.1 - 1] == '"'
    ensures r.Some? ==> r.value.0 == rest[1..r.value.1 - 1] && '"' !in r.value.0
    ensures r.Some? ==> r.value.1 == |rest| || rest[r.value.1] == ';'
  {
    if |rest| >= 2 && rest[0] == '"' then
      var q := CharIndex(rest[1..], '"');
      if 0 < q < |rest| - 1 && (q + 2 == |rest| || rest[q + 2] == ';') then
        assert forall i :: 0 <= i < q ==> rest[1..q + 1][i] == rest[1..][i];
        Some((rest[1..q + 1], q + 2))
      else None
    else None
  }

  /** What is left after a token that ends at a `;` or at the end. */
  function AfterSemicolon(s: string): (r: string)
    ensures |r| <= |s|
  {
    if s == [] then [] else s[1..]
  }

  predicate KeysLowerCase(ts: seq<Token>) {
    forall i :: 0 <= i < |ts| && ts[i].Named? ==> IsLowerCase(ts[i].key)
  }

  /**
   * The successive matches of the parameter expression in a header value,
   * left to right: leading blanks are skipped; `key="v"` gives `v`, `key=v`
   * gives `v` up to the next `;`; any other run up to `;` is positional;
   * empty segments give nothing.
   */
  function Tokens(v: string): (r: seq<Token>)
    ensures KeysLowerCase(r)
    decreases |v|
  {
    if v == [] then []
    else
      var (token, rest) := NextToken(v);
      var tail := Tokens(rest);
      match token
      case None => tail
      case Some(t) => KeysLowerCaseCons(t, tail); [t] + tail
  }

  /**
   * One step of the scanner on a non-empty value: the token at its start (none
   * for an empty segment) and what is left after it.
   */
  function NextToken(v: string): (r: (Option<Token>, string))
    requires v != []
    ensures |r.1| < |v|
    ensures r.0.Some? && r.0.value.Named? ==> IsLowerCase(r.0.value.key)
  {
    if v[0] == ';' then (None, v[1..])
    else
      var w := BlankRunLength(v);
      var t := v[w..];
      if t == [] || t[0] == ';' then
        (Some(Positional([v[w - 1]])), AfterSemicolon(t))
      else
        var k := NameRunLength(t);
        var s := CharIndex(t, ';');
        var bare := (Some(Positional(t[..s])), AfterSemicolon(t[s..]));
        if 0 < k < |t| && t[k] == '=' then
          var rest := t[k + 1..];
          match QuotedValue(rest)
          case Some((inner, n)) => (Some(Named(Lower(t[..k]), inner)), AfterSemicolon(rest[n..]))
          case None =>
            var e := CharIndex(rest, ';');
            if e > 0 then (Some(Named(Lower(t[..k]), rest[..e])), AfterSemicolon(rest[e..]))
            else bare
        else bare
  }

  lemma KeysLowerCaseCons(t: Token, rest: seq<Token>)
    requires t.Named? ==> IsLowerCase(t.key)
    requires KeysLowerCase(rest)
    ensures KeysLowerCase([t] + rest)
  {
    forall i | 0 <= i < |[t] + rest| && ([t] + rest)[i].Named? ensures IsLowerCase(([t] + rest)[i].key) {
      if i > 0 {
        assert ([t] + rest)[i] == rest[i - 1];
      }
    }
  }

  // ---------------------------------------------------------------- lines

  /** Removes every CRLF together with the spaces and tabs after it: unfolds folded header lines. */
  function Unfold(v: string): (r: string)
    ensures |r| <= |v|
    decreases |v|
  {
    if |v| >= 2 && v[0] == '\r' && v[1] == '\n' then Unfold(DropIndent(v[2..]))
    else if v == [] then []
    else [v[0]] + Unfold(v[1..])
  }

  function DropIndent(s: string): (r: string)
    ensures |r| <= |s|
  {
    if s != [] && (s[0] == ' ' || s[0] == '\t') then DropIndent(s[1..]) else s
  }

  predicate IsContinuation(line: string) {
    |line| > 0 && (line[0] == ' ' || line[0] == '\t')
  }

  /** Physical lines to logical ones: a continuation line is appended, after a "\n", to the line before it. */
  function LogicalLines(lines: seq<string>): (r: seq<string>)
    ensures |r| <= |lines|
  {
    if lines == [] then []
    else
      var prev := LogicalLines(lines[..|lines| - 1]);
      var last := lines[|lines| - 1];
      if IsContinuation(last) && prev != [] then prev[..|prev| - 1] + [prev[|prev| - 1] + "\n" + last]
      else prev + [last]
  }

  /** A header line `name: value` split into its name and its raw value. */
  function HeaderLine(line: string): (r: Option<(string, string)>)
    ensures r.Some? ==> |r.value.0| > 0 && line == r.value.0 + ":" + r.value.1
    ensures r.Some? ==> forall i :: 0 <= i < |r.value.0| ==> IsNameChar(r.value.0[i])
  {
    var n := NameRunLength(line);
    if 0 < n < |line| && line[n] == ':' then
      assert line == line[..n] + ":" + line[n + 1..];
      Some((line[..n], line[n + 1..]))
    else None
  }

  /** The tokens of one header's value, after trimming and unfolding. */
  function ValueTokens(value: string): seq<Token> {
    Tokens(Unfold(Trim(value)))
  }

  // ---------------------------------------------------------------- building the map

  function EntryOf(h: HeaderMap, name: string): Entry {
    if name in h then h[name] else Entry([], [])
  }

  /** One token stored under header `name`: positional values are appended, named ones put. */
  function AddToken(h: HeaderMap, name: string, t: Token): (r: HeaderMap)
    ensures r.Keys == h.Keys + {name}
    ensures forall n :: n in h && n != name ==> r[n] == h[n]
  {
    var e := EntryOf(h, name);
    match t
    case Positional(x) => h[name := e.(positional := e.positional + [x])]
    case Named(k, x) => h[name := e.(named := Put(e.named, k, x))]
  }

  function AddTokens(h: HeaderMap, name: string, ts: seq<Token>): HeaderMap {
    if ts == [] then h else AddToken(AddTokens(h, name, ts[..|ts| - 1]), name, ts[|ts| - 1])
  }

  /** One logical line: a header adds its tokens under its lower-cased name; any other line adds nothing. */
  function AddLine(h: HeaderMap, line: string): HeaderMap {
    match HeaderLine(line)
    case Some((name, value)) => AddTokens(h, Lower(name), ValueTokens(value))
    case None => h
  }

  function AddLines(lines: seq<string>): HeaderMap {
    if lines == [] then map[] else AddLine(AddLines(lines[..|lines| - 1]), lines[|lines| - 1])
  }

  /** The text before the first blank line ("\n\n"). */
  function FirstBlock(head: string): string {
    Explode("\n\n", head)[0]
  }

  function BlockLines(block: string): seq<string> {
    LogicalLines(Explode("\n", block))
  }

  /** The specification of parseHeaders. */
  function HeadersOf(head: string): HeaderMap {
    AddLines(BlockLines(FirstBlock(head)))
  }

  // ---------------------------------------------------------------- the method

  /** parseHeaders: the loop over the logical lines of the first block. */
  method ParseHeaders(head: string) returns (parsed: HeaderMap)
    ensures parsed == HeadersOf(head)
  {
    var lines := BlockLines(FirstBlock(head));
    parsed := map[];
    var i := 0;
    while i < |lines|
      invariant 0 <= i <= |lines|
      invariant parsed == AddLines(lines[..i])
    {
      assert lines[..i + 1][..i] == lines[..i];
      var header := HeaderLine(lines[i]);
      if header.Some? {
        parsed := AddMatches(parsed, Lower(header.value.0), ValueTokens(header.value.1));
      }
      i := i + 1;
    }
    assert lines[..i] == lines;
  }

  /** The inner loop of parseHeaders: each parameter match of one header stored under its name. */
  method AddMatches(h: HeaderMap, key: string, matches: seq<Token>) returns (parsed: HeaderMap)
    ensures parsed == AddTokens(h, key, matches)
  {
    parsed := h;
    var j := 0;
    while j < |matches|
      invariant 0 <= j <= |matches|
      invariant parsed == AddTokens(h, key, matches[..j])
    {
      assert matches[..j + 1][..j] == matches[..j];
      parsed := AddToken(parsed, key, matches[j]);
      j := j + 1;
    }
    assert matches[..j] == matches;
  }

  // ---------------------------------------------------------------- properties

  /** Header names are lower case, and so are the parameter keys stored under them, each key once. */
  ghost predicate WellFormed(h: HeaderMap) {
    forall name :: name in h ==>
      IsLowerCase(name) && UniqueKeys(h[name].named) &&
      forall k :: HasKey(h[name].named, k) ==> IsLowerCase(k)
  }

  lemma {:induction false} AddTokensWellFormed(h: HeaderMap, name: string, ts: seq<Token>)
    requires WellFormed(h) && IsLowerCase(name) && KeysLowerCase(ts)
    ensures WellFormed(AddTokens(h, name, ts))
  {
    if ts != [] {
      var init := ts[..|ts| - 1];
      assert KeysLowerCase(init) by {
        forall i | 0 <= i < |init| && init[i].Named? ensures IsLowerCase(init[i].key) {
          assert init[i] == ts[i];
        }
      }
      AddTokensWellFormed(h, name, init);
      var g := AddTokens(h, name, init);
      var e := EntryOf(g, name);
      match ts[|ts| - 1]
      case Positional(x) =>
      case Named(k, x) =>
    }
  }

  lemma {:induction false} AddLinesWellFormed(lines: seq<string>)
    ensures WellFormed(AddLines(lines))
  {
    if lines != [] {
      AddLinesWellFormed(lines[..|lines| - 1]);
      var h := AddLines(lines[..|lines| - 1]);
      match HeaderLine(lines[|lines| - 1])
      case Some((name, value)) => AddTokensWellFormed(h, Lower(name), ValueTokens(value));
      case None =>
    }
  }

  /** parseHeaders lower-cases header names and parameter keys, and stores each key once. */
  lemma HeadersWellFormed(head: string)
    ensures WellFormed(HeadersOf(head))
  {
    AddLinesWellFormed(BlockLines(FirstBlock(head)));
  }

  /** Only the first blank-line block counts: the block has no blank line, and parsing it alone gives the same map. */
  lemma OnlyFirstBlock(head: string)
    ensures !Contains(FirstBlock(head), "\n\n")
    ensures HeadersOf(FirstBlock(head)) == HeadersOf(head)
  {
    ExplodePiecesFree("\n\n", head);
    assert !Contains(Explode("\n\n", head)[0], "\n\n");
  }

  /** Empty header text parses to the empty map. */
  lemma EmptyHeaders()
    ensures HeadersOf("") == map[]
  {
    EmptyFirstBlock();
    EmptyBlockLines();
    EmptyLine();
  }

  lemma EmptyFirstBlock()
    ensures FirstBlock("") == ""
  {
    assert Explode("\n\n", "") == [""];
  }

  lemma EmptyBlockLines()
    ensures BlockLines("") == [""]
  {
    assert Explode("\n", "") == [""];
  }

  lemma EmptyLine()
    ensures AddLines([""]) == map[]
  {
    assert HeaderLine("").None?;
    assert AddLines([""]) == AddLine(map[], "");
  }

  // ---------------------------------------------------------------- the parameter scanner's facts

  lemma {:induction false} NameRunPrefix(t: string, k: nat)
    requires k < |t| && !IsNameChar(t[k])
    requires forall i :: 0 <= i < k ==> IsNameChar(t[i])
    ensures NameRunLength(t) == k
  {
    if k > 0 {
      NameRunPrefix(t[1..], k - 1);
    }
  }

  lemma KeyShape(key: string, s: string)
    requires forall i :: 0 <= i < |key| ==> IsNameChar(key[i])
    requires |key| < |s| && s[..|key|] == key && s[|key|] == '='
    ensures NameRunLength(s) == |key|
  {
    assert forall i :: 0 <= i < |key| ==> s[i] == s[..|key|][i];
    NameRunPrefix(s, |key|);
  }

  /** The first `c` in `v + x` is where `x` starts, when `v` holds none and `x` is empty or starts with one. */
  lemma {:induction false} CharIndexOf(v: string, x: string, c: char)
    requires c !in v && (x == [] || x[0] == c)
    ensures CharIndex(v + x, c) == |v|
  {
    if v != [] {
      assert (v + x)[1..] == v[1..] + x;
      CharIndexOf(v[1..], x, c);
    }
  }

  lemma QuotedShape(key: string, value: string, s: string)
    requires |value| > 0 && '"' !in value
    requires s == key + "=\"" + value + "\""
    ensures QuotedValue(s[|key| + 1..]) == Some((value, |s| - |key| - 1))
  {
    var rest := s[|key| + 1..];
    assert rest == "\"" + value + "\"";
    assert rest[1..] == value + "\"";
    CharIndexOf(value, "\"", '"');
  }

  /** The scanner on a whole `key="inner"` segment. */
  lemma TokensQuoted(t: string, k: nat, inner: string)
    requires t != [] && t[0] != ';' && !IsBlank(t[0])
    requires 0 < k < |t| && NameRunLength(t) == k && t[k] == '='
    requires QuotedValue(t[k + 1..]) == Some((inner, |t| - k - 1))
    ensures Tokens(t) == [Named(Lower(t[..k]), inner)]
  {
    assert BlankRunLength(t) == 0;
    assert t[0..] == t;
    assert t[k + 1..][|t| - k - 1..] == [];
  }

  /** The scanner on a whole `key=value` segment with an unquoted value. */
  lemma TokensUnquoted(t: string, k: nat)
    requires t != [] && t[0] != ';' && !IsBlank(t[0])
    requires 0 < k < |t| - 1 && NameRunLength(t) == k && t[k] == '='
    requires QuotedValue(t[k + 1..]).None? && CharIndex(t[k + 1..], ';') == |t| - k - 1
    ensures Tokens(t) == [Named(Lower(t[..k]), t[k + 1..])]
  {
    NextUnquoted(t, k);
    assert Tokens(t) == [Named(Lower(t[..k]), t[k + 1..])] + Tokens([]);
  }

  lemma NextUnquoted(t: string, k: nat)
    requires t != [] && t[0] != ';' && !IsBlank(t[0])
    requires 0 < k < |t| - 1 && NameRunLength(t) == k && t[k] == '='
    requires QuotedValue(t[k + 1..]).None? && CharIndex(t[k + 1..], ';') == |t| - k - 1
    ensures NextToken(t) == (Some(Named(Lower(t[..k]), t[k + 1..])), [])
  {
    var rest := t[k + 1..];
    var e := CharIndex(rest, ';');
    assert BlankRunLength(t) == 0;
    assert t[0..] == t;
    assert e == |rest| > 0;
    assert rest[..e] == rest && rest[e..] == [];
    assert AfterSemicolon(rest[e..]) == [];
  }

  /** `key="value"` stores the value without its quotes, under the lower-cased key. */
  lemma QuotedParameter(key: string, value: string)
    requires |key| > 0 && forall i :: 0 <= i < |key| ==> IsNameChar(key[i])
    requires |value| > 0 && '"' !in value
    ensures Tokens(key + "=\"" + value + "\"") == [Named(Lower(key), value)]
  {
    var s := key + "=\"" + value + "\"";
    assert s[0] == key[0] && s[|key|] == '=' && s[..|key|] == key;
    KeyShape(key, s);
    QuotedShape(key, value, s);
    TokensQuoted(s, |key|, value);
  }

  /** `key=value` stores the value as written, under the lower-cased key. */
  lemma UnquotedParameter(key: string, value: string)
    requires |key| > 0 && forall i :: 0 <= i < |key| ==> IsNameChar(key[i])
    requires |value| > 0 && ';' !in value && value[0] != '"'
    ensures Tokens(key + "=" + value) == [Named(Lower(key), value)]
  {
    var s := key + "=" + value;
    assert s[0] == key[0] && s[|key|] == '=' && s[..|key|] == key;
    assert s[|key| + 1..] == value;
    KeyShape(key, s);
    CharIndexOf(value, [], ';'); assert value + [] == value;
    TokensUnquoted(s, |key|);
  }

  /** A segment that is not `key=value` is stored as a positional value, as written. */
  lemma PositionalParameter(x: string)
    requires |x| > 0 && ';' !in x && !IsBlank(x[0])
    requires NameRunLength(x) == |x| || x[NameRunLength(x)] != '='
    ensures Tokens(x) == [Positional(x)]
  {
    assert BlankRunLength(x) == 0;
    CharIndexOf(x, [], ';'); assert x + [] == x;
    assert x[..|x|] == x;
  }

  function PositionalTexts(ts: seq<Token>): seq<string> {
    if ts == [] then []
    else PositionalTexts(ts[..|ts| - 1]) + (if ts[|ts| - 1].Positional? then [ts[|ts| - 1].text] else [])
  }

  /** The value of the last `key=...` match among `ts`. */
  function LastNamed(ts: seq<Token>, key: string): Option<string> {
    if ts == [] then None
    else if ts[|ts| - 1].Named? && ts[|ts| - 1].key == key then Some(ts[|ts| - 1].value)
    else LastNamed(ts[..|ts| - 1], key)
  }

  /**
   * Storing a header's matches: its positional values are appended in order,
   * and each key holds the value of its last match (an earlier value otherwise stays).
   */
  lemma {:induction false} AddTokensEntry(h: HeaderMap, name: string, ts: seq<Token>, key: string)
    ensures EntryOf(AddTokens(h, name, ts), name).positional == EntryOf(h, name).positional + PositionalTexts(ts)
    ensures Lookup(EntryOf(AddTokens(h, name, ts), name).named, key) ==
            (match LastNamed(ts, key) case Some(v) => Some(v) case None => Lookup(EntryOf(h, name).named, key))
  {
    if ts != [] {
      AddTokensEntry(h, name, ts[..|ts| - 1], key);
    }
  }
}
