/**
 * Content-transfer-encoding names and the decoding dispatch of a part's data
 * (MessagePart::convertEncoding and MessagePart::decodeData). The encodings
 * are those of RFC 2045 section 6.1; their constants are PHP's IMAP ones.
 */
module Encoding {

  import opened Wrappers
  import opened Text

  const ENC7BIT := 0
  const ENC8BIT := 1
  const ENCBINARY := 2
  const ENCBASE64 := 3
  const ENCQUOTEDPRINTABLE := 4
  const ENCOTHER := 5

  /** The names of the defined `ENC*` constants, indexed by their value. */
  const ConstantNames: seq<string> :=
    ["ENC7BIT", "ENC8BIT", "ENCBINARY", "ENCBASE64", "ENCQUOTEDPRINTABLE", "ENCOTHER"]

  /** A decoded MIME encoded word, as the session's header decoder returns it. */
  datatype MimeWord = MimeWord(charset: Option<string>, text: string)

  /**
   * The text-processing collaborators the layer calls but does not define:
   * `imap_utf8`, `imap_binary`, `base64_decode`, `quoted_printable_decode`,
   * `mb_convert_encoding(text, to, from)` and `imap_mime_header_decode`.
   */
  datatype Codec = Codec(
    utf8: string -> string,
    binary: string -> string,
    base64: string -> string,
    quotedPrintable: string -> string,
    convert: (string, string, string) -> string,
    mimeWords: string -> seq<MimeWord>)

  /** PHP's `defined(name) ? constant(name)`, restricted to the `ENC*` constants. */
  function ConstantValue(name: string): (r: Option<int>)
    ensures r.Some? ==> 0 <= r.value < |ConstantNames| && ConstantNames[r.value] == name
    ensures r.None? ==> name !in ConstantNames
  {
    if name == "ENC7BIT" then Some(ENC7BIT)
    else if name == "ENC8BIT" then Some(ENC8BIT)
    else if name == "ENCBINARY" then Some(ENCBINARY)
    else if name == "ENCBASE64" then Some(ENCBASE64)
    else if name == "ENCQUOTEDPRINTABLE" then Some(ENCQUOTEDPRINTABLE)
    else if name == "ENCOTHER" then Some(ENCOTHER)
    else None
  }

  /** `str_replace('-', '', s)`. */
  function RemoveDashes(s: string): (r: string)
    ensures '-' !in r
    ensures |r| <= |s|
  {
    if s == [] then []
    else if s[0] == '-' then RemoveDashes(s[1..])
    else [s[0]] + RemoveDashes(s[1..])
  }

  /** The constant name convertEncoding looks up for a transfer-encoding name. */
  function ConstantNameFor(encoding: string): string {
    Upper("ENC" + RemoveDashes(encoding))
  }

  /**
   * convertEncoding: the value of the constant named "ENC" + the upper-cased
   * name without dashes; ENCOTHER when no such constant exists.
   */
  function ConvertEncoding(encoding: string): (r: int)
    ensures 0 <= r <= ENCOTHER
    ensures ConstantNameFor(encoding) in ConstantNames ==> ConstantNames[r] == ConstantNameFor(encoding)
    ensures ConstantNameFor(encoding) !in ConstantNames ==> r == ENCOTHER
  {
    match ConstantValue(ConstantNameFor(encoding))
    case Some(v) => v
    case None => ENCOTHER
  }

  lemma {:induction false} RemoveDashesLower(s: string)
    ensures RemoveDashes(Lower(s)) == Lower(RemoveDashes(s))
  {
    if s != [] {
      RemoveDashesLower(s[1..]);
      assert Lower(s) == [LowerChar(s[0])] + Lower(s[1..]);
      if s[0] != '-' {
        assert Lower([s[0]] + RemoveDashes(s[1..])) == [LowerChar(s[0])] + Lower(RemoveDashes(s[1..]));
      }
    }
  }

  lemma {:induction false} UpperConcat(a: string, b: string)
    ensures Upper(a + b) == Upper(a) + Upper(b)
  {
    if a != [] {
      assert (a + b)[1..] == a[1..] + b;
      UpperConcat(a[1..], b);
    }
  }

  lemma {:induction false} UpperLower(s: string)
    ensures Upper(Lower(s)) == Upper(s)
  {
    if s != [] {
      UpperLower(s[1..]);
    }
  }

  /** The lookup ignores case: `Quoted-Printable` and `QUOTED-PRINTABLE` map like `quoted-printable`. */
  lemma ConvertEncodingIgnoresCase(encoding: string)
    ensures ConvertEncoding(Lower(encoding)) == ConvertEncoding(encoding)
  {
    RemoveDashesLower(encoding);
    var y := RemoveDashes(encoding);
    UpperConcat("ENC", Lower(y));
    UpperConcat("ENC", y);
    UpperLower(y);
    assert ConstantNameFor(Lower(encoding)) == ConstantNameFor(encoding);
  }

  /** The name "other" maps to ENCOTHER. */
  lemma ConvertEncodingOther()
    ensures ConvertEncoding("other") == ENCOTHER
  {
    ConstantNameOther();
    assert ConstantValue("ENCOTHER") == Some(ENCOTHER);
  }

  lemma ConstantNameOther()
    ensures ConstantNameFor("other") == "ENCOTHER"
  {
    RemoveDashesOther();
    UpperOther();
  }

  lemma UpperOther()
    ensures Upper("ENCother") == "ENCOTHER"
  {
    var u := Upper("ENCother");
    assert forall i :: 0 <= i < 8 ==> u[i] == "ENCOTHER"[i];
  }

  lemma RemoveDashesOther()
    ensures RemoveDashes("other") == "other"
  {
  }

  lemma {:induction false} RemoveDashesConcat(a: string, b: string)
    ensures RemoveDashes(a + b) == RemoveDashes(a) + RemoveDashes(b)
  {
    if a != [] {
      assert (a + b)[0] == a[0] && (a + b)[1..] == a[1..] + b;
      RemoveDashesConcat(a[1..], b);
      if a[0] != '-' {
        assert RemoveDashes(a + b) == [a[0]] + RemoveDashes(a[1..] + b);
        assert [a[0]] + (RemoveDashes(a[1..]) + RemoveDashes(b)) == ([a[0]] + RemoveDashes(a[1..])) + RemoveDashes(b);
      }
    } else {
      assert a + b == b;
    }
  }

  /** Dashes do not matter: `quoted-printable` maps like `quotedprintable`. */
  lemma ConvertEncodingIgnoresDashes(a: string, b: string)
    ensures ConvertEncoding(a + "-" + b) == ConvertEncoding(a + b)
  {
    RemoveDashesConcat(a + "-", b);
    RemoveDashesConcat(a, "-");
    RemoveDashesConcat(a, b);
    assert RemoveDashes("-") == [];
    assert RemoveDashes(a + "-" + b) == RemoveDashes(a + b);
    assert ConstantNameFor(a + "-" + b) == ConstantNameFor(a + b);
  }

  /**
   * decodeData: the decoder the transfer encoding selects. A missing encoding
   * is matched by `case ENC7BIT` (PHP compares `null == 0` loosely).
   */
  function DecodeData(data: string, encoding: Option<int>, codec: Codec): (r: string)
    ensures encoding.None? ==> r == codec.utf8(data)
    ensures encoding == Some(ENC7BIT) || encoding == Some(ENC8BIT) ==> r == codec.utf8(data)
    ensures encoding == Some(ENCBINARY) ==> r == codec.binary(data)
    ensures encoding == Some(ENCBASE64) ==> r == codec.base64(data)
    ensures encoding == Some(ENCQUOTEDPRINTABLE) ==> r == codec.quotedPrintable(data)
    ensures encoding.Some? && !(0 <= encoding.value <= ENCQUOTEDPRINTABLE) ==> r == data
  {
    var e := encoding.GetOr(ENC7BIT);
    if e == ENC7BIT || e == ENC8BIT then codec.utf8(data)
    else if e == ENCBINARY then codec.binary(data)
    else if e == ENCBASE64 then codec.base64(data)
    else if e == ENCQUOTEDPRINTABLE then codec.quotedPrintable(data)
    else data
  }
}
