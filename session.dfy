/**
 * What the mail session supplies for one message. The layer fetches these
 * lazily from the IMAP stream; here they are given values.
 */
module Sessions {

  import opened Wrappers
  import opened Encoding
  import opened Structures

  datatype Session = Session(
    /** `imap_fetchstructure` of the message. */
    structure: Structure,
    /** `imap_fetchheader`: the raw header text. */
    header: string,
    /** `imap_body`: the raw body of the whole message. */
    body: string,
    /** `imap_fetchbody` by part number. */
    partBody: string -> string,
    /** The overview's `subject`, if it has one. */
    subject: Option<string>,
    /** The agent's `serverCharset`, the charset text is converted to. */
    serverCharset: string,
    /** The text decoders and the charset converter. */
    codec: Codec)

  /** The agent's default `serverCharset`. */
  const DEFAULT_SERVER_CHARSET := "UTF-8"
}
