# MIME structure layer of an IMAP message wrapper

This project models the part of the `lilicbush/imap` library that turns one
IMAP message into a tree of MIME parts and assembles its text. It covers
three classes:

- `MessagePart` reads a part's structure record, lazily and once per cache:
  its properties, its parameters, its raw body and its decoded data. It also
  builds the part's children. When a record claims fewer than two parts, the
  message's structure is rebuilt from the raw header and body text (the
  "fallback": `fetchStructureAlternative`, `getStructureAlternative`,
  `parseHeaders`).
- `ImapMessage` is the root part. `fetchBody` walks the part tree:
  - text parts go into per-subtype groups;
  - file parts go into the attachment list or the content list.
  `getBody` renders the groups through `implodeBody`.
- `ImapFile` is a leaf read as a file: its MIME type, file name, size and
  whether it is an attachment.

The modules follow the source:
- `Headers` is `parseHeaders`.
- `Encoding` is `convertEncoding` and `decodeData`.
- `Structures` covers the structure record, `getProperty`, `parseParams`,
  `decodeMime` and the fallback, `getStructureAlternative`.
- `Parts` holds the children that `getParts` builds and what a child part
  reads.
- `ImapFiles` is `ImapFile`.
- `Bodies` holds the walk `fetchBody` performs and the rendering in
  `getBody` and `implodeBody`.
- `Messages` holds the root object's caches as one `State` value and, for
  each lazy getter, a function saying what it returns and what it leaves in
  the caches.
- `ImapMessages.ImapMessage` is the root object as a class. Each cache is a
  field, and each method is proved to return, and to leave in the fields,
  exactly what the matching `Messages` function says.
- `Text` and `Assoc` model the PHP built-ins the source relies on:
  - `strtolower`, `trim`, `explode`, `implode` and `str_replace`;
  - ordered PHP arrays, where assigning to an existing key overwrites it in
    place.

What the session supplies is a `Session` value:
- the structure that `imap_fetchstructure` returns;
- the header text from `imap_fetchheader`;
- the bodies from `imap_body` and `imap_fetchbody`;
- the overview subject;
- the server charset;
- a `Codec` of the decoders and the charset converter
  (`imap_utf8`, `imap_binary`, `base64_decode`, `quoted_printable_decode`,
  `mb_convert_encoding`, `imap_mime_header_decode`).

The clock that `getFilename` reads is the parameter `now`. A `fuel` bound
limits how deeply the fallback nests.

The model follows the code as written, including these behaviours of it:
- The fallback is tried for any record with a parts list of fewer than two
  entries, not only for a multipart one.
- Content-Type primary types are compared case-sensitively, so
  `Multipart/Mixed` gives type "other".
- Binary data goes through `imap_binary`, not unchanged.
- Data with ENCOTHER (or any unknown encoding) is returned unchanged. A
  missing encoding is decoded like 7bit.
- Every level of the fallback re-splits the message's whole raw body, not
  the segment's own body.
- A message that is not multipart is filed under its own subtype, whatever
  its type.
- fetchBody reads the message's type once, before getParts, so a record the
  fallback replaces is walked as the multipart record it was (see
  "## Findings"). `Messages.FetchBody` is the corrected definition, kept
  beside it as the reference.

## Model

| member | source | states |
|---|---|---|
| Assoc.Put | MessagePart.php:187-191 | assigning to a key of an ordered array gives that key the value and leaves every other key's value alone; an existing key is overwritten in place, so the length and the order of keys stay, and a new key is appended at the end |
| Encoding.ConvertEncoding | MessagePart.php:80-86 | the result is the value of the `ENC*` constant named "ENC" + the upper-cased name without dashes, and ENCOTHER when no such constant exists |
| Encoding.ConstantValue | MessagePart.php:82-85 | a name maps to a constant exactly when it is one of the six `ENC*` names, and then to that name's value |
| Encoding.ConvertEncodingIgnoresCase | MessagePart.php:81 | lower-casing the encoding name does not change the constant found |
| Encoding.ConvertEncodingIgnoresDashes | MessagePart.php:81 | a dash in the encoding name does not change the constant found |
| Encoding.ConvertEncodingOther | MessagePart.php:85 | the name "other" (used when there is no Content-Transfer-Encoding header) maps to ENCOTHER |
| Encoding.DecodeData | MessagePart.php:261-280 | 7bit and 8bit data (and a missing encoding, which PHP matches to `case ENC7BIT`) go through `imap_utf8`, binary through `imap_binary`, base64 and quoted-printable through their decoders; any other encoding leaves the data unchanged |
| Headers.ParseHeaders | MessagePart.php:172-200 | the loop over the logical lines of the first block gives exactly the header map `HeadersOf(head)` |
| Headers.AddMatches | MessagePart.php:184-195 | the inner loop stores each parameter match of one header, in order, as `AddTokens` says |
| Headers.HeadersWellFormed | MessagePart.php:185-193 | header names and parameter keys in the result are lower case, and each parameter key is stored once per header |
| Headers.OnlyFirstBlock | MessagePart.php:175-199 | only the text before the first blank line counts: that block holds no blank line, and parsing it alone gives the same map |
| Headers.EmptyHeaders | MessagePart.php:199 | empty header text parses to the empty map |
| Headers.Tokens | MessagePart.php:183 | every key the parameter scanner yields is lower case |
| Headers.NextToken | MessagePart.php:183 | each step of the scanner consumes input, and a named match has a lower-cased key |
| Headers.QuotedParameter | MessagePart.php:186-190 | a segment `key="value"` is one named match holding the value without its quotes, under the lower-cased key |
| Headers.UnquotedParameter | MessagePart.php:186-188 | a segment `key=value` is one named match holding the value as written, under the lower-cased key |
| Headers.PositionalParameter | MessagePart.php:192-193 | a segment that is not `key=value` is one positional value, as written |
| Headers.AddTokensEntry | MessagePart.php:184-195 | storing one header's matches appends its positional values in order, and each key ends up with the value of its last match |
| Headers.AddToken | MessagePart.php:188-193 | storing one match adds its header's name and changes no other header |
| Headers.HeaderLine | MessagePart.php:183 | a header line splits into a non-empty `[\w.-]` name, a colon and the value, and the three pieces rebuild the line |
| Headers.Unfold | MessagePart.php:183 | removing CRLF with its indentation never lengthens the value |
| Structures.Property | MessagePart.php:282-298 | a property is read exactly when it is set and its `if` flag is absent or true, and then it is the stored value |
| Structures.SubtypeOf | MessagePart.php:312-314 | the subtype is read exactly when it is set and `ifsubtype` is not false |
| Structures.DispositionOf | MessagePart.php:328-330 | the disposition is read exactly when it is set and `ifdisposition` is not false |
| Structures.TypeOf | MessagePart.php:304-306 | `type` has no `if` flag: the getter gives the stored type |
| Structures.DecodeMime | MessagePart.php:345-353 | the loop gives the concatenation of every decoded word converted to the target charset, in order |
| Structures.DecodedWordsConcat | MessagePart.php:348-351 | decoding a word list is decoding each part of it and concatenating |
| Structures.DecodedDefaultWord | MessagePart.php:349-350 | a word without a charset, or marked "default", is converted from utf-8 |
| Structures.ParseParams | MessagePart.php:332-343 | the loop builds exactly the parameter map `ParamsOf(params)`, which `ParamsFromLookup` characterises |
| Structures.ParamsFromLookup | MessagePart.php:335-340 | each attribute is stored once, entries without an attribute are skipped, and an attribute holds the decoded value of its last entry (`null` if that entry has no value) |
| Structures.ParamValue | MessagePart.php:360-365 | a named parameter is given exactly when it is stored with a non-null value |
| Structures.TypeIndex | MessagePart.php:113-114 | the type is the index of the name in the type table, and TYPE_OTHER for a name not in it |
| Structures.TypeIndexOther | MessagePart.php:109-114 | the name "other" maps to TYPE_OTHER |
| Structures.Segments | MessagePart.php:157-159 | the segments are the pieces between `--boundary` delimiters with the first and last dropped, one fewer than the delimiters |
| Structures.SplitSegments | MessagePart.php:160-162 | each segment becomes the parsed header of its trimmed text before the first blank CRLF line, together with the rest |
| Structures.NamedParams | MessagePart.php:126-152 | the named parameters of a header become one parameter entry each, in order |
| Structures.HeaderRecord | MessagePart.php:107-153 | the record built from headers alone has the type of the first `/`-piece of the Content-Type, no children, no stashed body and no byte or line count |
| Structures.AltShape | MessagePart.php:99-170 | every fallback record is the header record with its children, stashed body and length filled in; a non-multipart record stashes the body, records its length and has no children; a multipart record stashes nothing |
| Structures.AltTypeAndSubtype | MessagePart.php:109-122 | Content-Type `a/b` gives the type of `a` and the subtype `b` |
| Structures.AltNoSubtype | MessagePart.php:109-122 | a Content-Type without `/` gives the type of the whole value and no subtype |
| Structures.AltMissingContentType | MessagePart.php:109-136 | without a Content-Type header the record has type "other", no subtype, no parameters and no children |
| Structures.AltHeaderFields | MessagePart.php:115-153 | the encoding comes from the Content-Transfer-Encoding value, the parameters from the Content-Type named parameters, and a disposition (with its parameters) exists exactly when Content-Disposition has a positional value |
| Structures.AltDefaultEncoding | MessagePart.php:137 | without a Content-Transfer-Encoding header the encoding is ENCOTHER |
| Structures.AltMultipartChildren | MessagePart.php:154-164 | a multipart record with the truthy boundary `b` has one child per segment of the message's raw body (number of `--b` delimiters minus one), and child i is the fallback record of segment i |
| Structures.AltMultipartWithoutBoundary | MessagePart.php:154-156 | a multipart record without a truthy boundary is built, with no children and no stashed body |
| Structures.AltNoneOnlyFromChildren | MessagePart.php:154-164 | with fuel left, the fallback is missing only for a multipart record with a boundary, some of whose segments ran out of fuel |
| Structures.AltIsMultipart | MessagePart.php:155-156 | a multipart record with a truthy boundary is the one built from its segments |
| Structures.AltChildrenAll | MessagePart.php:160-163 | when every segment has a record, the children are exactly those records, in order |
| Structures.AltMono | MessagePart.php:99-170 | once the fallback builds a record with some fuel, one more unit of fuel builds the same record |
| Structures.AltChildrenMono | MessagePart.php:160-163 | once every segment has a record, one more unit of fuel gives the same children |
| Structures.AltFuelSettled | MessagePart.php:99-170 | any fuel beyond one that builds a record builds the same record, so the bound does not change a result once it is large enough |
| Structures.AltOutOfFuel | MessagePart.php:154-164 | at fuel 1 a multipart record with a truthy boundary and at least one segment gets no fallback record |
| Structures.AltChildrenSnoc | MessagePart.php:160-163 | the children of one more segment are the earlier children followed by its record |
| Structures.AltChildrenMissing | MessagePart.php:160-163 | one segment without a record leaves the whole record without children |
| Parts.ChildNumber | MessagePart.php:222-224 | a child's number is `i+1`, prefixed by `partno.` when the parent's number is truthy, and is itself truthy |
| Parts.ChildNumbersDistinct | MessagePart.php:220-225 | siblings get different part numbers |
| Parts.ChildParts | MessagePart.php:220-226 | there is one child per record, in order, each numbered and classified: a nested part when multipart, or text without the disposition "attachment"; a file otherwise |
| Parts.BuildParts | MessagePart.php:220-226 | the loop over the records builds exactly `ChildParts` |
| Parts.AlternativeAt | MessagePart.php:100-106 | only the message itself (part number falsy) has a fallback; a fallback record has a parts list and no stashed body |
| Parts.ChildHasNoAlternative | MessagePart.php:101-105 | a child part never has a fallback, because its number is truthy |
| Parts.PartChildren | MessagePart.php:210-231 | a child part's children are strictly smaller records, which makes the walk finite |
| Parts.PartBodyRaw | MessagePart.php:233-247 | a child part's raw body is the body stashed in its record, else the one fetched by its number |
| Parts.ParameterLookup | MessagePart.php:355-367 | a child part's parameter is the decoded value of the last entry with that attribute, and is absent when no entry has it or that entry has no value |
| ImapFiles.TypeName | ImapFile.php:18 | `$types[type]` is the type's name for a known type and empty otherwise |
| ImapFiles.Mimetype | ImapFile.php:17-19 | the MIME type is the lower-cased `type/subtype`, and it is lower case |
| ImapFiles.Filename | ImapFile.php:21-27 | the file name is the disposition `filename`, else the title, else the clock, followed by `.` and the subtype |
| ImapFiles.FilenameFromDisposition | ImapFile.php:21-26 | a file with a `filename` disposition parameter is named by its decoded value |
| ImapFiles.FilenameFromTitle | ImapFile.php:21-35 | without `filename`, a file with a `name` parameter is named by its decoded value, `.` and the subtype |
| ImapFiles.FilenameFromClock | ImapFile.php:21-26 | a file with no parameter lists at all is named after the clock |
| ImapFiles.Size | ImapFile.php:29-31 | the size is the record's `bytes` |
| ImapFiles.IsAttachment | ImapFile.php:37-39 | a file is an attachment exactly when its readable disposition is "attachment" |
| Bodies.AddEntry | ImapMessage.php:135 | appending to a group extends that group by the entry and leaves every other group as it was |
| Bodies.VisitMeetsSpec | ImapMessage.php:123-144 | the walk puts every file it reaches into the list its disposition selects, and appends every text part it reaches to the group of its lower-cased subtype, depth first |
| Bodies.VisitAllMeetsSpec | ImapMessage.php:124-144 | the same for the loop over a list of subparts |
| Bodies.WalkSpecCompose | ImapMessage.php:124-144 | walking one list of parts and then another adds what walking their concatenation adds |
| Bodies.FilesSplit | ImapMessage.php:125-131 | every file reached is in exactly one of the two lists |
| Bodies.TextFrom | ImapMessage.php:179-181 | a part's text is its data, converted from its charset when that charset is set and differs from the server's |
| Bodies.EntryTexts | ImapMessage.php:173-178 | implodeBody on a group yields one text per entry, in order |
| Bodies.GroupTexts | ImapMessage.php:173-178 | implodeBody on the groups yields one text per group, that group's texts joined with the glue |
| Bodies.JoinGroups | ImapMessage.php:164 | when no group is empty, joining the joined groups equals joining all their entries, group by group, with the one glue |
| Bodies.RenderNothing | ImapMessage.php:158-160 | getBody gives `null` exactly when no group exists |
| Bodies.RenderRequested | ImapMessage.php:161-163 | a group for the requested type, compared lower-cased, is rendered alone without glue |
| Bodies.RenderAll | ImapMessage.php:164-168 | without such a group, every entry of every group is joined with "\r\n" + "<br/>"; types other than "html" keep that text, and "html" replaces each "\r\n", then each remaining "\n", by "<br/>" |
| Bodies.RenderHtmlHasNoLineFeed | ImapMessage.php:165-167 | for "html" without an "html" group, the result holds no line feed |
| Messages.AfterGetStructure | MessagePart.php:73-78 | the record is fetched once: a cached record is kept, and the record read afterwards is the one read first |
| Messages.AfterGetBodyRaw | MessagePart.php:233-247 | the raw body is cached once; when it is taken from the record's stash, the stash is removed and nothing else changes |
| Messages.AfterGetParameters | MessagePart.php:355-359 | the parameter map is parsed once from the record's parameters and then kept |
| Messages.AfterGetDparameters | MessagePart.php:369-373 | the disposition parameter map is parsed once and then kept |
| Messages.ParametersCached | MessagePart.php:355-381 | reading a parameter map again gives the same map and changes nothing |
| Messages.AfterGetSubject | ImapMessage.php:101-107 | getSubject caches the subject: a subject already cached is left as it was, nothing but the subject changes, and the subject read afterwards is the one that would have been decoded |
| Messages.CountParts | MessagePart.php:90 | an unset parts list counts 0, a list counts its length |
| Messages.FetchAlternative | MessagePart.php:88-97 | the record is replaced, and both parameter caches dropped, exactly when the fallback built a record whose number of parts differs from the current record's |
| Messages.ReplaceStructure | MessagePart.php:90-96 | given the record the fallback built, the record is replaced, and both parameter caches dropped, exactly when the numbers of parts differ; otherwise the record is fetched and kept, and a missing fallback changes nothing |
| Messages.GetParts | MessagePart.php:210-231 | getParts caches the parts it returns, leaves the body lists alone, and keeps a record |
| Messages.GetPartsCached | MessagePart.php:211 | a second getParts changes nothing and gives the same parts |
| Messages.GetPartsNative | MessagePart.php:213-227 | when the fallback does not replace the record, the parts are the record's own children numbered from 1; the record's list is cleared and the parameter caches are kept |
| Messages.GetPartsFallback | MessagePart.php:215-227 | when the fallback replaces the record, the parts are the fallback's children, the parameter caches are dropped and the subject is read for the warning |
| Messages.FallbackNeedsFewParts | MessagePart.php:90-215 | the fallback only replaces a record whose list has fewer than two parts, and only by one with a different count |
| Messages.GetPartsWithoutList | MessagePart.php:214 | a record without a parts list gives no parts and stays as it was |
| Messages.RootTextStable | ImapMessage.php:179-181 | the message's own text is read once: reading it again changes nothing and gives the same text |
| Messages.FetchBodyAsWrittenNotIdempotent | ImapMessage.php:123-147 | as written, a message whose multipart record the fallback replaces by a non-multipart one gets no group on the first call and one on the second |
| Messages.FetchBodyIdempotent | ImapMessage.php:115-118 | for the corrected fetchBody, a second call changes nothing |
| Messages.FetchBodyAgrees | ImapMessage.php:123-147 | the corrected fetchBody equals the one as written whenever getParts keeps a multipart record multipart |
| Messages.FetchBodyCached | ImapMessage.php:116-118 | once `_body` is set, fetchBody without `force` does nothing, as written and as corrected |
| Messages.FetchBodyMultipart | ImapMessage.php:119-144 | as written, on a multipart message whose record getParts keeps multipart, the attachment and content lists hold exactly the files reached whose disposition is, or is not, "attachment", each group gains exactly the text parts reached with its subtype, in order, and `_body` stays unset exactly when it was unset and no text part is reached |
| Messages.FetchBodySinglePart | ImapMessage.php:145-147 | as written, a message that is not multipart is filed under its lower-cased subtype, no other group changes, it has no files, and when `_body` was unset that entry is the only one |
| Messages.FetchBodyReplaced | ImapMessage.php:123-144 | as written, a multipart message whose record getParts replaces by one that is not multipart files nothing: `_body` is left as it was and both file lists are unset |
| Messages.FetchBodyReplacedIntended | ImapMessage.php:123-147 | the corrected fetchBody files such a message under its replaced record's lower-cased subtype, with no files |
| Messages.ReplacedHasNoParts | MessagePart.php:210-231 | when getParts changes a multipart record's type, the fallback replaced it by a record without parts |
| Messages.GetBodyNothing | ImapMessage.php:155-160 | getBody gives `null` exactly when fetchBody, as written, left `_body` unset or empty |
| Messages.AttachmentsAndContent | ImapMessage.php:200-214 | getAttachments and getContent of a multipart message are the files reached, split by their disposition, and together they are all the files reached |
| ImapMessages.BuildAlternative | MessagePart.php:99-170 | the method builds exactly the fallback record `Alternative` of the headers |
| ImapMessages.BuildMultipart | MessagePart.php:154-164 | the method builds the multipart record with the children of the message's raw-body segments |
| ImapMessages.BuildChildren | MessagePart.php:160-163 | the loop over the segments builds exactly their records, or none if one is missing |
| ImapMessages.AltIgnoresRootBody | MessagePart.php:155-157 | only a multipart record with a truthy boundary reads the message's raw body |
| ImapMessages.ImapMessage.constructor | ImapMessage.php:48-58 | a new message has nothing fetched |
| ImapMessages.ImapMessage.GetStructure | MessagePart.php:73-78 | returns the cached record or the session's, and caches it |
| ImapMessages.ImapMessage.GetType | MessagePart.php:304-306 | returns the record's type and caches the record |
| ImapMessages.ImapMessage.GetSubtype | MessagePart.php:312-314 | returns the record's readable subtype and caches the record |
| ImapMessages.ImapMessage.GetEncoding | MessagePart.php:308-310 | returns the record's encoding and caches the record |
| ImapMessages.ImapMessage.GetBodyRaw | MessagePart.php:233-247 | returns the raw body and leaves the caches as `AfterGetBodyRaw` says |
| ImapMessages.ImapMessage.GetData | MessagePart.php:257-259 | returns the raw body decoded as the record's encoding says |
| ImapMessages.ImapMessage.GetSubject | ImapMessage.php:101-107 | returns the decoded overview subject, once |
| ImapMessages.ImapMessage.GetParameters | MessagePart.php:355-367 | returns the parameter map, parsing it once |
| ImapMessages.ImapMessage.GetParameter | MessagePart.php:360-365 | returns one parameter from the map |
| ImapMessages.ImapMessage.GetDparameters | MessagePart.php:369-381 | returns the disposition parameter map, parsing it once |
| ImapMessages.ImapMessage.GetDparameter | MessagePart.php:374-379 | returns one disposition parameter from the map |
| ImapMessages.ImapMessage.FetchStructureAlternative | MessagePart.php:88-97 | leaves the caches and returns the flag exactly as `FetchAlternative` says |
| ImapMessages.ImapMessage.BuildRootAlternative | MessagePart.php:89 | returns the message's fallback record `AltOf` and fetches the raw body only when that record splits it |
| ImapMessages.ImapMessage.ReplaceStructure | MessagePart.php:90-96 | leaves the caches and returns the flag exactly as `Messages.ReplaceStructure` says |
| ImapMessages.ImapMessage.GetParts | MessagePart.php:210-231 | returns the parts and leaves the caches exactly as `Messages.GetParts` says |
| ImapMessages.ImapMessage.VisitParts | ImapMessage.php:124-144 | the loop over the subparts fills the lists as the walk `VisitAll` says |
| ImapMessages.ImapMessage.AddRoot | ImapMessage.php:145-147 | files the message itself under its lower-cased subtype |
| ImapMessages.ImapMessage.FetchBody | ImapMessage.php:113-148 | leaves the caches exactly as `Messages.FetchBodyAsWritten` says: the type is read once, before getParts |
| ImapMessages.ImapMessage.GetRootText | ImapMessage.php:179-181 | returns the message's own text, reading the charset first and then the data |
| ImapMessages.ImapMessage.ImplodeEntries | ImapMessage.php:171-184 | returns the entries' texts joined with the glue; the message's own text is read only if the group holds it |
| ImapMessages.ImapMessage.ImplodeGroups | ImapMessage.php:171-184 | returns the groups' texts joined with the glue, each group joined with the same glue |
| ImapMessages.ImapMessage.GetBody | ImapMessage.php:155-169 | the kind asked for defaults to "html"; returns the text and leaves the caches exactly as `Messages.GetBody` says |
| ImapMessages.ImapMessage.GetContent | ImapMessage.php:200-204 | returns the content list after fetchBody, empty when unset |
| ImapMessages.ImapMessage.GetAttachments | ImapMessage.php:210-214 | returns the attachment list after fetchBody, empty when unset |

## Left out

- `ImapAgent.php` (the connection, mailbox selection, search and the overview fetch) is not part of this model. What the core reads through it is the `Session` value.
- `getOverview`, `getHeaderInfo`, `getFrom`, `getTo`, `delete`, `getImap`, `getUid`, `getPartno` and `setBodyRAW` only read from the IMAP stream, pass values through, or act on the server. The core calls `getFrom`, `getPartno`, `getImap` and `getUid` as well, but of the getters it calls only `getSubject` changes a cache the core reads, and it is modelled.
- The warning `getParts` logs through Yii is modelled only by its effect on the caches: it reads the subject. `getFrom` and the log itself are I/O.
- `imap_*`, `base64_decode`, `quoted_printable_decode` and `mb_convert_encoding` are the function fields of `Codec`, and their internals are not modelled. `time()` is the parameter `now`.
- Headers.ParseHeaders: proved against a line parser and parameter scanner that state what the three PCRE expressions are used for, not against PCRE itself.
  - The line split at MessagePart.php:180 uses PREG_SPLIT_DELIM_CAPTURE, so the delimiter text is dropped and its capture groups come back as extra lines. The header itself is matched once, from group 1, as in the model. The value captures (groups 3 and 4, 5 or 6) are matched again as lines: for a header that is not the first line of its block, `Subject: Re: hi` also yields a header `re` whose positional list is `[hi, hi]`. The model does not produce these extra headers.
  - PHP's integer array keys are not modelled either: a numeric parameter name (`1=x`) is kept as a named parameter instead of being mixed with the positional values.
- Strings are sequences of characters. PHP's byte strings, multi-byte charsets and the locale of `strtolower` are not modelled: case mapping is ASCII.
- The fallback re-splits the message's whole raw body at every level, so a nested multipart that declares the same boundary recurses forever in PHP. The `fuel` bound stops the model there, and a record that runs out of fuel counts as "no fallback".
  - The model equals PHP only when `fuel` exceeds the fallback's nesting depth. With less, the fallback is missed: at fuel 1 a multipart record with a truthy boundary and at least one segment already gets none (`Structures.AltOutOfFuel`). Once a record is built, more fuel gives the same record (`Structures.AltFuelSettled`), so every result obtained with enough fuel is PHP's.
- Child parts (`MessagePart` and `ImapFile` objects created by `getParts`) are values, not objects. Their caches only memoise values fixed by their record and the session, and their fallback never applies. So sharing and in-place updates of a child object are not modelled.
- `count()` of an unset parts list counts 0, as PHP 7 does. PHP 8 raises an error there instead.
- `getData` of a child part through its cache and `setBodyRAW` on any part are not modelled as state changes. A child part's raw body is computed from its record and the session.

## Findings

| source | as written | input that shows it | evidently intended | confidence | as-written member | corrected member |
|---|---|---|---|---|---|---|
| ImapMessage.php:123-147 | fetchBody reads the message's type once, before getParts. getParts may then replace the record: fetchStructureAlternative substitutes one that is not multipart and has no parts. The first call then files nothing and leaves `_body` null. The next call finds `_body` still null and files the message under the new record's subtype | a message whose fetched structure is multipart with one part, and whose header reads `Content-Type: Multipart/Mixed; boundary=b`. Type names are compared case-sensitively, so the fallback record has type "other" and no parts, and its part count 0 differs from 1 | fetchBody gives the same result on every call, so the message is filed as a single part on the first call | medium; not executed | Messages.FetchBodyAsWrittenNotIdempotent | Messages.FetchBodyIdempotent |
