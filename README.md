# imsg core, modelled in Dafny

imsg reads the macOS Messages database and exports conversations as
render-ready records: messages with their reactions folded in,
attachments, contact names and group names. This project models the logic
that turns database rows into those records and proves properties of it.
The SQLite queries and file writes are not modelled; database rows and
address-book contacts are inputs.

What is modelled, one module per source file:

- `MessageDecoder` and `Utf8` (`lib/message_decoder.rb`). `Utf8` models
  same-encoding scrubbing, so `MessageDecoder` can decode `attributedBody`
  blobs:
  - the typedstream `NSString` cursor;
  - the regular-expression clean-up chain.
- `MessageText` and `Messages` (`lib/imsg/query/messages.rb`):
  - text cleaning and normalisation;
  - parsing of reaction text (`Loved "…"`);
  - tapback emoji;
  - Apple times;
  - the four-pass `fetch`. It attaches GUID-targeted and textual reactions
    to the message they answer and hides the reaction rows.
- `Chats` (`lib/imsg/query/chats.rb`):
  - handle canonicalisation;
  - the contact indexes;
  - handle→contact mapping;
  - group buckets and their signatures;
  - group display names, chosen by frequency;
  - name truncation.
- `Threads` (`lib/imsg/query/threads.rb`):
  - conversation lists per contact, per address-book contact and per group;
  - the in-place sort and reverse on an array;
  - the time window;
  - the limit.
- `AddressBook` (`lib/address_book_resolver.rb`, `lib/imsg/query/address_book.rb`):
  - contact keys;
  - E.164 phone building;
  - handle→contact search.
- `Contacts` (`lib/contacts_resolver.rb`): the vCard loader as a class
  whose map a line loop updates, plus phone normalisation and lookup.
- `Project` (`lib/imsg/project/message.rb`, `lib/imsg/project/attachment.rb`):
  the message projection, meaning the visibility rule and the attachments
  shown.
- `AttachmentUtil`, `HandleUtil`, `TextUtil`, `TimeUtil` (`lib/imsg/util/`):
  - base names and kinds;
  - truncation;
  - link escaping;
  - day labels.
- `ExportConversation` (`lib/imsg/command/export_conversation.rb`):
  - id dispatch;
  - the single-only flag check;
  - the contact chat selector;
  - slugs, with a class holding the seen-slug table;
  - renderable counts;
  - the manifest preview;
  - the attachment path rewrite;
  - the extension table.
- `PagedExport` (`lib/paged_export_generator.rb`): a class whose `Write`
  method pages the renderables into numbered chunks and builds the
  manifest.
- `AllExport` (`lib/all_export_generator.rb`): avatar initials.
- `ImageDim` (`lib/image_dim.rb`): PNG, GIF, JPEG and WebP dimension
  sniffing, both as written and as its comments intend.
- `SimpleTable` (`lib/table.rb`): column widths, padding and line layout.
- `Config` (`lib/imsg/value/config.rb`): the key-restricted merge and key
  symbolisation.
- `Str` holds shared string helpers.

Rules for reading the model:

- Library calls the code relies on are function parameters ("oracles"):
  - CFPropertyList;
  - SHA digests;
  - `Time.parse`, `strftime` and the local time zone;
  - grapheme segmentation in table widths;
  - membership in the wide scripts and blocks of table widths
    (`Unicode.wideScript`);
  - the `\p{Punct}` class of the decoder heuristic.
- Where the code and its own comments or the formats it names disagree,
  the model follows the code. The "## Findings" section lists each such
  case, with a corrected definition beside it.

## Model

| member | source | states |
|---|---|---|
| AddressBook.ContactKey | lib/address_book_resolver.rb:27 | the key is the link id when it is present and non-empty, else `pk:` followed by the pk |
| AddressBook.PkKeysDistinct | lib/address_book_resolver.rb:27 | two contacts without a link id get the same key only when their pks are equal |
| AddressBook.NewContact | lib/address_book_resolver.rb:27-28 | a new contact carries its key, link id and pk, a stripped display name, and no emails, phones or messaging addresses yet |
| AddressBook.NormalizeEmail | lib/address_book_resolver.rb:33-35 | a blank address is dropped; any other is stored as the address stripped and lower-cased, which is non-empty, has no edge whitespace and no upper-case letter |
| AddressBook.NormalizeEmailIdempotent | lib/address_book_resolver.rb:33-35 | normalising an already stored email leaves it unchanged |
| AddressBook.ComponentDigits | lib/address_book_resolver.rb:103-107 | the country, area and local parts contribute only digits |
| AddressBook.E164FromComponents | lib/address_book_resolver.rb:98-110 | a non-blank full number with digits gives `+` and its digits; otherwise the country digits, then area and local digits when both are given; no digits gives nil; any result is `+` followed by one or more digits |
| AddressBook.FirstWhere | lib/imsg/query/address_book.rb:14-17 | the search returns the first contact in book order satisfying the test (none before it does), and returns nil exactly when no contact does |
| AddressBook.ResolveSelectorToKey | lib/imsg/query/address_book.rb:8-22 | nil without an address book, without a selector, or when the selector is not `ab:` with a non-empty rest on its first line; any key returned belongs to a contact of the book |
| AddressBook.AbRestOf | lib/imsg/query/address_book.rb:10-11 | `ab:` followed by a one-line non-empty rest selects exactly that rest |
| AddressBook.ResolvePk | lib/imsg/query/address_book.rb:12-15 | `ab:pk:<n>` resolves to the key of the first contact whose pk is n, nil when there is none |
| AddressBook.ResolveLinkId | lib/imsg/query/address_book.rb:16-18 | `ab:<id>` (id not starting with `pk:`) resolves to the key of the first contact with that link id, nil when there is none |
| AddressBook.FindContactForHandleAsWritten | lib/imsg/query/address_book.rb:25-38 | the scan as written: nil without a book or handle; otherwise the first contact in book order that matches under the as-written phone comparison, nil exactly when none does |
| AddressBook.FindContactForHandle | lib/imsg/query/address_book.rb:25-38 | the first contact in book order (no earlier one matching) with an email equal to the lower-cased handle, a phone equal by text, digits or last ten digits of both, or a messaging address equal by text or as `tel:` digits; nil exactly when no contact matches |
| AddressBook.MatchesIsAsWritten | lib/imsg/query/address_book.rb:31 | every match of the corrected comparison is a match as written |
| AddressBook.ShortPhoneMatchesAnyEmail | lib/imsg/query/address_book.rb:31 | a contact whose only phone is `+44` is returned for the handle `a@b` as written, and not by the corrected scan |
| AttachmentUtil.TrimTrailingSlashes | lib/imsg/util/attachment_util.rb:9 | the trailing slashes a base name ignores are removed, and nothing else |
| AttachmentUtil.AfterLastSlash | lib/imsg/util/attachment_util.rb:9 | the position after the last `/`; no `/` follows it |
| AttachmentUtil.Basename | lib/imsg/util/attachment_util.rb:9 | `File.basename`: empty only for an empty path, `/` exactly for a path of slashes only, otherwise the whole last component of the path without its trailing slashes (slash-free, and preceded by a slash or nothing); a slash-free path is its own base name |
| AttachmentUtil.BasenameOf | lib/imsg/util/attachment_util.rb:9 | the base name of `dir/file` is `file` |
| AttachmentUtil.HideByName | lib/imsg/util/attachment_util.rb:7-14 | without a transfer name or MIME type, a file is hidden exactly when its base name ends in `.pluginpayloadattachment`, in any case |
| AttachmentUtil.KindFor | lib/imsg/util/attachment_util.rb:17-24 | the kind is always one of image, video, audio, file |
| AttachmentUtil.KindByImageMime | lib/imsg/util/attachment_util.rb:20 | an `image/` MIME type in any case gives image, whatever the name |
| AttachmentUtil.KindByMediaMime | lib/imsg/util/attachment_util.rb:20-22 | a `video/` or `audio/` MIME type never gives file |
| AttachmentUtil.KindIgnoresCase | lib/imsg/util/attachment_util.rb:18-19 | upper-casing the MIME type and the name does not change the kind |
| AttachmentUtil.KindByImageName | lib/imsg/util/attachment_util.rb:20 | with no MIME type, a name ending in `.jpg` is an image |
| AttachmentUtil.KindByVideoName | lib/imsg/util/attachment_util.rb:20-21 | with no MIME type, a name ending in `.mov` is a video |
| AttachmentUtil.KindOtherName | lib/imsg/util/attachment_util.rb:23 | with no MIME type, a name ending in `.pdf` is a file |
| AttachmentUtil.ShownName | lib/imsg/util/attachment_util.rb:9 | no name exactly when there is neither transfer name nor file name; the transfer name wins; a plain file name is its own base name |
| AttachmentUtil.Hide | lib/imsg/util/attachment_util.rb:7-14 | nil and a record with no name and no MIME type are shown; a MIME type mentioning `pluginpayload`, in any case, hides |
| Project.ProjectAttachment | lib/imsg/project/attachment.rb:9-23 | nil exactly for nil; guid, file name, transfer name, MIME type, width and height copied; `missing` true exactly when the raw flag is true; a raw kind kept, an absent one inferred as one of the four kinds |
| Project.ProjectAttachmentIdempotent | lib/imsg/project/attachment.rb:9-23 | a projected record, read back as a raw one, projects to itself |
| Project.InferredKind | lib/imsg/project/attachment.rb:12 | without a raw kind, the kind is `kind_for` of the MIME type and the transfer name, else the file name |
| Project.Visible | lib/imsg/project/message.rb:19 | the kept attachments are a subsequence none of which is hidden |
| Project.VisibleMembers | lib/imsg/project/message.rb:19 | an attachment is kept exactly when it is listed and not hidden |
| Project.VisibleAppend | lib/imsg/project/message.rb:19 | the filter keeps order: it distributes over concatenation |
| Project.ProjectAll | lib/imsg/project/message.rb:65 | the visible attachments are projected one by one, in order |
| Project.AmountAt | lib/imsg/project/message.rb:38 | an amount found is a non-empty run of digits, commas and a decimal point starting with a digit |
| Project.FirstAmount | lib/imsg/project/message.rb:38 | the leftmost amount at or after a position: one is found there and at no earlier position; none exactly when no position has one |
| Project.FirstAmountFrom | lib/imsg/project/message.rb:38 | the leftmost position at or after a start where the amount pattern matches |
| Project.PaymentAmount | lib/imsg/project/message.rb:37-41 | `$` and the leftmost amount of the text: a digit, then digits, commas or a point; only texts have one, and a text has one exactly when the pattern matches somewhere |
| Project.AmountOfNumber | lib/imsg/project/message.rb:38-39 | `$` followed by a digit-and-comma number yields that whole number |
| Project.NoDollarNoAmount | lib/imsg/project/message.rb:38 | a text without `$` has no amount |
| Project.PaymentIgnoresCase | lib/imsg/project/message.rb:31-34 | upper-casing the bundle id or the text does not change the payment test |
| Project.SentAtLabel | lib/imsg/project/message.rb:49 | the day label and the time joined by one space, the space left out when either is empty |
| Project.AuthorName | lib/imsg/project/message.rb:50 | an author name exactly for group messages not from me, resolved from the friendly names and the handle |
| Project.AttachmentsOf | lib/paged_export_generator.rb:27 | the attachments fetched for a message id, none for an id without records |
| Project.ProjectMessage | lib/imsg/project/message.rb:15-69 | nil for a nil row and exactly for an invisible one; an unreadable timestamp raises; a shown message copies id, sender, handle and timestamp, carries the stripped text and its linkified form, the reactions or [], the projected visible attachments, the payment flag and amount, the author name and the time labels |
| Project.ShownHasContent | lib/imsg/project/message.rb:22-24 | a shown message has text, a visible attachment, an associated message, or is a plain non-system row |
| Project.ShownAttachments | lib/imsg/project/message.rb:19 | every listed non-hidden attachment appears projected in a shown message, and none of its attachments is hidden |
| Project.Invisible | lib/imsg/project/message.rb:22-24 | a skipped row has no visible attachment and no associated message; a text starting with a visible character, or a plain non-system row, is never skipped |
| Project.IsPayment | lib/imsg/project/message.rb:31-34 | with neither bundle id nor text a row is no payment |
| HandleUtil.Cut | lib/imsg/util/handle_util.rb:44 | the kept head is the longest prefix of the first max characters that does not end in a blank (everything between it and max is blank), followed by `…` |
| HandleUtil.TruncateTotal | lib/imsg/util/handle_util.rb:40-45 | at most max+1 characters; a right-stripped string of at most max characters is returned as it is; a longer one is its first max characters, right-stripped, then `…`, a prefix of the input before the `…` |
| HandleUtil.SanitizeTruncate | lib/imsg/query/chats.rb:189-194 | as truncate_total, over the string stripped at both ends: short ones kept, long ones are the first max characters right-stripped, then `…` |
| HandleUtil.TruncateShort | lib/imsg/util/handle_util.rb:43 | a short string without a trailing blank is kept unchanged |
| HandleUtil.FormatHandle | lib/imsg/util/handle_util.rb:7-16 | "" for nil; a handle that is not `+` and digits is shown unchanged |
| HandleUtil.GroupPhonesNoPlus | lib/imsg/util/handle_util.rb:12 | the grouping leaves text without a `+` unchanged |
| HandleUtil.GroupPhonesDigits | lib/imsg/util/handle_util.rb:12 | the grouping keeps the digits, in order |
| HandleUtil.FormatHandleDigits | lib/imsg/util/handle_util.rb:7-16 | formatting never changes the digits of a handle |
| HandleUtil.FormatLongNumber | lib/imsg/util/handle_util.rb:10-12 | `+` and eleven or more digits shows the first eleven as `+D (DDD) DDD-DDDD`, the rest appended |
| HandleUtil.FormatShortNumber | lib/imsg/util/handle_util.rb:10-12 | `+` and fewer than eleven digits is shown unchanged |
| HandleUtil.ResolveAuthorName | lib/imsg/util/handle_util.rb:19-25 | "" for nil; a non-blank friendly name under the lower-cased handle wins; otherwise the formatted handle |
| HandleUtil.CapHandleName | lib/imsg/util/handle_util.rb:28-38 | empty and ordinary names unchanged; an `@` name is truncate_total of it to 20, a phone-like one to 16: kept right-stripped when no longer, else its first 20 (or 16) characters right-stripped, then `…` |
| HandleUtil.GroupPhones | lib/imsg/util/handle_util.rb:12 | the grouping never shortens, and text of fewer than twelve characters is unchanged |
| HandleUtil.PhoneLikeName | lib/imsg/util/handle_util.rb:33 | a phone-like name is non-empty, of digits, blanks, `().-` and at most a leading `+`; every digit string is phone-like |
| TimeUtil.DayLabel | lib/imsg/util/time_util.rb:7-17 | "" without a timestamp; an unparsable one raises; "Today" on the calendar day of now, "Yesterday" on the day of now minus 86400 s, the long date otherwise |
| TimeUtil.TimeHuman | lib/imsg/util/time_util.rb:20-23 | "" without a timestamp; an unparsable one raises; the clock text has no edge whitespace |
| TimeUtil.Iso | lib/imsg/util/time_util.rb:26-29 | "" without a timestamp; an unparsable one raises |
| TimeUtil.AppleFromIso | lib/imsg/util/time_util.rb:44-48 | nil exactly for an unparsable string; otherwise the parsed Unix time minus 978307200 |
| TimeUtil.SameInstantSameText | lib/imsg/util/time_util.rb:37-40 | a value in nanoseconds formats as the same value in seconds |
| TimeUtil.AppleFromIsoInverse | lib/imsg/util/time_util.rb:39-47 | reading back the Unix time of an Apple time gives that Apple time |
| TextUtil.EscapeSafe | lib/imsg/util/text_util.rb:19 | escaped text has no `<`, `>`, quote or apostrophe and is no shorter than the input |
| TextUtil.EscapeRoundTrip | lib/imsg/util/text_util.rb:19 | decoding the entities of escaped text gives the text back |
| TextUtil.EscapePlain | lib/imsg/util/text_util.rb:19 | text without the five special characters is left unchanged |
| TextUtil.EscapeAppend | lib/imsg/util/text_util.rb:19 | escaping distributes over concatenation |
| TextUtil.UrlEndSpec | lib/imsg/util/text_util.rb:13 | a link runs over `[^\s<]` characters and is maximal |
| TextUtil.NextMatch | lib/imsg/util/text_util.rb:13-18 | a match lies inside the text after the cursor and is non-empty |
| TextUtil.NextMatchFound | lib/imsg/util/text_util.rb:13 | a match starts with `http://`, `https://` or `www.` in any case and runs to the end of its `[^\s<]+` run |
| TextUtil.NextMatchLeftmost | lib/imsg/util/text_util.rb:13-16 | no scheme starts between the cursor and the match; there is no match exactly when no scheme starts after the cursor |
| TextUtil.TrimEnd | lib/imsg/util/text_util.rb:21-22 | the maximal trailing run of `)].,!?:;` is cut |
| TextUtil.TrimSplits | lib/imsg/util/text_util.rb:21-22 | trimmed link and trailer together are the match, and trimming again cuts nothing |
| TextUtil.RenderStep | lib/imsg/util/text_util.rb:19-28 | one turn of the scan emits the escaped gap when non-empty, then the anchor and its trailer, then continues after the match |
| TextUtil.RenderTail | lib/imsg/util/text_util.rb:29 | after the last match the escaped remainder is emitted when non-empty |
| TextUtil.Linkify | lib/imsg/util/text_util.rb:10-31 | the scan loop builds exactly the linkified text of its input |
| TextUtil.PiecesCover | lib/imsg/util/text_util.rb:16-30 | gaps and links together are the whole text, in order |
| TextUtil.PiecesAreUrls | lib/imsg/util/text_util.rb:13 | every link piece is a URL |
| TextUtil.MatchIsUrl | lib/imsg/util/text_util.rb:13 | every match is a URL |
| TextUtil.NoUrlOnlyEscaped | lib/imsg/util/text_util.rb:12-29 | a text without a match becomes its escaped form |
| TextUtil.HrefHasScheme | lib/imsg/util/text_util.rb:23 | the href starts with `http://` or `https://`, being the link itself or `https://` and the link |
| Contacts.DecodeValue | lib/contacts_resolver.rb:56-58 | a decoded value has no edge whitespace |
| Contacts.DecodePlain | lib/contacts_resolver.rb:56-58 | a value without backslashes is only stripped |
| Contacts.NormalizePhone | lib/contacts_resolver.rb:60-65 | nil exactly when there are no digits; otherwise `+` and the digits, a leading 1 of an eleven-digit number dropped |
| Contacts.NormalizePhoneIdempotent | lib/contacts_resolver.rb:60-65 | a normalised phone normalises to itself |
| Contacts.NormalizePhoneCountryOne | lib/contacts_resolver.rb:63 | a ten-digit number with a leading country code 1 normalises as the ten digits do |
| Contacts.Lines | lib/contacts_resolver.rb:18-20 | the lines looked at are the stripped, non-empty ones |
| Contacts.FieldValue | lib/contacts_resolver.rb:24-31 | the value of a field line is the non-empty text after a colon |
| Contacts.EmailOf | lib/contacts_resolver.rb:26-28 | an EMAIL address is non-empty and lower-cased |
| Contacts.TelOf | lib/contacts_resolver.rb:31-35 | a TEL value yields `+` and digits, or nothing |
| Contacts.Classify | lib/contacts_resolver.rb:21-40 | each line is read as a reset, a name, an email, a phone or nothing, the addresses normalised |
| Contacts.Kinds | lib/contacts_resolver.rb:18-40 | every line is classified, in order |
| Contacts.NameInForce | lib/contacts_resolver.rb:17-39 | the current name is that of the last FN line with no BEGIN or END line after it; without one there is no current name |
| Contacts.NoneAfterReset | lib/contacts_resolver.rb:22-39 | after BEGIN or END no earlier name is in force, so no name carries over to the next card |
| Contacts.EntryKeys | lib/contacts_resolver.rb:30-37 | a key is in the map exactly when it was there before or some EMAIL or TEL line gives it; other keys keep their values |
| Contacts.EntryValue | lib/contacts_resolver.rb:29-37 | the last line giving a key decides its value: the name in force there, else the address itself |
| Contacts.ContactsResolver.constructor | lib/contacts_resolver.rb:11-13 | a new resolver has an empty map |
| Contacts.ContactsResolver.LoadVcard | lib/contacts_resolver.rb:16-42 | the line loop leaves the map that the run of the classified lines over the old map gives |
| Contacts.ContactsResolver.Lookup | lib/contacts_resolver.rb:44-52 | nil for nil; an `@` handle is looked up lower-cased, any other one by its normalised phone; a result is a stored name |
| Contacts.LookupByDigits | lib/contacts_resolver.rb:46-51 | two phone handles with the same digits look up the same name |
| Contacts.ReplaceAll | lib/contacts_resolver.rb:56-58 | a replacement no longer than the pattern never lengthens the text; one of the same length keeps its length |
| Contacts.NameOf | lib/contacts_resolver.rb:23-24 | an FN line is `FN` then `:` or `;` and text; its name has no edge whitespace; every `FN:` line with text gives one |
| Contacts.Step | lib/contacts_resolver.rb:21-39 | an EMAIL or TEL key is stored under the current name or itself and nothing else changes; BEGIN and END clear the name, FN sets it, other lines keep it |
| Contacts.Run | lib/contacts_resolver.rb:17-40 | keys are never removed; after a BEGIN or END line there is no current name, after an FN line it is that line's name |
| MessageDecoder.PlaceholderAt | lib/message_decoder.rb:99 | a `)?at_<digits>_<hex or dash>` match found at a position is non-empty and inside the string |
| MessageDecoder.StreamtypedAt | lib/message_decoder.rb:36 | a `\bstreamtyped\b` match is non-empty and inside the string |
| MessageDecoder.DollarWordAt | lib/message_decoder.rb:37 | a `\$[a-zA-Z0-9_]+` match is non-empty and inside the string |
| MessageDecoder.NSWordAt | lib/message_decoder.rb:38 | a `\bNS\w+\b` match is non-empty and inside the string |
| MessageDecoder.KimWordAt | lib/message_decoder.rb:39 | a `\b__kIM\w+\b` match is non-empty and inside the string |
| MessageDecoder.GsubNoMatch | lib/message_decoder.rb:35-40 | a pattern that matches nowhere leaves the string unchanged |
| MessageDecoder.GsubDeletes | lib/message_decoder.rb:47 | replacing matches with nothing only deletes characters |
| MessageDecoder.ControlsToSpace | lib/message_decoder.rb:35 | every C0 control and DEL becomes a space, every other character is kept in place |
| MessageDecoder.CleanPayload | lib/message_decoder.rb:96-99 | the cleaned payload has only single spaces as whitespace and no edge whitespace |
| MessageDecoder.CleanPayloadOfText | lib/message_decoder.rb:96-99 | text already squished and free of placeholders survives encoding and cleaning unchanged |
| MessageDecoder.ExtractNSString | lib/message_decoder.rb:69-105 | nil when the blob has no `NSString` marker; a result is non-empty, squished and has no edge whitespace |
| MessageDecoder.PayloadRange | lib/message_decoder.rb:78-93 | the payload starts after the marker, its metadata and its length prefix, and lies within the blob |
| MessageDecoder.NonEmpty | lib/message_decoder.rb:101 | an empty result becomes nil, any other is kept |
| MessageDecoder.FirstMarker | lib/message_decoder.rb:73 | the cursor is placed at the first occurrence of the marker |
| MessageDecoder.ShortLengthRange | lib/message_decoder.rb:81-93 | a length byte other than 0x81 is the length, the payload right after it; nil when it would run past the end |
| MessageDecoder.LongLengthRange | lib/message_decoder.rb:83-93 | 0x81 announces a two-byte little-endian length with the payload after it; nil when those bytes are missing or the payload runs past the end |
| MessageDecoder.ShortPrefix | lib/message_decoder.rb:89 | the one-byte prefix holds the length |
| MessageDecoder.LongPrefix | lib/message_decoder.rb:85 | the three-byte prefix is 0x81 and the length in little-endian order |
| MessageDecoder.FramedShort | lib/message_decoder.rb:69-101 | a blob framed with marker, five metadata bytes and a one-byte length yields exactly its cleaned payload |
| MessageDecoder.FramedLong | lib/message_decoder.rb:69-101 | the same with a two-byte length |
| MessageDecoder.FastPathRoundTripShort | lib/message_decoder.rb:69-101 | encoding squished text in such a frame and decoding it gives the text back |
| MessageDecoder.FastPathRoundTripLong | lib/message_decoder.rb:69-101 | the same with a two-byte length |
| MessageDecoder.FirstPlainString | lib/message_decoder.rb:23 | nothing exactly when no object is a string (text or data) not starting with `$`; otherwise the first such object |
| MessageDecoder.PlistTier | lib/message_decoder.rb:16-28 | the plist tier only yields non-empty text |
| MessageDecoder.PlistPrefersNSString | lib/message_decoder.rb:21-24 | a dictionary with an `NSString` string yields it, or nothing when it is empty |
| MessageDecoder.PlistObjectsFirst | lib/message_decoder.rb:21-24 | without `NSString` or `NS.string`, the tier yields the first plain string of `$objects`, data counting as a string |
| MessageDecoder.FirstPlainAt | lib/message_decoder.rb:23 | `find` returns the object at the first index that is a plain string |
| MessageDecoder.PlistDataBeforeText | lib/message_decoder.rb:23 | a data object listed before the text is what the tier yields, as its bytes |
| MessageDecoder.Cleaned | lib/message_decoder.rb:32-41 | the cleaned text has single spaces as its only whitespace |
| MessageDecoder.LetterCount | lib/message_decoder.rb:44 | the letter count is at most the length |
| MessageDecoder.HeuristicCandidates | lib/message_decoder.rb:43 | every candidate run is at least six characters long |
| MessageDecoder.Polished | lib/message_decoder.rb:45-47 | the polished text has single spaces as its only whitespace |
| MessageDecoder.HeuristicTier | lib/message_decoder.rb:30-51 | the heuristic yields non-empty squished text, never for a cleaned text starting with `bplist`; with no candidate runs it is the polished cleaned text, otherwise the polished most sentence-like run, nothing when that is empty |
| MessageDecoder.HeuristicPicksMostSentenceLike | lib/message_decoder.rb:44 | `max_by` over `[letters, length]` picks the run with the most letters, the longest among those, every earlier run ranking strictly lower |
| MessageDecoder.MostSentenceLikeUnique | lib/message_decoder.rb:44 | at most one run is the most sentence-like, so the heuristic's choice is unique |
| MessageDecoder.ByteChars | lib/message_decoder.rb:55 | a binary string has one character per byte, of the byte's value |
| MessageDecoder.LastResortCandidates | lib/message_decoder.rb:55-57 | every candidate is printable ASCII, at least 4 long, has a letter and does not start with `$`, `NS`, `IM` or `__kIM` |
| MessageDecoder.StripKeepsLetter | lib/message_decoder.rb:59 | stripping a run with a letter leaves it non-empty |
| MessageDecoder.LongestPicked | lib/message_decoder.rb:58 | `max_by(&:length)` picks a longest candidate, every earlier one being shorter |
| MessageDecoder.LastResort | lib/message_decoder.rb:53-62 | a result exactly when there is a candidate; it is a longest candidate, every earlier one shorter, stripped, and non-empty |
| MessageDecoder.FirstLongestUnique | lib/message_decoder.rb:58 | at most one candidate is the first longest, so the last resort's choice is unique |
| MessageDecoder.DecodeAttributedBody | lib/message_decoder.rb:6-65 | nil for nil; tiers tried in the order typedstream, plist, heuristic, last resort, the first non-empty result winning, the last resort exactly when the other three give nothing; nil when all fail |
| MessageText.CleanText | lib/imsg/query/messages.rb:134-142 | nil for nil; a result is non-empty, has no edge whitespace and no control character |
| MessageText.CleanedChars | lib/imsg/query/messages.rb:137-139 | after the three deletions no control character is left |
| MessageText.CleanTextChars | lib/imsg/query/messages.rb:137-141 | a cleaned text has no U+FFFC and only characters of the input |
| MessageText.CleanTextFixed | lib/imsg/query/messages.rb:134-142 | a text already clean is returned unchanged |
| MessageText.NormChar | lib/imsg/query/messages.rb:146-147 | a character comes out lower-case, with every dash as `-` and every curly quote as `"`; whitespace is kept |
| MessageText.NormChars | lib/imsg/query/messages.rb:146-147 | the per-character maps apply at every position |
| MessageText.Normalize | lib/imsg/query/messages.rb:144-150 | the normal form has single spaces as its only whitespace and no edge whitespace |
| MessageText.NormalizeText | lib/imsg/query/messages.rb:144-150 | nil exactly for nil, else the normal form |
| MessageText.NormalizeIdempotent | lib/imsg/query/messages.rb:144-150 | normalising twice is normalising once |
| MessageText.NormalizeIgnoresCase | lib/imsg/query/messages.rb:146 | lower-casing first does not change the normal form |
| MessageText.CloseQuote | lib/imsg/query/messages.rb:154 | the closing quote found ends the line, up to trailing whitespace |
| MessageText.QuotedAt | lib/imsg/query/messages.rb:154-171 | a quoted group is non-empty and on one line |
| MessageText.CloseQuoteOneLine | lib/imsg/query/messages.rb:154 | the lazily matched group holds no newline |
| MessageText.CloseQuoteFinds | lib/imsg/query/messages.rb:154 | the first quote mark from which only whitespace runs to a line end closes the group |
| MessageText.VerbAt | lib/imsg/query/messages.rb:154 | a verb found matches at that position, ignoring case |
| MessageText.VerbFormAt | lib/imsg/query/messages.rb:154-166 | the first pattern gives one of the six emojis and a non-empty one-line quote |
| MessageText.FirstVerbForm | lib/imsg/query/messages.rb:154 | the first pattern's match at the leftmost line start where it matches |
| MessageText.ReactedFormAt | lib/imsg/query/messages.rb:168-171 | the second pattern gives a non-empty reaction and a non-empty one-line quote |
| MessageText.ReactedFrom | lib/imsg/query/messages.rb:168 | the group start backs off from the end of the blank run after `Reacted` one blank at a time, the first start that fits wins; its group is non-empty |
| MessageText.FirstReactedForm | lib/imsg/query/messages.rb:168 | the second pattern's match at the leftmost line start where it matches |
| MessageText.ParseReactionText | lib/imsg/query/messages.rb:152-174 | nil for nil; a reaction found carries a non-empty one-line quote |
| MessageText.ReactedGivesBackBlank | lib/imsg/query/messages.rb:168-171 | `Reacted   to "x"` gives an empty reaction and `x`: the blank run gives back one blank to the group |
| MessageText.NoQuoteNoReactedFrom | lib/imsg/query/messages.rb:168 | without a quote mark no group start fits |
| MessageText.VerbAtFinds | lib/imsg/query/messages.rb:154-155 | a verb in any case is recognised as itself |
| MessageText.QuotedAtFinds | lib/imsg/query/messages.rb:154 | a text in quote marks to the end is the quoted group |
| MessageText.ParseVerbForm | lib/imsg/query/messages.rb:154-166 | `<Verb> "<q>"`, the verb in any case, gives the verb's emoji and q |
| MessageText.VerbFormOf | lib/imsg/query/messages.rb:154-166 | the same at the start of the text |
| MessageText.ParseVerbFirst | lib/imsg/query/messages.rb:154-166 | when the first pattern matches, it decides |
| MessageText.ParseFallsBack | lib/imsg/query/messages.rb:168-171 | otherwise the second pattern's match decides, the reaction stripped |
| MessageText.NoQuoteNoReaction | lib/imsg/query/messages.rb:173 | a text without a quote mark gives neither reaction nor quote |
| MessageText.SingleLineNoVerbForm | lib/imsg/query/messages.rb:154 | a one-line text has no line start after its first position |
| MessageText.ReactedMissesVerbForm | lib/imsg/query/messages.rb:154 | a one-line text starting with R does not match the verb pattern |
| MessageText.ParseReactedForm | lib/imsg/query/messages.rb:168-171 | `Reacted <e> to "<q>"` gives e and q |
| MessageText.ReactedFormOf | lib/imsg/query/messages.rb:168-171 | the same for the second pattern alone |
| MessageText.TapbackEmoji | lib/imsg/query/messages.rb:176-187 | an emoji exactly for the types 2000 to 2005: 2000 👍 (liked), 2001 ❤️ (loved), 2002 👎, 2003 😆, 2004 ‼️, 2005 ❓, read from the verb table; nil for every other type |
| MessageText.TapbackEmojisDistinct | lib/imsg/query/messages.rb:177-183 | no two tapback types share an emoji |
| MessageText.AppleSeconds | lib/imsg/query/messages.rb:128-129 | values above 10^12 are nanoseconds, divided by 10^9; others are seconds |
| MessageText.AppleToUnix | lib/imsg/query/messages.rb:128-130 | seconds get 978307200 added; nanoseconds (above 10^12) get 978307200·10^9 added and are scaled down by 10^9 |
| MessageText.ConvertAppleTime | lib/imsg/query/messages.rb:126-132 | nil exactly for nil; a time in seconds shows the Unix second t + 978307200, one in nanoseconds the whole second (t + 978307200·10^9) div 10^9 |
| MessageText.FloorOfNanos | lib/imsg/query/messages.rb:129-131 | the whole second of a nanosecond count is its integer quotient by 10^9 |
| MessageText.AppleFromUnix | lib/imsg/query/messages.rb:120-124 | nil for an unparsable string; it undoes the conversion of any Apple time in seconds, and gives one in nanoseconds back in seconds |
| MessageText.AppleRoundTrip | lib/imsg/query/messages.rb:120-132 | converting an Apple time in seconds, negative ones included, to Unix time and back gives it back |
| MessageText.UnixRoundTrip | lib/imsg/query/messages.rb:120-132 | a Unix time whose Apple time is a whole second converts back to itself |
| MessageText.NanosAgreeWithSeconds | lib/imsg/query/messages.rb:128-131 | an instant stored in nanoseconds, at any fraction of its second, shows the same text as the same instant stored in seconds |
| Messages.TapbackEmojiOf | lib/imsg/query/messages.rb:52 | a non-blank stored emoji is used as is; otherwise there is an emoji exactly for the types 2000 to 2005 |
| Messages.FirstPartPrefix | lib/imsg/query/messages.rb:51 | the leftmost `p:<digit>/` found starts at or after the given position, and none comes before it |
| Messages.TargetGuid | lib/imsg/query/messages.rb:51 | only a `p:<digit>/` prefix of four characters is ever removed |
| Messages.TargetGuidOfPart | lib/imsg/query/messages.rb:51 | `p:<digit>/<rest>` targets rest |
| Messages.TargetGuidPlain | lib/imsg/query/messages.rb:51 | a GUID without part prefix is its own target |
| Messages.EventOf | lib/imsg/query/messages.rb:54 | a recorded tapback has a non-empty emoji, and is from me exactly when is_from_me is 1 |
| Messages.EventsSnoc | lib/imsg/query/messages.rb:50-54 | one more row adds its tapback to its target's events exactly when it is recorded for that target |
| Messages.TapbackMapIsEvents | lib/imsg/query/messages.rb:49-54 | the map built holds, for each target, the events recorded for it in row order, and holds a key exactly when there is one |
| Messages.Mark | lib/imsg/query/messages.rb:55 | the first pass hides exactly the recorded tapbacks and changes nothing else of a row |
| Messages.CollectTapbacks | lib/imsg/query/messages.rb:48-56 | the map equals the events by target, and each row is marked as the first pass marks it |
| Messages.FindEmoji | lib/imsg/query/messages.rb:106 | finds the first reaction with a given emoji, or reports that none has it |
| Messages.EntryOf | lib/imsg/query/messages.rb:106 | a reaction with the emoji, or none exactly when no reaction carries it |
| Messages.CountSnoc | lib/imsg/query/messages.rb:76 | one more tapback adds one to the count of its emoji only |
| Messages.AnyThemSnoc | lib/imsg/query/messages.rb:74 | someone else reacted with e exactly when earlier or this tapback says so |
| Messages.EntryAt | lib/imsg/query/messages.rb:72 | among distinct emojis the entry of e is the one carrying it |
| Messages.TallyDistinct | lib/imsg/query/messages.rb:72 | grouping keeps one entry per emoji |
| Messages.AnyThemCounted | lib/imsg/query/messages.rb:74 | a reaction by someone else is counted |
| Messages.TallyEntry | lib/imsg/query/messages.rb:72-77 | one tapback leaves other emojis' entries alone and adds one to its own, the reactor becoming them when it is not from me |
| Messages.GroupEntry | lib/imsg/query/messages.rb:72-77 | grouping gives one entry per emoji; the entry of e counts e's tapbacks and is them exactly when one of them is not from me |
| Messages.TotalUpdate | lib/imsg/query/messages.rb:76 | replacing one reaction changes the total by the difference of counts |
| Messages.TotalAppend | lib/imsg/query/messages.rb:76 | appending one reaction adds its count to the total |
| Messages.GroupTotal | lib/imsg/query/messages.rb:72-77 | the counts of the groups add up to the number of tapbacks |
| Messages.Annotate | lib/imsg/query/messages.rb:63-78 | only the author handle and the reactions of a row change; a row without a known handle keeps its handle, one without reactions recorded keeps its reactions |
| Messages.IndexKey | lib/imsg/query/messages.rb:79-80 | only a non-empty normal form is indexed |
| Messages.TextIndexSpec | lib/imsg/query/messages.rb:79-80 | the text index lists, for each normal form, exactly the rows that have it, in increasing row order, and no key is empty |
| Messages.AnnotateRows | lib/imsg/query/messages.rb:59-81 | the second pass annotates each row and returns the text index of the rows |
| Messages.Render | lib/imsg/query/messages.rb:84-92 | the third pass sets the local send time from the clock and touches only time and text |
| Messages.RenderStandard | lib/imsg/query/messages.rb:86-91 | with the standard decoder and cleaner, a text is cleaned, no text and no body stays nil, and a text kept is non-empty, starts with no strip character and holds no control character |
| Messages.RenderRows | lib/imsg/query/messages.rb:84-92 | each row becomes its rendered form |
| Messages.LatestNotAfter | lib/imsg/query/messages.rb:102 | the candidate picked is dated no later than the reaction, is at least as late as every such candidate and is the first of the latest; none exactly when no candidate qualifies |
| Messages.PickTarget | lib/imsg/query/messages.rb:102-103 | the target is a candidate, the first one when none is dated no later, else one dated no later |
| Messages.Quote | lib/imsg/query/messages.rb:96-101 | a quote needs a text, no associated GUID, a parsed reaction and a non-empty candidate list, looked up by the normalised quoted text |
| Messages.TextualTarget | lib/imsg/query/messages.rb:95-103 | there is a target exactly when there is a quote, and it is one of its candidates |
| Messages.AddTextualTotal | lib/imsg/query/messages.rb:105-111 | one textual reaction keeps emojis distinct and adds one to the total |
| Messages.AddTextualEntry | lib/imsg/query/messages.rb:106-111 | other emojis' entries stay; e's count grows by one or e starts at one with the sender as reactor |
| Messages.TextualStep | lib/imsg/query/messages.rb:95-114 | one step keeps the number of rows |
| Messages.Textual | lib/imsg/query/messages.rb:95-114 | the fourth pass keeps the number of rows |
| Messages.TextualReactions | lib/imsg/query/messages.rb:95-114 | the rows become the fourth pass's result |
| Messages.LatestStable | lib/imsg/query/messages.rb:102 | the pick depends only on the dates, which the fourth pass keeps |
| Messages.TargetStable | lib/imsg/query/messages.rb:96-103 | a row's target depends only on what the fourth pass keeps |
| Messages.TextualStepEffect | lib/imsg/query/messages.rb:104-113 | one step hides exactly the reaction text that found a target and changes the reactions of the target only |
| Messages.TextualFixed | lib/imsg/query/messages.rb:95-114 | the fourth pass changes nothing but reactions and the hidden flag |
| Messages.TextualHides | lib/imsg/query/messages.rb:112 | after the fourth pass a row is hidden exactly when it was, or it is a reaction text that found a target |
| Messages.TextIndexSameText | lib/imsg/query/messages.rb:79-80 | the text index depends on the texts alone |
| Messages.Rendered | lib/imsg/query/messages.rb:48-92 | the first three passes keep the number of rows |
| Messages.FetchSpec | lib/imsg/query/messages.rb:48-116 | fetch keeps the number of rows |
| Messages.Fetch | lib/imsg/query/messages.rb:48-116 | the four passes in place give the rows of the specification |
| Messages.FetchHides | lib/imsg/query/messages.rb:48-114 | a row fetch returns hidden was hidden before, is a recorded tapback, or is a reaction text that found a target |
| Messages.RenderedReactions | lib/imsg/query/messages.rb:71-78 | a row's reactions are the groups of its tapbacks when it has any, else unchanged |
| Messages.TargetQuoted | lib/imsg/query/messages.rb:96-103 | a reaction text's target has, before rendering, the normal form of the quoted text |
| Messages.Target | lib/imsg/query/messages.rb:51 | the target is the associated GUID, or that GUID four characters shorter |
| Messages.TapbackMap | lib/imsg/query/messages.rb:49-54 | every key of the map holds at least one event |
| Messages.Tally | lib/imsg/query/messages.rb:72-77 | one tapback keeps each earlier emoji in its place and adds at most one group, a new emoji's group counting one with its sender as reactor |
| Messages.Group | lib/imsg/query/messages.rb:72-77 | never more groups than tapbacks, and at least one when there is a tapback |
| Messages.TextIndex | lib/imsg/query/messages.rb:79-80 | no key is empty and every key lists at least one row |
| Messages.AddTextual | lib/imsg/query/messages.rb:106-111 | a textual reaction keeps every earlier emoji and reactor in its place and adds at most one entry, counting one with its sender as reactor |
| Chats.Compact | lib/imsg/query/chats.rb:25 | the non-NULL handles, never more than there were |
| Chats.IsGroupIff | lib/imsg/query/chats.rb:25-26 | a chat is a group exactly when at least two participant handles are not NULL; none is left exactly when all are NULL |
| Chats.CanonicalizeHandleForGroup | lib/imsg/query/chats.rb:79-85 | a lower-cased handle with `@` is kept; otherwise the digits of the uncanonicalised id (or the handle), cut to the last ten and prefixed with `+`, or the lower-cased handle when there are none |
| Chats.PlusDigitsCanonical | lib/imsg/query/chats.rb:79-85 | `+` and one to ten digits is already canonical |
| Chats.CanonicalizeIdempotent | lib/imsg/query/chats.rb:79-85 | canonicalising a canonical key again changes nothing |
| Chats.ApplyKeys | lib/imsg/query/chats.rb:139-165 | the index keys after a run of writes are the earlier keys and the keys written |
| Chats.ApplyValues | lib/imsg/query/chats.rb:139-165 | every value left was there before or was written |
| Chats.BuildContactIndexes | lib/imsg/query/chats.rb:136-168 | the loop over contacts builds exactly the two indexes the write lists describe |
| Chats.IndexEmails | lib/imsg/query/chats.rb:141 | each address is stored lower-cased, overwriting |
| Chats.IndexIms | lib/imsg/query/chats.rb:144-154 | a `tel:` or phone-shaped IM id joins the phone-like list, any other non-blank one is stored lower-cased |
| Chats.IndexPhones | lib/imsg/query/chats.rb:155-165 | each phone-like string is stored lower-cased and its digit variants written |
| Chats.IndexDigits | lib/imsg/query/chats.rb:157-164 | the full digits overwrite; the shorter variants and the last ten only fill keys left free |
| Chats.IndexDropVariants | lib/imsg/query/chats.rb:160-163 | the `1.upto(3)` loop writes the variants of at least seven digits, each only into a free key |
| Chats.DigitWritesShape | lib/imsg/query/chats.rb:159-164 | the writes follow the variants in order; only the first, the full digits, overwrites |
| Chats.DropVariantsSuffix | lib/imsg/query/chats.rb:162 | every variant is a suffix of the digits |
| Chats.ContactIdForced | lib/imsg/query/chats.rb:141-156 | each address and phone-like string of a contact is written, lower-cased, overwriting |
| Chats.IdIndexOwnAddress | lib/imsg/query/chats.rb:141-156 | after a contact is indexed its addresses map to its key |
| Chats.DigitsIndexOwnPhone | lib/imsg/query/chats.rb:159 | after a contact is indexed its phones' digits map to its key |
| Chats.DigitsIndexFillsVariant | lib/imsg/query/chats.rb:162-164 | a shorter variant no earlier contact took maps to this contact |
| Chats.DigitsIndexKeepsEarlier | lib/imsg/query/chats.rb:162-164 | a key an earlier contact holds survives a contact without those digits |
| Chats.IndexValuesAreKeys | lib/imsg/query/chats.rb:136-168 | every value in either index is the key of one of the contacts |
| Chats.DigitsIndexKeys | lib/imsg/query/chats.rb:157-164 | the digits index holds only non-empty digit strings |
| Chats.FirstHitFinds | lib/imsg/query/chats.rb:176-185 | a lookup finds exactly when some candidate is a key, and then returns the value under the first candidate that is a key |
| Chats.MapHandleToContactKey | lib/imsg/query/chats.rb:170-187 | an exact lower-cased hit wins; otherwise the value under the first indexed digit variant of the handle, else under the first indexed variant of the uncanonicalised id, else nil; a result is a stored value |
| Chats.MapHandleSound | lib/imsg/query/chats.rb:170-187 | a handle is only ever mapped to the key of a contact |
| Chats.IdIndexHasAddress | lib/imsg/query/chats.rb:141-156 | every address of every contact is in the id index |
| Chats.DigitsIndexHasPhone | lib/imsg/query/chats.rb:157-164 | every variant of every contact phone is in the digits index |
| Chats.MapHandleFindsAddress | lib/imsg/query/chats.rb:172-173 | a handle equal to a contact address, ignoring case, is always mapped |
| Chats.MapHandleFindsLast | lib/imsg/query/chats.rb:136-173 | it is mapped to the last contact listing that address |
| Chats.MapHandleFindsPhone | lib/imsg/query/chats.rb:174-178 | a handle with the digits of a contact phone is always mapped |
| Chats.InlineKey | lib/imsg/query/chats.rb:50-54 | the inline lookup gives the handle itself or a stored value |
| Chats.InlineKeyVersusMap | lib/imsg/query/chats.rb:170-187 | the inline lookup and `map_handle_to_contact_key` agree on exact and full-digit hits, and the inline one falls back to the handle |
| Chats.InlineSkipsDropVariants | lib/imsg/query/chats.rb:179-183 | the inline lookup tries no shorter variant: an eight-digit handle with only its last seven indexed is mapped by one and not by the other |
| Chats.ParticipantKey | lib/imsg/query/chats.rb:49-57 | without indexes the canonical handle; with them the handle or a stored value |
| Chats.InsertSorted | lib/imsg/query/chats.rb:58 | inserting keeps a strictly sorted list and adds just the one element |
| Chats.SortedUniq | lib/imsg/query/chats.rb:58 | `uniq.sort` gives the same elements, strictly ascending |
| Chats.SortedUnique | lib/imsg/query/chats.rb:58 | a strictly sorted list is fixed by its elements |
| Chats.Signature | lib/imsg/query/chats.rb:59 | a signature has at most twelve characters |
| Chats.SignatureOfSameKeys | lib/imsg/query/chats.rb:58-59 | chats whose participants have the same keys get the same sorted keys and the same signature |
| Chats.RawKeys | lib/imsg/query/chats.rb:49-57 | one key per participant |
| Chats.SigIndex | lib/imsg/query/chats.rb:60 | finds the bucket of a signature or reports there is none |
| Chats.Entries | lib/imsg/query/chats.rb:47-63 | one entry per chat row, in order |
| Chats.BucketsSigsDistinct | lib/imsg/query/chats.rb:60-65 | no two buckets share a signature |
| Chats.AddChatKeeps | lib/imsg/query/chats.rb:60-61 | adding a chat keeps every bucket's signature, keys and chats |
| Chats.AddChatPlaces | lib/imsg/query/chats.rb:60-61 | the chat lands in the bucket of its signature |
| Chats.BucketsHoldChat | lib/imsg/query/chats.rb:47-65 | every chat is in the bucket of its own signature |
| Chats.BucketChatsHaveSig | lib/imsg/query/chats.rb:47-65 | every chat in a bucket has that bucket's signature |
| Chats.BucketKeysOfFirst | lib/imsg/query/chats.rb:60 | a bucket keeps the keys of the first chat with its signature |
| Chats.BucketNamesNonBlank | lib/imsg/query/chats.rb:62-63 | only non-blank display names are collected |
| Chats.ComputeGroupBuckets | lib/imsg/query/chats.rb:30-66 | the loop over the group chats builds the buckets the entries describe, in first-seen order |
| Chats.AddToBuckets | lib/imsg/query/chats.rb:60-63 | one chat is added as the bucket fold adds it, with the position map kept right |
| Chats.GroupKeys | lib/imsg/query/chats.rb:49-58 | the keys of one chat are its participants' keys, distinct and sorted |
| Chats.SameKeysSameBucket | lib/imsg/query/chats.rb:49-63 | two chats whose participants have the same keys share a bucket |
| Chats.CountOf | lib/imsg/query/chats.rb:92-99 | a count never exceeds the number of names |
| Chats.FirstOf | lib/imsg/query/chats.rb:94-101 | the first position of a name, or the end |
| Chats.MostFrequentUnique | lib/imsg/query/chats.rb:91-94 | the most frequent non-blank name, ties to the first seen, is unique |
| Chats.ChooseFromNames | lib/imsg/query/chats.rb:88-94 | for plain names the result is the most frequent non-blank name, first seen on ties, or nil |
| Chats.NoneCounted | lib/imsg/query/chats.rb:93 | no name counted gives nil |
| Chats.FreqCounts | lib/imsg/query/chats.rb:92 | the hash counts exactly the non-blank names |
| Chats.FreqOrderFirst | lib/imsg/query/chats.rb:92-94 | the hash's keys come in the order of their first occurrence |
| Chats.CountNames | lib/imsg/query/chats.rb:91-92 | one pass fills the frequency hash and its key order |
| Chats.CountOne | lib/imsg/query/chats.rb:92 | one turn of the pass: a non-blank name's count goes up by one, and a name counted for the first time joins the key order |
| Chats.MaxByCount | lib/imsg/query/chats.rb:94 | `max_by` gives the first position of a highest count |
| Chats.MaxIsMostFrequent | lib/imsg/query/chats.rb:94 | that position holds the most frequent name |
| Chats.NamesOf | lib/imsg/query/chats.rb:99 | the names of the pairs, in order |
| Chats.RecentIndex | lib/imsg/query/chats.rb:96 | `max_by` on times, a missing time below all others, gives the first latest pair |
| Chats.ChooseFromPairs | lib/imsg/query/chats.rb:88-101 | for pairs the latest pair's name when it is non-blank, else the most frequent non-blank name, else nil |
| Chats.LatestNamedWins | lib/imsg/query/chats.rb:96-97 | a non-blank name strictly later than every other pair is chosen |
| Chats.UntimedFirstWins | lib/imsg/query/chats.rb:96-97 | with no times the first pair counts as latest |
| Chats.ContactByKey | lib/imsg/query/chats.rb:107 | the contact under a key, or none exactly when no contact has it |
| Chats.ParticipantLabel | lib/imsg/query/chats.rb:106-112 | a key without contact is itself; a contact's non-blank name is used; otherwise a first address, phone or the key |
| Chats.Labels | lib/imsg/query/chats.rb:125-132 | one label per key, in order |
| Chats.ShortLabels | lib/imsg/query/chats.rb:114 | each label sanitised and cut to thirteen characters |
| Chats.MoreSuffix | lib/imsg/query/chats.rb:120 | nothing for up to three participants; otherwise ` (+N more)` with N the participants beyond the third |
| Chats.BuildGroupDisplayName | lib/imsg/query/chats.rb:105-122 | the first three labels (all when fewer), each sanitised and cut to 13, joined with `, `, cut to 25 by truncate_total, then the ` (+N more)` suffix; empty for no keys; at most 26 characters before the suffix |
| Chats.BuildGroupFullName | lib/imsg/query/chats.rb:124-134 | empty for no keys; the single label for one key; always starts with the first label |
| Chats.FullNameCons | lib/imsg/query/chats.rb:124-134 | with several keys the full name is the first label, `, `, then the full name of the remaining keys: every label, in order |
| Chats.DisplayIsFullWhenShort | lib/imsg/query/chats.rb:105-134 | up to three tidy labels that fit in 25 characters give a display name equal to the full name |
| Chats.IndexContact | lib/imsg/query/chats.rb:140-165 | one contact's addresses and phone-like ids go into the id index, and its digit variants into the digits index, as its write lists describe |
| Chats.ChatEntry | lib/imsg/query/chats.rb:49-60 | one chat's entry: signature of at most twelve characters, keys strictly sorted, the chat's id and name |
| Threads.ModeOf | lib/imsg/query/threads.rb:249-252 | sort by name exactly for `name`, by count exactly for `message_count`, otherwise by last date |
| Threads.ListedSnoc | lib/imsg/query/threads.rb:248-255 | a row that may follow every row of an ordered list extends it |
| Threads.BeforeAsymmetric | lib/imsg/query/threads.rb:248-253 | the sort key order is a strict order |
| Threads.NotBeforeTransitive | lib/imsg/query/threads.rb:248-253 | rows with equal keys are interchangeable |
| Threads.SortRows | lib/imsg/query/threads.rb:247-256 | the array afterwards holds the same rows, ascending by the key of the sort option, or descending when the order is `desc` or absent |
| Threads.SortAscending | lib/imsg/query/threads.rb:248-254 | the same rows, ascending by the key |
| Threads.Sink | lib/imsg/query/threads.rb:248-254 | moving one row into the sorted prefix keeps the rows and sorts one more |
| Threads.SettledAscending | lib/imsg/query/threads.rb:248-254 | once the moved row is not below its predecessor the prefix is in order |
| Threads.SwapPermutes | lib/imsg/query/threads.rb:248-254 | a swap keeps the rows |
| Threads.Reverse | lib/imsg/query/threads.rb:255 | `reverse!` leaves the rows in reverse order |
| Threads.Reversed | lib/imsg/query/threads.rb:255 | the k-th row of the result is the k-th from the end |
| Threads.ReversedDescending | lib/imsg/query/threads.rb:255 | reversing an ascending list gives a descending one with the same rows |
| Threads.ReversedMultiset | lib/imsg/query/threads.rb:255 | reversing keeps the rows |
| Threads.Bound | lib/imsg/query/threads.rb:259-260 | no bound for no date; otherwise the Apple time of the ISO date |
| Threads.Window | lib/imsg/query/threads.rb:262-270 | never more rows than before |
| Threads.FilterRowsByWindow | lib/imsg/query/threads.rb:258-271 | with no bound the rows are unchanged; otherwise exactly the window's rows |
| Threads.WindowMembers | lib/imsg/query/threads.rb:262-270 | a row is kept exactly when it has a last date, in seconds, within both given bounds |
| Threads.WindowKeepsOrder | lib/imsg/query/threads.rb:262 | the window keeps the sorted order |
| Threads.WindowSubset | lib/imsg/query/threads.rb:262 | the window only drops rows |
| Threads.Limit | lib/imsg/query/threads.rb:71 | with a limit, the first min(limit, n) rows; otherwise all |
| Threads.LimitKeeps | lib/imsg/query/threads.rb:71 | the limit keeps the order and only drops rows |
| Threads.Finish | lib/imsg/query/threads.rb:67-71 | the result is the first `limit` rows, after the window when it is applied and bounded, of a reordering of the input in the requested order; so it is in that order, made of input rows, no longer than the limit, inside the window, and all rows when nothing cuts |
| Threads.FirstNameSnoc | lib/imsg/query/threads.rb:49 | one more name row only fills a handle that had no name |
| Threads.BestNameIsFirst | lib/imsg/query/threads.rb:49 | each handle keeps the display name of its first named chat |
| Threads.BestNames | lib/imsg/query/threads.rb:48-49 | the loop builds that map |
| Threads.ContactRows | lib/imsg/query/threads.rb:52-65 | one row per handle statistic, in order |
| Threads.ContactRowName | lib/imsg/query/threads.rb:53-63 | a handle's row carries the capped name of its first named chat or its handle, and its count and dates |
| Threads.ContactIdsDistinct | lib/imsg/query/threads.rb:57 | distinct handles get distinct `c:` ids |
| Threads.ContactRowsOf | lib/imsg/query/threads.rb:51-65 | the loop builds those rows |
| Threads.ContactsList | lib/imsg/query/threads.rb:12-73 | no one-to-one chats gives no rows; otherwise the contact rows reordered, windowed and limited exactly as `Finish` states |
| Threads.FoldTotals | lib/imsg/query/threads.rb:114-119 | the folded totals count every message, and the first and last dates bound every chat's, the first being one of them |
| Threads.MappedKeys | lib/imsg/query/threads.rb:109 | every handle of a chat is mapped with `map_handle_to_contact_key` |
| Threads.Sole | lib/imsg/query/threads.rb:110-113 | a chat counts for a contact exactly when all handles map, to the one key |
| Threads.ChatEntries | lib/imsg/query/threads.rb:108-115 | one entry per chat: its sole key and its statistics |
| Threads.IndexOfKey | lib/imsg/query/threads.rb:114 | finds the totals of a key, or reports there are none |
| Threads.UpsertSame | lib/imsg/query/threads.rb:114-119 | upserting a key makes it present and adds the chat's statistics |
| Threads.UpsertOther | lib/imsg/query/threads.rb:114-119 | other keys are untouched |
| Threads.AggregateIsFold | lib/imsg/query/threads.rb:107-120 | a key has totals exactly when some chat belongs to it alone, and they fold that contact's chats |
| Threads.AggregateKeysDistinct | lib/imsg/query/threads.rb:114 | each contact appears once |
| Threads.FindKey | lib/imsg/query/threads.rb:114 | the walk finds the position of a key |
| Threads.AggregateContacts | lib/imsg/query/threads.rb:107-120 | the loop over chats builds the aggregated totals |
| Threads.AbId | lib/imsg/query/threads.rb:128-132 | address-book ids start with `ab:` |
| Threads.AbIdResolves | lib/imsg/query/threads.rb:128-132 | the id resolves back to the contact's key |
| Threads.AbRows | lib/imsg/query/threads.rb:122-143 | never more rows than totals |
| Threads.AbRowOfContact | lib/imsg/query/threads.rb:124-142 | a totals entry gives a row exactly when its key has a contact, carrying the contact's label, id and totals |
| Threads.AbRowsFromEntries | lib/imsg/query/threads.rb:122-143 | every row comes from one totals entry |
| Threads.AbRowsOf | lib/imsg/query/threads.rb:122-143 | the loop builds those rows |
| Threads.ContactsListFromAddressBook | lib/imsg/query/threads.rb:76-151 | no statistics gives no rows; otherwise the address-book rows reordered, windowed and limited exactly as `Finish` states |
| Threads.GroupEntries | lib/imsg/query/threads.rb:188-207 | one entry per group row |
| Threads.SigPos | lib/imsg/query/threads.rb:201 | finds the bucket of a signature or reports there is none |
| Threads.AddGroupSame | lib/imsg/query/threads.rb:201-207 | a chat is added to the bucket of its signature |
| Threads.AddGroupOther | lib/imsg/query/threads.rb:201-207 | the buckets of other signatures are untouched |
| Threads.SigChatsSig | lib/imsg/query/threads.rb:201 | the chats of a signature are chats with that signature, none exactly when no chat has it |
| Threads.GroupBucketIsChats | lib/imsg/query/threads.rb:187-208 | a signature has a bucket exactly when some chat has it, and the bucket is built from those chats in order |
| Threads.SameParticipantsSameBucket | lib/imsg/query/threads.rb:188-202 | two chats with the same signature share a bucket |
| Threads.InSigChats | lib/imsg/query/threads.rb:202 | a chat is among the chats of its signature |
| Threads.FindSig | lib/imsg/query/threads.rb:201 | the walk finds the bucket position |
| Threads.BucketGroups | lib/imsg/query/threads.rb:187-208 | the loop builds the buckets |
| Threads.CoalescedRowOf | lib/imsg/query/threads.rb:209-220 | a bucket's row is named by the chosen display name or the built one, with a `grp:` id and its totals |
| Threads.CoalescedGroups | lib/imsg/query/threads.rb:209-221 | the rows of the buckets, in bucket order |
| Threads.PlainGroupRows | lib/imsg/query/threads.rb:223-237 | one row per group chat, in order |
| Threads.PlainGroupRowNamed | lib/imsg/query/threads.rb:226-229 | a non-blank display name is used; distinct chats get distinct `g:` ids |
| Threads.PlainGroups | lib/imsg/query/threads.rb:223-237 | the loop builds those rows |
| Threads.GroupsList | lib/imsg/query/threads.rb:154-244 | the coalesced or the plain group rows, reordered, windowed and limited exactly as `Finish` states |
| Threads.Upsert | lib/imsg/query/threads.rb:113-118 | an upsert adds at most one entry |
| Threads.Aggregate | lib/imsg/query/threads.rb:107-119 | never more contacts than chats |
| Threads.AbRowOf | lib/imsg/query/threads.rb:122-141 | a row exactly when some contact has the key; its id is that contact's `ab:` id, and it carries the totals as type contact |
| ExportConversation.Fields | lib/imsg/command/export_conversation.rb:30 | splitting at commas always gives at least one field |
| ExportConversation.FieldsJoin | lib/imsg/command/export_conversation.rb:30 | joining the fields with commas gives the text back, and no field holds a comma |
| ExportConversation.FieldsAppend | lib/imsg/command/export_conversation.rb:30 | a comma separates the fields of its two sides |
| ExportConversation.Cleaned | lib/imsg/command/export_conversation.rb:30 | stripping and dropping empties never adds fields |
| ExportConversation.CleanedAppend | lib/imsg/command/export_conversation.rb:30 | cleaning distributes over concatenation |
| ExportConversation.IdsClean | lib/imsg/command/export_conversation.rb:30 | every identifier is non-empty, stripped and comma-free |
| ExportConversation.CommaList | lib/imsg/command/export_conversation.rb:30 | `a,b` of two clean identifiers gives a and b |
| ExportConversation.IdsOne | lib/imsg/command/export_conversation.rb:30 | a single clean identifier is taken as it is |
| ExportConversation.Dispatch | lib/imsg/command/export_conversation.rb:29-35 | no identifiers exports everything; any `c:`/`c<digits>` selector picks the handle route with all identifiers; else any `ab:` selector picks the address-book route; otherwise the first identifier is exported alone |
| ExportConversation.HandleSelectorWins | lib/imsg/command/export_conversation.rb:32 | a handle selector anywhere decides the route |
| ExportConversation.IdsAppend | lib/imsg/command/export_conversation.rb:30 | the identifiers of two lists are those of each in turn |
| ExportConversation.ValidateSingleOnlyFlags | lib/imsg/command/export_conversation.rb:515-529 | several conversations refuse `--flip`, then a non-blank `--display-name`; one group conversation refuses `--flip`; no other case errs |
| ExportConversation.SkipNonSlug | lib/imsg/command/export_conversation.rb:614 | drops only a leading run of characters outside `[a-z0-9]` |
| ExportConversation.UnderscoredShape | lib/imsg/command/export_conversation.rb:614 | after the replacement only `[a-z0-9_]` remains, with no doubled underscore |
| ExportConversation.SlugIsSlug | lib/imsg/command/export_conversation.rb:614 | a slug holds `[a-z0-9]` runs joined by single underscores, none at either end |
| ExportConversation.SlugIdempotent | lib/imsg/command/export_conversation.rb:614 | slugging twice changes nothing |
| ExportConversation.SlugFixed | lib/imsg/command/export_conversation.rb:614 | a slug is its own slug |
| ExportConversation.SlugIgnoresCase | lib/imsg/command/export_conversation.rb:614 | letter case never matters |
| ExportConversation.GenerateOutputDir | lib/imsg/command/export_conversation.rb:776-781 | the directory is `./exports/` and the slug of the display name, else of the GUID, else of `unknown_chat`; `chat` when that slug is empty; so always a non-empty slug |
| ExportConversation.OutputDirOfSlug | lib/imsg/command/export_conversation.rb:777-780 | a name that is already a slug names its own directory |
| ExportConversation.OutputDirWithoutAlnum | lib/imsg/command/export_conversation.rb:779 | a name without letters or digits gives `./exports/chat` |
| ExportConversation.ThreadSlug | lib/imsg/command/export_conversation.rb:614-615 | a thread slug is non-empty and a slug |
| ExportConversation.ChooseSlug | lib/imsg/command/export_conversation.rb:616-619 | the own slug exactly when it is unused; otherwise exactly the own slug, `_` and the first six digest characters; always starting with the own slug |
| ExportConversation.ChooseSlugIsSlug | lib/imsg/command/export_conversation.rb:616-619 | with a lower-case hex digest, the chosen slug is still lower-case letters and digits joined by single underscores |
| ExportConversation.SlugSuffixed | lib/imsg/command/export_conversation.rb:618 | a slug, `_` and slug characters make a slug |
| ExportConversation.SlugTable.constructor | lib/imsg/command/export_conversation.rb:605 | no slug is used yet |
| ExportConversation.SlugTable.Claim | lib/imsg/command/export_conversation.rb:614-620 | the slug chosen from the used set, which then also holds it |
| ExportConversation.RenderableCount | lib/imsg/command/export_conversation.rb:669-678 | never more than the messages |
| ExportConversation.CountRenderables | lib/imsg/command/export_conversation.rb:669-678 | the loop counts the renderable messages |
| ExportConversation.CountZeroIffNothingRenderable | lib/imsg/command/export_conversation.rb:669-678 | zero exactly when no message is renderable |
| ExportConversation.SkippedThreadRendersNothing | lib/imsg/command/export_conversation.rb:669-678 | a thread is skipped exactly when every message would be projected as skipped |
| ExportConversation.CountAppend | lib/imsg/command/export_conversation.rb:669-678 | counting distributes over the chats' message lists |
| ExportConversation.LastTrue | lib/imsg/command/export_conversation.rb:652 | the position found holds a true flag |
| ExportConversation.LastTrueIsLast | lib/imsg/command/export_conversation.rb:652 | no true flag comes after it |
| ExportConversation.LastPreviewIndex | lib/imsg/command/export_conversation.rb:652 | the message found is visible with non-blank text |
| ExportConversation.LastPreviewIsLast | lib/imsg/command/export_conversation.rb:652 | it is the last such message |
| ExportConversation.Preview | lib/imsg/command/export_conversation.rb:652-654 | `[Media]` when no shown message has text; otherwise the first min(160, n) characters of the last such text, stripped and with its whitespace runs collapsed (n characters long) |
| ExportConversation.PreviewShape | lib/imsg/command/export_conversation.rb:653-654 | a text preview is non-empty, starts without whitespace, has whitespace collapsed and is a prefix of the last text collapsed |
| ExportConversation.PreviewOfPlainText | lib/imsg/command/export_conversation.rb:653-654 | a short clean text is its own preview |
| ExportConversation.SelectorKey | lib/imsg/command/export_conversation.rb:436-441 | the exact hit wins; otherwise none exactly when neither the digits, the uncanonicalised digits nor the last ten digits are indexed; a result is a stored key |
| ExportConversation.KeysOf | lib/imsg/command/export_conversation.rb:436-441 | one key per participant |
| ExportConversation.SelectedChats | lib/imsg/command/export_conversation.rb:434-445 | never more chats than there are |
| ExportConversation.SelectChats | lib/imsg/command/export_conversation.rb:434-445 | the loop selects the chats of the specification |
| ExportConversation.SelectedMembers | lib/imsg/command/export_conversation.rb:442-444 | a chat is selected exactly when it has handles that all map to one wanted key |
| ExportConversation.WantedIff | lib/imsg/command/export_conversation.rb:442-444 | the per-chat test in the same terms |
| ExportConversation.JoinPath | lib/imsg/command/export_conversation.rb:693-701 | `File.join`: the folder without trailing slashes, one or more slashes, then the name |
| ExportConversation.LibraryFolderEnd | lib/imsg/command/export_conversation.rb:697-698 | the end found lies inside the path |
| ExportConversation.LibraryFolderEndNone | lib/imsg/command/export_conversation.rb:697 | none exactly when neither library folder occurs from there on |
| ExportConversation.SourceFor | lib/imsg/command/export_conversation.rb:686-703 | a path exactly for a filename |
| ExportConversation.LocateKept | lib/imsg/command/export_conversation.rb:688-702 | a path is kept as absolute exactly when it starts with `/` and names no library folder; a re-rooted path ends with the relative part |
| ExportConversation.SpellingsAgree | lib/imsg/command/export_conversation.rb:688-699 | all four spellings of a Messages path point to the same place under the input folder |
| ExportConversation.DropScheme | lib/imsg/command/export_conversation.rb:688-690 | a `file://` URL names what its path names |
| ExportConversation.HomeFolderFound | lib/imsg/command/export_conversation.rb:691-693 | `~/Library/Messages/<rel>` is re-rooted at rel |
| ExportConversation.UserFolderFound | lib/imsg/command/export_conversation.rb:694-696 | `/Users/<user>/Library/Messages/<rel>` is re-rooted at rel |
| ExportConversation.DotsEnd | lib/imsg/command/export_conversation.rb:745 | the end of a run of dots |
| ExportConversation.LastDot | lib/imsg/command/export_conversation.rb:745 | the last dot at or after a position |
| ExportConversation.ComponentExt | lib/imsg/command/export_conversation.rb:745 | an extension starts with a dot, ends the name and holds no other dot |
| ExportConversation.Extname | lib/imsg/command/export_conversation.rb:745-746 | `File.extname` gives empty or a dot and dot-free text |
| ExportConversation.ExtnameOf | lib/imsg/command/export_conversation.rb:745 | a dot inside the last component gives what follows it |
| ExportConversation.DotFileHasNoExt | lib/imsg/command/export_conversation.rb:745 | a name of leading dots and no other dot has no extension |
| ExportConversation.DotLeadHasNoExt | lib/imsg/command/export_conversation.rb:745 | the same for any run of leading dots, the empty run included |
| ExportConversation.ExtnameOfComponent | lib/imsg/command/export_conversation.rb:745 | the extension of a path is that of its last component |
| ExportConversation.ExtensionFor | lib/imsg/command/export_conversation.rb:744-762 | the transfer name's extension first, then the source path's, then the entry of the lower-cased MIME type in the twelve-entry table, else empty; always empty or dotted |
| ExportConversation.FallbackExtensionsKnown | lib/imsg/command/export_conversation.rb:748-759 | every fallback extension is one the kind inference knows |
| ExportConversation.InferAgreesWithKindFor | lib/imsg/command/export_conversation.rb:764-774 | inferring the kind of a copied attachment is `AttachmentUtil.kind_for` on its name |
| ExportConversation.ImageNameIff | lib/imsg/command/export_conversation.rb:767 | an image name exactly when it ends with one of the image extensions |
| ExportConversation.VideoNameIff | lib/imsg/command/export_conversation.rb:769 | a video name exactly when it ends with one of the video extensions |
| ExportConversation.AudioNameIff | lib/imsg/command/export_conversation.rb:771 | an audio name exactly when it ends with one of the audio extensions |
| ExportConversation.InferAttachmentKind | lib/imsg/command/export_conversation.rb:764-774 | the kind is image, video, audio or file, and an `image/` MIME type, in any case, gives image |
| PagedExport.PageSize | lib/paged_export_generator.rb:12 | the page size is at least one and at least the request, and is the request when that is positive |
| PagedExport.EffectiveName | lib/paged_export_generator.rb:67-71 | a stripped name; the non-blank full name, stripped, when there is one |
| PagedExport.EffectiveNameFallback | lib/paged_export_generator.rb:67-71 | otherwise the display name stripped, or `Messages` |
| PagedExport.Renderables | lib/paged_export_generator.rb:25-28 | never more messages than rows |
| PagedExport.ShownIds | lib/paged_export_generator.rb:25-28 | never more ids than rows |
| PagedExport.MessageIds | lib/paged_export_generator.rb:25-28 | the ids of the projected messages, in order |
| PagedExport.ProjectorKeepsIds | lib/paged_export_generator.rb:27 | the projection keeps each row's id |
| PagedExport.RenderablesKeepOrder | lib/paged_export_generator.rb:25-28 | the renderables are the shown rows, in row order |
| PagedExport.RenderablesFail | lib/paged_export_generator.rb:25-28 | the projection fails exactly when a row not hidden cannot be parsed |
| PagedExport.RenderablesCount | lib/paged_export_generator.rb:25-28 | the renderables are as many as the shown rows |
| PagedExport.TotalMatchesIndexCount | lib/paged_export_generator.rb:80 | the manifest total equals the count used to skip threads |
| PagedExport.ShownCountIsIndexCount | lib/paged_export_generator.rb:25-28 | the rows the pages show are the ones the thread count counts |
| PagedExport.ChunkFor | lib/paged_export_generator.rb:42-51 | a chunk records its page's size and its number |
| PagedExport.DescribedStep | lib/paged_export_generator.rb:42-51 | one more page adds its chunk |
| PagedExport.WritePages | lib/paged_export_generator.rb:31-52 | the pages cut the renderables in order into full pages and a shorter last one, each described by its chunk |
| PagedExport.SliceStep | lib/paged_export_generator.rb:32 | one more slice extends the pages' contents by it |
| PagedExport.CountsAddUp | lib/paged_export_generator.rb:46-80 | the chunk counts add up to `total_messages` |
| PagedExport.PageCount | lib/paged_export_generator.rb:32 | there are as many pages as it takes to hold the messages |
| PagedExport.FullPages | lib/paged_export_generator.rb:32 | full pages hold page size messages each |
| PagedExport.PageFilesDistinct | lib/paged_export_generator.rb:33 | distinct pages get distinct file names |
| PagedExport.ScriptNameOfPage | lib/paged_export_generator.rb:37 | the script file replaces the page's `.json` by `.js` |
| PagedExport.Generator.constructor | lib/paged_export_generator.rb:8-16 | the generator keeps its inputs, with the page size made at least one |
| PagedExport.Generator.Write | lib/paged_export_generator.rb:19-95 | nothing when the projection fails; otherwise pages and chunks as `WritePages` states, a total equal to the renderables, and a manifest carrying the page size, effective name and flags |
| ImageDim.ValidDim | lib/image_dim.rb:148-151 | dimensions exactly when both are present and positive, in the order given |
| ImageDim.UnpackV | lib/image_dim.rb:114-127 | `unpack1('V')` gives a value exactly when four bytes are there |
| ImageDim.BE16Bytes | lib/image_dim.rb:73-85 | two bytes that read back, big-endian, as the value |
| ImageDim.BE32Bytes | lib/image_dim.rb:26-27 | four bytes that read back, big-endian, as the value |
| ImageDim.LE16Bytes | lib/image_dim.rb:33 | two bytes that read back, little-endian, as the value |
| ImageDim.LE24Bytes | lib/image_dim.rb:126-127 | three bytes that read back, little-endian, as the value |
| ImageDim.Png | lib/image_dim.rb:24-29 | the big-endian words at 16 and 20 of a header of at least 24 bytes, whenever both are positive |
| ImageDim.Gif | lib/image_dim.rb:31-35 | the little-endian words at 6 and 8 of a header of at least 10 bytes, whenever both are positive |
| ImageDim.Fill | lib/image_dim.rb:45-72 | reading 4096-byte chunks fails exactly when the file runs out first; otherwise the buffer grows to the need, nothing lost |
| ImageDim.Refill | lib/image_dim.rb:45-49 | the reading loop does what `Fill` states |
| ImageDim.FirstIndex | lib/image_dim.rb:51 | the first position holding 0xFF, or none from there on |
| ImageDim.FillEnd | lib/image_dim.rb:56-57 | the end of the run of 0xFF fill bytes |
| ImageDim.JpegStep | lib/image_dim.rb:43-95 | one scan step either shrinks what is left to read or ends with positive dimensions or none; as written it always ends with none, `index("\xFF")` raising on a buffer with a high byte and finding nothing in one without |
| ImageDim.Collapsed | lib/image_dim.rb:55-59 | collapsing fill bytes keeps the first 0xFF and never lengthens |
| ImageDim.JpegScan | lib/image_dim.rb:38-96 | the JPEG scan gives only positive dimensions; as written it gives none for every buffer |
| ImageDim.Jpeg | lib/image_dim.rb:38-96 | the loop does what the scan states |
| ImageDim.JpegTurn | lib/image_dim.rb:44-94 | one turn of the loop is one scan step, so as written the first turn ends the loop with nil |
| ImageDim.FillUpTo | lib/image_dim.rb:117-121 | reading up to the need keeps every byte, and stops at the need or the end of the file |
| ImageDim.ReadUpTo | lib/image_dim.rb:117-121 | the loop does that |
| ImageDim.WebpBuffer | lib/image_dim.rb:106-121 | a WebP buffer holds at least 20 bytes and is a prefix of the file |
| ImageDim.SignatureFrom | lib/image_dim.rb:131 | the first VP8 start code from a position |
| ImageDim.WebpDims | lib/image_dim.rb:122-145 | the WebP dispatch gives only positive dimensions |
| ImageDim.WebpRead | lib/image_dim.rb:104-146 | the two reading loops and the dispatch |
| ImageDim.SniffWith | lib/image_dim.rb:7-22 | `sniff` gives only positive dimensions, in either reading |
| ImageDim.Sniff | lib/image_dim.rb:7-22 | as intended, only positive dimensions |
| ImageDim.SniffAsWritten | lib/image_dim.rb:7-22 | as written, only positive dimensions |
| ImageDim.PngSniffed | lib/image_dim.rb:11-29 | a PNG file gives its IHDR size |
| ImageDim.PngNotSniffedAsWritten | lib/image_dim.rb:11-21 | as written no PNG file is sniffed |
| ImageDim.GifSniffed | lib/image_dim.rb:12-35 | a GIF file gives its logical screen size |
| ImageDim.AsWrittenAgreesOnAscii | lib/image_dim.rb:7-22 | on a header without high bytes both readings agree |
| ImageDim.StepAtMarker | lib/image_dim.rb:50-59 | as intended, a buffer at a marker is scanned from there |
| ImageDim.JpegSkipsStandalone | lib/image_dim.rb:63-66 | as intended, a standalone marker is stepped over |
| ImageDim.JpegSkipsSegment | lib/image_dim.rb:87-94 | as intended, a segment that is no frame header is stepped over by its length |
| ImageDim.JpegSkipsGarbage | lib/image_dim.rb:51-53 | as intended, bytes before the next 0xFF are passed over |
| ImageDim.JpegReadsFrame | lib/image_dim.rb:76-86 | as intended, a frame header gives its width and height, read height first |
| ImageDim.MinimalJpeg | lib/image_dim.rb:15 | the smallest JPEG starts with SOI |
| ImageDim.SniffJpegRoute | lib/image_dim.rb:15-16 | a file starting with SOI goes to the JPEG scan |
| ImageDim.JpegSniffed | lib/image_dim.rb:15-96 | as intended the smallest JPEG gives its size |
| ImageDim.JpegSoiAsWritten | lib/image_dim.rb:63-74 | as written the SOI marker is read as a segment whose length is the next marker, and the scan ends with nothing |
| ImageDim.FirstByteDiffers | lib/image_dim.rb:11-15 | a header whose first byte differs from a signature's does not start with it |
| ImageDim.Vp8lReads | lib/image_dim.rb:139-143 | the VP8L bit fields of two values give those values plus one |
| ImageDim.Vp8lBits | lib/image_dim.rb:140-142 | a VP8L header field is four bytes |
| ImageDim.WebpBufferHolds | lib/image_dim.rb:106-121 | the buffer holds the file's first bytes |
| ImageDim.SniffWebpRoute | lib/image_dim.rb:13 | a RIFF/WEBP file goes to the WebP reader |
| ImageDim.Vp8lDecode | lib/image_dim.rb:141-142 | the bit fields decode back to the two values |
| ImageDim.Vp8lSniffed | lib/image_dim.rb:137-143 | a VP8L WebP gives its size in both readings |
| ImageDim.Vp8xOf | lib/image_dim.rb:123-128 | a VP8X buffer gives its size as intended and nothing as written |
| ImageDim.Vp8xSniffed | lib/image_dim.rb:123-128 | a VP8X WebP is sniffed as intended and gives `nil` as written |
| ImageDim.Vp8Of | lib/image_dim.rb:129-136 | a VP8 buffer gives its size as intended and nothing as written |
| ImageDim.Vp8Sniffed | lib/image_dim.rb:129-136 | a VP8 WebP is sniffed as intended and gives `nil` as written |
| ImageDim.SofMarker | lib/image_dim.rb:98-101 | a start-of-frame marker is exactly 0xC0 to 0xCF less DHT (0xC4), JPG (0xC8) and DAC (0xCC) |
| ImageDim.Standalone | lib/image_dim.rb:63 | as written only RST0 to RST7 are stepped over; as intended SOI and EOI too |
| ImageDim.FrameSize | lib/image_dim.rb:76-86 | a segment shorter than seven bytes gives nothing; a size read is two positive 16-bit values |
| ImageDim.Segment | lib/image_dim.rb:74-94 | a segment step either shrinks what is left to read or ends with positive dimensions or none |
| ImageDim.Vp8x | lib/image_dim.rb:123-128 | as intended a VP8X buffer of at least 30 bytes always gives a size, each side from 1 to 2^24 |
| ImageDim.Vp8 | lib/image_dim.rb:129-136 | a size needs a start code from offset 20 and is two positive 16-bit values |
| ImageDim.Vp8l | lib/image_dim.rb:137-143 | a VP8L buffer gives a size exactly when it has at least 25 bytes, each side from 1 to 2^14 |
| ImageDim.WebpScan | lib/image_dim.rb:104-146 | the WebP reader gives only positive dimensions |
| SimpleTable.Repeat | lib/table.rb:19-27 | `c * n`: n copies of c |
| SimpleTable.ParamEnd | lib/table.rb:48 | the end of a run of SGR parameter characters |
| SimpleTable.SgrAt | lib/table.rb:48 | a colour escape found is `ESC [`, parameters, `m` |
| SimpleTable.StripSgr | lib/table.rb:48 | stripping escapes never lengthens |
| SimpleTable.StripSgrDrops | lib/table.rb:48 | a colour escape is dropped whole |
| SimpleTable.StripSgrKeeps | lib/table.rb:48 | text without an escape character passes through |
| SimpleTable.StripSgrColoured | lib/table.rb:48 | colouring a plain string leaves only the string |
| SimpleTable.FlagsAndEmojiWide | lib/table.rb:57-59 | regional-indicator pairs and clusters with U+FE0F are wide |
| SimpleTable.NarrowCluster | lib/table.rb:54-68 | a cluster with no flag, selector, emoji-block or wide-script character is narrow |
| SimpleTable.ClustersWidth | lib/table.rb:50 | every cluster counts one or two |
| SimpleTable.ClustersWidthExtremes | lib/table.rb:50 | twice the clusters exactly when all are wide; once exactly when none is |
| SimpleTable.StrWidth | lib/table.rb:45-51 | the width lies between the number of clusters of the stripped text and twice that |
| SimpleTable.ColourIsFree | lib/table.rb:45-51 | colour escapes around a plain string do not widen it |
| SimpleTable.ColumnWidths | lib/table.rb:10-16 | one width per heading |
| SimpleTable.ColumnMaxIsMax | lib/table.rb:12-16 | a column's cell maximum bounds every cell under it and is one of them, or zero |
| SimpleTable.WidthIsMax | lib/table.rb:10-16 | each width bounds its heading and every cell under it, and is one of them |
| SimpleTable.ComputeWidths | lib/table.rb:10-16 | the loops fail exactly when a row is longer than the headings, and otherwise give the widths |
| SimpleTable.Widen | lib/table.rb:13-15 | one row widens each column to cover its cell, failing when the row is too long |
| SimpleTable.AlignOf | lib/table.rb:7 | with no alignment given every column is left-aligned |
| SimpleTable.FmtCells | lib/table.rb:21-29 | one formatted cell per cell |
| SimpleTable.DashRuns | lib/table.rb:19 | one dash run per column |
| SimpleTable.RowLines | lib/table.rb:36 | one line per data row |
| SimpleTable.AllFit | lib/table.rb:10-16 | every heading and cell fits the widths |
| SimpleTable.Render | lib/table.rb:4-43 | nothing exactly when a row is longer than the headings; otherwise the lines of the table joined with newlines |
| SimpleTable.TableShape | lib/table.rb:32-42 | separator, headings, separator, the rows, the headings again when asked and there are rows, then a separator |
| SimpleTable.RowLinesAt | lib/table.rb:36 | the k-th row line formats the k-th row |
| SimpleTable.AlignDefaultsLeft | lib/table.rb:7 | no alignment is all-left alignment |
| SimpleTable.CellLayout | lib/table.rb:23-28 | a cell is padded on the left when right-aligned and on the right otherwise, showing width plus two |
| SimpleTable.CellShown | lib/table.rb:23-28 | a cell shows its column's width plus two |
| SimpleTable.CellsShown | lib/table.rb:21-29 | the cells of a full row show the sum of the widths plus two per cell |
| SimpleTable.RowShownIsTableWidth | lib/table.rb:20-30 | a full row shows exactly as wide as the table |
| SimpleTable.SeparatorWidth | lib/table.rb:19 | the separator is as wide as the table and made of `+` and `-` |
| SimpleTable.DashRunsJoin | lib/table.rb:19 | the dash runs joined with `+` have the expected length and alphabet |
| SimpleTable.LinesAlign | lib/table.rb:4-43 | every line of a rendered table has the same shown width |
| SimpleTable.FmtRow | lib/table.rb:20-30 | a formatted row starts and ends with a vertical bar |
| SimpleTable.Separator | lib/table.rb:19 | the separator starts and ends with `+` |
| SimpleTable.TableLines | lib/table.rb:32-42 | four lines plus one per row, two more when the header repeats below rows; the first, third and last are the same separator |
| SimpleTable.FormatRows | lib/table.rb:36 | the row loop gives one formatted line per data row |
| Config.Keys | lib/imsg/value/config.rb:46-55 | the keys of a hash, in insertion order |
| Config.Lookup | lib/imsg/value/config.rb:47-53 | `h[k]` is nil exactly for a missing key |
| Config.Store | lib/imsg/value/config.rb:53 | assignment keeps the key order and appends a new key at the end |
| Config.StoreLookup | lib/imsg/value/config.rb:53 | after `h[k] = v` the key k reads v and every other key reads as before; keys stay unique |
| Config.MergeLookup | lib/imsg/value/config.rb:47 | merged, a key reads its value in the flags when they have it, else in the defaults |
| Config.Slice | lib/imsg/value/config.rb:47 | a slice holds only asked-for keys |
| Config.SliceLookup | lib/imsg/value/config.rb:47 | a slice holds each asked-for key with its value and nothing else |
| Config.Syms | lib/imsg/value/config.rb:7-24 | the symbols of the key names, in order |
| Config.AllowedKeys | lib/imsg/value/config.rb:7-24 | `KEYS` has sixteen keys |
| Config.Zip | lib/imsg/value/config.rb:27-44 | a hash literal has its keys in order |
| Config.ZipLookup | lib/imsg/value/config.rb:27-44 | each key of a hash literal reads its value |
| Config.Defaults | lib/imsg/value/config.rb:27-44 | `DEFAULTS` holds exactly the allowed keys, in the same order |
| Config.MergeKeeps | lib/imsg/value/config.rb:46-48 | `merge` keeps only allowed keys; an allowed key reads its flag when one is given, else its default |
| Config.DefaultsCoverKeys | lib/imsg/value/config.rb:46-48 | with the default defaults every allowed key has a value, the default when no flag sets it |
| Config.ToSym | lib/imsg/value/config.rb:52 | a string key becomes a symbol; any other key is kept |
| Config.Symbolize | lib/imsg/value/config.rb:50-55 | a nested hash is converted and stays a hash, any other value is kept; after conversion no key at any depth is a string and no hash holds a key twice |
| Config.SymbolizePrefix | lib/imsg/value/config.rb:51-54 | the hash built so far holds no key twice, and each of its keys is non-string with a converted value |
| Config.SymbolizeLookup | lib/imsg/value/config.rb:51-54 | a key of the result reads the converted value of the last entry whose key becomes it |
| Config.SymbolizeOpt | lib/imsg/value/config.rb:53 | converting an optional value keeps whether it is there |
| Config.SymbolizeFixed | lib/imsg/value/config.rb:50-55 | a converted hash is left as it is by a second conversion |
| Config.SymbolizeIdempotent | lib/imsg/value/config.rb:50-55 | `symbolize_keys` is idempotent |
| Config.Merge | lib/imsg/value/config.rb:46-48 | merged options hold only allowed keys |
| Config.SymbolizeKeys | lib/imsg/value/config.rb:50-55 | the converted hash holds no key twice, no string key and only converted values |
| AllExport.SpaceEnd | lib/all_export_generator.rb:76 | the end of a run of whitespace |
| AllExport.WordEnd | lib/all_export_generator.rb:76 | the end of a run of non-whitespace |
| AllExport.FieldsClean | lib/all_export_generator.rb:76 | split fields hold no whitespace and only the first may be empty, exactly for leading whitespace; nothing at all exactly for a blank remainder |
| AllExport.SplitClean | lib/all_export_generator.rb:76 | `split(/\s+/)` gives no whitespace in any field, an empty first field exactly for leading whitespace, and nothing exactly for a blank string |
| AllExport.FieldsJoin | lib/all_export_generator.rb:76 | joining the fields of a single-spaced remainder gives it back |
| AllExport.SplitJoin | lib/all_export_generator.rb:76 | splitting and joining with a space give back a single-spaced string |
| AllExport.InitialsFor | lib/all_export_generator.rb:73-80 | `?` for a blank or nil name; otherwise one or two letters, the first being the stripped name's first character upper-cased |
| AllExport.InitialsIgnoreEdges | lib/all_export_generator.rb:74 | only the stripped name matters |
| AllExport.InitialsNil | lib/all_export_generator.rb:74-75 | nil gives `?` |
| AllExport.WordEndOf | lib/all_export_generator.rb:76 | a run of non-whitespace ends where the whitespace starts |
| AllExport.SpaceEndOf | lib/all_export_generator.rb:76 | a run of whitespace ends where the next word starts |
| AllExport.OneWord | lib/all_export_generator.rb:76-79 | a one-word name gives its first letter, upper-cased |
| AllExport.TwoWords | lib/all_export_generator.rb:76-79 | a name of several words gives the first letters of the first two, upper-cased, whatever whitespace separates them |
| AllExport.TwoWordsAt | lib/all_export_generator.rb:76-79 | the same stated by positions |
| Utf8.DecodeAt | lib/message_decoder.rb:96 | a well-formed sequence found is one to four bytes long |
| Utf8.Scrub | lib/message_decoder.rb:96 | dropping ill-formed bytes never gives more characters than bytes |
| Utf8.EncodeChar | lib/message_decoder.rb:96 | a character encodes to one to four bytes |
| Utf8.Encode | lib/message_decoder.rb:96 | a text encodes to at least as many bytes as characters |
| Utf8.DecodeEncodeChar | lib/message_decoder.rb:96 | decoding the encoding of a character gives it back, with its length |
| Utf8.ScrubEncode | lib/message_decoder.rb:96 | scrubbing well-formed UTF-8 gives back the text it encodes |
| Utf8.ScrubAppendEncoded | lib/message_decoder.rb:96 | at a well-formed boundary scrubbing concatenates |
| Utf8.AsciiChars | lib/message_decoder.rb:96 | ASCII bytes read as the same characters |

## Left out

- SQLite queries are not modelled; rows and contacts are inputs. This covers:
  - every `db.execute` call;
  - `Chats.find` and `find_one_to_one_chats_for_handle`;
  - the metadata query;
  - `Attachments.fetch`;
  - `AddressBookResolver#load!` and `resolve_db_path`.
- File-system and process work is not modelled: it is I/O. This covers:
  - file and directory writes;
  - `sqlite3` backups and temporary directories;
  - attachment copying;
  - opening the export;
  - `File.exist?` checks.
- `ImageDim.SniffWith` takes the file contents as an `Option` of bytes
  instead of opening a path. `None` stands for an absent or non-regular
  file. The read buffers are slices of those bytes.
- The HTML, CSS and JavaScript text of the generated pages is UI markup
  and is not modelled. This covers `html_generator.rb`, `html_shell`,
  `client_script` and the all-export page.
- The CLI, argv parsing and the orchestration in `app.rb`, `cli.rb` and
  `lists_conversations.rb` are not modelled: they only delegate and print.
- Library behaviour is taken as function parameters, not modelled. This
  covers CFPropertyList parsing, SHA1/SHA256, `SecureRandom.uuid`,
  `Time.parse`, `strftime` and local time zones.
- Characters are Unicode code points. Only table display width takes a
  grapheme segmentation parameter; the truncations below count code points.
- `\p{Pd}` (the dashes `normalize_text` maps to `-`) is a concrete
  character list. The other `\p{…}` classes are oracles: `\p{Punct}` in the
  decoder heuristic is the `punct` parameter, and the CJK script and block
  classes of `lib/table.rb:67` are `Unicode.wideScript`.
- `downcase` and `upcase` are ASCII-only, and so is every `/i` match. Ruby's
  `/i` uses Unicode case folding (`ſ` matches `/s/i`, the Kelvin sign
  matches `/k/i`). This affects the linkify pattern
  (`lib/imsg/util/text_util.rb:12`), `/apple\s*cash/i`
  (`lib/imsg/project/message.rb:34`) and the selector and verb patterns.
  Unicode case mapping and folding are a large table outside this model.
- Floating point is not modelled:
  - nanosecond values are divided exactly;
  - `Float::INFINITY` sentinels are options;
  - the `to_f` precision loss above 2^53 is not modelled.
- `Messages.Fetch` does not build `guid_index`: the code never reads it.
- `Messages.Fetch` does not model the `rescue` branch that names a handle
  `handle_<id>`. That branch only runs on a database error.
- `ExportConversation` does not model the selector's index building at
  `lib/imsg/command/export_conversation.rb:398-422`. It is fed by queries,
  so the model takes its result as input.
- `ExportConversation` models the path rewrite and the extension of copied
  attachments, but not the copy itself or the uuid names.
- `ImageDim.Vp8` reads the VP8 width and height words whole, scale bits
  included, as the code does. It does not model the scale bits.
- `SimpleTable` takes cells as strings. The `to_s` of non-string cells is
  not modelled.
- `Config.Merge` takes defaults and flags as explicit maps. The keyword
  defaults of `merge` are not modelled.
- `AllExport.InitialsFor` takes an optional string. The `to_s` of
  non-string names is not modelled.
- `HandleUtil.TruncateTotal` counts and cuts code points, not grapheme
  clusters as `grapheme_clusters` does. A flag or a combined accent counts
  as several characters, so the model may cut sooner or inside a cluster.
  This reaches everything that calls it: `HandleUtil.CapHandleName` (the
  20 and 16 caps), `Chats.BuildGroupDisplayName` (the 25 cap) and
  `Threads.ContactRowName`.
- `HandleUtil.SanitizeTruncate` cuts at code points in the same way; this
  reaches the 13-character participant labels of `Chats.BuildGroupDisplayName`.
- `MessageDecoder.PlistTier` gives nothing for a non-empty array or
  dictionary under `NSString` or `NS.string`. The code returns such a
  value from the decoder, and `clean_text`'s `gsub!` then raises on it.
  The model does not model that exception and falls through to the
  heuristic instead. Data is returned as one character per byte; for
  data with a byte above 0x7F, `clean_text` would raise an encoding error,
  and the model does not model that either.
- `lib/imsg/value/message.rb` and `lib/imsg/value/attachment.rb` are plain
  records. They appear only as the datatypes the projections read.

## Findings

| source | as written | input that shows it | evidently intended | confidence | as-written member | corrected member |
|---|---|---|---|---|---|---|
| lib/image_dim.rb:11 | the PNG signature is a UTF-8 literal holding `\x89`. `start_with?` against the binary header raises `Encoding::CompatibilityError` once that header holds a byte of 0x80 or more, and `rescue` returns nil | any PNG file: its first byte is 0x89 | PNG files are sniffed by their IHDR size | not executed | ImageDim.PngNotSniffedAsWritten | ImageDim.PngSniffed |
| lib/image_dim.rb:126-127 | `byteslice(24,3).unpack1('V')` asks for four bytes from three and gives nil. `nil & 0xFFFFFF` is false, and `false + 1` raises | a WebP whose first chunk is VP8X | the 24-bit little-endian canvas size plus one | not executed | ImageDim.Vp8xAsWritten | ImageDim.Vp8xSniffed |
| lib/image_dim.rb:131 | the start code `"\x9D\x01\x2A"` is a UTF-8 literal. `index` raises on a buffer holding high bytes, and finds nothing in one without them | a WebP whose first chunk is VP8 with a key frame | the width and height after the start code | not executed | ImageDim.Vp8Of | ImageDim.Vp8Sniffed |
| lib/image_dim.rb:51 | the marker byte `"\xFF"` is a UTF-8 literal. `index` raises on a binary buffer holding a byte of 0x80 or more, and finds nothing in one without, so the scan never reaches a marker | any JPEG file: it starts with 0xFF | the first 0xFF byte of the buffer is found | not executed | ImageDim.JpegScan | ImageDim.JpegSniffed |
| lib/image_dim.rb:63 | SOI (0xD8) is excluded from the markers without a length. At the SOI marker the scan reads the next marker, 0xFFC0, as a segment length and runs out of data. The rows for lines 11 and 51 hide this: it shows once the scan reaches a marker | `FF D8 FF C0 00 11 08 …`, the smallest JPEG (`ImageDim.MinimalJpeg`) | the start-of-image marker is skipped and the frame header read | not executed | ImageDim.JpegSoiAsWritten | ImageDim.JpegSniffed |
| lib/imsg/query/address_book.rb:31 | the last ten digits of phone and handle are compared as `[-10..]` slices. Both are nil when the strings are shorter than ten, so nil equals nil | contact phone `+44`, handle `a@b` | compare last ten digits only when both have ten | not executed | AddressBook.ShortPhoneMatchesAnyEmail | AddressBook.FindContactForHandle |
