# Gmail MIME serialiser

A Dafny model of the message composer of the erxes Gmail integration: `encodeBase64`,
which writes a mail subject in the form of an RFC 2047 "B" encoded-word, and
`createMimeMessage`, which
turns a mail-parameters record into the raw text of a `multipart/mixed` message (RFC 2046
section 5.1) with the fixed boundary `__erxes__`, a plain text part, an HTML part and one
base 64 part (RFC 4648 section 4) per attachment.

The project has six modules:

- `Wrappers` — `Option`, the result of every partial decoder.
- `Strings` — `Join` (JavaScript's `Array.prototype.join`), `Terminated` (each line followed
  by a newline), prefix and suffix stripping, and the sequence lemmas the proofs share.
- `Base64` — the encoder Node's `Buffer.toString('base64')` implements, and a strict
  decoder. Both round trips are proved.
- `Send` — `EncodeSubject` is `encodeBase64`: `=?utf-8?B?`, the base 64 of the subject's
  bytes, `?=`. Its properties are the lemmas `EncodeSubjectAscii`, `DecodeEncodeSubject` and
  `EncodeDecodeSubject`. `CreateMimeMessage` is
  `createMimeMessage` written the way the source writes it: the `mimeBase` entries
  (four fixed headers, the optional Cc and Bcc, one joined block for the declaration and the
  text parts, one joined block per attachment, the closing delimiter) joined with `"\n"`.
- `MimeStructure` — a typed view of the same message: header fields, parts, and the
  `Line`s they are written as (`FieldLine`, `Blank`, `Delimiter`, `CloseDelimiter`,
  `BodyLine`). `Compose` builds the typed message and `Render` writes it. The central lemma
  `CreateMimeMessageIsRender` proves that the source-shaped serialiser and
  `Render(Compose(p))` produce the same text.
- `MimeProperties` and `Decompose` — the properties of the composed message, stated over
  its typed lines, and the inverse of `Compose`.

Delimiter counts are stated over the typed lines, not by scanning the text. A body or a
file name that happens to contain `--__erxes__` is still one `BodyLine` or `FieldLine`,
and the serialiser does not escape it.

Values of the source map to the model as follows:

- Subjects and attachment payloads are byte sequences.
- `cc` and `bcc` are `Option<string>`. JavaScript truthiness of a string is `Some(s)` with
  `s != ""` (`Send.Truthy`).
- `attachments` is `Option<seq<Attachment>>`.

## Model

| member | source | states |
|---|---|---|
| Base64.Encode | src/gmail/send.ts:58 | every character of an encoding is from the base 64 alphabet or the `=` pad |
| Base64.EncodeLength | src/gmail/send.ts:58 | the encoding of n bytes has 4·⌈n/3⌉ characters |
| Base64.DecodeEncode | src/gmail/send.ts:58 | decoding the encoding of any byte sequence gives that sequence back |
| Base64.EncodeDecode | src/gmail/send.ts:6 | every text the decoder accepts is the encoding of the bytes it decodes to, so each byte sequence has exactly one encoding |
| Send.EncodeSubjectAscii | src/gmail/send.ts:5-7 | the encoded-word written for any subject is printable ASCII |
| Send.DecodeEncodeSubject | src/gmail/send.ts:5-7 | stripping `=?utf-8?B?` and `?=` from the encoded-word and decoding the middle gives back the subject's bytes |
| Send.EncodeDecodeSubject | src/gmail/send.ts:5-7 | every encoded-word that decodes is the one written for the bytes it decodes to |
| Send.CreateMimeMessage | src/gmail/send.ts:13-68 | the message starts with the `MIME-Version`, `To`, `From` and `Subject` lines in that order, each ended by a newline, and its last line is the closing delimiter `--__erxes__--` |
| MimeStructure.Lines | src/gmail/send.ts:19-65 | the header fields come first, one line each and in order, then the `multipart/mixed` declaration and an empty line; the closing delimiter is the last line |
| MimeStructure.CreateMimeMessageIsRender | src/gmail/send.ts:13-68 | for every input, the text `createMimeMessage` writes equals the typed message of `Compose` rendered line by line |
| MimeProperties.HeaderOrder | src/gmail/send.ts:19-36 | the first four typed lines are `MIME-Version: 1.0`, `To`, `From` with the address in angle brackets, and `Subject` with the encoded-word; after the optional headers come the `multipart/mixed; boundary=__erxes__` declaration and an empty line |
| MimeProperties.FixedHeadersOnce | src/gmail/send.ts:19-24 | each of `MIME-Version`, `To`, `From` and `Subject` occurs at its fixed position among the typed lines and at no other typed line |
| MimeProperties.CcLine | src/gmail/send.ts:26-28 | a Cc field line appears if and only if `cc` is truthy; it is the fifth typed line and carries `cc` unchanged |
| MimeProperties.BccLine | src/gmail/send.ts:30-32 | a Bcc field line appears if and only if `bcc` is truthy; it is the last typed header line before the declaration and carries `bcc` unchanged |
| MimeProperties.CcBeforeBcc | src/gmail/send.ts:26-32 | when both appear, the Cc line comes before the Bcc line |
| MimeProperties.TextPartLines | src/gmail/send.ts:37-47 | right after the declaration come the plain text part and then the HTML part; each has a delimiter, a UTF-8 content type, `8bit` transfer encoding, an empty line, and its text followed by a newline |
| MimeProperties.AttachmentLines | src/gmail/send.ts:50-62 | attachment k sits at seven lines per earlier attachment after the text parts, so the input order is kept; its lines are a delimiter, the content type with `name="filename"`, `Content-Length: 3.7*1024`, the disposition naming the file, `base64` transfer encoding, an empty line, and a body that decodes back to the attachment's bytes |
| MimeProperties.DelimiterCounts | src/gmail/send.ts:37-65 | with N attachments there are exactly 2 + N opening delimiters and exactly one closing delimiter, and the closing delimiter is the last line |
| MimeProperties.AbsentAttachmentsAsEmpty | src/gmail/send.ts:50-51 | an absent attachment list and an empty one produce the same text |
| MimeProperties.ThreadIdIgnored | src/gmail/send.ts:14 | the thread id does not affect the text |
| Decompose.Normalize | src/gmail/send.ts:26-32 | the normal form keeps `toEmails`, `fromEmail`, `subject`, `textPlain` and `textHtml`, keeps a truthy Cc or Bcc unchanged, keeps whether each is truthy, and keeps the attachment list that is iterated over; it is the identity on parameters already in normal form |
| Decompose.DecomposeCompose | src/gmail/send.ts:13-68 | reading back the composed message gives the normal form of the input: every field of the parameters that reaches the message can be recovered from it |
| Decompose.ComposeDecompose | src/gmail/send.ts:13-68 | every message the reader accepts is exactly the message composed for what it reads |
| Decompose.ComposeInjective | src/gmail/send.ts:13-68 | two inputs give the same message if and only if their normal forms agree |
| Decompose.CreateMimeMessageOfNormal | src/gmail/send.ts:13-17 | the text depends only on the normal form of the input; the fixed boundary makes the serialiser deterministic |

## Left out

- `sendGmail` and `composeEmail` (src/gmail/send.ts:70-101) are left out. They are a call to the external Gmail client, and they catch and discard its errors.
- `src/gmail/controller.ts` is left out. It is HTTP routing, store lookups, credential retrieval and the push-subscription call, all asynchronous glue over collaborators that are not part of this model.
- The UTF-8 conversion `Buffer.from(subject)` is not modelled. The subject and the attachment payloads are given as bytes.
- JavaScript coercions are not modelled, such as `undefined` concatenated as the text `"undefined"`. `toEmails`, `fromEmail`, `textPlain` and `textHtml` are strings.
- Lines are separated by `"\n"`, as the code writes them. RFC 2822 asks for CRLF, and the model follows the code.
- The boundary is the fixed `__erxes__` and `Content-Length` is the literal placeholder `3.7*1024`, as in the code. The code uses neither a random boundary nor a computed length.
- Render is not shown injective on raw text. A body containing a line `--__erxes__` collides with a delimiter, so injectivity is stated over the typed message (`Decompose.ComposeInjective`).
- Header values are written unescaped (src/gmail/send.ts:21-31, 54, 56). A `toEmails`, `fromEmail`, `cc`, `bcc`, `mimeType` or `filename` containing a newline adds raw lines to the text. The layout properties in `MimeProperties` describe the typed lines, one `FieldLine` per field. They are not statements about the raw text's lines.
- The subject's encoded-word is never split (src/gmail/send.ts:5-7). A subject of more than 45 bytes gives a word longer than the 75 characters section 2 of RFC 2047 allows. The model writes the same single word and does not state that limit.
- The base 64 decoder and `Decompose` have no counterpart in the source. They are the partners that state what the encoders preserve.
- Send.CreateMimeMessage: its own contract states only how the text starts and ends. The full layout is stated through `MimeStructure.CreateMimeMessageIsRender` and the `MimeProperties` lemmas.
