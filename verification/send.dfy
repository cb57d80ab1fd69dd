/** The raw MIME text of an outgoing Gmail message, as `createMimeMessage` in
    src/gmail/send.ts builds it: header lines, optional Cc and Bcc lines, a
    `multipart/mixed` body with a text/plain part, a text/html part and one base 64
    part per attachment, all joined with newlines. The definitions follow the source
    segment for segment; MimeStructure gives the same text a typed reading. */
module Send {
  import opened Wrappers
  import opened Strings
  import Base64

  type byte = Base64.byte

  /** One file attached to a message. `data` is the payload as bytes. */
  datatype Attachment = Attachment(mimeType: string, filename: string, data: seq<byte>)

  /** The mail parameters of one message. `subject` is the subject's bytes (the UTF-8
      encoding of the JavaScript string); absent optional fields are `None`. */
  datatype MailParams = MailParams(
    toEmails: string,
    fromEmail: string,
    subject: seq<byte>,
    textPlain: string,
    textHtml: string,
    cc: Option<string>,
    bcc: Option<string>,
    attachments: Option<seq<Attachment>>,
    threadId: Option<string>)

  /** The fixed multipart boundary. */
  const Boundary: string := "__erxes__"

  /** The delimiter line that opens every body part (section 5.1.1 of RFC 2046). */
  const DelimiterLine: string := "--" + Boundary

  /** The delimiter line that closes the multipart body. */
  const CloseDelimiterLine: string := "--" + Boundary + "--"

  /** The two ends of an RFC 2047 "B" encoded-word in the UTF-8 charset. */
  const EncodedWordStart: string := "=?utf-8?B?"
  const EncodedWordEnd: string := "?="

  /** A header line `name: value`. */
  function HeaderLine(name: string, value: string): string {
    name + ": " + value
  }

  /** JavaScript truthiness of an optional string: present and not empty. */
  predicate Truthy(o: Option<string>) {
    o.Some? && o.value != ""
  }

  /** The attachments the serialiser iterates over: none when the list is absent. */
  function AttachmentsOf(p: MailParams): seq<Attachment> {
    p.attachments.GetOr([])
  }

  predicate IsPrintableAscii(c: char) {
    ' ' <= c <= '~'
  }

  /** The subject in the form of an RFC 2047 "B" encoded-word (`encodeBase64` in the
      source). The word is never split, so a subject of more than 45 bytes gives a word
      longer than the 75 characters section 2 of RFC 2047 allows. */
  function EncodeSubject(subject: seq<byte>): string {
    EncodedWordStart + Base64.Encode(subject) + EncodedWordEnd
  }

  /** The encoded-word is plain printable ASCII, whatever bytes the subject has. */
  lemma EncodeSubjectAscii(subject: seq<byte>)
    ensures var w := EncodeSubject(subject);
      forall i :: 0 <= i < |w| ==> IsPrintableAscii(w[i])
  {
    WordAscii(Base64.Encode(subject));
  }

  /** Wrapping encoding characters in the encoded-word delimiters gives printable ASCII. */
  lemma WordAscii(payload: string)
    requires forall i :: 0 <= i < |payload| ==> Base64.IsEncodingChar(payload[i])
    ensures var w := EncodedWordStart + payload + EncodedWordEnd;
      forall i :: 0 <= i < |w| ==> IsPrintableAscii(w[i])
  {
    var w := EncodedWordStart + payload + EncodedWordEnd;
    forall i | 0 <= i < |w|
      ensures IsPrintableAscii(w[i])
    {
      if i < |EncodedWordStart| {
        assert w[i] == EncodedWordStart[i];
      } else if i < |EncodedWordStart| + |payload| {
        assert w[i] == payload[i - |EncodedWordStart|];
      } else {
        assert w[i] == EncodedWordEnd[i - |EncodedWordStart| - |payload|];
      }
    }
  }


  /** Stripping the wrapper off the encoded-word and decoding the middle gives back the
      subject's bytes. */
  lemma DecodeEncodeSubject(subject: seq<byte>)
    ensures DecodeSubject(EncodeSubject(subject)) == Some(subject)
  {
    var payload := Base64.Encode(subject);
    var w := EncodedWordStart + payload + EncodedWordEnd;
    assert w == EncodedWordStart + (payload + EncodedWordEnd);
    Base64.DecodeEncode(subject);
    StripPrefixOfConcat(EncodedWordStart, payload + EncodedWordEnd);
    StripSuffixOfConcat(payload, EncodedWordEnd);
  }

  /** The bytes an encoded-word of the form `EncodeSubject` writes stands for, or `None`
      when `w` is not such a word. */
  function DecodeSubject(w: string): (r: Option<seq<byte>>)
  {
    match StripPrefix(w, EncodedWordStart)
    case None => None
    case Some(rest) =>
      match StripSuffix(rest, EncodedWordEnd)
      case None => None
      case Some(payload) => Base64.Decode(payload)
  }

  /** Every encoded-word `DecodeSubject` accepts is the one `EncodeSubject` writes for the
      bytes it decodes to: the encoding of a subject is unique. */
  lemma EncodeDecodeSubject(w: string)
    requires DecodeSubject(w).Some?
    ensures EncodeSubject(DecodeSubject(w).value) == w
  {
    var rest := StripPrefix(w, EncodedWordStart).value;
    var payload := StripSuffix(rest, EncodedWordEnd).value;
    Base64.EncodeDecode(payload);
  }

  /** The header lines, in `mimeBase` order: the four fixed ones, then Cc and Bcc when set. */
  function HeaderEntries(p: MailParams): seq<string> {
    LeadingHeaderLines(p)
    + (if Truthy(p.cc) then [HeaderLine("Cc", p.cc.value)] else [])
    + (if Truthy(p.bcc) then [HeaderLine("Bcc", p.bcc.value)] else [])
  }

  /** The segments of the multipart declaration and the two text parts. */
  function BodySegments(p: MailParams): seq<string> {
    [ HeaderLine("Content-Type", "multipart/mixed; boundary=" + Boundary) + Nl,
      DelimiterLine,
      HeaderLine("Content-Type", "text/plain; charset=UTF-8"),
      HeaderLine("Content-Transfer-Encoding", "8bit") + Nl,
      p.textPlain + Nl,
      DelimiterLine,
      HeaderLine("Content-Type", "text/html; charset=UTF-8"),
      HeaderLine("Content-Transfer-Encoding", "8bit") + Nl,
      p.textHtml + Nl ]
  }

  /** The segments of one attachment part. */
  function AttachmentSegments(a: Attachment): seq<string> {
    [ DelimiterLine,
      HeaderLine("Content-Type", a.mimeType + "; name=\"" + a.filename + "\""),
      HeaderLine("Content-Length", "3.7*1024"),
      HeaderLine("Content-Disposition", "attachment; attachmentname=\"" + a.filename + "\""),
      HeaderLine("Content-Transfer-Encoding", "base64") + Nl,
      Base64.Encode(a.data) ]
  }

  /** One `mimeBase` entry per attachment, in input order. */
  function AttachmentEntries(atts: seq<Attachment>): (r: seq<string>)
    ensures |r| == |atts|
  {
    seq(|atts|, i requires 0 <= i < |atts| => Join(AttachmentSegments(atts[i]), Nl))
  }

  /** Every entry of `mimeBase` once the serialiser has pushed the last one. */
  function Entries(p: MailParams): seq<string> {
    HeaderEntries(p)
    + [Join(BodySegments(p), Nl)]
    + (if p.attachments.Some? then AttachmentEntries(p.attachments.value) else [])
    + [CloseDelimiterLine]
  }

  /** The four header lines every message starts with, in this order. */
  function LeadingHeaderLines(p: MailParams): seq<string> {
    [ HeaderLine("MIME-Version", "1.0"),
      HeaderLine("To", p.toEmails),
      HeaderLine("From", "<" + p.fromEmail + ">"),
      HeaderLine("Subject", EncodeSubject(p.subject)) ]
  }

  /** `createMimeMessage`: the entries joined with newlines. The message starts with the
      four fixed header lines in order, each ended by a newline, and its last line is the
      closing delimiter. */
  function CreateMimeMessage(p: MailParams): (r: string)
    ensures Terminated(LeadingHeaderLines(p)) <= r
    ensures |r| > |CloseDelimiterLine| && r[|r| - |CloseDelimiterLine| - 1..] == Nl + CloseDelimiterLine
  {
    var es := Entries(p);
    MessageEnds(p);
    Join(es, Nl)
  }

  lemma MessageEnds(p: MailParams)
    ensures var r := Join(Entries(p), Nl);
      && Terminated(LeadingHeaderLines(p)) <= r
      && |r| > |CloseDelimiterLine| && r[|r| - |CloseDelimiterLine| - 1..] == Nl + CloseDelimiterLine
  {
    var es := Entries(p);
    assert es[..4] == LeadingHeaderLines(p);
    JoinHasTerminatedPrefix(es, 4);
    JoinEndsWithLast(es);
  }
}
