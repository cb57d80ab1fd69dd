/** A typed reading of the text `createMimeMessage` writes: header fields, then
    `multipart/mixed` body parts (section 5.1 of RFC 2046), each part a delimiter line,
    its own fields, an empty line and its body, and finally the closing delimiter.
    Body text is a distinct kind of line, so counting delimiters here counts the
    structure the serialiser emits, not text that merely looks like a delimiter. */
module MimeStructure {
  import opened Wrappers
  import opened Strings
  import Base64
  import opened Send

  /** A header field `name: value`. */
  datatype Field = Field(name: string, value: string)

  /** A body part: its fields and its body text. */
  datatype Part = Part(fields: seq<Field>, body: string)

  /** A message: its top-level fields (before the multipart declaration) and its parts. */
  datatype Message = Message(fields: seq<Field>, parts: seq<Part>)

  /** One line of the rendered message, tagged with the role it plays. */
  datatype Line =
    | FieldLine(field: Field)
    | Blank
    | Delimiter
    | CloseDelimiter
    | BodyLine(text: string)

  /** The declaration of the multipart body with the fixed boundary. */
  const MultipartField: Field := Field("Content-Type", "multipart/mixed; boundary=" + Boundary)

  function FieldText(f: Field): string {
    HeaderLine(f.name, f.value)
  }

  function LineText(l: Line): string {
    match l
    case FieldLine(f) => FieldText(f)
    case Blank => ""
    case Delimiter => DelimiterLine
    case CloseDelimiter => CloseDelimiterLine
    case BodyLine(t) => t
  }

  function Texts(ls: seq<Line>): (r: seq<string>)
    ensures |r| == |ls|
  {
    seq(|ls|, i requires 0 <= i < |ls| => LineText(ls[i]))
  }

  function FieldLines(fs: seq<Field>): (ls: seq<Line>)
    ensures |ls| == |fs|
    ensures Delimiter !in ls && CloseDelimiter !in ls
  {
    seq(|fs|, i requires 0 <= i < |fs| => FieldLine(fs[i]))
  }

  /** A part: its delimiter, its fields, an empty line, its body. */
  function PartLines(pt: Part): seq<Line> {
    [Delimiter] + FieldLines(pt.fields) + [Blank, BodyLine(pt.body)]
  }

  /** The parts one after another. */
  function PartsLines(ps: seq<Part>): seq<Line>
    decreases |ps|
  {
    if |ps| == 0 then [] else PartLines(ps[0]) + PartsLines(ps[1..])
  }

  /** The lines of a message: its fields, the multipart declaration, an empty line, the
      parts and the closing delimiter, which is the last line. */
  function Lines(m: Message): (ls: seq<Line>)
    ensures |ls| >= |m.fields| + 3
    ensures forall i :: 0 <= i < |m.fields| ==> ls[i] == FieldLine(m.fields[i])
    ensures ls[|m.fields|] == FieldLine(MultipartField) && ls[|m.fields| + 1] == Blank
    ensures ls[|ls| - 1] == CloseDelimiter
  {
    FieldLines(m.fields) + [FieldLine(MultipartField), Blank] + PartsLines(m.parts) + [CloseDelimiter]
  }

  /** The text of a message: its lines joined with newlines. */
  function Render(m: Message): string {
    Join(Texts(Lines(m)), Nl)
  }

  /** A UTF-8 text part with the given content type, its body followed by a newline so
      that an empty line separates it from the next delimiter. */
  function TextPart(contentType: string, text: string): Part {
    Part([Field("Content-Type", contentType), Field("Content-Transfer-Encoding", "8bit")], text + Nl)
  }

  const PlainType: string := "text/plain; charset=UTF-8"
  const HtmlType: string := "text/html; charset=UTF-8"

  /** The part carrying one attachment, its body the base 64 encoding of the data. */
  function AttachmentPart(a: Attachment): Part {
    Part([ Field("Content-Type", a.mimeType + "; name=\"" + a.filename + "\""),
           Field("Content-Length", "3.7*1024"),
           Field("Content-Disposition", "attachment; attachmentname=\"" + a.filename + "\""),
           Field("Content-Transfer-Encoding", "base64") ],
         Base64.Encode(a.data))
  }

  function AttachmentParts(atts: seq<Attachment>): (ps: seq<Part>)
    ensures |ps| == |atts|
  {
    seq(|atts|, i requires 0 <= i < |atts| => AttachmentPart(atts[i]))
  }

  /** The four fixed fields, then Cc and Bcc when they are set. */
  function HeaderFields(p: MailParams): seq<Field> {
    [ Field("MIME-Version", "1.0"),
      Field("To", p.toEmails),
      Field("From", "<" + p.fromEmail + ">"),
      Field("Subject", EncodeSubject(p.subject)) ]
    + (if Truthy(p.cc) then [Field("Cc", p.cc.value)] else [])
    + (if Truthy(p.bcc) then [Field("Bcc", p.bcc.value)] else [])
  }

  /** The message the serialiser writes for `p`, as structure. */
  function Compose(p: MailParams): Message {
    Message(HeaderFields(p),
            [TextPart(PlainType, p.textPlain), TextPart(HtmlType, p.textHtml)]
            + AttachmentParts(AttachmentsOf(p)))
  }

  lemma TextsAppend(a: seq<Line>, b: seq<Line>)
    ensures Texts(a + b) == Texts(a) + Texts(b)
  {
  }

  lemma {:induction false} PartsLinesAppend(ps: seq<Part>, qs: seq<Part>)
    ensures PartsLines(ps + qs) == PartsLines(ps) + PartsLines(qs)
    decreases |ps|
  {
    if |ps| == 0 {
      assert ps + qs == qs;
    } else {
      PartsLinesAppend(ps[1..], qs);
      var pq := ps + qs;
      DropFirstOfConcat(ps, qs);
      assert PartsLines(pq) == PartLines(ps[0]) + PartsLines(pq[1..]);
      ConcatAssoc(PartLines(ps[0]), PartsLines(ps[1..]), PartsLines(qs));
    }
  }

  lemma TerminatedSingle(x: string)
    ensures Terminated([x]) == x + Nl
  {
  }

  /** The header entries of the source are the texts of the header fields. */
  lemma HeaderTexts(p: MailParams)
    ensures Texts(FieldLines(HeaderFields(p))) == HeaderEntries(p)
  {
    var fs := HeaderFields(p);
    var es := HeaderEntries(p);
    var ts := Texts(FieldLines(fs));
    assert |fs| == |es|;
    forall i | 0 <= i < |fs|
      ensures ts[i] == es[i]
    {
      assert ts[i] == FieldText(fs[i]);
    }
  }

  lemma TextPartTexts(contentType: string, text: string)
    ensures Texts(PartLines(TextPart(contentType, text)))
         == [ DelimiterLine,
              HeaderLine("Content-Type", contentType),
              HeaderLine("Content-Transfer-Encoding", "8bit"),
              "",
              text + Nl ]
  {
    var pt := TextPart(contentType, text);
    var ls := PartLines(pt);
    assert ls == [Delimiter, FieldLine(pt.fields[0]), FieldLine(pt.fields[1]), Blank, BodyLine(pt.body)];
  }

  lemma AttachmentPartTexts(a: Attachment)
    ensures Texts(PartLines(AttachmentPart(a)))
         == [ DelimiterLine,
              HeaderLine("Content-Type", a.mimeType + "; name=\"" + a.filename + "\""),
              HeaderLine("Content-Length", "3.7*1024"),
              HeaderLine("Content-Disposition", "attachment; attachmentname=\"" + a.filename + "\""),
              HeaderLine("Content-Transfer-Encoding", "base64"),
              "",
              Base64.Encode(a.data) ]
  {
    var pt := AttachmentPart(a);
    var ls := PartLines(pt);
    assert ls == [Delimiter, FieldLine(pt.fields[0]), FieldLine(pt.fields[1]), FieldLine(pt.fields[2]),
                  FieldLine(pt.fields[3]), Blank, BodyLine(pt.body)];
  }

  /** The joined multipart declaration and text parts read as the declaration, an empty
      line and the lines of the two text parts. */
  lemma BodyTexts(p: MailParams)
    ensures Terminated([Join(BodySegments(p), Nl)]) == Terminated(TextPartsTexts(p))
  {
    var s0 := BodySegments(p);
    TerminatedSingle(Join(s0, Nl));
    JoinThenNewline(s0);
    var declaration := FieldText(MultipartField);
    var transfer := HeaderLine("Content-Transfer-Encoding", "8bit");
    var plainType := HeaderLine("Content-Type", PlainType);
    var htmlType := HeaderLine("Content-Type", HtmlType);
    var plain, html := p.textPlain + Nl, p.textHtml + Nl;
    var d := DelimiterLine;
    assert s0 == [declaration + Nl, d, plainType, transfer + Nl, plain, d, htmlType, transfer + Nl, html];
    BodyLineBreaks(declaration, d, plainType, transfer, plain, htmlType, html);
    TextPartTexts(PlainType, p.textPlain);
    TextPartTexts(HtmlType, p.textHtml);
    var s3 := [declaration, "", d, plainType, transfer, "", plain, d, htmlType, transfer, "", html];
    assert s3 == TextPartsTexts(p);
  }

  /** The three segments of the body block that end with a newline, read as a line
      followed by an empty line. */
  lemma BodyLineBreaks(declaration: string, d: string, plainType: string, transfer: string,
                       plain: string, htmlType: string, html: string)
    ensures Terminated([declaration + Nl, d, plainType, transfer + Nl, plain, d, htmlType, transfer + Nl, html])
         == Terminated([declaration, "", d, plainType, transfer, "", plain, d, htmlType, transfer, "", html])
  {
    var s0 := [declaration + Nl, d, plainType, transfer + Nl, plain, d, htmlType, transfer + Nl, html];
    var s1 := [declaration, "", d, plainType, transfer + Nl, plain, d, htmlType, transfer + Nl, html];
    var s2 := [declaration, "", d, plainType, transfer, "", plain, d, htmlType, transfer + Nl, html];
    var s3 := [declaration, "", d, plainType, transfer, "", plain, d, htmlType, transfer, "", html];
    SplitAt(s0, 0, declaration, s1);
    SplitAt(s1, 4, transfer, s2);
    SplitAt(s2, 9, transfer, s3);
  }

  lemma SplitAt(xs: seq<string>, i: nat, y: string, ys: seq<string>)
    requires i < |xs| && xs[i] == y + Nl
    requires |ys| == |xs| + 1 && ys[..i] == xs[..i] && ys[i] == y && ys[i + 1] == "" && ys[i + 2..] == xs[i + 1..]
    ensures Terminated(xs) == Terminated(ys)
  {
    SplitTrailingNewline(xs, i, y);
    assert ys == xs[..i] + [y, ""] + xs[i + 1..];
  }



  /** The joined segments of one attachment read as the lines of its part. */
  lemma AttachmentTexts(a: Attachment)
    ensures Terminated([Join(AttachmentSegments(a), Nl)]) == Terminated(Texts(PartLines(AttachmentPart(a))))
  {
    var s0 := AttachmentSegments(a);
    TerminatedSingle(Join(s0, Nl));
    JoinThenNewline(s0);
    var transfer := HeaderLine("Content-Transfer-Encoding", "base64");
    SplitTrailingNewline(s0, 4, transfer);
    var s1 := s0[..4] + [transfer, ""] + s0[5..];
    AttachmentPartTexts(a);
    assert s1 == Texts(PartLines(AttachmentPart(a)));
  }

  /** The attachment entries of the source read as the lines of the attachment parts. */
  lemma {:induction false} AttachmentsTexts(atts: seq<Attachment>)
    ensures Terminated(AttachmentEntries(atts)) == Terminated(Texts(PartsLines(AttachmentParts(atts))))
    decreases |atts|
  {
    if |atts| > 0 {
      var es := AttachmentEntries(atts);
      var ps := AttachmentParts(atts);
      assert es == [Join(AttachmentSegments(atts[0]), Nl)] + AttachmentEntries(atts[1..]);
      assert ps[1..] == AttachmentParts(atts[1..]);
      TerminatedAppend([Join(AttachmentSegments(atts[0]), Nl)], AttachmentEntries(atts[1..]));
      AttachmentTexts(atts[0]);
      AttachmentsTexts(atts[1..]);
      TextsAppend(PartLines(ps[0]), PartsLines(ps[1..]));
      TerminatedAppend(Texts(PartLines(ps[0])), Texts(PartsLines(ps[1..])));
    }
  }

  /** The lines of the body declaration and the two text parts. */
  function TextPartsTexts(p: MailParams): seq<string> {
    [FieldText(MultipartField), ""]
    + Texts(PartLines(TextPart(PlainType, p.textPlain)))
    + Texts(PartLines(TextPart(HtmlType, p.textHtml)))
  }

  lemma EntriesShape(p: MailParams)
    ensures Entries(p) == HeaderEntries(p) + [Join(BodySegments(p), Nl)]
                          + AttachmentEntries(AttachmentsOf(p)) + [CloseDelimiterLine]
  {
  }

  lemma DeclarationAndTextParts(p: MailParams)
    ensures Texts([FieldLine(MultipartField), Blank]
                  + (PartLines(TextPart(PlainType, p.textPlain)) + PartLines(TextPart(HtmlType, p.textHtml))))
         == TextPartsTexts(p)
  {
    var declaration := [FieldLine(MultipartField), Blank];
    var plain, html := PartLines(TextPart(PlainType, p.textPlain)), PartLines(TextPart(HtmlType, p.textHtml));
    assert Texts(declaration) == [FieldText(MultipartField), ""];
    TextsAppend(declaration, plain + html);
    TextsAppend(plain, html);
    ConcatAssoc(Texts(declaration), Texts(plain), Texts(html));
  }

  lemma PartsLinesOfCompose(p: MailParams)
    ensures PartsLines(Compose(p).parts)
         == PartLines(TextPart(PlainType, p.textPlain)) + PartLines(TextPart(HtmlType, p.textHtml))
            + PartsLines(AttachmentParts(AttachmentsOf(p)))
  {
    var textParts := [TextPart(PlainType, p.textPlain), TextPart(HtmlType, p.textHtml)];
    assert Compose(p).parts == textParts + AttachmentParts(AttachmentsOf(p));
    PartsLinesAppend(textParts, AttachmentParts(AttachmentsOf(p)));
    PartsLinesPair(textParts[0], textParts[1]);
  }

  lemma PartsLinesPair(a: Part, b: Part)
    ensures PartsLines([a, b]) == PartLines(a) + PartLines(b)
  {
    assert [a, b][1..] == [b];
    assert [b][1..] == [];
    assert PartsLines([b]) == PartLines(b) + [];
  }

  lemma LinesOfCompose(p: MailParams)
    ensures Lines(Compose(p))
         == FieldLines(HeaderFields(p))
            + ([FieldLine(MultipartField), Blank]
               + (PartLines(TextPart(PlainType, p.textPlain)) + PartLines(TextPart(HtmlType, p.textHtml))))
            + PartsLines(AttachmentParts(AttachmentsOf(p)))
            + [CloseDelimiter]
  {
    var fieldLines := FieldLines(HeaderFields(p));
    var declaration := [FieldLine(MultipartField), Blank];
    var textLines := PartLines(TextPart(PlainType, p.textPlain)) + PartLines(TextPart(HtmlType, p.textHtml));
    var attLines := PartsLines(AttachmentParts(AttachmentsOf(p)));
    PartsLinesOfCompose(p);
    ConcatAssoc(fieldLines + declaration, textLines, attLines);
    ConcatAssoc(fieldLines, declaration, textLines);
  }

  lemma LinesShape(p: MailParams)
    ensures Texts(Lines(Compose(p))) == HeaderEntries(p) + TextPartsTexts(p)
                                        + Texts(PartsLines(AttachmentParts(AttachmentsOf(p))))
                                        + [CloseDelimiterLine]
  {
    var fieldLines := FieldLines(HeaderFields(p));
    var middle := [FieldLine(MultipartField), Blank]
                  + (PartLines(TextPart(PlainType, p.textPlain)) + PartLines(TextPart(HtmlType, p.textHtml)));
    var attLines := PartsLines(AttachmentParts(AttachmentsOf(p)));
    LinesOfCompose(p);
    DeclarationAndTextParts(p);
    HeaderTexts(p);
    TextsAppend(fieldLines + middle + attLines, [CloseDelimiter]);
    TextsAppend(fieldLines + middle, attLines);
    TextsAppend(fieldLines, middle);
  }

  /** The text `createMimeMessage` writes is the rendering of the composed structure. */
  lemma CreateMimeMessageIsRender(p: MailParams)
    ensures CreateMimeMessage(p) == Render(Compose(p))
  {
    var atts := AttachmentsOf(p);
    EntriesShape(p);
    LinesShape(p);
    BodyTexts(p);
    AttachmentsTexts(atts);
    var head, close := HeaderEntries(p), [CloseDelimiterLine];
    var body, attEntries := [Join(BodySegments(p), Nl)], AttachmentEntries(atts);
    var bodyLines, attLines := TextPartsTexts(p), Texts(PartsLines(AttachmentParts(atts)));
    TerminatedCongruence(head, body, head, bodyLines);
    TerminatedCongruence(head + body, attEntries, head + bodyLines, attLines);
    TerminatedCongruence(head + body + attEntries, close, head + bodyLines + attLines, close);
    JoinFromTerminated(Entries(p), Texts(Lines(Compose(p))));
  }
}
