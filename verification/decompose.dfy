/** The inverse of composition: reading the mail parameters back from the structure of
    the message `createMimeMessage` writes. The message determines the parameters up to
    the choices that never reach it, which `Normalize` forgets. */
module Decompose {
  import opened Wrappers
  import opened Strings
  import Base64
  import opened Send
  import opened MimeStructure

  /** Parameters in the form the message determines them: an optional header that is
      not truthy is absent, an empty attachment list is absent, there is no thread id. */
  predicate IsNormal(p: MailParams) {
    && (p.cc.Some? ==> Truthy(p.cc))
    && (p.bcc.Some? ==> Truthy(p.bcc))
    && (p.attachments.Some? ==> p.attachments.value != [])
    && p.threadId.None?
  }

  /** What of `p` reaches the message. */
  function Normalize(p: MailParams): (q: MailParams)
    ensures IsNormal(q)
    ensures Truthy(q.cc) == Truthy(p.cc) && Truthy(q.bcc) == Truthy(p.bcc)
    ensures AttachmentsOf(q) == AttachmentsOf(p)
    ensures IsNormal(p) ==> q == p
    ensures q.toEmails == p.toEmails && q.fromEmail == p.fromEmail && q.subject == p.subject
    ensures q.textPlain == p.textPlain && q.textHtml == p.textHtml
    ensures (Truthy(p.cc) ==> q.cc == p.cc) && (Truthy(p.bcc) ==> q.bcc == p.bcc)
  {
    p.(cc := if Truthy(p.cc) then p.cc else None,
       bcc := if Truthy(p.bcc) then p.bcc else None,
       attachments := if AttachmentsOf(p) == [] then None else Some(AttachmentsOf(p)),
       threadId := None)
  }

  /** The value of a non-empty header field with the given name. */
  function ParseOptional(f: Field, name: string): Option<string> {
    if f.name == name && f.value != "" then Some(f.value) else None
  }

  /** The optional headers after the four fixed ones: a Cc field, then a Bcc field, each
      present only with a non-empty value. */
  function ParseCopies(fs: seq<Field>): Option<(Option<string>, Option<string>)> {
    if |fs| == 0 then Some((None, None))
    else if |fs| == 1 then
      if fs[0].name == "Cc" then
        var cc :- ParseOptional(fs[0], "Cc");
        Some((Some(cc), None))
      else
        var bcc :- ParseOptional(fs[0], "Bcc");
        Some((None, Some(bcc)))
    else if |fs| == 2 then
      var cc :- ParseOptional(fs[0], "Cc");
      var bcc :- ParseOptional(fs[1], "Bcc");
      Some((Some(cc), Some(bcc)))
    else None
  }

  /** The text of a UTF-8 text part of the given content type. */
  function ParseTextPart(contentType: string, pt: Part): Option<string> {
    if pt.fields == [Field("Content-Type", contentType), Field("Content-Transfer-Encoding", "8bit")]
    then StripSuffix(pt.body, Nl)
    else None
  }

  /** The file name a disposition value `attachment; attachmentname="…"` ends with. */
  function FileNameOf(disposition: string): Option<string> {
    var quoted :- StripPrefix(disposition, "attachment; attachmentname=\"");
    StripSuffix(quoted, "\"")
  }

  /** The MIME type that precedes `; name="filename"` in a content type value. */
  function MimeTypeOf(contentType: string, filename: string): Option<string> {
    StripSuffix(contentType, "; name=\"" + filename + "\"")
  }

  /** The attachment an attachment part carries. The file name is read from the
      disposition, which ends with it, and the MIME type is what precedes the file name
      in the content type. */
  function ParseAttachment(pt: Part): Option<Attachment> {
    if || |pt.fields| != 4
       || pt.fields[0].name != "Content-Type"
       || pt.fields[1] != Field("Content-Length", "3.7*1024")
       || pt.fields[2].name != "Content-Disposition"
       || pt.fields[3] != Field("Content-Transfer-Encoding", "base64")
    then None
    else
      var filename :- FileNameOf(pt.fields[2].value);
      var mimeType :- MimeTypeOf(pt.fields[0].value, filename);
      var data :- Base64.Decode(pt.body);
      Some(Attachment(mimeType, filename, data))
  }

  /** The carried values of a list of options, or `None` when any of them is absent. */
  function AllSome<T>(xs: seq<Option<T>>): (r: Option<seq<T>>)
    ensures r.Some? ==> |r.value| == |xs|
    decreases |xs|
  {
    if |xs| == 0 then Some([])
    else
      match (xs[0], AllSome(xs[1..]))
      case (Some(a), Some(rest)) => Some([a] + rest)
      case _ => None
  }

  /** Options that all carry values collect to exactly those values. */
  lemma {:induction false} AllSomeOfEach<T>(xs: seq<Option<T>>, ys: seq<T>)
    requires |xs| == |ys|
    requires forall i :: 0 <= i < |xs| ==> xs[i] == Some(ys[i])
    ensures AllSome(xs) == Some(ys)
    decreases |xs|
  {
    if |xs| > 0 {
      AllSomeOfEach(xs[1..], ys[1..]);
      assert ys == [ys[0]] + ys[1..];
    }
  }

  /** Each collected value is the one its option carries. */
  lemma {:induction false} AllSomeAt<T>(xs: seq<Option<T>>, i: nat)
    requires AllSome(xs).Some? && i < |xs|
    ensures xs[i] == Some(AllSome(xs).value[i])
    decreases |xs|
  {
    if i > 0 {
      AllSomeAt(xs[1..], i - 1);
    }
  }

  function ParseAttachments(ps: seq<Part>): (r: Option<seq<Attachment>>)
    ensures r.Some? ==> |r.value| == |ps|
  {
    AllSome(ParsedParts(ps))
  }

  /** The reading of each part as an attachment. */
  function ParsedParts(ps: seq<Part>): seq<Option<Attachment>> {
    seq(|ps|, i requires 0 <= i < |ps| => ParseAttachment(ps[i]))
  }


  /** The mail parameters a message of the form `Compose` writes stands for, or `None`
      when the message does not have that form. */
  function Decompose(m: Message): Option<MailParams> {
    if || |m.fields| < 4 || |m.parts| < 2
       || m.fields[0] != Field("MIME-Version", "1.0")
       || m.fields[1].name != "To"
       || m.fields[2].name != "From"
       || m.fields[3].name != "Subject"
    then None
    else
      var bracketed :- StripPrefix(m.fields[2].value, "<");
      var from :- StripSuffix(bracketed, ">");
      var subject :- DecodeSubject(m.fields[3].value);
      var copies :- ParseCopies(m.fields[4..]);
      var plain :- ParseTextPart(PlainType, m.parts[0]);
      var html :- ParseTextPart(HtmlType, m.parts[1]);
      var atts :- ParseAttachments(m.parts[2..]);
      Some(MailParams(m.fields[1].value, from, subject, plain, html, copies.0, copies.1,
                      if atts == [] then None else Some(atts), None))
  }

  lemma ParseTextPartOfTextPart(contentType: string, text: string)
    ensures ParseTextPart(contentType, TextPart(contentType, text)) == Some(text)
  {
    StripSuffixOfConcat(text, Nl);
  }

  lemma TextPartOfParse(contentType: string, pt: Part)
    requires ParseTextPart(contentType, pt).Some?
    ensures TextPart(contentType, ParseTextPart(contentType, pt).value) == pt
  {
  }

  lemma FileNameOfDisposition(filename: string)
    ensures FileNameOf("attachment; attachmentname=\"" + filename + "\"") == Some(filename)
  {
    var pre := "attachment; attachmentname=\"";
    ConcatAssoc(pre, filename, "\"");
    StripPrefixOfConcat(pre, filename + "\"");
    StripSuffixOfConcat(filename, "\"");
  }

  lemma DispositionOfFileName(disposition: string)
    requires FileNameOf(disposition).Some?
    ensures disposition == "attachment; attachmentname=\"" + FileNameOf(disposition).value + "\""
  {
    ConcatAssoc("attachment; attachmentname=\"", FileNameOf(disposition).value, "\"");
  }

  lemma MimeTypeOfContentType(mimeType: string, filename: string)
    ensures MimeTypeOf(mimeType + "; name=\"" + filename + "\"", filename) == Some(mimeType)
  {
    ConcatAssoc(mimeType, "; name=\"", filename);
    ConcatAssoc(mimeType, "; name=\"" + filename, "\"");
    ConcatAssoc(mimeType + "; name=\"", filename, "\"");
    StripSuffixOfConcat(mimeType, "; name=\"" + filename + "\"");
  }

  lemma ContentTypeOfMimeType(contentType: string, filename: string)
    requires MimeTypeOf(contentType, filename).Some?
    ensures contentType == MimeTypeOf(contentType, filename).value + "; name=\"" + filename + "\""
  {
    var mimeType := MimeTypeOf(contentType, filename).value;
    ConcatAssoc(mimeType, "; name=\"", filename);
    ConcatAssoc(mimeType, "; name=\"" + filename, "\"");
  }

  lemma ParseAttachmentOfPart(a: Attachment)
    ensures ParseAttachment(AttachmentPart(a)) == Some(a)
  {
    FileNameOfDisposition(a.filename);
    MimeTypeOfContentType(a.mimeType, a.filename);
    Base64.DecodeEncode(a.data);
  }

  lemma AttachmentFieldsOfParse(pt: Part)
    requires ParseAttachment(pt).Some?
    ensures AttachmentPart(ParseAttachment(pt).value).fields == pt.fields
  {
    var f := pt.fields;
    var filename := FileNameOf(f[2].value).value;
    DispositionOfFileName(f[2].value);
    ContentTypeOfMimeType(f[0].value, filename);
  }

  lemma AttachmentBodyOfParse(pt: Part)
    requires ParseAttachment(pt).Some?
    ensures Base64.Encode(ParseAttachment(pt).value.data) == pt.body
  {
    Base64.EncodeDecode(pt.body);
  }

  lemma AttachmentPartOfParse(pt: Part)
    requires ParseAttachment(pt).Some?
    ensures AttachmentPart(ParseAttachment(pt).value) == pt
  {
    AttachmentFieldsOfParse(pt);
    AttachmentBodyOfParse(pt);
  }

  /** A list of parts parses when each part does, to the list of what each one parses to. */
  lemma ParseAttachmentsOfEach(ps: seq<Part>, atts: seq<Attachment>)
    requires |ps| == |atts|
    requires forall i :: 0 <= i < |ps| ==> ParseAttachment(ps[i]) == Some(atts[i])
    ensures ParseAttachments(ps) == Some(atts)
  {
    AllSomeOfEach(ParsedParts(ps), atts);
  }


  lemma ParseAttachmentsOfParts(atts: seq<Attachment>)
    ensures ParseAttachments(AttachmentParts(atts)) == Some(atts)
  {
    var ps := AttachmentParts(atts);
    forall i | 0 <= i < |ps| ensures ParseAttachment(ps[i]) == Some(atts[i]) {
      ParseAttachmentOfPart(atts[i]);
    }
    ParseAttachmentsOfEach(ps, atts);
  }

  /** A successful parse of a list of parts parses each part. */
  lemma ParseAttachmentsAt(ps: seq<Part>, i: nat)
    requires ParseAttachments(ps).Some? && i < |ps|
    ensures ParseAttachment(ps[i]) == Some(ParseAttachments(ps).value[i])
  {
    AllSomeAt(ParsedParts(ps), i);
  }


  lemma AttachmentPartsOfParse(ps: seq<Part>)
    requires ParseAttachments(ps).Some?
    ensures AttachmentParts(ParseAttachments(ps).value) == ps
  {
    var atts := ParseAttachments(ps).value;
    forall i | 0 <= i < |ps| ensures AttachmentPart(atts[i]) == ps[i] {
      ParseAttachmentsAt(ps, i);
      AttachmentPartOfParse(ps[i]);
    }
  }

  /** The optional header fields of `p`. */
  function CopyFields(p: MailParams): seq<Field> {
    (if Truthy(p.cc) then [Field("Cc", p.cc.value)] else [])
    + (if Truthy(p.bcc) then [Field("Bcc", p.bcc.value)] else [])
  }

  lemma HeaderFieldsSplit(p: MailParams)
    ensures |HeaderFields(p)| >= 4
    ensures HeaderFields(p)[..4]
         == [ Field("MIME-Version", "1.0"),
              Field("To", p.toEmails),
              Field("From", "<" + p.fromEmail + ">"),
              Field("Subject", EncodeSubject(p.subject)) ]
    ensures HeaderFields(p)[4..] == CopyFields(p)
  {
  }

  lemma ParseCopiesOfFields(p: MailParams)
    ensures ParseCopies(CopyFields(p)) == Some((Normalize(p).cc, Normalize(p).bcc))
  {
  }

  lemma CopyFieldsOfParse(fs: seq<Field>, p: MailParams)
    requires ParseCopies(fs) == Some((p.cc, p.bcc))
    ensures CopyFields(p) == fs
    ensures (p.cc.Some? ==> Truthy(p.cc)) && (p.bcc.Some? ==> Truthy(p.bcc))
  {
  }

  lemma StripBracketsOfBracketed(x: string)
    ensures StripPrefix("<" + x + ">", "<").Some?
    ensures StripSuffix(StripPrefix("<" + x + ">", "<").value, ">") == Some(x)
  {
    ConcatAssoc("<", x, ">");
    StripPrefixOfConcat("<", x + ">");
    StripSuffixOfConcat(x, ">");
  }

  /** Reading back the message composed for `p` gives the normal form of `p`. */
  lemma DecomposeCompose(p: MailParams)
    ensures Decompose(Compose(p)) == Some(Normalize(p))
  {
    var m := Compose(p);
    var atts := AttachmentsOf(p);
    HeaderFieldsSplit(p);
    assert m.fields[..4] == HeaderFields(p)[..4];
    StripBracketsOfBracketed(p.fromEmail);
    DecodeEncodeSubject(p.subject);
    ParseCopiesOfFields(p);
    ParseTextPartOfTextPart(PlainType, p.textPlain);
    ParseTextPartOfTextPart(HtmlType, p.textHtml);
    assert m.parts[2..] == AttachmentParts(atts);
    ParseAttachmentsOfParts(atts);
  }

  lemma BracketedOfStrip(v: string)
    requires StripPrefix(v, "<").Some? && StripSuffix(StripPrefix(v, "<").value, ">").Some?
    ensures v == "<" + StripSuffix(StripPrefix(v, "<").value, ">").value + ">"
  {
    ConcatAssoc("<", StripSuffix(StripPrefix(v, "<").value, ">").value, ">");
  }

  lemma DecomposeFixedFields(m: Message)
    requires Decompose(m).Some?
    ensures |m.fields| >= 4 && HeaderFields(Decompose(m).value)[..4] == m.fields[..4]
  {
    var q := Decompose(m).value;
    var f := m.fields;
    BracketedOfStrip(f[2].value);
    assert f[2] == Field("From", "<" + q.fromEmail + ">");
    EncodeDecodeSubject(f[3].value);
    assert f[3] == Field("Subject", EncodeSubject(q.subject));
    assert f[..4] == [f[0], f[1], f[2], f[3]];
    HeaderFieldsSplit(q);
  }

  lemma DecomposeCopyFields(m: Message)
    requires Decompose(m).Some?
    ensures |m.fields| >= 4 && CopyFields(Decompose(m).value) == m.fields[4..]
    ensures var q := Decompose(m).value; (q.cc.Some? ==> Truthy(q.cc)) && (q.bcc.Some? ==> Truthy(q.bcc))
  {
    CopyFieldsOfParse(m.fields[4..], Decompose(m).value);
  }

  /** The header fields of a message `Decompose` accepts are those of what it reads. */
  lemma DecomposeFields(m: Message)
    requires Decompose(m).Some?
    ensures HeaderFields(Decompose(m).value) == m.fields
    ensures var q := Decompose(m).value; (q.cc.Some? ==> Truthy(q.cc)) && (q.bcc.Some? ==> Truthy(q.bcc))
  {
    var q := Decompose(m).value;
    DecomposeFixedFields(m);
    DecomposeCopyFields(m);
    HeaderFieldsSplit(q);
    assert m.fields == m.fields[..4] + m.fields[4..];
    assert HeaderFields(q) == HeaderFields(q)[..4] + HeaderFields(q)[4..];
  }

  lemma DecomposeTextParts(m: Message)
    requires Decompose(m).Some?
    ensures var q := Decompose(m).value;
      |m.parts| >= 2 && [TextPart(PlainType, q.textPlain), TextPart(HtmlType, q.textHtml)] == m.parts[..2]
  {
    TextPartOfParse(PlainType, m.parts[0]);
    TextPartOfParse(HtmlType, m.parts[1]);
  }

  lemma DecomposeAttachmentParts(m: Message)
    requires Decompose(m).Some?
    ensures var q := Decompose(m).value;
      && |m.parts| >= 2 && AttachmentParts(AttachmentsOf(q)) == m.parts[2..]
      && (q.attachments.Some? ==> q.attachments.value != []) && q.threadId.None?
  {
    AttachmentPartsOfParse(m.parts[2..]);
  }

  /** The parts of a message `Decompose` accepts are those composed for what it reads. */
  lemma DecomposeParts(m: Message)
    requires Decompose(m).Some?
    ensures var q := Decompose(m).value;
      [TextPart(PlainType, q.textPlain), TextPart(HtmlType, q.textHtml)] + AttachmentParts(AttachmentsOf(q)) == m.parts
    ensures var q := Decompose(m).value; (q.attachments.Some? ==> q.attachments.value != []) && q.threadId.None?
  {
    DecomposeTextParts(m);
    DecomposeAttachmentParts(m);
    assert m.parts == m.parts[..2] + m.parts[2..];
  }

  /** Every message `Decompose` accepts is the one composed for what it reads, and what it
      reads is in normal form. */
  lemma ComposeDecompose(m: Message)
    requires Decompose(m).Some?
    ensures IsNormal(Decompose(m).value)
    ensures Compose(Decompose(m).value) == m
  {
    var q := Decompose(m).value;
    DecomposeFields(m);
    DecomposeParts(m);
    var c := Compose(q);
    assert c.fields == m.fields;
    assert c.parts == m.parts;
  }

  /** Only the normal form of the parameters reaches the message. */
  lemma ComposeNormalize(p: MailParams)
    ensures Compose(Normalize(p)) == Compose(p)
  {
    assert HeaderFields(Normalize(p)) == HeaderFields(p);
  }

  /** Two parameter sets give the same message exactly when their normal forms agree. */
  lemma ComposeInjective(p: MailParams, q: MailParams)
    ensures Compose(p) == Compose(q) <==> Normalize(p) == Normalize(q)
  {
    DecomposeCompose(p);
    DecomposeCompose(q);
    ComposeNormalize(p);
    ComposeNormalize(q);
  }

  /** The text `createMimeMessage` writes depends only on the normal form of its input. */
  lemma CreateMimeMessageOfNormal(p: MailParams, q: MailParams)
    requires Normalize(p) == Normalize(q)
    ensures CreateMimeMessage(p) == CreateMimeMessage(q)
  {
    ComposeInjective(p, q);
    CreateMimeMessageIsRender(p);
    CreateMimeMessageIsRender(q);
  }
}
