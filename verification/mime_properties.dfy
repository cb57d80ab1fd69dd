/** Properties of the message `createMimeMessage` writes, stated over its typed lines:
    header order, the conditional Cc and Bcc headers, the two text parts, one part per
    attachment in input order, and the delimiters. */
module MimeProperties {
  import opened Wrappers
  import opened Strings
  import Base64
  import opened Send
  import opened MimeStructure

  /** `l` is a header field line with the given name. */
  predicate IsField(l: Line, name: string) {
    l.FieldLine? && l.field.name == name
  }

  /** The field names a body part of this message may carry. */
  predicate IsContentName(name: string) {
    name == "Content-Type" || name == "Content-Length" || name == "Content-Disposition"
    || name == "Content-Transfer-Encoding"
  }

  predicate ContentFieldsOnly(ps: seq<Part>) {
    forall i, j :: 0 <= i < |ps| && 0 <= j < |ps[i].fields| ==> IsContentName(ps[i].fields[j].name)
  }

  /** The number of top-level header fields: the four fixed ones plus Cc and Bcc when set. */
  function HeaderCount(p: MailParams): nat {
    4 + (if Truthy(p.cc) then 1 else 0) + (if Truthy(p.bcc) then 1 else 0)
  }

  lemma {:induction false} PartsLinesFieldNames(ps: seq<Part>)
    requires ContentFieldsOnly(ps)
    ensures forall l :: l in PartsLines(ps) && l.FieldLine? ==> IsContentName(l.field.name)
    decreases |ps|
  {
    if |ps| > 0 {
      PartsLinesFieldNames(ps[1..]);
      forall l | l in PartLines(ps[0]) && l.FieldLine?
        ensures IsContentName(l.field.name)
      {
        var fl := FieldLines(ps[0].fields);
        assert l in fl;
        var j :| 0 <= j < |fl| && fl[j] == l;
        assert l.field == ps[0].fields[j];
      }
    }
  }

  lemma ComposedPartsAreContent(p: MailParams)
    ensures ContentFieldsOnly(Compose(p).parts)
  {
    var texts := [TextPart(PlainType, p.textPlain), TextPart(HtmlType, p.textHtml)];
    assert ContentFieldsOnly(texts) by {
      TextPartIsContent(PlainType, p.textPlain);
      TextPartIsContent(HtmlType, p.textHtml);
    }
    AttachmentPartsAreContent(AttachmentsOf(p));
    ContentFieldsOnlyAppend(texts, AttachmentParts(AttachmentsOf(p)));
  }

  lemma TextPartIsContent(contentType: string, text: string)
    ensures forall j :: 0 <= j < |TextPart(contentType, text).fields| ==>
              IsContentName(TextPart(contentType, text).fields[j].name)
  {
  }

  lemma AttachmentPartsAreContent(atts: seq<Attachment>)
    ensures ContentFieldsOnly(AttachmentParts(atts))
  {
    var ps := AttachmentParts(atts);
    forall i, j | 0 <= i < |ps| && 0 <= j < |ps[i].fields|
      ensures IsContentName(ps[i].fields[j].name)
    {
      assert ps[i] == AttachmentPart(atts[i]);
    }
  }

  lemma ContentFieldsOnlyAppend(ps: seq<Part>, qs: seq<Part>)
    requires ContentFieldsOnly(ps) && ContentFieldsOnly(qs)
    ensures ContentFieldsOnly(ps + qs)
  {
    forall i, j | 0 <= i < |ps + qs| && 0 <= j < |(ps + qs)[i].fields|
      ensures IsContentName((ps + qs)[i].fields[j].name)
    {
      if i >= |ps| {
        assert (ps + qs)[i] == qs[i - |ps|];
      }
    }
  }


  /** Past its header block, every field line of a message whose parts carry only content
      fields is the multipart declaration or a part field. */
  lemma BodyFieldNamesOf(m: Message, i: int)
    requires ContentFieldsOnly(m.parts)
    requires |m.fields| <= i < |Lines(m)| && Lines(m)[i].FieldLine?
    ensures IsContentName(Lines(m)[i].field.name)
  {
    var ls := Lines(m);
    var k := |m.fields|;
    if i > k + 1 {
      var pl := PartsLines(m.parts);
      assert ls == FieldLines(m.fields) + [FieldLine(MultipartField), Blank] + pl + [CloseDelimiter];
      if i < k + 2 + |pl| {
        assert ls[i] == pl[i - k - 2];
        PartsLinesFieldNames(m.parts);
        assert ls[i] in pl;
      }
    }
  }

  /** A field named `name` that is not a content field occurs in the lines of a message
      exactly where it occurs among the message's own header fields. */
  lemma HeaderFieldLines(m: Message, name: string)
    requires ContentFieldsOnly(m.parts) && !IsContentName(name)
    ensures var ls := Lines(m);
      && ((exists i :: 0 <= i < |ls| && IsField(ls[i], name)) <==>
          (exists j :: 0 <= j < |m.fields| && m.fields[j].name == name))
      && (forall i :: 0 <= i < |ls| && IsField(ls[i], name) ==> i < |m.fields| && ls[i] == FieldLine(m.fields[i]))
  {
    var ls := Lines(m);
    forall i | 0 <= i < |ls| && IsField(ls[i], name)
      ensures i < |m.fields| && ls[i] == FieldLine(m.fields[i])
    {
      if i >= |m.fields| {
        BodyFieldNamesOf(m, i);
      }
    }
    if j :| 0 <= j < |m.fields| && m.fields[j].name == name {
      assert IsField(ls[j], name);
    }
  }

  /** The header fields: the four fixed ones, then at most a Cc field and a Bcc field. */
  lemma HeaderFieldsShape(p: MailParams)
    ensures var fs := HeaderFields(p);
      && |fs| == HeaderCount(p)
      && (Truthy(p.cc) ==> fs[4] == Field("Cc", p.cc.value))
      && (Truthy(p.bcc) ==> fs[|fs| - 1] == Field("Bcc", p.bcc.value))
      && (forall i :: 4 <= i < |fs| ==>
            || (i == 4 && Truthy(p.cc) && fs[i] == Field("Cc", p.cc.value))
            || (i == |fs| - 1 && Truthy(p.bcc) && fs[i] == Field("Bcc", p.bcc.value)))
  {
  }

  /** The header fields open with `MIME-Version`, `To`, `From` and `Subject`. */
  lemma FixedHeaderFields(p: MailParams)
    ensures var fs := HeaderFields(p);
      && |fs| == HeaderCount(p)
      && fs[0] == Field("MIME-Version", "1.0")
      && fs[1] == Field("To", p.toEmails)
      && fs[2] == Field("From", "<" + p.fromEmail + ">")
      && fs[3] == Field("Subject", EncodeSubject(p.subject))
  {
    HeaderFieldsShape(p);
  }

  /** The message opens with `MIME-Version`, `To`, `From` and `Subject`, in that order, with
      the subject as an encoded-word; then come the optional headers, then the
      `multipart/mixed` declaration with the fixed boundary and an empty line. */
  lemma HeaderOrder(p: MailParams)
    ensures var ls := Lines(Compose(p));
      && |ls| > HeaderCount(p) + 1
      && ls[0] == FieldLine(Field("MIME-Version", "1.0"))
      && ls[1] == FieldLine(Field("To", p.toEmails))
      && ls[2] == FieldLine(Field("From", "<" + p.fromEmail + ">"))
      && ls[3] == FieldLine(Field("Subject", EncodeSubject(p.subject)))
      && ls[HeaderCount(p)] == FieldLine(Field("Content-Type", "multipart/mixed; boundary=" + Boundary))
      && ls[HeaderCount(p) + 1] == Blank
  {
    FixedHeaderFields(p);
  }

  /** Each fixed header name occurs among the header fields only at its own place. */
  lemma FixedFieldsOnce(p: MailParams, j: int)
    requires 0 <= j < |HeaderFields(p)|
    ensures HeaderFields(p)[j].name == "MIME-Version" ==> j == 0
    ensures HeaderFields(p)[j].name == "To" ==> j == 1
    ensures HeaderFields(p)[j].name == "From" ==> j == 2
    ensures HeaderFields(p)[j].name == "Subject" ==> j == 3
  {
    HeaderFieldsShape(p);
  }

  /** The message has exactly one `MIME-Version`, `To`, `From` and `Subject` line each,
      at the first four positions. */
  lemma FixedHeadersOnce(p: MailParams, i: int)
    requires 0 <= i < |Lines(Compose(p))|
    ensures IsField(Lines(Compose(p))[i], "MIME-Version") ==> i == 0
    ensures IsField(Lines(Compose(p))[i], "To") ==> i == 1
    ensures IsField(Lines(Compose(p))[i], "From") ==> i == 2
    ensures IsField(Lines(Compose(p))[i], "Subject") ==> i == 3
  {
    var m := Compose(p);
    ComposedPartsAreContent(p);
    if i < |m.fields| {
      FixedFieldsOnce(p, i);
    } else {
      HeaderFieldLines(m, "MIME-Version");
      HeaderFieldLines(m, "To");
      HeaderFieldLines(m, "From");
      HeaderFieldLines(m, "Subject");
    }
  }

  /** Among the header fields, Cc occurs exactly when `cc` is truthy, in fifth place. */
  lemma CcField(p: MailParams)
    ensures var fs := HeaderFields(p);
      && ((exists j :: 0 <= j < |fs| && fs[j].name == "Cc") <==> Truthy(p.cc))
      && (forall j :: 0 <= j < |fs| && fs[j].name == "Cc" ==> j == 4 && fs[j] == Field("Cc", p.cc.value))
  {
    var fs := HeaderFields(p);
    HeaderFieldsShape(p);
    if Truthy(p.cc) {
      assert fs[4].name == "Cc";
    }
  }

  /** Among the header fields, Bcc occurs exactly when `bcc` is truthy, in last place. */
  lemma BccField(p: MailParams)
    ensures var fs := HeaderFields(p);
      && ((exists j :: 0 <= j < |fs| && fs[j].name == "Bcc") <==> Truthy(p.bcc))
      && (forall j :: 0 <= j < |fs| && fs[j].name == "Bcc" ==> j == HeaderCount(p) - 1 && fs[j] == Field("Bcc", p.bcc.value))
  {
    var fs := HeaderFields(p);
    HeaderFieldsShape(p);
    FixedFieldsNotCopies(p);
    if Truthy(p.bcc) {
      assert fs[|fs| - 1].name == "Bcc";
    }
  }

  /** None of the four fixed fields is named Cc or Bcc. */
  lemma FixedFieldsNotCopies(p: MailParams)
    ensures var fs := HeaderFields(p);
      |fs| >= 4 && forall j :: 0 <= j < 4 ==> fs[j].name != "Cc" && fs[j].name != "Bcc"
  {
    FixedHeaderFields(p);
  }

  /** A Cc line appears exactly when `cc` is truthy; it is the line right after Subject and
      carries `cc` unchanged. */
  lemma CcLine(p: MailParams)
    ensures var ls := Lines(Compose(p));
      && ((exists i :: 0 <= i < |ls| && IsField(ls[i], "Cc")) <==> Truthy(p.cc))
      && (forall i :: 0 <= i < |ls| && IsField(ls[i], "Cc") ==> i == 4 && ls[i] == FieldLine(Field("Cc", p.cc.value)))
  {
    ComposedPartsAreContent(p);
    HeaderFieldLines(Compose(p), "Cc");
    CcField(p);
  }

  /** A Bcc line appears exactly when `bcc` is truthy; it is the last header line before the
      multipart declaration, after Cc when both are present, and carries `bcc` unchanged. */
  lemma BccLine(p: MailParams)
    ensures var ls := Lines(Compose(p));
      && ((exists i :: 0 <= i < |ls| && IsField(ls[i], "Bcc")) <==> Truthy(p.bcc))
      && (forall i :: 0 <= i < |ls| && IsField(ls[i], "Bcc") ==>
            i == HeaderCount(p) - 1 && ls[i] == FieldLine(Field("Bcc", p.bcc.value)))
  {
    ComposedPartsAreContent(p);
    HeaderFieldLines(Compose(p), "Bcc");
    BccField(p);
  }

  /** Cc comes before Bcc when both are present. */
  lemma CcBeforeBcc(p: MailParams, i: int, j: int)
    requires var ls := Lines(Compose(p));
      0 <= i < |ls| && 0 <= j < |ls| && IsField(ls[i], "Cc") && IsField(ls[j], "Bcc")
    ensures i < j
  {
    CcLine(p);
    BccLine(p);
  }

  /** The lines of the parts sit between the empty line after the multipart declaration
      and the closing delimiter. */
  lemma PartsLinesWithin(m: Message)
    ensures var ls := Lines(m);
      && |ls| == |m.fields| + 3 + |PartsLines(m.parts)|
      && ls[|m.fields| + 2..|ls| - 1] == PartsLines(m.parts)
  {
    var ls := Lines(m);
    var pl := PartsLines(m.parts);
    var front := FieldLines(m.fields) + [FieldLine(MultipartField), Blank];
    assert ls == front + pl + [CloseDelimiter];
    assert |front| == |m.fields| + 2;
    assert (front + pl + [CloseDelimiter])[|front|..|front| + |pl|] == pl;
  }

  /** Part `k` of a message sits right after the lines of the parts before it. */
  lemma PartLinesAt(m: Message, k: nat)
    requires k < |m.parts|
    ensures var ls := Lines(m); var o := |m.fields| + 2 + |PartsLines(m.parts[..k])|;
      o + |PartLines(m.parts[k])| < |ls| && ls[o..o + |PartLines(m.parts[k])|] == PartLines(m.parts[k])
  {
    var ps := m.parts;
    PartsLinesSplit(ps, k);
    PartsLinesWithin(m);
    var ls := Lines(m);
    SliceOfConcat(ls, |m.fields| + 2, |ls| - 1, PartsLines(ps[..k]), PartLines(ps[k]), PartsLines(ps[k + 1..]));
  }

  /** The lines of a list of parts around part k. */
  lemma PartsLinesSplit(ps: seq<Part>, k: nat)
    requires k < |ps|
    ensures PartsLines(ps) == PartsLines(ps[..k]) + PartLines(ps[k]) + PartsLines(ps[k + 1..])
  {
    var before := ps[..k];
    var after := ps[k + 1..];
    SplitAround(ps, k);
    PartsLinesAppend(before, [ps[k]] + after);
    assert ([ps[k]] + after)[1..] == after;
    assert PartsLines([ps[k]] + after) == PartLines(ps[k]) + PartsLines(after);
    ConcatAssoc(PartsLines(before), PartLines(ps[k]), PartsLines(after));
  }

  /** Parts of `n` lines each take `n` lines apiece. */
  lemma {:induction false} PartsLinesLength(ps: seq<Part>, n: nat)
    requires forall i :: 0 <= i < |ps| ==> |PartLines(ps[i])| == n
    ensures |PartsLines(ps)| == n * |ps|
    decreases |ps|
  {
    if |ps| > 0 {
      var rest := ps[1..];
      assert forall i :: 0 <= i < |rest| ==> rest[i] == ps[i + 1];
      PartsLinesLength(rest, n);
      assert n * |ps| == n + n * |rest|;
    }
  }

  /** The lines of a text part. */
  lemma TextPartShape(contentType: string, text: string)
    ensures PartLines(TextPart(contentType, text))
         == [ Delimiter,
              FieldLine(Field("Content-Type", contentType)),
              FieldLine(Field("Content-Transfer-Encoding", "8bit")),
              Blank,
              BodyLine(text + Nl) ]
  {
  }

  /** The lines of an attachment part. */
  lemma AttachmentPartShape(a: Attachment)
    ensures PartLines(AttachmentPart(a))
         == [ Delimiter,
              FieldLine(Field("Content-Type", a.mimeType + "; name=\"" + a.filename + "\"")),
              FieldLine(Field("Content-Length", "3.7*1024")),
              FieldLine(Field("Content-Disposition", "attachment; attachmentname=\"" + a.filename + "\"")),
              FieldLine(Field("Content-Transfer-Encoding", "base64")),
              Blank,
              BodyLine(Base64.Encode(a.data)) ]
  {
  }

  /** Right after the empty line that follows the multipart declaration come the plain
      text part and then the HTML part, each opened by a delimiter, declaring UTF-8 text
      in 8bit transfer encoding, and holding its text followed by a newline. */
  lemma TextPartLines(p: MailParams)
    ensures var ls := Lines(Compose(p)); var h := HeaderCount(p);
      && |ls| > h + 12
      && ls[h + 2..h + 7] == [ Delimiter,
                               FieldLine(Field("Content-Type", PlainType)),
                               FieldLine(Field("Content-Transfer-Encoding", "8bit")),
                               Blank,
                               BodyLine(p.textPlain + Nl) ]
      && ls[h + 7..h + 12] == [ Delimiter,
                                FieldLine(Field("Content-Type", HtmlType)),
                                FieldLine(Field("Content-Transfer-Encoding", "8bit")),
                                Blank,
                                BodyLine(p.textHtml + Nl) ]
  {
    var m := Compose(p);
    var plain := TextPart(PlainType, p.textPlain);
    assert |m.fields| == HeaderCount(p) by { FixedHeaderFields(p); }
    TextPartShape(PlainType, p.textPlain);
    TextPartShape(HtmlType, p.textHtml);
    assert m.parts[0] == plain && m.parts[..0] == [];
    PartLinesAt(m, 0);
    assert m.parts[1] == TextPart(HtmlType, p.textHtml) && m.parts[..1] == [plain];
    assert PartsLines([plain]) == PartLines(plain) + PartsLines([]);
    PartLinesAt(m, 1);
  }

  /** After the two text parts come the attachments, in input order, seven lines each. */
  lemma AttachmentPartAt(p: MailParams, k: nat)
    requires k < |AttachmentsOf(p)|
    ensures var ls := Lines(Compose(p)); var s := HeaderCount(p) + 12 + 7 * k;
      |ls| > s + 7 && ls[s..s + 7] == PartLines(AttachmentPart(AttachmentsOf(p)[k]))
  {
    var m := Compose(p);
    var a := AttachmentsOf(p)[k];
    AttachmentsBefore(p, k);
    assert |m.fields| == HeaderCount(p) by { FixedHeaderFields(p); }
    assert |PartLines(AttachmentPart(a))| == 7 by { AttachmentPartShape(a); }
    PartLinesAtOffset(m, 2 + k, 10 + 7 * k, 7);
  }

  /** Part `k` of a message, of `n` lines after `o` lines of earlier parts. */
  lemma PartLinesAtOffset(m: Message, k: nat, o: nat, n: nat)
    requires k < |m.parts| && |PartsLines(m.parts[..k])| == o && |PartLines(m.parts[k])| == n
    ensures var ls := Lines(m); var s := |m.fields| + 2 + o;
      |ls| > s + n && ls[s..s + n] == PartLines(m.parts[k])
  {
    PartLinesAt(m, k);
  }

  /** Each attachment's seven lines: a delimiter; the content type naming the file; the
      fixed `Content-Length` value; the disposition naming the file; `base64` transfer
      encoding; an empty line; and a body that decodes back to the attachment's bytes. */
  lemma AttachmentLines(p: MailParams, k: nat)
    requires k < |AttachmentsOf(p)|
    ensures var ls := Lines(Compose(p)); var a := AttachmentsOf(p)[k];
            var s := HeaderCount(p) + 12 + 7 * k;
      && |ls| > s + 7
      && ls[s] == Delimiter
      && ls[s + 1] == FieldLine(Field("Content-Type", a.mimeType + "; name=\"" + a.filename + "\""))
      && ls[s + 2] == FieldLine(Field("Content-Length", "3.7*1024"))
      && ls[s + 3] == FieldLine(Field("Content-Disposition", "attachment; attachmentname=\"" + a.filename + "\""))
      && ls[s + 4] == FieldLine(Field("Content-Transfer-Encoding", "base64"))
      && ls[s + 5] == Blank
      && ls[s + 6].BodyLine? && Base64.Decode(ls[s + 6].text) == Some(a.data)
  {
    AttachmentPartAt(p, k);
    AttachmentLinesOf(Lines(Compose(p)), HeaderCount(p) + 12 + 7 * k, AttachmentsOf(p)[k]);
  }

  /** The seven lines of attachment `a` laid at position `s` of `ls`, one by one. */
  lemma AttachmentLinesOf(ls: seq<Line>, s: nat, a: Attachment)
    requires s + 7 <= |ls| && ls[s..s + 7] == PartLines(AttachmentPart(a))
    ensures ls[s] == Delimiter
    ensures ls[s + 1] == FieldLine(Field("Content-Type", a.mimeType + "; name=\"" + a.filename + "\""))
    ensures ls[s + 2] == FieldLine(Field("Content-Length", "3.7*1024"))
    ensures ls[s + 3] == FieldLine(Field("Content-Disposition", "attachment; attachmentname=\"" + a.filename + "\""))
    ensures ls[s + 4] == FieldLine(Field("Content-Transfer-Encoding", "base64"))
    ensures ls[s + 5] == Blank
    ensures ls[s + 6].BodyLine? && Base64.Decode(ls[s + 6].text) == Some(a.data)
  {
    var t := PartLines(AttachmentPart(a));
    AttachmentPartShape(a);
    assert ls[s] == t[0] && ls[s + 1] == t[1] && ls[s + 2] == t[2] && ls[s + 3] == t[3];
    assert ls[s + 4] == t[4] && ls[s + 5] == t[5] && ls[s + 6] == t[6];
    Base64.DecodeEncode(a.data);
  }

  /** The parts before attachment `k` take ten lines for the text parts and seven per
      earlier attachment. */
  lemma AttachmentsBefore(p: MailParams, k: nat)
    requires k < |AttachmentsOf(p)|
    ensures var ps := Compose(p).parts;
      2 + k < |ps| && ps[2 + k] == AttachmentPart(AttachmentsOf(p)[k])
      && |PartsLines(ps[..2 + k])| == 10 + 7 * k
  {
    var atts := AttachmentsOf(p);
    var textParts := [TextPart(PlainType, p.textPlain), TextPart(HtmlType, p.textHtml)];
    var aps := AttachmentParts(atts);
    var ps := Compose(p).parts;
    assert ps[..2 + k] == textParts + aps[..k];
    PartsLinesAppend(textParts, aps[..k]);
    PartsLinesPair(textParts[0], textParts[1]);
    TextPartShape(PlainType, p.textPlain);
    TextPartShape(HtmlType, p.textHtml);
    forall i | 0 <= i < |aps[..k]| ensures |PartLines(aps[..k][i])| == 7 {
      AttachmentPartShape(atts[i]);
    }
    PartsLinesLength(aps[..k], 7);
  }

  lemma PartLinesCount(pt: Part)
    ensures multiset(PartLines(pt))[Delimiter] == 1 && multiset(PartLines(pt))[CloseDelimiter] == 0
  {
    var fl := FieldLines(pt.fields);
    assert multiset(fl)[Delimiter] == 0 && multiset(fl)[CloseDelimiter] == 0;
  }

  lemma {:induction false} PartsLinesCount(ps: seq<Part>)
    ensures multiset(PartsLines(ps))[Delimiter] == |ps|
    ensures multiset(PartsLines(ps))[CloseDelimiter] == 0
    decreases |ps|
  {
    if |ps| > 0 {
      PartLinesCount(ps[0]);
      PartsLinesCount(ps[1..]);
      assert multiset(PartsLines(ps)) == multiset(PartLines(ps[0])) + multiset(PartsLines(ps[1..]));
    }
  }

  /** A message has one opening delimiter per part and exactly one closing delimiter. */
  lemma LinesCount(m: Message)
    ensures multiset(Lines(m))[Delimiter] == |m.parts|
    ensures multiset(Lines(m))[CloseDelimiter] == 1
  {
    var fl := FieldLines(m.fields);
    var pl := PartsLines(m.parts);
    PartsLinesCount(m.parts);
    assert multiset(fl)[Delimiter] == 0 && multiset(fl)[CloseDelimiter] == 0;
    assert multiset(Lines(m))
        == multiset(fl) + multiset([FieldLine(MultipartField), Blank]) + multiset(pl) + multiset([CloseDelimiter]);
  }

  /** One opening delimiter per part (the two text parts and one per attachment), one
      closing delimiter, and the closing delimiter ends the message. */
  lemma DelimiterCounts(p: MailParams)
    ensures var ls := Lines(Compose(p));
      && multiset(ls)[Delimiter] == 2 + |AttachmentsOf(p)|
      && multiset(ls)[CloseDelimiter] == 1
      && ls[|ls| - 1] == CloseDelimiter
  {
    LinesCount(Compose(p));
  }

  /** An absent attachment list and an empty one produce the same message. */
  lemma AbsentAttachmentsAsEmpty(p: MailParams)
    requires p.attachments == None
    ensures CreateMimeMessage(p) == CreateMimeMessage(p.(attachments := Some([])))
  {
    var q := p.(attachments := Some([]));
    assert AttachmentEntries([]) == [];
    assert Entries(p) == Entries(q);
  }

  /** The thread id does not reach the message text. */
  lemma ThreadIdIgnored(p: MailParams, t: Option<string>)
    ensures CreateMimeMessage(p.(threadId := t)) == CreateMimeMessage(p)
  {
    var q := p.(threadId := t);
    assert HeaderEntries(q) == HeaderEntries(p);
    assert BodySegments(q) == BodySegments(p);
    assert Entries(q) == Entries(p);
  }
}
