/** The history's chain file (tool/src/ascmhl.rs): one record a generation, appended in front of
    the closing tag, and read back by the small XML parser. */
module Chain {
  import opened Prelude
  import opened Xml
  import opened XmlDocs
  import opened Numerals
  import opened ManifestRoundTrip
  import opened ManifestWriter

  const U32_LIMIT: nat := 0x1_0000_0000

  datatype Record = Record(nr: nat, name: string, c4: string)

  datatype ChainError =
    | BadChainXml(xml: XmlError) | WrongChainRoot | UnexpectedInChain(name: string) | BadSequenceNumber
    | UnexpectedInRecord(name: string) | IncompleteRecord | NoClosingTag

  // ---------------------------------------------------------------------------------------
  // Writing
  // ---------------------------------------------------------------------------------------

  function Header(): string {
    DECLARATION + "\n" + Line(0, "<ascmhldirectory xmlns=\"" + "urn:ASC:MHL:DIRECTORY:v2.0" + "\">")
  }

  function Footer(): string {
    Line(0, "</ascmhldirectory>")
  }

  function ChainRecord(r: Record): string {
    Line(1, "<hashlist sequencenr=\"" + Dec(r.nr) + "\">")
    + (Line(2, "<path>" + XmlEscape(r.name) + "</path>") + Line(2, "<c4>" + XmlEscape(r.c4) + "</c4>"))
    + Line(1, "</hashlist>")
  }

  /** A fresh chain, or the existing text with the record spliced in before the closing tag; a
      text that does not end with the closing tag is refused. */
  function RenderChain(existing: string, r: Record): Result<string, ChainError> {
    if existing == "" then Ok(Header() + ChainRecord(r) + Footer())
    else if |existing| >= |Footer()| && existing[|existing| - |Footer()|..] == Footer() then
      Ok(existing[..|existing| - |Footer()|] + ChainRecord(r) + Footer())
    else Err(NoClosingTag)
  }

  // ---------------------------------------------------------------------------------------
  // Reading
  // ---------------------------------------------------------------------------------------

  function RecordFields(children: seq<XmlEl>, path: Option<string>, c4: Option<string>)
    : Result<(Option<string>, Option<string>), ChainError>
  {
    if children == [] then Ok((path, c4))
    else if children[0].name == "path" then RecordFields(children[1..], Some(children[0].text), c4)
    else if children[0].name == "c4" then RecordFields(children[1..], path, Some(children[0].text))
    else Err(UnexpectedInRecord(children[0].name))
  }

  function ReadRecord(el: XmlEl): Result<Record, ChainError> {
    if el.name != "hashlist" then Err(UnexpectedInChain(el.name))
    else
      match AttrOf(el, "sequencenr")
      case None => Err(BadSequenceNumber)
      case Some(v) =>
        match ParseUnsigned(10, U32_LIMIT, v)
        case None => Err(BadSequenceNumber)
        case Some(nr) =>
          var fields :- RecordFields(el.children, None, None);
          if fields.0.Some? && fields.1.Some? then Ok(Record(nr, fields.0.value, fields.1.value))
          else Err(IncompleteRecord)
  }

  function ReadRecords(els: seq<XmlEl>): Result<seq<Record>, ChainError> {
    if els == [] then Ok([])
    else
      var r :- ReadRecord(els[0]);
      var rest :- ReadRecords(els[1..]);
      Ok([r] + rest)
  }

  function ReadChain(existing: string): Result<seq<Record>, ChainError> {
    match ParseLite(existing)
    case Err(e) => Err(BadChainXml(e))
    case Ok(root) => if root.name != "ascmhldirectory" then Err(WrongChainRoot) else ReadRecords(root.children)
  }

  // ---------------------------------------------------------------------------------------
  // Chains this writer produces
  // ---------------------------------------------------------------------------------------

  function RecordDoc(r: Record): Doc {
    Branch("hashlist", [Attr("sequencenr", Dec(r.nr))], [Leaf("path", [], r.name), Leaf("c4", [], r.c4)])
  }

  function RecordDocs(rs: seq<Record>): (d: seq<Doc>)
    ensures |d| == |rs|
  {
    if rs == [] then [] else [RecordDoc(rs[0])] + RecordDocs(rs[1..])
  }

  function ChainDoc(rs: seq<Record>): Doc {
    Branch("ascmhldirectory", [Attr("xmlns", "urn:ASC:MHL:DIRECTORY:v2.0")], RecordDocs(rs))
  }

  function ChainText(rs: seq<Record>): string {
    LayFile(ChainDoc(rs))
  }

  lemma RecordLines(r: Record)
    ensures ChainRecord(r) == Lines(RecordDoc(r), 1)
  {
    hide XmlEscape, Lines, Line, AllLines, Dec, Lay, Escape, Open, LayAttrs;
    var n := Dec(r.nr);
    DecPlain(r.nr);
    TextLine("path", "<path>", "</path>", r.name, 2);
    TextLine("c4", "<c4>", "</c4>", r.c4, 2);
    AllLines2(Leaf("path", [], r.name), Leaf("c4", [], r.c4), 2);
    BranchLines("hashlist", [Attr("sequencenr", n)], RecordDoc(r).kids, 1);
    OpenOne("hashlist", "sequencenr", n);
    assert "<hashlist sequencenr=\"" == "<" + "hashlist" + " " + "sequencenr" + "=\"";
    assert Close("hashlist") == "</hashlist>";
  }

  /** A chain is its header, its records and its footer. */
  lemma ChainPieces(rs: seq<Record>)
    ensures ChainText(rs) == Header() + AllLines(RecordDocs(rs), 1) + Footer()
  {
    hide XmlEscape, Lines, Line, AllLines, RecordDocs, Lay, DECLARATION, Escape, Open, LayAttrs;
    ChainTag();
    TopLine(ChainDoc(rs));
    BranchLines("ascmhldirectory", ChainDoc(rs).attrs, RecordDocs(rs), 0);
  }

  lemma ChainTag()
    ensures Open("ascmhldirectory", [Attr("xmlns", "urn:ASC:MHL:DIRECTORY:v2.0")])
            == "<ascmhldirectory xmlns=\"" + "urn:ASC:MHL:DIRECTORY:v2.0" + "\">"
    ensures Close("ascmhldirectory") == "</ascmhldirectory>"
  {
    hide XmlEscape, Escape, Open, LayAttrs;
    var urn := "urn:ASC:MHL:DIRECTORY:v2.0";
    OpenOne("ascmhldirectory", "xmlns", urn);
    UrnPlain();
    ChainTagPieces();
  }

  lemma ChainTagPieces()
    ensures "<" + "ascmhldirectory" + " " + "xmlns" + "=\"" == "<ascmhldirectory xmlns=\""
  {
  }

  lemma UrnPlain()
    ensures XmlEscape("urn:ASC:MHL:DIRECTORY:v2.0") == "urn:ASC:MHL:DIRECTORY:v2.0"
  {
    hide XmlEscape, Escape;
    EscapePlain("urn:ASC:MHL:DIRECTORY:v2.0");
    EscapeIsOnePass("urn:ASC:MHL:DIRECTORY:v2.0");
  }

  lemma {:induction false} RecordDocsAppend(rs: seq<Record>, r: Record)
    ensures RecordDocs(rs + [r]) == RecordDocs(rs) + [RecordDoc(r)]
  {
    hide RecordDoc;
    if rs == [] {
      assert rs + [r] == [r] && [r][1..] == [];
    } else {
      assert (rs + [r])[1..] == rs[1..] + [r];
      RecordDocsAppend(rs[1..], r);
    }
  }

  /** Appending to a chain this writer produced yields the chain of one more record, and keeps
      everything but the closing tag in place. */
  lemma AppendExtends(rs: seq<Record>, r: Record)
    ensures RenderChain("", r) == Ok(ChainText([r]))
    ensures RenderChain(ChainText(rs), r) == Ok(ChainText(rs + [r]))
    ensures ChainText(rs) != ""
    ensures |ChainText(rs)| >= |Footer()|
    ensures |ChainText(rs)| <= |ChainText(rs + [r])|
    ensures ChainText(rs)[..|ChainText(rs)| - |Footer()|] <= ChainText(rs + [r])
  {
    hide ChainRecord, Lines, AllLines, Header, Footer, ChainText, RecordDocs;
    var body := AllLines(RecordDocs(rs), 1);
    ChainPieces(rs);
    ChainPieces(rs + [r]);
    ChainPieces([r]);
    RecordLines(r);
    RecordDocsAppend(rs, r);
    RecordDocsAppend([], r);
    assert [] + [r] == [r];
    AllLinesAppend(RecordDocs(rs), [RecordDoc(r)], 1);
    AllLines1(RecordDoc(r), 1);
    NoDocs(r);
    FooterNotEmpty();
    var text, n := ChainText(rs), |Footer()|;
    assert text[|text| - n..] == Footer() && text[..|text| - n] == Header() + body;
    assert ChainText(rs + [r]) == Header() + (body + ChainRecord(r)) + Footer() == Header() + body + ChainRecord(r) + Footer();
  }

  lemma NoDocs(r: Record)
    ensures RecordDocs([]) + [RecordDoc(r)] == [RecordDoc(r)]
  {
    hide RecordDoc;
  }

  lemma FooterNotEmpty()
    ensures Footer() != ""
  {
  }

  // ---------------------------------------------------------------------------------------
  // Reading back
  // ---------------------------------------------------------------------------------------

  /** A record that survives the trip: its number fits, and neither text is blank. */
  predicate RecordOk(r: Record) {
    r.nr < U32_LIMIT && Trim(r.name) != "" && Trim(r.c4) != ""
  }

  lemma RecordReads(r: Record)
    requires RecordOk(r)
    ensures ReadRecord(Tree(RecordDoc(r))) == Ok(r)
  {
    hide Trim, ParseUnsigned, Dec;
    var p, c := Leaf("path", [], r.name), Leaf("c4", [], r.c4);
    Trees2(p, c);
    OneAttr(Tree(RecordDoc(r)), "sequencenr", Dec(r.nr), "sequencenr");
    ParseDec(r.nr, U32_LIMIT);
    FieldsRead(Tree(p), Tree(c));
  }

  lemma FieldsRead(p: XmlEl, c: XmlEl)
    requires p.name == "path" && c.name == "c4"
    ensures RecordFields([p, c], None, None) == Ok((Some(p.text), Some(c.text)))
  {
    assert [p, c][1..] == [c] && [c][1..] == [];
    assert RecordFields([c], Some(p.text), None) == RecordFields([], Some(p.text), Some(c.text));
  }

  lemma ReadRecordsCons(els: seq<XmlEl>, r: Record, rest: seq<Record>)
    requires els != [] && ReadRecord(els[0]) == Ok(r) && ReadRecords(els[1..]) == Ok(rest)
    ensures ReadRecords(els) == Ok([r] + rest)
  {
  }

  lemma RecordDocsCons(rs: seq<Record>)
    requires rs != []
    ensures RecordDocs(rs)[0] == RecordDoc(rs[0]) && RecordDocs(rs)[1..] == RecordDocs(rs[1..])
  {
    hide RecordDoc;
  }

  lemma {:induction false} RecordsRead(rs: seq<Record>)
    requires forall i :: 0 <= i < |rs| ==> RecordOk(rs[i])
    ensures ReadRecords(Trees(RecordDocs(rs))) == Ok(rs)
  {
    if rs != [] {
      hide RecordOk, RecordDoc, ReadRecord, ReadRecords, Tree, Trees, RecordDocs;
      var docs := RecordDocs(rs);
      RecordDocsCons(rs);
      TreesCons(docs);
      RecordReads(rs[0]);
      RecordsRead(rs[1..]);
      ReadRecordsCons(Trees(docs), rs[0], rs[1..]);
      assert rs == [rs[0]] + rs[1..];
    }
  }

  lemma {:induction false} RecordsShaped(rs: seq<Record>)
    ensures AllShaped(RecordDocs(rs), 2)
  {
    if rs != [] {
      RecordShaped(rs[0]);
      RecordsShaped(rs[1..]);
      hide WellNamed, Height, RecordDoc;
      assert RecordDocs(rs)[1..] == RecordDocs(rs[1..]);
    }
  }

  lemma RecordShaped(r: Record)
    ensures Shaped(RecordDoc(r), 2)
  {
    NameLiterals();
    ChainNames();
    hide NameOk, KeyOk, WellNamed, Height, Dec;
    LeafShaped("path", [], r.name);
    LeafShaped("c4", [], r.c4);
    AllShapedEach(RecordDoc(r).kids, 1);
    BranchShaped("hashlist", RecordDoc(r).attrs, RecordDoc(r).kids, 1);
  }

  lemma ChainNames()
    ensures KeyOk("sequencenr") && KeyOk("xmlns") && NameOk("ascmhldirectory")
  {
    hide NameOk;
    PlainName("ascmhldirectory");
  }

  /** Reading a chain gives back the records that were written, in order. */
  lemma ChainReadsBack(rs: seq<Record>)
    requires forall i :: 0 <= i < |rs| ==> RecordOk(rs[i])
    ensures ReadChain(ChainText(rs)) == Ok(rs)
  {
    ChainNames();
    hide NameOk, KeyOk, WellNamed, Height, LayFile, ParseLite, RecordDocs, RecordOk, Lay;
    RecordsShaped(rs);
    BranchShaped("ascmhldirectory", ChainDoc(rs).attrs, RecordDocs(rs), 2);
    LayFileRead(ChainDoc(rs));
    RecordsRead(rs);
  }
}
