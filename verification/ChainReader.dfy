/** What the chain's reader and the selection of a manifest accept (tool/src/ascmhl.rs). */
module ChainReader {
  import opened Prelude
  import opened Xml
  import opened Positional
  import opened Numerals
  import opened Seal
  import opened Chain
  import opened History
  import Utf8

  // ---------------------------------------------------------------------------------------
  // Records
  // ---------------------------------------------------------------------------------------

  /** The text of the last child of that name. */
  ghost predicate LastSays(children: seq<XmlEl>, name: string, text: string) {
    exists i :: 0 <= i < |children| && children[i].name == name && children[i].text == text && NoneAfter(children, name, i)
  }

  ghost predicate NoneAfter(children: seq<XmlEl>, name: string, i: int) {
    forall j :: 0 <= i < j < |children| ==> children[j].name != name
  }

  ghost predicate NoneNamed(children: seq<XmlEl>, name: string) {
    forall i :: 0 <= i < |children| ==> children[i].name != name
  }

  /** The same, with what was found before. */
  ghost predicate Takes(children: seq<XmlEl>, name: string, before: Option<string>, got: Option<string>) {
    if NoneNamed(children, name) then got == before else got.Some? && LastSays(children, name, got.value)
  }

  lemma TakesStep(children: seq<XmlEl>, name: string, before: Option<string>, got: Option<string>)
    requires children != []
    ensures Takes(children, name, before, got)
            <==> Takes(children[1..], name, if children[0].name == name then Some(children[0].text) else before, got)
  {
    var rest := children[1..];
    assert forall i :: 0 < i < |children| ==> children[i] == rest[i - 1];
    if got.Some? {
      if LastSays(children, name, got.value) {
        var i :| 0 <= i < |children| && children[i].name == name && children[i].text == got.value && NoneAfter(children, name, i);
        if i > 0 {
          assert rest[i - 1].name == name && NoneAfter(rest, name, i - 1);
        }
      }
      if LastSays(rest, name, got.value) {
        var i :| 0 <= i < |rest| && rest[i].name == name && rest[i].text == got.value && NoneAfter(rest, name, i);
        assert children[i + 1].name == name && NoneAfter(children, name, i + 1);
      }
      if NoneNamed(rest, name) && children[0].name == name {
        assert NoneAfter(children, name, 0);
      }
    }
  }

  ghost predicate OnlyPathAndC4(children: seq<XmlEl>) {
    forall i :: 0 <= i < |children| ==> children[i].name == "path" || children[i].name == "c4"
  }

  lemma {:induction false} FieldsExactly(children: seq<XmlEl>, path: Option<string>, c4: Option<string>, p: Option<string>, c: Option<string>)
    ensures RecordFields(children, path, c4) == Ok((p, c))
            <==> OnlyPathAndC4(children) && Takes(children, "path", path, p) && Takes(children, "c4", c4, c)
  {
    hide Takes;
    if children == [] {
      TakesNothing("path", path, p);
      TakesNothing("c4", c4, c);
    } else {
      TakesStep(children, "path", path, p);
      TakesStep(children, "c4", c4, c);
      assert OnlyPathAndC4(children) <==> (children[0].name == "path" || children[0].name == "c4") && OnlyPathAndC4(children[1..]) by {
        assert forall i :: 0 < i < |children| ==> children[i] == children[1..][i - 1];
      }
      if children[0].name == "path" {
        FieldsExactly(children[1..], Some(children[0].text), c4, p, c);
      } else if children[0].name == "c4" {
        FieldsExactly(children[1..], path, Some(children[0].text), p, c);
      }
    }
  }

  lemma TakesNothing(name: string, before: Option<string>, got: Option<string>)
    ensures Takes([], name, before, got) <==> got == before
  {
  }

  /** A record element: a number of 32 bits, and paths and identifiers of which the last count. */
  ghost predicate RecordSays(el: XmlEl, r: Record) {
    && el.name == "hashlist"
    && (exists v: string :: AttrOf(el, "sequencenr") == Some(v) && ParseUnsigned(10, U32_LIMIT, v) == Some(r.nr))
    && OnlyPathAndC4(el.children) && LastSays(el.children, "path", r.name) && LastSays(el.children, "c4", r.c4)
  }

  lemma RecordExactly(el: XmlEl, r: Record)
    ensures ReadRecord(el) == Ok(r) <==> RecordSays(el, r)
  {
    hide AttrOf, ParseUnsigned, RecordFields, LastSays;
    FieldsExactly(el.children, None, None, Some(r.name), Some(r.c4));
    LastIsNamed(el.children, "path", r.name);
    LastIsNamed(el.children, "c4", r.c4);
  }

  lemma LastIsNamed(children: seq<XmlEl>, name: string, text: string)
    ensures LastSays(children, name, text) ==> !NoneNamed(children, name)
  {
  }

  /** Everything else is refused: another element, no number, a path or identifier missing. */
  lemma RecordRefused(el: XmlEl)
    ensures el.name != "hashlist" ==> ReadRecord(el) == Err(UnexpectedInChain(el.name))
    ensures el.name == "hashlist" && (forall v: string :: AttrOf(el, "sequencenr") == Some(v) ==> ParseUnsigned(10, U32_LIMIT, v) == None)
            ==> ReadRecord(el) == Err(BadSequenceNumber)
    ensures el.name == "hashlist" && (exists v: string :: AttrOf(el, "sequencenr") == Some(v) && ParseUnsigned(10, U32_LIMIT, v).Some?)
              && OnlyPathAndC4(el.children) && (NoneNamed(el.children, "path") || NoneNamed(el.children, "c4"))
            ==> ReadRecord(el) == Err(IncompleteRecord)
  {
    hide AttrOf, ParseUnsigned;
    if OnlyPathAndC4(el.children) {
      FieldsAlways(el.children, None, None);
    }
  }

  lemma {:induction false} FieldsAlways(children: seq<XmlEl>, path: Option<string>, c4: Option<string>)
    requires OnlyPathAndC4(children)
    ensures RecordFields(children, path, c4).Ok?
    ensures NoneNamed(children, "path") ==> RecordFields(children, path, c4).value.0 == path
    ensures NoneNamed(children, "c4") ==> RecordFields(children, path, c4).value.1 == c4
  {
    if children != [] {
      if children[0].name == "path" {
        FieldsAlways(children[1..], Some(children[0].text), c4);
      } else {
        FieldsAlways(children[1..], path, Some(children[0].text));
      }
    }
  }

  ghost predicate RecordsSay(els: seq<XmlEl>, rs: seq<Record>) {
    |rs| == |els| && forall i :: 0 <= i < |els| ==> RecordSays(els[i], rs[i])
  }

  lemma {:induction false} RecordsExactly(els: seq<XmlEl>, rs: seq<Record>)
    ensures ReadRecords(els) == Ok(rs) <==> RecordsSay(els, rs)
  {
    hide ReadRecord, RecordSays;
    if els != [] {
      assert forall i :: 0 < i < |els| ==> els[i] == els[1..][i - 1];
      if ReadRecords(els) == Ok(rs) {
        RecordExactly(els[0], rs[0]);
        RecordsExactly(els[1..], rs[1..]);
        assert forall i :: 0 < i < |rs| ==> rs[i] == rs[1..][i - 1];
      }
      if RecordsSay(els, rs) {
        assert rs == [rs[0]] + rs[1..];
        RecordExactly(els[0], rs[0]);
        RecordsExactly(els[1..], rs[1..]);
      }
    }
  }

  /** A chain is read exactly if it is a directory of records, and then as those. */
  lemma ChainExactly(text: string, rs: seq<Record>)
    ensures ReadChain(text) == Ok(rs)
            <==> ParseLite(text).Ok? && ParseLite(text).value.name == "ascmhldirectory" && RecordsSay(ParseLite(text).value.children, rs)
  {
    hide ParseLite, ReadRecords, RecordsSay;
    if ParseLite(text).Ok? {
      RecordsExactly(ParseLite(text).value.children, rs);
    }
  }

  // ---------------------------------------------------------------------------------------
  // Selection
  // ---------------------------------------------------------------------------------------

  /** The record's manifest is there and is the one that was recorded. */
  ghost predicate Intact(h: HashFn, files: map<string, string>, r: Record) {
    r.name in files && C4(h, Utf8.Octets(files[r.name])) == r.c4
  }

  /** The first record whose manifest is gone or altered. */
  ghost predicate BrokenFirst(h: HashFn, files: map<string, string>, rs: seq<Record>, i: int, e: HistoryError) {
    && 0 <= i < |rs| && !Intact(h, files, rs[i]) && (forall j :: 0 <= j < i ==> Intact(h, files, rs[j]))
    && e == if rs[i].name in files then CorruptRecord(rs[i].name) else MissingManifest(rs[i].name)
  }

  ghost predicate SomeBroken(h: HashFn, files: map<string, string>, rs: seq<Record>, e: HistoryError) {
    exists i :: BrokenFirst(h, files, rs, i, e)
  }

  lemma {:induction false} ChecksExactly(h: HashFn, files: map<string, string>, rs: seq<Record>)
    ensures match CheckRecords(h, files, rs)
            case Ok(_) => forall i :: 0 <= i < |rs| ==> Intact(h, files, rs[i])
            case Err(e) => SomeBroken(h, files, rs, e)
  {
    hide C4;
    if rs != [] {
      assert forall i :: 0 < i < |rs| ==> rs[i] == rs[1..][i - 1];
      if Intact(h, files, rs[0]) {
        ChecksExactly(h, files, rs[1..]);
        assert CheckRecords(h, files, rs) == CheckRecords(h, files, rs[1..]);
        if CheckRecords(h, files, rs[1..]).Err? {
          var e := CheckRecords(h, files, rs[1..]).error;
          var i :| BrokenFirst(h, files, rs[1..], i, e);
          forall j | 0 <= j < i + 1
            ensures Intact(h, files, rs[j])
          {
            if j > 0 {
              assert rs[j] == rs[1..][j - 1];
            }
          }
          assert rs[1..][i] == rs[i + 1];
          assert BrokenFirst(h, files, rs, i + 1, e);
          assert SomeBroken(h, files, rs, e);
        }
      } else {
        assert BrokenFirst(h, files, rs, 0, CheckRecords(h, files, rs).error);
      }
    }
  }

  ghost predicate OnlyManifest(files: map<string, string>, name: string) {
    name in files && HasSuffix(name, MHL) && forall n :: n in files && HasSuffix(n, MHL) ==> n == name
  }

  /** With a chain: the manifest of its last record is selected exactly if there is a record and
      every recorded manifest is there unaltered; otherwise the first that is not is named. Without
      one: the only manifest there is. */
  lemma SelectsExactly(h: HashFn, files: map<string, string>)
    ensures CHAIN_NAME in files && ReadChain(files[CHAIN_NAME]).Ok? ==>
              var rs := ReadChain(files[CHAIN_NAME]).value;
              match SelectManifest(h, files)
              case Ok(name) => rs != [] && name == rs[|rs| - 1].name && forall i :: 0 <= i < |rs| ==> Intact(h, files, rs[i])
              case Err(e) => if rs == [] then e == NoRecords else SomeBroken(h, files, rs, e)
    ensures CHAIN_NAME in files && ReadChain(files[CHAIN_NAME]).Err? ==> SelectManifest(h, files).Err?
    ensures CHAIN_NAME !in files ==>
              forall name: string :: SelectManifest(h, files) == Ok(name) <==> OnlyManifest(files, name)
  {
    hide ReadChain, CheckRecords, C4, HasSuffix;
    if CHAIN_NAME in files {
      if ReadChain(files[CHAIN_NAME]).Ok? {
        ChecksExactly(h, files, ReadChain(files[CHAIN_NAME]).value);
      }
    } else {
      forall name: string
        ensures SelectManifest(h, files) == Ok(name) <==> OnlyManifest(files, name)
      {
        var ms := Manifests(files);
        OnlyOne(ms, name);
        assert forall n :: n in ms <==> n in files && HasSuffix(n, MHL);
        assert OnlyManifest(files, name) <==> name in ms && forall n :: n in ms ==> n == name;
        assert ms == {} <==> |ms| == 0;
      }
    }
  }

  lemma OnlyOne(ms: set<string>, name: string)
    ensures |ms| == 1 && TheOnly(ms) == name <==> name in ms && forall n :: n in ms ==> n == name
  {
    if name in ms && forall n :: n in ms ==> n == name {
      assert ms == {name};
    }
    if |ms| == 1 && TheOnly(ms) == name {
      assert |ms - {name}| == 0;
      assert forall n :: n in ms ==> n == name || n in ms - {name};
    }
  }

  // ---------------------------------------------------------------------------------------
  // Generation numbers in names
  // ---------------------------------------------------------------------------------------

  /** A name carries a generation number exactly if it is four decimal digits, anything, and the
      manifests' extension. */
  lemma GenerationExactly(name: string, g: nat)
    ensures GenerationOf(name) == Some(g) <==> exists digits: string, rest: string :: CarriesNumber(name, g, digits, rest)
  {
    hide Value, CharDigit;
    PlainDigits();
    if GenerationOf(name) == Some(g) {
      var digits := name[..4];
      forall i | 0 <= i < 4
        ensures CharDigit(digits[i]) < 10
      {
        assert CharDigits(digits)[i] == CharDigit(digits[i]);
      }
      NoDigitDot(name);
      var rest := name[4..|name| - 4];
      assert name == digits + rest + ".mhl";
      assert CarriesNumber(name, g, digits, rest);
    }
    if exists digits: string, rest: string :: CarriesNumber(name, g, digits, rest) {
      var digits: string, rest: string :| CarriesNumber(name, g, digits, rest);
      assert name[..4] == digits && name[|name| - 4..] == ".mhl";
    }
  }

  ghost predicate CarriesNumber(name: string, g: nat, digits: string, rest: string) {
    && name == digits + rest + ".mhl" && |digits| == 4 && Value(10, CharDigits(digits)) == g
    && forall i :: 0 <= i < 4 ==> CharDigit(digits[i]) < 10
  }

  lemma PlainDigits()
    ensures CharDigit('.') == 16 && CharDigit('m') == 16 && CharDigit('h') == 16 && CharDigit('l') == 16
  {
  }

  lemma NoDigitDot(name: string)
    requires HasSuffix(name, MHL) && forall i :: 0 <= i < 4 ==> CharDigit(name[..4][i]) < 10
    ensures |name| >= 8
  {
    hide CharDigit;
    PlainDigits();
    var n := |name|;
    assert name[n - 4..] == ".mhl";
    assert name[n - 4] == name[n - 4..][0] == '.';
    assert forall i :: 0 <= i < 4 ==> name[i] == name[..4][i];
  }
}
