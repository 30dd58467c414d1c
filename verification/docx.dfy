/** Repacking the `.docx` archive: every entry is written again in order,
    `word/document.xml` with the patched XML and every other entry with the
    bytes the source archive reads for its name. */
module Docx {
  import opened Wrappers

  newtype byte = b: int | 0 <= b < 256

  /** One archive entry: its name and its bytes. */
  datatype Entry = Entry(name: string, data: seq<byte>)

  const DOCUMENT_XML: string := "word/document.xml"

  /** The names of the entries, in archive order. */
  function Names(es: seq<Entry>): seq<string>
  {
    if es == [] then [] else Names(es[..|es| - 1]) + [es[|es| - 1].name]
  }

  /** `zip_in.read(name)`: the archive's name table is filled in entry order,
      so a later entry with the same name replaces an earlier one and the
      bytes read are those of the LAST entry with that name. */
  function Read(es: seq<Entry>, name: string): Option<seq<byte>>
  {
    if es == [] then None
    else if es[|es| - 1].name == name then Some(es[|es| - 1].data)
    else Read(es[..|es| - 1], name)
  }

  /** One iteration of the copy loop over `zip_in.infolist()`: the document
      entry is written with `doc`, any other entry with what `src` reads
      for its name. */
  function CopyEntry(src: seq<Entry>, item: Entry, doc: seq<byte>): Entry
  {
    if item.name == DOCUMENT_XML then Entry(item.name, doc)
    else
      match Read(src, item.name)
      case Some(data) => Entry(item.name, data)
      case None => item
  }

  /** The copy loop; `doc` is the patched XML, already encoded. */
  function Repack(es: seq<Entry>, doc: seq<byte>): seq<Entry>
  {
    seq(|es|, i requires 0 <= i < |es| => CopyEntry(es, es[i], doc))
  }

  /** The entry `Read` finds is the last one with the name, and there is
      none exactly when no entry has the name. */
  lemma {:induction false} ReadLast(es: seq<Entry>, name: string)
    ensures Read(es, name).None? <==> forall i :: 0 <= i < |es| ==> es[i].name != name
    ensures Read(es, name).Some? ==>
      exists i :: 0 <= i < |es| && es[i].name == name && Read(es, name) == Some(es[i].data)
                  && forall j :: i < j < |es| ==> es[j].name != name
    decreases |es|
  {
    if es != [] {
      var init := es[..|es| - 1];
      ReadLast(init, name);
      if es[|es| - 1].name != name {
        assert forall i :: 0 <= i < |init| ==> init[i] == es[i];
        if Read(es, name).Some? {
          var i :| 0 <= i < |init| && init[i].name == name && Read(init, name) == Some(init[i].data)
                   && forall j :: i < j < |init| ==> init[j].name != name;
          assert es[i].name == name && Read(es, name) == Some(es[i].data);
        }
      }
    }
  }

  /** Reading at the last entry with a name gives that entry's bytes. */
  lemma ReadAt(es: seq<Entry>, i: nat)
    requires i < |es| && forall j :: i < j < |es| ==> es[j].name != es[i].name
    ensures Read(es, es[i].name) == Some(es[i].data)
  {
    ReadLast(es, es[i].name);
    var k :| 0 <= k < |es| && es[k].name == es[i].name && Read(es, es[i].name) == Some(es[k].data)
             && forall j :: k < j < |es| ==> es[j].name != es[i].name;
    assert k == i;
  }

  /** The archive keeps its entries, their names and their order; the
      document entries get the new bytes, every other entry the bytes of the
      last entry with its name, so the last entry of each name, and every
      entry of an archive without repeated names, is copied as it is. */
  lemma RepackEntries(es: seq<Entry>, doc: seq<byte>)
    ensures Names(Repack(es, doc)) == Names(es)
    ensures |Repack(es, doc)| == |es|
    ensures forall i :: 0 <= i < |es| && es[i].name == DOCUMENT_XML ==> Repack(es, doc)[i] == Entry(DOCUMENT_XML, doc)
    ensures forall i :: 0 <= i < |es| && es[i].name != DOCUMENT_XML ==>
              Read(es, es[i].name).Some? && Repack(es, doc)[i] == Entry(es[i].name, Read(es, es[i].name).value)
    ensures forall i :: 0 <= i < |es| && es[i].name != DOCUMENT_XML && (forall j :: i < j < |es| ==> es[j].name != es[i].name) ==>
              Repack(es, doc)[i] == es[i]
  {
    var r := Repack(es, doc);
    forall i | 0 <= i < |es| && es[i].name != DOCUMENT_XML
      ensures Read(es, es[i].name).Some? && r[i] == Entry(es[i].name, Read(es, es[i].name).value)
    {
      ReadLast(es, es[i].name);
    }
    forall i | 0 <= i < |es| && es[i].name != DOCUMENT_XML && (forall j :: i < j < |es| ==> es[j].name != es[i].name)
      ensures r[i] == es[i]
    {
      ReadAt(es, i);
    }
    SameNames(es, r);
  }

  /** Sequences whose entries agree on their names have the same names. */
  lemma {:induction false} SameNames(es: seq<Entry>, fs: seq<Entry>)
    requires |es| == |fs| && forall i :: 0 <= i < |es| ==> es[i].name == fs[i].name
    ensures Names(es) == Names(fs)
    decreases |es|
  {
    if es != [] {
      SameNames(es[..|es| - 1], fs[..|fs| - 1]);
    }
  }

  /** Reading the repacked archive: the document reads as the new bytes when
      the archive has one, and every other name reads as before. */
  lemma RepackRead(es: seq<Entry>, doc: seq<byte>, name: string)
    ensures name != DOCUMENT_XML ==> Read(Repack(es, doc), name) == Read(es, name)
    ensures name == DOCUMENT_XML ==> Read(Repack(es, doc), name) == if Read(es, name).Some? then Some(doc) else None
  {
    var r := Repack(es, doc);
    RepackEntries(es, doc);
    ReadLast(es, name);
    ReadLast(r, name);
    if Read(es, name).Some? {
      var i :| 0 <= i < |es| && es[i].name == name && Read(es, name) == Some(es[i].data)
               && forall j :: i < j < |es| ==> es[j].name != name;
      ReadAt(r, i);
    }
  }

  /** Repacking twice with the same bytes changes nothing more. */
  lemma RepackIdempotent(es: seq<Entry>, doc: seq<byte>)
    ensures Repack(Repack(es, doc), doc) == Repack(es, doc)
  {
    var r := Repack(es, doc);
    RepackEntries(es, doc);
    RepackEntries(r, doc);
    forall i | 0 <= i < |r|
      ensures Repack(r, doc)[i] == r[i]
    {
      if r[i].name != DOCUMENT_XML {
        RepackRead(es, doc, r[i].name);
      }
    }
  }

  /** A repeated name: both copies receive the bytes of the later entry. */
  lemma RepeatedName(x: seq<byte>, y: seq<byte>, doc: seq<byte>)
    ensures Repack([Entry("a", x), Entry("a", y)], doc) == [Entry("a", y), Entry("a", y)]
  {
    var es := [Entry("a", x), Entry("a", y)];
    assert es[..1] == [Entry("a", x)];
    assert Read(es, "a") == Some(y);
  }
}
