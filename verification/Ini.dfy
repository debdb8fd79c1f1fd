/** INI documents: ordered sections of ordered entries. */
module Ini {
  import opened Prelude

  /** The entries keep insertion order; keys are distinct in a section that
      the operations below built. */
  datatype IniSection = IniSection(name: string, entries: seq<(string, string)>) {
    function Get(key: string): Option<string> {
      Lookup(entries, key)
    }
  }

  type IniDocument = seq<IniSection>

  function Lookup(entries: seq<(string, string)>, key: string): Option<string> {
    if entries == [] then None
    else if entries[0].0 == key then Some(entries[0].1)
    else Lookup(entries[1..], key)
  }

  /** Index of the first section called `name`, or the number of sections. */
  function SectionIndex(doc: IniDocument, name: string): (i: nat)
    ensures i <= |doc|
    ensures i < |doc| ==> doc[i].name == name
    ensures forall j :: 0 <= j < i ==> doc[j].name != name
  {
    if doc == [] then 0
    else if doc[0].name == name then 0
    else 1 + SectionIndex(doc[1..], name)
  }

  /** `IniDocument::section` */
  function Section(doc: IniDocument, name: string): Option<IniSection> {
    var i := SectionIndex(doc, name);
    if i < |doc| then Some(doc[i]) else None
  }

  /** The value a reader sees at `section`/`key`. */
  function Value(doc: IniDocument, section: string, key: string): Option<string> {
    match Section(doc, section)
    case None => None
    case Some(sec) => sec.Get(key)
  }

  /** The first entry for the key holds the value. */
  ghost predicate FirstHolds(entries: seq<(string, string)>, key: string, v: string) {
    exists e :: 0 <= e < |entries| && entries[e] == (key, v) && forall j :: 0 <= j < e ==> entries[j].0 != key
  }

  lemma {:induction false} LookupIff(entries: seq<(string, string)>, key: string, v: string)
    ensures Lookup(entries, key) == Some(v) <==> FirstHolds(entries, key, v)
    decreases |entries|
  {
    if entries != [] {
      var rest := entries[1..];
      LookupIff(rest, key, v);
      if entries[0].0 != key {
        if FirstHolds(rest, key, v) {
          var e :| 0 <= e < |rest| && rest[e] == (key, v) && forall j :: 0 <= j < e ==> rest[j].0 != key;
          assert entries[e + 1] == (key, v) && forall j :: 1 <= j < e + 1 ==> entries[j] == rest[j - 1];
        }
        if FirstHolds(entries, key, v) {
          var e :| 0 <= e < |entries| && entries[e] == (key, v) && forall j :: 0 <= j < e ==> entries[j].0 != key;
          assert rest[e - 1] == (key, v) && forall j :: 0 <= j < e - 1 ==> rest[j] == entries[j + 1];
        }
      }
    }
  }

  /** The first section of the name holds the value, in its first entry for the key. */
  ghost predicate Holds(doc: IniDocument, section: string, key: string, v: string) {
    exists i ::
      && 0 <= i < |doc| && doc[i].name == section && (forall j :: 0 <= j < i ==> doc[j].name != section)
      && FirstHolds(doc[i].entries, key, v)
  }

  lemma {:induction false} ValueIff(doc: IniDocument, section: string, key: string, v: string)
    ensures Value(doc, section, key) == Some(v) <==> Holds(doc, section, key, v)
  {
    var i := SectionIndex(doc, section);
    if i < |doc| {
      LookupIff(doc[i].entries, key, v);
    }
  }
}
