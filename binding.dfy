/**
 GeneImpl: the bean each row is bound to. Its six fields are annotated with
 the header names they take their values from; headers without a field are
 ignored, and a field whose header is absent from the row stays unset.
 */
module Binding {
  import opened Wrappers
  import opened Tabular

  /** The six fields of a gene record. */
  datatype Field = Symbol | Name | PubMedId | EnzymeCode | UniprotAccession | EnsemblGeneId

  /** A bound gene record; None stands for a field left null. The datatype's
      destructors are the getters, returning the stored field as it is. */
  datatype Gene = Gene(
    symbol: Option<string>,
    name: Option<string>,
    pubMedId: Option<string>,
    enzymeCode: Option<string>,
    uniprotAccessionId: Option<string>,
    ensemblGeneId: Option<string>)

  /** A freshly constructed bean: every field null. */
  const Unset: Gene := Gene(None, None, None, None, None, None)

  /** The header name each field is annotated with. */
  function JsonProperty(f: Field): string
  {
    match f
    case Symbol => "Approved symbol"
    case Name => "Approved name"
    case PubMedId => "PubMed ID"
    case EnzymeCode => "Enzyme (EC) ID"
    case UniprotAccession => "UniProt accession"
    case EnsemblGeneId => "Ensembl gene ID"
  }

  /** No two fields are annotated with the same header. */
  lemma JsonPropertyDistinct(f: Field, g: Field)
    requires f != g
    ensures JsonProperty(f) != JsonProperty(g)
  {
  }

  /** The binding table: header name and target field, in declaration order. */
  const BindingTable: seq<(string, Field)> := [
    (JsonProperty(Symbol), Symbol),
    (JsonProperty(Name), Name),
    (JsonProperty(PubMedId), PubMedId),
    (JsonProperty(EnzymeCode), EnzymeCode),
    (JsonProperty(UniprotAccession), UniprotAccession),
    (JsonProperty(EnsemblGeneId), EnsemblGeneId)
  ]

  /** Reads one field of a gene. */
  function Get(g: Gene, f: Field): Option<string>
  {
    match f
    case Symbol => g.symbol
    case Name => g.name
    case PubMedId => g.pubMedId
    case EnzymeCode => g.enzymeCode
    case UniprotAccession => g.uniprotAccessionId
    case EnsemblGeneId => g.ensemblGeneId
  }

  /** Stores `v` in field `f` and leaves every other field as it was. */
  function Set(g: Gene, f: Field, v: string): (r: Gene)
    ensures Get(r, f) == Some(v)
    ensures forall f' :: f' != f ==> Get(r, f') == Get(g, f')
  {
    match f
    case Symbol => g.(symbol := Some(v))
    case Name => g.(name := Some(v))
    case PubMedId => g.(pubMedId := Some(v))
    case EnzymeCode => g.(enzymeCode := Some(v))
    case UniprotAccession => g.(uniprotAccessionId := Some(v))
    case EnsemblGeneId => g.(ensemblGeneId := Some(v))
  }

  /** One entry of the table: the row's value under `header`, if the row has
      that header, is stored into `f`. */
  function BindEntry(g: Gene, header: string, f: Field, row: Row): (r: Gene)
    ensures Get(r, f) == match Lookup(row, header) case Some(v) => Some(v) case None => Get(g, f)
    ensures forall f' :: f' != f ==> Get(r, f') == Get(g, f')
  {
    match Lookup(row, header)
    case Some(v) => Set(g, f, v)
    case None => g
  }

  /** Goes through `table` in order, applying each entry to the row. */
  function ApplyBindings(table: seq<(string, Field)>, row: Row, g: Gene): Gene
    decreases |table|
  {
    if table == [] then g
    else ApplyBindings(table[1..], row, BindEntry(g, table[0].0, table[0].1, row))
  }

  /** Same fields, same gene. */
  lemma GeneExtensionality(g: Gene, h: Gene)
    requires forall f :: Get(g, f) == Get(h, f)
    ensures g == h
  {
    assert Get(g, Symbol) == Get(h, Symbol);
    assert Get(g, Name) == Get(h, Name);
    assert Get(g, PubMedId) == Get(h, PubMedId);
    assert Get(g, EnzymeCode) == Get(h, EnzymeCode);
    assert Get(g, UniprotAccession) == Get(h, UniprotAccession);
    assert Get(g, EnsemblGeneId) == Get(h, EnsemblGeneId);
  }

  /** Entries for other fields never touch field `f`. */
  lemma {:induction false} ApplyBindingsUntouched(table: seq<(string, Field)>, row: Row, g: Gene, f: Field)
    requires forall i :: 0 <= i < |table| ==> table[i].1 != f
    ensures Get(ApplyBindings(table, row, g), f) == Get(g, f)
    decreases |table|
  {
    if table != [] {
      var next := BindEntry(g, table[0].0, table[0].1, row);
      assert forall i :: 0 <= i < |table[1..]| ==> table[1..][i] == table[i + 1];
      ApplyBindingsUntouched(table[1..], row, next, f);
    }
  }

  /** In a table that names each field at most once, the entry for a field
      alone decides it: it holds the row's value under that entry's header
      when there is one, and what it held before otherwise. */
  lemma {:induction false} ApplyBindingsAt(table: seq<(string, Field)>, row: Row, g: Gene, k: nat)
    requires k < |table|
    requires forall i, j :: 0 <= i < j < |table| ==> table[i].1 != table[j].1
    ensures Get(ApplyBindings(table, row, g), table[k].1) ==
              match Lookup(row, table[k].0)
              case Some(v) => Some(v)
              case None => Get(g, table[k].1)
    decreases |table|
  {
    var next := BindEntry(g, table[0].0, table[0].1, row);
    var rest := table[1..];
    assert forall i :: 0 <= i < |rest| ==> rest[i] == table[i + 1];
    if k == 0 {
      ApplyBindingsUntouched(rest, row, next, table[0].1);
    } else {
      ApplyBindingsAt(rest, row, next, k - 1);
    }
  }

  /** The binding table, applied to a row, gives each field the row's value
      under the header that field is annotated with. */
  lemma BindingTableBindsEachField(row: Row)
    ensures forall f :: Get(ApplyBindings(BindingTable, row, Unset), f) == Lookup(row, JsonProperty(f))
  {
    assert forall i, j :: 0 <= i < j < |BindingTable| ==> BindingTable[i].1 != BindingTable[j].1;
    forall f ensures Get(ApplyBindings(BindingTable, row, Unset), f) == Lookup(row, JsonProperty(f)) {
      var k := match f
               case Symbol => 0
               case Name => 1
               case PubMedId => 2
               case EnzymeCode => 3
               case UniprotAccession => 4
               case EnsemblGeneId => 5;
      assert BindingTable[k] == (JsonProperty(f), f);
      ApplyBindingsAt(BindingTable, row, Unset, k);
    }
  }

  /** Binds one row: each field gets the row's value under exactly its own
      header, passed through unchanged, and is left unset when the row has no
      such header. Every row binds; no other column matters. */
  function Bind(row: Row): (g: Gene)
    ensures g.symbol == Lookup(row, "Approved symbol")
    ensures g.name == Lookup(row, "Approved name")
    ensures g.pubMedId == Lookup(row, "PubMed ID")
    ensures g.enzymeCode == Lookup(row, "Enzyme (EC) ID")
    ensures g.uniprotAccessionId == Lookup(row, "UniProt accession")
    ensures g.ensemblGeneId == Lookup(row, "Ensembl gene ID")
  {
    var g := ApplyBindings(BindingTable, row, Unset);
    BindingTableBindsEachField(row);
    assert Get(g, Symbol) == Lookup(row, JsonProperty(Symbol));
    assert Get(g, Name) == Lookup(row, JsonProperty(Name));
    assert Get(g, PubMedId) == Lookup(row, JsonProperty(PubMedId));
    assert Get(g, EnzymeCode) == Lookup(row, JsonProperty(EnzymeCode));
    assert Get(g, UniprotAccession) == Lookup(row, JsonProperty(UniprotAccession));
    assert Get(g, EnsemblGeneId) == Lookup(row, JsonProperty(EnsemblGeneId));
    g
  }

  /** The field-by-field form of Bind's contract. */
  lemma BindGet(row: Row, f: Field)
    ensures Get(Bind(row), f) == Lookup(row, JsonProperty(f))
  {
  }

  /** A row without the header of field `f` leaves `f` unset. */
  lemma BindMissingHeader(row: Row, f: Field)
    requires forall i :: 0 <= i < |row| ==> row[i].0 != JsonProperty(f)
    ensures Get(Bind(row), f) == None
  {
    BindGet(row, f);
  }

  /** Binding a zipped line: a field takes the line's value in the first
      column named by its header, and stays unset when there is no such
      column or the line ends before it. */
  lemma BindZip(headers: seq<string>, fields: seq<string>, f: Field)
    ensures Get(Bind(Zip(headers, fields)), f) ==
              var i := FirstIndex(headers, JsonProperty(f));
              if i < |headers| && i < |fields| then Some(fields[i]) else None
  {
    BindGet(Zip(headers, fields), f);
    LookupZip(headers, fields, JsonProperty(f));
  }

  /** Rows that agree under the six bound headers bind to the same gene. */
  lemma BindDependsOnlyOnBoundHeaders(r1: Row, r2: Row)
    requires forall f :: Lookup(r1, JsonProperty(f)) == Lookup(r2, JsonProperty(f))
    ensures Bind(r1) == Bind(r2)
  {
    forall f ensures Get(Bind(r1), f) == Get(Bind(r2), f) {
      BindGet(r1, f);
      BindGet(r2, f);
    }
    GeneExtensionality(Bind(r1), Bind(r2));
  }

  /** An entry under a header no field is annotated with, added anywhere in
      the row (or, read backwards, removed from it), changes nothing. */
  lemma BindIgnoresUnknownHeader(row: Row, k: nat, header: string, value: string)
    requires k <= |row|
    requires forall f :: JsonProperty(f) != header
    ensures Bind(row[..k] + [(header, value)] + row[k..]) == Bind(row)
  {
    var wider := row[..k] + [(header, value)] + row[k..];
    forall f ensures Lookup(wider, JsonProperty(f)) == Lookup(row, JsonProperty(f)) {
      LookupInsert(row, k, (header, value), JsonProperty(f));
    }
    BindDependsOnlyOnBoundHeaders(wider, row);
  }

  /** The same for a whole column: inserting an unknown header into the header
      line and a value at the same place into a data line binds the same gene. */
  lemma BindIgnoresUnknownColumn(headers: seq<string>, fields: seq<string>, k: nat, header: string, value: string)
    requires k <= |headers| && k <= |fields|
    requires forall f :: JsonProperty(f) != header
    ensures Bind(Zip(headers[..k] + [header] + headers[k..], fields[..k] + [value] + fields[k..]))
            == Bind(Zip(headers, fields))
  {
    ZipInsert(headers, fields, k, header, value);
    BindIgnoresUnknownHeader(Zip(headers, fields), k, header, value);
  }
}
