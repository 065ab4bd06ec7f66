/**
 HGNCUtils: the loading entry points and the HGNCData view over one parsed
 table. The streams of the source are finite sequences here; an input stream
 is the text it delivers.
 */
module Hgnc {
  import opened Wrappers
  import opened Tabular
  import opened Binding

  /** The loaded dataset: one parsed table, seen as genes or as gene symbols. */
  datatype HGNCData = HGNCData(table: Table) {

    /** getGenes: every data row bound to a gene, in row order. */
    function Genes(): (genes: seq<Gene>)
      ensures |genes| == |table.rows|
      ensures forall i :: 0 <= i < |genes| ==> genes[i] == Bind(table.rows[i])
    {
      seq(|table.rows|, i requires 0 <= i < |table.rows| => Bind(table.rows[i]))
    }

    /** getGeneSymbols: the symbol of each gene of Genes, one for one. */
    function GeneSymbols(): (symbols: seq<Option<string>>)
      ensures |symbols| == |Genes()|
      ensures forall i :: 0 <= i < |symbols| ==> symbols[i] == Genes()[i].symbol
    {
      var genes := Genes();
      seq(|genes|, i requires 0 <= i < |genes| => genes[i].symbol)
    }
  }

  /** loadFrom(InputStream): the first line of the input is the header row,
      the later lines the data rows. */
  function LoadFrom(input: string): HGNCData
  {
    HGNCData(ReadTable(input))
  }

  /** One gene per line after the header line: a text of n lines (counting
      newlines, and an unterminated last line) gives n - 1 genes, and none
      when it has no lines at all. */
  lemma GenesCount(input: string)
    ensures |LoadFrom(input).Genes()| == if LineCount(input) == 0 then 0 else LineCount(input) - 1
  {
    LinesCount(input);
  }

  /** loadFrom(String): the string is handed on as the stream's text, so the
      first line of `data` names the columns and each later line binds to one
      gene, in order. */
  function LoadFromString(data: string): (r: HGNCData)
    ensures |r.Genes()| == if LineCount(data) == 0 then 0 else LineCount(data) - 1
    ensures forall i :: 0 <= i < |r.Genes()| ==>
              i + 1 < |Lines(data)| && r.Genes()[i] == Bind(Zip(Fields(Lines(data)[0]), Fields(Lines(data)[i + 1])))
  {
    GenesCount(data);
    GenesOfText(data);
    LoadFrom(data)
  }

  /** loadDefaultByREST: the text the remote service returned, loaded as a
      string: header line first, one gene per later line. */
  function LoadDefaultByRest(fetched: string): (r: HGNCData)
    ensures |r.Genes()| == if LineCount(fetched) == 0 then 0 else LineCount(fetched) - 1
    ensures forall i :: 0 <= i < |r.Genes()| ==>
              i + 1 < |Lines(fetched)| && r.Genes()[i] == Bind(Zip(Fields(Lines(fetched)[0]), Fields(Lines(fetched)[i + 1])))
  {
    LoadFromString(fetched)
  }

  /** Whatever the text: no lines give no genes; otherwise the first line is
      the header and never a gene, and gene i binds line i + 1 against it. */
  lemma GenesOfText(input: string)
    ensures var genes := LoadFrom(input).Genes();
            var lines := Lines(input);
            && (lines == [] ==> genes == [])
            && (lines != [] ==>
                  (|genes| == |lines| - 1
                   && forall i :: 0 <= i < |genes| ==> genes[i] == Bind(Zip(Fields(lines[0]), Fields(lines[i + 1])))))
  {
    GenesOfLineSeq(input, Lines(input));
  }

  /** GenesOfText, over the lines named by a parameter. */
  lemma GenesOfLineSeq(input: string, lines: seq<string>)
    requires Lines(input) == lines
    ensures var genes := LoadFrom(input).Genes();
            && (lines == [] ==> genes == [])
            && (lines != [] ==>
                  (|genes| == |lines| - 1
                   && forall i :: 0 <= i < |genes| ==> genes[i] == Bind(Zip(Fields(lines[0]), Fields(lines[i + 1])))))
  {
    var t := TableOf(lines);
    assert ReadTable(input) == t;
    if lines != [] {
      assert t.headers == Fields(lines[0]);
      assert |t.rows| == |lines| - 1;
      forall i | 0 <= i < |lines| - 1 ensures t.rows[i] == Zip(Fields(lines[0]), Fields(lines[i + 1])) { }
    }
  }

  /** Whatever the text, once its lines are known the genes are the data
      lines bound against the header line, one for one and in order. */
  lemma GenesOfLines(input: string, header: string, lines: seq<string>)
    requires Lines(input) == [header] + lines
    ensures var genes := LoadFrom(input).Genes();
            && |genes| == |lines|
            && forall i :: 0 <= i < |lines| ==> genes[i] == Bind(Zip(Fields(header), Fields(lines[i])))
  {
    var all := [header] + lines;
    var t := TableOf(all);
    assert ReadTable(input) == t;
    assert all[0] == header;
    assert t.headers == Fields(header);
    assert |t.rows| == |lines|;
    forall i | 0 <= i < |lines| ensures t.rows[i] == Zip(Fields(header), Fields(lines[i])) {
      assert all[i + 1] == lines[i];
    }
  }

  /** For a newline-terminated document, the i-th gene is the i-th data line
      bound against the header line; there is one gene per data line. */
  lemma GenesOfDocument(header: string, lines: seq<string>)
    requires '\n' !in header
    requires forall i :: 0 <= i < |lines| ==> '\n' !in lines[i]
    ensures var genes := LoadFrom(Unlines([header] + lines)).Genes();
            && |genes| == |lines|
            && forall i :: 0 <= i < |lines| ==> genes[i] == Bind(Zip(Fields(header), Fields(lines[i])))
  {
    var all := [header] + lines;
    assert forall i :: 0 <= i < |all| ==> '\n' !in all[i];
    LinesUnlines(all);
    GenesOfLines(Unlines(all), header, lines);
  }

  /** The same for a document whose last line is not followed by a newline. */
  lemma GenesOfUnterminatedDocument(header: string, lines: seq<string>)
    requires '\n' !in header
    requires forall i :: 0 <= i < |lines| ==> '\n' !in lines[i]
    requires ([header] + lines)[|lines|] != ""
    ensures var genes := LoadFrom(Join([header] + lines, '\n')).Genes();
            && |genes| == |lines|
            && forall i :: 0 <= i < |lines| ==> genes[i] == Bind(Zip(Fields(header), Fields(lines[i])))
  {
    var all := [header] + lines;
    assert forall i :: 0 <= i < |all| ==> '\n' !in all[i];
    LinesJoin(all);
    GenesOfLines(Join(all, '\n'), header, lines);
  }

  /** The header row never becomes a gene: empty input and a header line on its
      own, with or without a final newline, give no genes. */
  lemma HeaderOnlyGivesNoGenes(header: string)
    requires '\n' !in header
    ensures LoadFrom("").Genes() == []
    ensures LoadFrom(header).Genes() == []
    ensures LoadFrom(header + "\n").Genes() == []
  {
    assert [header] + [] == [header];
    assert ([header] + [""])[1..] == [""];
    assert Join([""], '\n') == "";
    assert Unlines([header]) == header + "\n";
    GenesOfDocument(header, []);
    if header != "" {
      assert Join([header], '\n') == header;
      GenesOfUnterminatedDocument(header, []);
    }
  }

  /** Each symbol is the data row's value under "Approved symbol". */
  lemma SymbolsReadSymbolColumn(input: string, i: nat)
    requires i < |LoadFrom(input).table.rows|
    ensures |LoadFrom(input).GeneSymbols()| == |LoadFrom(input).table.rows|
    ensures LoadFrom(input).GeneSymbols()[i] == Lookup(LoadFrom(input).table.rows[i], "Approved symbol")
  {
  }

  /** A line of three TAB-free cells splits into those cells. */
  lemma FieldsOfThree(a: string, b: string, c: string)
    requires '\t' !in a && '\t' !in b && '\t' !in c
    ensures Fields(a + "\t" + b + "\t" + c) == [a, b, c]
  {
    assert [a, b, c][1..] == [b, c];
    assert [b, c][1..] == [c];
    assert Join([b, c], '\t') == b + "\t" + c;
    assert Join([a, b, c], '\t') == a + "\t" + (b + "\t" + c);
    assert a + "\t" + (b + "\t" + c) == a + "\t" + b + "\t" + c;
    FieldsJoin([a, b, c]);
  }

  /** The text of a three-column document has two lines, its header line and
      its data line, and each line splits into its three cells. */
  lemma ThreeColumnLines(h1: string, h2: string, h3: string, v1: string, v2: string, v3: string)
    requires '\t' !in h1 && '\t' !in h2 && '\t' !in h3 && '\t' !in v1 && '\t' !in v2 && '\t' !in v3
    requires '\n' !in h1 && '\n' !in h2 && '\n' !in h3 && '\n' !in v1 && '\n' !in v2 && '\n' !in v3
    ensures var header := h1 + "\t" + h2 + "\t" + h3;
            var line := v1 + "\t" + v2 + "\t" + v3;
            && Lines(h1 + "\t" + h2 + "\t" + h3 + "\n" + v1 + "\t" + v2 + "\t" + v3) == [header] + [line]
            && Fields(header) == [h1, h2, h3] && Fields(line) == [v1, v2, v3]
  {
    var header := h1 + "\t" + h2 + "\t" + h3;
    var line := v1 + "\t" + v2 + "\t" + v3;
    FieldsOfThree(h1, h2, h3);
    FieldsOfThree(v1, v2, v3);
    assert '\n' !in header && '\n' !in line;
    assert line[|v1|] == '\t';
    var doc := [header] + [line];
    assert doc[1..] == [line];
    assert Join(doc, '\n') == header + "\n" + line;
    assert h1 + "\t" + h2 + "\t" + h3 + "\n" + v1 + "\t" + v2 + "\t" + v3 == header + "\n" + line;
    LinesJoin(doc);
  }

  lemma ZipThree(h1: string, h2: string, h3: string, v1: string, v2: string, v3: string)
    ensures Zip([h1, h2, h3], [v1, v2, v3]) == [(h1, v1), (h2, v2), (h3, v3)]
  {
  }

  /** A header line of three columns and one data line of three cells give
      one gene, bound from the row that pairs each header with its cell. */
  lemma ThreeColumnDocument(h1: string, h2: string, h3: string, v1: string, v2: string, v3: string)
    requires '\t' !in h1 && '\t' !in h2 && '\t' !in h3 && '\t' !in v1 && '\t' !in v2 && '\t' !in v3
    requires '\n' !in h1 && '\n' !in h2 && '\n' !in h3 && '\n' !in v1 && '\n' !in v2 && '\n' !in v3
    ensures LoadFrom(h1 + "\t" + h2 + "\t" + h3 + "\n" + v1 + "\t" + v2 + "\t" + v3).Genes()
            == [Bind([(h1, v1), (h2, v2), (h3, v3)])]
  {
    var text := h1 + "\t" + h2 + "\t" + h3 + "\n" + v1 + "\t" + v2 + "\t" + v3;
    var header := h1 + "\t" + h2 + "\t" + h3;
    var line := v1 + "\t" + v2 + "\t" + v3;
    ThreeColumnLines(h1, h2, h3, v1, v2, v3);
    GenesOfLines(text, header, [line]);
    ZipThree(h1, h2, h3, v1, v2, v3);
  }

  /** The worked example of the download format: under the headers
      "Approved symbol", "Approved name" and "PubMed ID", a data line such as
      A1BG, Alpha-1-B Glycoprotein, 12345 binds those three fields verbatim
      and leaves the other three unset. */
  lemma ThreeColumnExample(symbol: string, name: string, pubMedId: string)
    requires '\t' !in symbol && '\t' !in name && '\t' !in pubMedId
    requires '\n' !in symbol && '\n' !in name && '\n' !in pubMedId
    ensures LoadFrom("Approved symbol" + "\t" + "Approved name" + "\t" + "PubMed ID" + "\n"
                     + symbol + "\t" + name + "\t" + pubMedId).Genes()
            == [Gene(Some(symbol), Some(name), Some(pubMedId), None, None, None)]
  {
    ThreeColumnDocument("Approved symbol", "Approved name", "PubMed ID", symbol, name, pubMedId);
    BindThreeKnownColumns(symbol, name, pubMedId);
  }

  /** The row behind the worked example binds its three values. */
  lemma BindThreeKnownColumns(symbol: string, name: string, pubMedId: string)
    ensures Bind([("Approved symbol", symbol), ("Approved name", name), ("PubMed ID", pubMedId)])
            == Gene(Some(symbol), Some(name), Some(pubMedId), None, None, None)
  {
    var h1, h2, h3 := "Approved symbol", "Approved name", "PubMed ID";
    LookupThree(h1, h2, h3, symbol, name, pubMedId, "Approved symbol");
    LookupThree(h1, h2, h3, symbol, name, pubMedId, "Approved name");
    LookupThree(h1, h2, h3, symbol, name, pubMedId, "PubMed ID");
    LookupThree(h1, h2, h3, symbol, name, pubMedId, "Enzyme (EC) ID");
    LookupThree(h1, h2, h3, symbol, name, pubMedId, "UniProt accession");
    LookupThree(h1, h2, h3, symbol, name, pubMedId, "Ensembl gene ID");
  }

  /** Looking a header up in a row of three columns. */
  lemma LookupThree(h1: string, h2: string, h3: string, v1: string, v2: string, v3: string, key: string)
    ensures Lookup([(h1, v1), (h2, v2), (h3, v3)], key)
            == if key == h1 then Some(v1) else if key == h2 then Some(v2) else if key == h3 then Some(v3) else None
  {
    var row := [(h1, v1), (h2, v2), (h3, v3)];
    assert row[1..] == [(h2, v2), (h3, v3)];
    assert row[1..][1..] == [(h3, v3)];
    assert row[1..][1..][1..] == [];
    if key != h1 {
      assert Lookup(row, key) == Lookup(row[1..], key);
      if key != h2 {
        assert Lookup(row[1..], key) == Lookup(row[1..][1..], key);
        if key != h3 {
          assert Lookup(row[1..][1..], key) == Lookup(row[1..][1..][1..], key);
        }
      }
    }
  }
}
