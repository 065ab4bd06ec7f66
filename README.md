# HGNC gene table loader

A model of `HGNCUtils`, the loader for the gene table published by the HUGO
Gene Nomenclature Committee (HGNC). The loader reads a tab-delimited text.
Its first line names the columns. Every later line is one data row, and each
data row is bound to a `Gene` bean. The bean's six fields are annotated with
the column headers they come from:

| field | header |
|---|---|
| symbol | `Approved symbol` |
| name | `Approved name` |
| pubMedId | `PubMed ID` |
| enzymeCode | `Enzyme (EC) ID` |
| uniprotAccessionId | `UniProt accession` |
| ensemblGeneId | `Ensembl gene ID` |

Columns with any other header are ignored. A field whose header the row
lacks stays null. The loaded `HGNCData` offers the genes in row order, and
the gene symbols as the genes mapped to their symbol.

The project is pure Dafny: datatypes, functions and lemmas, in four modules.

- `Wrappers` holds `Option`, which stands for a Java field that may be null.
- `Tabular` reads the text. It splits the text into lines at `'\n'` and each
  line into fields at TAB. It pairs the header line's names with each data
  line's fields, and looks a column up by its exact header name.
- `Binding` holds the `Gene` record, the header annotation of each field
  (`JsonProperty`), and `Bind`, which applies the annotation table to one row.
- `Hgnc` holds `HGNCData` with `Genes` and `GeneSymbols`, and the entry
  points `LoadFrom`, `LoadFromString` and `LoadDefaultByRest`.

Line reading follows a plain split. A newline ends a line, so a final newline
does not add an empty row. An empty text has no header line and gives no
genes. A data line shorter than the header line leaves its trailing columns
missing. Fields beyond the last header are dropped. When two columns share a
header, the first one is the one bound.

## Model

| member | source | states |
|---|---|---|
| Binding.Bind | src/main/java/org/omnaest/genome/hgnc/HGNCUtils.java:110-129 | each of the six fields is the row's value under exactly its annotated header, and None when the row has no such column; every row binds |
| Binding.BindingTableBindsEachField | src/main/java/org/omnaest/genome/hgnc/HGNCUtils.java:110-129 | `ApplyBindings` over `BindingTable`, from an unset bean: applying the annotation table in order gives every field the lookup of its own header, unaffected by the other entries |
| Binding.ApplyBindingsAt | src/main/java/org/omnaest/genome/hgnc/HGNCUtils.java:110-129 | when no field is named twice, a field's entry alone decides it: the row's value under that header, or the field's previous value |
| Binding.ApplyBindingsUntouched | src/main/java/org/omnaest/genome/hgnc/HGNCUtils.java:110-129 | entries for other fields never change a field |
| Binding.BindEntry | src/main/java/org/omnaest/genome/hgnc/HGNCUtils.java:113-114 | one annotated field takes the row's value under its header when present and is otherwise unchanged; all other fields are unchanged |
| Binding.Set | src/main/java/org/omnaest/genome/hgnc/HGNCUtils.java:113-129 | storing a value into one field makes that field hold it and leaves the other five as they were |
| Binding.GeneExtensionality | src/main/java/org/omnaest/genome/hgnc/HGNCUtils.java:111-129 | two genes that agree on all six fields are equal |
| Binding.BindGet | src/main/java/org/omnaest/genome/hgnc/HGNCUtils.java:131-165 | each getter returns exactly the stored value, which is the row's value under the field's header |
| Binding.BindMissingHeader | src/main/java/org/omnaest/genome/hgnc/HGNCUtils.java:110-129 | a row without a field's header leaves that field unset |
| Binding.BindZip | src/main/java/org/omnaest/genome/hgnc/HGNCUtils.java:110-129 | a field of a bound data line is the line's value in the first column named by its header, and None when there is none or the line ends first |
| Binding.BindDependsOnlyOnBoundHeaders | src/main/java/org/omnaest/genome/hgnc/HGNCUtils.java:110 | rows that agree under the six annotated headers bind to the same gene |
| Binding.BindIgnoresUnknownHeader | src/main/java/org/omnaest/genome/hgnc/HGNCUtils.java:110 | adding or removing an entry whose header no field carries, at any position, does not change the gene |
| Binding.BindIgnoresUnknownColumn | src/main/java/org/omnaest/genome/hgnc/HGNCUtils.java:110 | inserting an unknown column into the header line and a value at the same place into a data line binds the same gene |
| Hgnc.HGNCData.Genes | src/main/java/org/omnaest/genome/hgnc/HGNCUtils.java:76-80 | exactly one gene per data row, in row order, each the binding of its row |
| Hgnc.HGNCData.GeneSymbols | src/main/java/org/omnaest/genome/hgnc/HGNCUtils.java:83-87 | the symbols are the genes' symbols, element for element and of the same length |
| Hgnc.SymbolsReadSymbolColumn | src/main/java/org/omnaest/genome/hgnc/HGNCUtils.java:83-87 | the i-th symbol is the i-th data row's value under `Approved symbol` |
| Hgnc.GenesCount | src/main/java/org/omnaest/genome/hgnc/HGNCUtils.java:65-80 | a text of n lines gives n - 1 genes, and none when it has no lines |
| Hgnc.GenesOfLines | src/main/java/org/omnaest/genome/hgnc/HGNCUtils.java:67-80 | once a text's lines are a header line and data lines, the genes are the data lines zipped with the header's names and bound, one per line and in order |
| Hgnc.GenesOfDocument | src/main/java/org/omnaest/genome/hgnc/HGNCUtils.java:67-80 | for a newline-terminated document the i-th gene binds the i-th data line against the header line |
| Hgnc.GenesOfUnterminatedDocument | src/main/java/org/omnaest/genome/hgnc/HGNCUtils.java:67-80 | the same when the last line has no final newline |
| Hgnc.HeaderOnlyGivesNoGenes | src/main/java/org/omnaest/genome/hgnc/HGNCUtils.java:70 | the header line never becomes a gene: empty input and a header line alone, with or without a final newline, give no genes |
| Hgnc.ThreeColumnDocument | src/main/java/org/omnaest/genome/hgnc/HGNCUtils.java:67-80 | a three-column header line and one data line give one gene, bound from the row that pairs each header with its cell |
| Hgnc.ThreeColumnExample | src/main/java/org/omnaest/genome/hgnc/HGNCUtils.java:65-129 | a document with the columns `Approved symbol`, `Approved name` and `PubMed ID` gives one gene that holds those three cells verbatim, empty cells included, and leaves the other three fields unset |
| Hgnc.BindThreeKnownColumns | src/main/java/org/omnaest/genome/hgnc/HGNCUtils.java:113-129 | the row of that document binds symbol, name and PubMed ID and nothing else |
| Hgnc.LoadFromString | src/main/java/org/omnaest/genome/hgnc/HGNCUtils.java:53-63 | loading a string of n lines gives n - 1 genes (none for no lines), and gene i binds line i + 1 against the first line's column names |
| Hgnc.LoadDefaultByRest | src/main/java/org/omnaest/genome/hgnc/HGNCUtils.java:105-108 | the same for the text the remote service returned: n - 1 genes for n lines, gene i bound from line i + 1 under the first line's names |
| Hgnc.GenesOfText | src/main/java/org/omnaest/genome/hgnc/HGNCUtils.java:65-80 | `LoadFrom` (loadFrom(InputStream)): a text without lines gives no genes; otherwise the first line is the header and never a gene, and gene i binds line i + 1 against it |
| Hgnc.GenesOfLineSeq | src/main/java/org/omnaest/genome/hgnc/HGNCUtils.java:70 | `Tabular.ReadTable` and `Tabular.TableOf` (the first record as header), seen through the genes: for any list of lines, none gives no genes, and otherwise gene i is line i + 1 zipped with the first line's fields and bound, one gene fewer than lines |
| Binding.JsonPropertyDistinct | src/main/java/org/omnaest/genome/hgnc/HGNCUtils.java:113-129 | `JsonProperty` and `BindingTable`: the six annotated header names are pairwise distinct, so no header feeds two fields |
| Tabular.Split | src/main/java/org/omnaest/genome/hgnc/HGNCUtils.java:67-71 | the pieces hold no separator and join back into the input |
| Tabular.Lines | src/main/java/org/omnaest/genome/hgnc/HGNCUtils.java:67-71 | no line holds a newline |
| Tabular.Fields | src/main/java/org/omnaest/genome/hgnc/HGNCUtils.java:70 | a line has at least one field, no field holds a TAB, and the fields join back into the line |
| Tabular.Zip | src/main/java/org/omnaest/genome/hgnc/HGNCUtils.java:70 | the row pairs the i-th header with the i-th field, as long as the shorter of the two |
| Tabular.Lookup | src/main/java/org/omnaest/genome/hgnc/HGNCUtils.java:113-129 | None exactly when no column has the header; otherwise the value of the first column with that exact header |
| Tabular.FirstIndex | src/main/java/org/omnaest/genome/hgnc/HGNCUtils.java:113-129 | the position of the first occurrence, or the length when there is none |
| Tabular.LinesUnlinesText | src/main/java/org/omnaest/genome/hgnc/HGNCUtils.java:67-71 | reading lines loses nothing but a final newline: writing them back gives the text, newline-terminated |
| Tabular.SplitJoin | src/main/java/org/omnaest/genome/hgnc/HGNCUtils.java:67-71 | splitting undoes joining when no piece holds the separator |
| Tabular.LinesUnlines | src/main/java/org/omnaest/genome/hgnc/HGNCUtils.java:67-71 | newline-terminated lines read back as themselves |
| Tabular.LinesJoin | src/main/java/org/omnaest/genome/hgnc/HGNCUtils.java:67-71 | newline-joined lines read back as themselves when the last is not empty |
| Tabular.FieldsJoin | src/main/java/org/omnaest/genome/hgnc/HGNCUtils.java:70 | TAB-joined TAB-free fields read back as themselves |
| Tabular.LookupZip | src/main/java/org/omnaest/genome/hgnc/HGNCUtils.java:110-129 | a lookup in a zipped row finds the field under the first header of that name, if the line reaches it |
| Tabular.LookupInsert | src/main/java/org/omnaest/genome/hgnc/HGNCUtils.java:110 | an entry under another header does not change what a lookup finds |
| Tabular.ZipInsert | src/main/java/org/omnaest/genome/hgnc/HGNCUtils.java:70 | inserting a column into the header line and a line inserts one entry into the row at that place |
| Tabular.SplitCount | src/main/java/org/omnaest/genome/hgnc/HGNCUtils.java:67-71 | splitting gives one piece more than there are separators |
| Tabular.LinesCount | src/main/java/org/omnaest/genome/hgnc/HGNCUtils.java:67-71 | the number of lines is one per newline, plus one for an unterminated last line |

## Left out

- `loadFrom(File)` (HGNCUtils.java:45-51) reads a file and manages the stream handle. That is filesystem I/O, so it is not modelled.
- `loadDefault` (HGNCUtils.java:91-103) reads a classpath resource and wraps its `IOException`. That is resource I/O, so it is not modelled.
- `HGNCBioMartRESTUtils` is an HTTP request to the BioMart service. The text it returns is the parameter `fetched` of `LoadDefaultByRest`.
- The input stream is modelled as the text it delivers. The UTF-8 encoding in `loadFrom(String)` and the decoding on read are not modelled.
- The `IOException` that `loadFrom(InputStream)` declares, a read failure of a real stream raised when the lazy table is consumed, is not modelled because the stream is modelled as the text it delivers.
- The `IOException` that `loadFrom(String)` wraps in an `IllegalArgumentException` cannot arise from in-memory text in the model, so there is no error path.
- The Apache Commons CSV TDF format is modelled as a plain split at `'\n'` and TAB. Its quoting, `'\r'` line ends, trimming of surrounding spaces and skipping of empty lines are not modelled, and the model claims no fidelity to that library.
- Tabular.Lookup: when two columns share a header, the model binds the first one. The library's choice for duplicate headers is not visible in the code.
- Tabular.Zip: a short data line leaves its trailing columns missing, and extra fields are dropped. The library may instead reject such lines.
- Java `Stream` laziness and single use are not modelled. `Genes` and `GeneSymbols` are finite sequences that can be read any number of times.
- Jackson's reflective bean population is modelled by the explicit annotation table `Binding.BindingTable`.
- `GeneImpl.toString` (HGNCUtils.java:167-172) only formats text for display, so it is not modelled.
